/** String operations the parsers are made of. */
module Texts {

  /** What `\s` matches and `trim` removes. */
  predicate IsSpace(c: char) {
    || c == ' ' || c == '\t' || c == '\n' || c == '\r' || c == '\U{000B}' || c == '\U{000C}'
    || c == '\U{00A0}' || c == '\U{1680}' || '\U{2000}' <= c <= '\U{200A}' || c == '\U{2028}' || c == '\U{2029}'
    || c == '\U{202F}' || c == '\U{205F}' || c == '\U{3000}' || c == '\U{FEFF}'
  }

  /** What `\w` matches. */
  predicate IsWord(c: char) {
    'a' <= c <= 'z' || 'A' <= c <= 'Z' || '0' <= c <= '9' || c == '_'
  }

  /** The word characters of ECMAScript, by code point. */
  lemma WordsAre(c: char)
    ensures var n := c as int; IsWord(c) <==> 48 <= n <= 57 || 65 <= n <= 90 || n == 95 || 97 <= n <= 122
  {}

  /** The white space and line ends of ECMAScript, by code point. */
  lemma SpacesAre(c: char)
    ensures var n := c as int;
      IsSpace(c) <==>
        || n == 9 || n == 10 || n == 11 || n == 12 || n == 13 || n == 32 || n == 160 || n == 5760
        || 8192 <= n <= 8202 || n == 8232 || n == 8233 || n == 8239 || n == 8287 || n == 12288 || n == 65279
  {}

  /** `p` stands in `s` at position `at`. */
  predicate At(s: string, at: nat, p: string) {
    at + |p| <= |s| && s[at..at + |p|] == p
  }

  /** The first position from `from` on at which `p` stands, or -1. */
  function IndexOf(s: string, p: string, from: nat): (r: int)
    ensures r == -1 || (from <= r && At(s, r, p))
    decreases |s| - from
  {
    if from + |p| > |s| then -1
    else if s[from..from + |p|] == p then from
    else IndexOf(s, p, from + 1)
  }

  /** No place is missed. */
  lemma {:induction false} NothingEarlier(s: string, p: string, from: nat, k: nat)
    requires from <= k && At(s, k, p)
    ensures from <= IndexOf(s, p, from) <= k
    decreases k - from
  {
    if from < k {
      NothingEarlier(s, p, from + 1, k);
    }
  }

  /** `s.split(c)`: what stands in front of, between and behind the places of `c`. */
  function Pieces(s: string, c: char): (pieces: seq<string>)
    ensures pieces != [] && forall i | 0 <= i < |pieces| :: c !in pieces[i]
  {
    if s == "" then [""]
    else
      var rest := Pieces(s[1..], c);
      if s[0] == c then [""] + rest else [[s[0]] + rest[0]] + rest[1..]
  }

  /** A text that holds no `c` is one piece; with `c` and more behind it, it is the first one. */
  lemma {:induction false} FirstPiece(k: string, c: char, rest: string)
    requires c !in k
    ensures Pieces(k, c) == [k]
    ensures Pieces(k + [c] + rest, c) == [k] + Pieces(rest, c)
  {
    var s := k + [c] + rest;
    if k == "" {
      assert s[0] == c && s[1..] == rest;
    } else {
      assert s[0] == k[0] && s[1..] == k[1..] + [c] + rest;
      FirstPiece(k[1..], c, rest);
      assert ([k[1..]] + Pieces(rest, c))[1..] == Pieces(rest, c) && [k[0]] + k[1..] == k;
    }
  }

  /** The first position from `at` on that holds no space. */
  function SkipSpace(s: string, at: nat): (r: nat)
    requires at <= |s|
    ensures at <= r <= |s|
    ensures forall k | at <= k < r :: IsSpace(s[k])
    ensures r < |s| ==> !IsSpace(s[r])
    decreases |s| - at
  {
    if at < |s| && IsSpace(s[at]) then SkipSpace(s, at + 1) else at
  }

  /** The first position from `at` on that holds no word character. */
  function WordEnd(s: string, at: nat): (r: nat)
    requires at <= |s|
    ensures at <= r <= |s|
    ensures forall k | at <= k < r :: IsWord(s[k])
    ensures r < |s| ==> !IsWord(s[r])
    decreases |s| - at
  {
    if at < |s| && IsWord(s[at]) then WordEnd(s, at + 1) else at
  }

  function TrimEnd(s: string): (r: string)
    ensures r <= s
    ensures forall k | |r| <= k < |s| :: IsSpace(s[k])
    ensures r != "" ==> !IsSpace(r[|r| - 1])
  {
    if s != "" && IsSpace(s[|s| - 1]) then TrimEnd(s[..|s| - 1]) else s
  }

  function Trim(s: string): string {
    TrimEnd(s[SkipSpace(s, 0)..])
  }

  /** Trimming cuts off the white space at both ends and nothing else. */
  lemma TrimMeans(s: string) returns (from: nat, to: nat)
    ensures from <= to <= |s| && Trim(s) == s[from..to]
    ensures forall k | 0 <= k < |s| && !(from <= k < to) :: IsSpace(s[k])
    ensures from < to ==> !IsSpace(s[from]) && !IsSpace(s[to - 1])
  {
    hide IsSpace, SkipSpace, TrimEnd;
    from := SkipSpace(s, 0);
    var t := s[from..];
    to := from + |TrimEnd(t)|;
    assert t[..to - from] == s[from..to];
    forall k | 0 <= k < |s| && !(from <= k < to)
      ensures IsSpace(s[k])
    {
      if k >= from {
        assert s[k] == t[k - from];
      }
    }
    if from < to {
      assert t[to - 1 - from] == s[to - 1] && TrimEnd(t)[to - 1 - from] == t[to - 1 - from];
    }
  }

  /** Trimming keeps every character that is no space. */
  lemma TrimKeeps(s: string, c: char)
    requires !IsSpace(c)
    ensures c in Trim(s) <==> c in s
  {
    var k := SkipSpace(s, 0);
    var t := s[k..];
    if c in s {
      var i :| 0 <= i < |s| && s[i] == c;
      assert k <= i && t[i - k] == c;
      assert i - k < |TrimEnd(t)|;
      assert TrimEnd(t)[i - k] == c;
    }
  }

  lemma TrimLeavesAlone(s: string)
    requires s != "" ==> !IsSpace(s[0]) && !IsSpace(s[|s| - 1])
    ensures Trim(s) == s
  {}

  /** A word ends where the first other character stands. */
  lemma {:induction false} WordEndsAt(s: string, at: nat, end: nat)
    requires at <= end <= |s|
    requires forall k | at <= k < end :: IsWord(s[k])
    requires end == |s| || !IsWord(s[end])
    ensures WordEnd(s, at) == end
  {}

  lemma SpaceEndsAt(s: string, at: nat, end: nat)
    requires at <= end <= |s|
    requires forall k | at <= k < end :: IsSpace(s[k])
    requires end == |s| || !IsSpace(s[end])
    ensures SkipSpace(s, at) == end
  {}

  /** The first place of a pattern, given that it stands there and nowhere before. */
  lemma {:induction false} FirstIndex(s: string, p: string, from: nat, at: nat)
    requires from <= at && At(s, at, p)
    requires forall k | from <= k < at :: !At(s, k, p)
    ensures IndexOf(s, p, from) == at
    decreases at - from
  {
    if from < at {
      assert !At(s, from, p);
      FirstIndex(s, p, from + 1, at);
    }
  }

  /** Where a pattern does not stand, the search may as well start one later. */
  lemma IndexFromNext(s: string, p: string, from: nat)
    requires !At(s, from, p)
    ensures IndexOf(s, p, from) == IndexOf(s, p, from + 1)
  {}

  /** Splitting what stands somewhere. */
  lemma AtConcat(s: string, at: nat, p: string, q: string)
    requires At(s, at, p + q)
    ensures At(s, at, p) && At(s, at + |p|, q)
  {
    assert s[at..at + |p|] == (p + q)[..|p|] == p;
    assert s[at + |p|..at + |p| + |q|] == (p + q)[|p|..] == q;
  }

  lemma CharsIfAt(s: string, at: nat, p: string)
    ensures At(s, at, p) ==> forall k | 0 <= k < |p| :: s[at + k] == p[k]
  {
    if At(s, at, p) {
      AtChars(s, at, p);
    }
  }

  lemma AtChars(s: string, at: nat, p: string)
    requires At(s, at, p)
    ensures forall k | 0 <= k < |p| :: s[at + k] == p[k]
  {
    forall k | 0 <= k < |p|
      ensures s[at + k] == p[k]
    {
      assert s[at..at + |p|][k] == p[k];
    }
  }

  /** A `>` in front makes the trimmed text longer, also when only white space follows. */
  lemma TrimIsLonger(after: string, text: string)
    ensures |Trim(after + ">" + text)| > |Trim(text)|
  {
    hide IsSpace;
    var inner := after + ">" + text;
    assert inner[|after|] == '>' && !IsSpace('>') by { BracketIsNoSpace(); }
    var k, j := SkipSpace(inner, 0), SkipSpace(text, 0);
    var long, short := TrimEnd(inner[k..]), TrimEnd(text[j..]);
    var at := if short == "" then |after| - k else |after| + 1 + j + |short| - 1 - k;
    assert inner[k..][at] == if short == "" then '>' else short[|short| - 1];
    assert !IsSpace(inner[k..][at]);
    assert at < |long|;
  }

  lemma BracketIsNoSpace()
    ensures !IsSpace('>')
  {}
}
