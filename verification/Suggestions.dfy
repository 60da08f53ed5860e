/** Typo correction by edit distance: packages/core/src/cli/suggestions.ts. */
module Suggestions {
  import opened Sorting

  datatype Edit = Insertion(at: nat, c: char) | Deletion(at: nat) | Substitution(at: nat, c: char)

  predicate Applicable(e: Edit, s: string) {
    if e.Insertion? then e.at <= |s| else e.at < |s|
  }

  function Apply(e: Edit, s: string): string
    requires Applicable(e, s)
  {
    match e
    case Insertion(i, c) => s[..i] + [c] + s[i..]
    case Deletion(i) => s[..i] + s[i + 1..]
    case Substitution(i, c) => s[..i] + [c] + s[i + 1..]
  }

  /** The edits, made one after the other, turn `s` into `t`. */
  ghost predicate Turns(script: seq<Edit>, s: string, t: string) {
    if script == [] then s == t
    else Applicable(script[0], s) && Turns(script[1..], Apply(script[0], s), t)
  }

  function Min(x: nat, y: nat): nat {
    if x <= y then x else y
  }

  /** What the table holds for two prefixes: matching last characters only ever take the diagonal. */
  function Distance(a: string, b: string): nat
    decreases |a| + |b|
  {
    if a == "" then |b|
    else if b == "" then |a|
    else
      var a', b' := a[..|a| - 1], b[..|b| - 1];
      if a[|a| - 1] == b[|b| - 1] then Distance(a', b')
      else 1 + Min(Distance(a', b'), Min(Distance(a', b), Distance(a, b')))
  }

  /** The value of the cell in row `i` and column `j`. */
  function Cell(a: string, b: string, i: nat, j: nat): nat
    requires i <= |b| && j <= |a|
  {
    Distance(a[..j], b[..i])
  }

  lemma CellRule(a: string, b: string, i: nat, j: nat)
    requires 0 < i <= |b| && 0 < j <= |a|
    ensures Cell(a, b, i, j) ==
      if b[i - 1] == a[j - 1] then Cell(a, b, i - 1, j - 1)
      else Min(Cell(a, b, i - 1, j - 1) + 1, Min(Cell(a, b, i, j - 1) + 1, Cell(a, b, i - 1, j) + 1))
  {
    assert a[..j][..j - 1] == a[..j - 1] && b[..i][..i - 1] == b[..i - 1];
  }

  lemma BorderCells(a: string, b: string)
    ensures forall i | 0 <= i <= |b| :: Cell(a, b, i, 0) == i
    ensures forall j | 0 <= j <= |a| :: Cell(a, b, 0, j) == j
    ensures Cell(a, b, |b|, |a|) == Distance(a, b)
  {
    assert a[..|a|] == a && b[..|b|] == b;
  }

  /** Fills the table row by row. */
  method LevenshteinDistance(a: string, b: string) returns (d: nat)
    ensures d == Distance(a, b)
  {
    hide Cell;
    var matrix := new nat[|b| + 1, |a| + 1];
    for i := 0 to |b| + 1
      invariant forall k | 0 <= k < i :: matrix[k, 0] == k
    {
      matrix[i, 0] := i;
    }
    for j := 0 to |a| + 1
      invariant forall k | 0 <= k <= |b| :: matrix[k, 0] == k
      invariant forall k | 0 <= k < j :: matrix[0, k] == k
    {
      matrix[0, j] := j;
    }
    BorderCells(a, b);
    for i := 1 to |b| + 1
      invariant forall k | 0 <= k <= |b| :: matrix[k, 0] == k
      invariant forall k, l | 0 <= k < i && 0 <= l <= |a| :: matrix[k, l] == Cell(a, b, k, l)
    {
      for j := 1 to |a| + 1
        invariant forall k | 0 <= k <= |b| :: matrix[k, 0] == k
        invariant forall k, l | 0 <= k < i && 0 <= l <= |a| :: matrix[k, l] == Cell(a, b, k, l)
        invariant forall l | 0 <= l < j :: matrix[i, l] == Cell(a, b, i, l)
      {
        CellRule(a, b, i, j);
        if b[i - 1] == a[j - 1] {
          matrix[i, j] := matrix[i - 1, j - 1];
        } else {
          matrix[i, j] := Min(matrix[i - 1, j - 1] + 1, Min(matrix[i, j - 1] + 1, matrix[i - 1, j] + 1));
        }
      }
    }
    d := matrix[|b|, |a|];
  }

  lemma {:induction false} DistanceSymmetric(a: string, b: string)
    ensures Distance(a, b) == Distance(b, a)
    decreases |a| + |b|
  {
    if a != "" && b != "" {
      var a', b' := a[..|a| - 1], b[..|b| - 1];
      DistanceSymmetric(a', b');
      DistanceSymmetric(a', b);
      DistanceSymmetric(a, b');
    }
  }

  /** One more character changes a distance by at most one: neighbouring cells of the table. */
  lemma {:induction false} Neighbours(a: string, b: string, x: char)
    ensures Distance(a, b) - 1 <= Distance(a + [x], b) <= Distance(a, b) + 1
    decreases |a| + |b|
  {
    assert (a + [x])[..|a|] == a;
    if b != "" {
      var b' := b[..|b| - 1];
      var y := b[|b| - 1];
      assert b == b' + [y];
      Neighbours(b', a, y);
      DistanceSymmetric(a, b);
      DistanceSymmetric(a, b');
      Neighbours(a, b', x);
    }
  }

  /** So taking only the diagonal on a match loses nothing against the textbook recurrence. */
  lemma TextbookRecurrence(a: string, b: string, x: char, y: char)
    ensures Distance(a + [x], b + [y]) ==
      Min(Distance(a, b) + (if x == y then 0 else 1), Min(Distance(a, b + [y]) + 1, Distance(a + [x], b) + 1))
  {
    assert (a + [x])[..|a|] == a && (b + [y])[..|b|] == b;
    Neighbours(b, a, y);
    DistanceSymmetric(a, b);
    DistanceSymmetric(a, b + [y]);
    Neighbours(a, b, x);
  }

  lemma {:induction false} Identity(a: string, b: string)
    ensures Distance(a, b) == 0 <==> a == b
    decreases |a| + |b|
  {
    if a != "" && b != "" {
      var a', b' := a[..|a| - 1], b[..|b| - 1];
      assert a == a' + [a[|a| - 1]] && b == b' + [b[|b| - 1]];
      Identity(a', b');
    }
  }

  lemma EmptyDistance(s: string)
    ensures Distance("", s) == |s| == Distance(s, "")
  {}

  lemma {:induction false} TriangleInequality(a: string, b: string, c: string)
    ensures Distance(a, c) <= Distance(a, b) + Distance(b, c)
    decreases |a| + |b| + |c|
  {
    hide Distance;
    EmptyDistance(a);
    EmptyDistance(b);
    EmptyDistance(c);
    if a == "" {
      LengthBounds(b, c);
    } else if c == "" {
      LengthBounds(a, b);
    } else if b == "" {
      LengthBounds(a, c);
    } else {
      var a', x := a[..|a| - 1], a[|a| - 1];
      var b', y := b[..|b| - 1], b[|b| - 1];
      var c', z := c[..|c| - 1], c[|c| - 1];
      assert a == a' + [x] && b == b' + [y] && c == c' + [z];
      TextbookRecurrence(a', b', x, y);
      TextbookRecurrence(b', c', y, z);
      TextbookRecurrence(a', c', x, z);
      TriangleInequality(a', b', c');
      TriangleInequality(a', b, c);
      TriangleInequality(a, b, c');
      TriangleInequality(a, b', c);
      TriangleInequality(a', b', c);
      TriangleInequality(a, b', c');
    }
  }

  lemma {:induction false} LengthBounds(a: string, b: string)
    ensures |a| - |b| <= Distance(a, b) && |b| - |a| <= Distance(a, b)
    ensures Distance(a, b) <= if |a| <= |b| then |b| else |a|
    decreases |a| + |b|
  {
    if a != "" && b != "" {
      var a', b' := a[..|a| - 1], b[..|b| - 1];
      LengthBounds(a', b');
      LengthBounds(a', b);
      LengthBounds(a, b');
    }
  }

  /** A common ending contributes nothing. */
  lemma {:induction false} CommonEnding(a: string, b: string, e: string)
    ensures Distance(a + e, b + e) == Distance(a, b)
  {
    if e == "" {
      assert a + e == a && b + e == b;
    } else {
      var e', x := e[..|e| - 1], e[|e| - 1];
      assert (a + e)[..|a + e| - 1] == a + e' && (b + e)[..|b + e| - 1] == b + e';
      CommonEnding(a, b, e');
    }
  }

  lemma OneEditIsNear(e: Edit, s: string)
    requires Applicable(e, s)
    ensures Distance(s, Apply(e, s)) <= 1
  {
    var start, end := s[..e.at], if e.Insertion? then s[e.at..] else s[e.at + 1..];
    Identity(start, start);
    match e {
      case Insertion(i, c) =>
        assert s == start + end;
        CommonEnding(start, start + [c], end);
        Neighbours(start, start, c);
        DistanceSymmetric(start, start + [c]);
      case Deletion(i) =>
        assert s == start + [s[i]] + end;
        CommonEnding(start + [s[i]], start, end);
        Neighbours(start, start, s[i]);
      case Substitution(i, c) =>
        assert s == start + [s[i]] + end;
        CommonEnding(start + [s[i]], start + [c], end);
        TextbookRecurrence(start, start, s[i], c);
    }
  }

  lemma {:induction false} NoScriptIsShorter(script: seq<Edit>, a: string, b: string)
    requires Turns(script, a, b)
    ensures Distance(a, b) <= |script|
  {
    if script == [] {
      Identity(a, b);
    } else {
      var next := Apply(script[0], a);
      OneEditIsNear(script[0], a);
      NoScriptIsShorter(script[1..], next, b);
      TriangleInequality(a, next, b);
    }
  }

  /** Appending one more edit to a script. */
  lemma {:induction false} OneMoreEdit(script: seq<Edit>, a: string, b: string, e: Edit)
    requires Turns(script, a, b) && Applicable(e, b)
    ensures Turns(script + [e], a, Apply(e, b))
  {
    if script == [] {
      assert (script + [e])[1..] == [];
    } else {
      OneMoreEdit(script[1..], Apply(script[0], a), b, e);
      assert (script + [e])[1..] == script[1..] + [e];
    }
  }

  /** A script does not mind a character behind the text it works on. */
  lemma {:induction false} ScriptBeforeSuffix(script: seq<Edit>, a: string, b: string, x: char)
    requires Turns(script, a, b)
    ensures Turns(script, a + [x], b + [x])
  {
    if script != [] {
      hide Apply, Applicable;
      EditBeforeSuffix(script[0], a, x);
      ScriptBeforeSuffix(script[1..], Apply(script[0], a), b, x);
    }
  }

  lemma EditBeforeSuffix(e: Edit, a: string, x: char)
    requires Applicable(e, a)
    ensures Applicable(e, a + [x]) && Apply(e, a + [x]) == Apply(e, a) + [x]
  {}

  lemma ThenDelete(script: seq<Edit>, a: string, b: string, x: char)
    requires Turns(script, a, b)
    ensures Turns(script + [Deletion(|b|)], a + [x], b)
  {
    ScriptBeforeSuffix(script, a, b, x);
    OneMoreEdit(script, a + [x], b + [x], Deletion(|b|));
    assert Apply(Deletion(|b|), b + [x]) == b;
  }

  lemma ThenInsert(script: seq<Edit>, a: string, b: string, y: char)
    requires Turns(script, a, b)
    ensures Turns(script + [Insertion(|b|, y)], a, b + [y])
  {
    OneMoreEdit(script, a, b, Insertion(|b|, y));
    assert Apply(Insertion(|b|, y), b) == b + [y];
  }

  lemma ThenSubstitute(script: seq<Edit>, a: string, b: string, x: char, y: char)
    requires Turns(script, a, b)
    ensures Turns(script + [Substitution(|b|, y)], a + [x], b + [y])
  {
    ScriptBeforeSuffix(script, a, b, x);
    OneMoreEdit(script, a + [x], b + [x], Substitution(|b|, y));
    assert Apply(Substitution(|b|, y), b + [x]) == b + [y];
  }

  lemma {:induction false} ShortestScript(a: string, b: string) returns (script: seq<Edit>)
    ensures Turns(script, a, b) && |script| == Distance(a, b)
    decreases |a| + |b|
  {
    if a == "" && b == "" {
      return [];
    }
    hide Turns, Apply, Distance;
    EmptyDistance(a);
    EmptyDistance(b);
    var a', x := if a == "" then "" else a[..|a| - 1], if a == "" then ' ' else a[|a| - 1];
    var b', y := if b == "" then "" else b[..|b| - 1], if b == "" then ' ' else b[|b| - 1];
    assert a != "" ==> a == a' + [x];
    assert b != "" ==> b == b' + [y];
    EmptyDistance(a');
    EmptyDistance(b');
    TextbookRecurrence(a', b', x, y);
    if b == "" || (a != "" && Distance(a, b) == Distance(a', b) + 1) {
      script := ShortestScript(a', b);
      ThenDelete(script, a', b, x);
      script := script + [Deletion(|b|)];
    } else if a == "" || Distance(a, b) == Distance(a, b') + 1 {
      script := ShortestScript(a, b');
      ThenInsert(script, a, b', y);
      script := script + [Insertion(|b'|, y)];
    } else {
      script := ShortestScript(a', b');
      if x == y {
        ScriptBeforeSuffix(script, a', b', x);
      } else {
        ThenSubstitute(script, a', b', x, y);
        script := script + [Substitution(|b'|, y)];
      }
    }
  }

  /** The distance is the least number of single-character edits that turn one text into the other. */
  lemma DistanceIsLeastEdits(a: string, b: string)
    ensures exists script :: Turns(script, a, b) && |script| == Distance(a, b)
    ensures forall script | Turns(script, a, b) :: Distance(a, b) <= |script|
  {
    var shortest := ShortestScript(a, b);
    forall script | Turns(script, a, b)
      ensures Distance(a, b) <= |script|
    {
      NoScriptIsShorter(script, a, b);
    }
  }

  /** Real arithmetic in place of doubles; `lower` is the case mapping. */
  function Similarity(lower: string -> string, a: string, b: string): real {
    var maxLength := if |a| <= |b| then |b| else |a|;
    if maxLength == 0 then 1.0
    else 1.0 - Distance(lower(a), lower(b)) as real / maxLength as real
  }

  /** A score is at most 1, 1 means equal but for case, and the order does not matter. */
  lemma ScoreMeaning(lower: string -> string, a: string, b: string)
    ensures Similarity(lower, a, b) <= 1.0
    ensures Similarity(lower, a, b) == 1.0 <==> lower(a) == lower(b)
    ensures Similarity(lower, a, b) == Similarity(lower, b, a)
    ensures |lower(a)| <= |a| && |lower(b)| <= |b| ==> 0.0 <= Similarity(lower, a, b)
  {
    hide Distance;
    LengthBounds(lower(a), lower(b));
    Identity(lower(a), lower(b));
    DistanceSymmetric(lower(a), lower(b));
    if a != "" || b != "" {
      Ratio(Distance(lower(a), lower(b)) as real, (if |a| <= |b| then |b| else |a|) as real);
    }
  }

  /** The score is one less the share that the least number of edits has in the longer of the two lengths. */
  lemma ScoreFromEdits(lower: string -> string, a: string, b: string) returns (script: seq<Edit>)
    ensures Turns(script, lower(a), lower(b))
    ensures forall other | Turns(other, lower(a), lower(b)) :: |script| <= |other|
    ensures a == "" && b == "" ==> Similarity(lower, a, b) == 1.0
    ensures |a| >= |b| && a != "" ==> Similarity(lower, a, b) == 1.0 - |script| as real / |a| as real
    ensures |b| >= |a| && b != "" ==> Similarity(lower, a, b) == 1.0 - |script| as real / |b| as real
  {
    hide Distance, Turns;
    script := ShortestScript(lower(a), lower(b));
    forall other | Turns(other, lower(a), lower(b))
      ensures |script| <= |other|
    {
      NoScriptIsShorter(other, lower(a), lower(b));
    }
  }

  /** Scores lie between 0 and 1 exactly if the case mapping lengthens no text. */
  lemma ScoreRange(lower: string -> string)
    requires lower("") == ""
    ensures (forall a, b :: 0.0 <= Similarity(lower, a, b) <= 1.0) <==> (forall a :: |lower(a)| <= |a|)
  {
    hide Distance, Similarity;
    if forall a :: |lower(a)| <= |a| {
      forall a, b
        ensures 0.0 <= Similarity(lower, a, b) <= 1.0
      {
        ScoreMeaning(lower, a, b);
      }
    }
    if a :| |lower(a)| > |a| {
      LengtheningBreaksTheRange(lower, a);
    }
  }

  /**
   A text that becomes longer in lower case, as "\U{0130}" does, scores below 0 beside the empty one.
   */
  lemma LengtheningBreaksTheRange(lower: string -> string, a: string)
    requires lower("") == "" && |lower(a)| > |a|
    ensures a != "" && Similarity(lower, a, "") == 1.0 - |lower(a)| as real / |a| as real < 0.0
  {
    assert a != "";
    EmptyDistance(lower(a));
    Ratio(|lower(a)| as real, |a| as real);
  }

  lemma Ratio(d: real, m: real)
    requires 0.0 <= d && m > 0.0
    ensures 0.0 <= d / m
    ensures d / m <= 1.0 <==> d <= m
    ensures d / m == 0.0 <==> d == 0.0
  {
    var q := d / m;
    assert q * m == d;
  }

  /** Some command scores at least `threshold`. */
  ghost predicate Reaches(lower: string -> string, input: string, commands: seq<string>, threshold: real) {
    exists i | 0 <= i < |commands| :: Similarity(lower, input, commands[i]) >= threshold
  }

  function Good(lower: string -> string, input: string, commands: seq<string>, threshold: real): seq<string> {
    if commands == [] then []
    else
      var rest := Good(lower, input, commands[1..], threshold);
      if Similarity(lower, input, commands[0]) >= threshold then [commands[0]] + rest else rest
  }

  lemma {:induction false} GoodMembers(lower: string -> string, input: string, commands: seq<string>, threshold: real)
    ensures forall c :: (
      multiset(Good(lower, input, commands, threshold))[c] ==
      if Similarity(lower, input, c) >= threshold then multiset(commands)[c] else 0)
  {
    if commands != [] {
      assert commands == [commands[0]] + commands[1..];
      GoodMembers(lower, input, commands[1..], threshold);
    }
  }

  function BetterFirst(lower: string -> string, input: string): (string, string) -> bool {
    (x, y) => Similarity(lower, input, x) >= Similarity(lower, input, y)
  }

  lemma BetterFirstRanks(lower: string -> string, input: string)
    ensures TotalPreorder(BetterFirst(lower, input))
    ensures forall x, y ::
      BetterFirst(lower, input)(x, y) <==> Similarity(lower, input, x) >= Similarity(lower, input, y)
  {}

  function SuggestCommand(lower: string -> string, input: string, commands: seq<string>, threshold: real): seq<string> {
    var ranked := Sort(Good(lower, input, commands, threshold), BetterFirst(lower, input));
    ranked[..if |ranked| <= 5 then |ranked| else 5]
  }

  /**
   The best suggestions, best first, at most five of them: a command that reaches the threshold is
   left out only when there are five others no worse.
   */
  lemma SuggestsTheBest(lower: string -> string, input: string, commands: seq<string>, threshold: real)
    ensures var suggestions := SuggestCommand(lower, input, commands, threshold);
      && |suggestions| <= 5 && multiset(suggestions) <= multiset(commands)
      && (forall i | 0 <= i < |suggestions| :: Similarity(lower, input, suggestions[i]) >= threshold)
      && (forall i, j | 0 <= i < j < |suggestions| ::
            Similarity(lower, input, suggestions[i]) >= Similarity(lower, input, suggestions[j]))
      && forall c | multiset(suggestions)[c] < multiset(commands)[c] && Similarity(lower, input, c) >= threshold ::
           |suggestions| == 5
           && forall i | 0 <= i < 5 :: Similarity(lower, input, suggestions[i]) >= Similarity(lower, input, c)
  {
    hide Similarity, Good, Sort, Sorted, TotalPreorder, BetterFirst;
    BetterFirstRanks(lower, input);
    var kept := Good(lower, input, commands, threshold);
    GoodMembers(lower, input, commands, threshold);
    var betterFirst := BetterFirst(lower, input);
    SortSorts(kept, betterFirst);
    var ranked := Sort(kept, betterFirst);
    var count := if |ranked| <= 5 then |ranked| else 5;
    BestComeFirst(ranked, count, betterFirst);
    forall i, j | 0 <= i < j < count {
      SortedAt(ranked, betterFirst, i, j);
    }
    SortedMembers(ranked, kept, count);
    forall x | x in ranked[..count]
      ensures Similarity(lower, input, x) >= threshold
    {
      assert x in multiset(kept);
    }
    if count == |ranked| {
      assert ranked[..count] == ranked;
    }
  }

  /** Of commands with one score, the first ones given are suggested, in the order given. */
  lemma EqualScoresKeepTheirOrder(
    lower: string -> string, input: string, commands: seq<string>, threshold: real, c: string)
    requires Similarity(lower, input, c) >= threshold
    ensures var le := BetterFirst(lower, input);
      Ties(SuggestCommand(lower, input, commands, threshold), le, c) <= Ties(commands, le, c)
  {
    hide Similarity, Good, Sort, TotalPreorder, Ties, BetterFirst;
    BetterFirstRanks(lower, input);
    var le := BetterFirst(lower, input);
    var kept := Good(lower, input, commands, threshold);
    var ranked := Sort(kept, le);
    var suggestions := SuggestCommand(lower, input, commands, threshold);
    GoodTies(lower, input, commands, threshold, c);
    SortIsStable(kept, le, c);
    TiesConcat(suggestions, ranked[|suggestions|..], le, c);
    assert ranked == suggestions + ranked[|suggestions|..];
  }

  lemma {:induction false} GoodTies(
    lower: string -> string, input: string, commands: seq<string>, threshold: real, c: string)
    requires Similarity(lower, input, c) >= threshold
    ensures var le := BetterFirst(lower, input);
      Ties(Good(lower, input, commands, threshold), le, c) == Ties(commands, le, c)
  {
    hide Similarity;
    if commands != [] {
      GoodTies(lower, input, commands[1..], threshold, c);
      var rest := Good(lower, input, commands[1..], threshold);
      assert ([commands[0]] + rest)[1..] == rest;
    }
  }

  lemma BestComeFirst<T(!new)>(s: seq<T>, count: nat, le: (T, T) -> bool)
    requires Sorted(s, le) && count <= |s|
    ensures forall c, i | multiset(s[..count])[c] < multiset(s)[c] && 0 <= i < count :: le(s[i], c)
  {
    assert s == s[..count] + s[count..];
    forall c, i | multiset(s[..count])[c] < multiset(s)[c] && 0 <= i < count
      ensures le(s[i], c)
    {
      assert c in multiset(s[count..]);
      var j :| 0 <= j < |s| - count && s[count..][j] == c;
      SortedAt(s, le, i, count + j);
    }
  }

  lemma SortedMembers<T>(s: seq<T>, kept: seq<T>, count: nat)
    requires multiset(s) == multiset(kept) && count <= |s|
    ensures |s| == |kept| && multiset(s[..count]) <= multiset(kept)
    ensures forall x | x in s[..count] :: x in kept
  {
    assert s == s[..count] + s[count..];
    assert |multiset(s)| == |s| && |multiset(kept)| == |kept|;
    forall x | x in s[..count]
      ensures x in kept
    {
      assert x in multiset(kept);
    }
  }

  predicate IsLikelyTypo(lower: string -> string, input: string, commands: seq<string>) {
    |SuggestCommand(lower, input, commands, 0.7)| > 0
  }

  lemma LikelyTypoMeansCloseCommand(lower: string -> string, input: string, commands: seq<string>)
    ensures IsLikelyTypo(lower, input, commands) <==> Reaches(lower, input, commands, 0.7)
  {
    hide Similarity, SuggestCommand;
    var suggestions := SuggestCommand(lower, input, commands, 0.7);
    SuggestsTheBest(lower, input, commands, 0.7);
    if suggestions != [] {
      assert suggestions[0] in multiset(suggestions) && suggestions[0] in multiset(commands);
    }
    if Reaches(lower, input, commands, 0.7) {
      var i :| 0 <= i < |commands| && Similarity(lower, input, commands[i]) >= 0.7;
      assert multiset(commands)[commands[i]] > 0;
    }
  }
}
