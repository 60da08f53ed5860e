/** The canonical query string of a signed request: packages/core/src/aws/signature.ts. */
module QueryString {
  import opened PercentEncoding
  import opened Sorting
  import opened Texts

  type Param = (string, string)

  /** The order `<` and `>` give two strings; on encoded text, code units are characters. */
  predicate StringLe(a: string, b: string) {
    a == "" || (b != "" && (a[0] < b[0] || (a[0] == b[0] && StringLe(a[1..], b[1..]))))
  }

  /** By key, and by value where the keys agree. */
  predicate ParamLe(p: Param, q: Param) {
    if p.0 == q.0 then StringLe(p.1, q.1) else StringLe(p.0, q.0)
  }

  lemma {:induction false} StringLeTotal(a: string, b: string)
    ensures StringLe(a, b) || StringLe(b, a)
    ensures StringLe(a, b) && StringLe(b, a) ==> a == b
  {
    if a != "" && b != "" && a[0] == b[0] {
      StringLeTotal(a[1..], b[1..]);
      assert a == [a[0]] + a[1..] && b == [b[0]] + b[1..];
    }
  }

  lemma {:induction false} StringLeTransitive(a: string, b: string, c: string)
    requires StringLe(a, b) && StringLe(b, c)
    ensures StringLe(a, c)
  {
    if a != "" && a[0] == b[0] == c[0] {
      StringLeTransitive(a[1..], b[1..], c[1..]);
    }
  }

  lemma ParamLeOrders(s: seq<Param>)
    ensures TotalPreorder(ParamLe) && AntisymmetricOn(s, ParamLe)
  {
    forall p: Param, q: Param
      ensures ParamLe(p, q) || ParamLe(q, p)
      ensures ParamLe(p, q) && ParamLe(q, p) ==> p == q
    {
      StringLeTotal(p.0, q.0);
      StringLeTotal(p.1, q.1);
    }
    forall p: Param, q: Param, r: Param | ParamLe(p, q) && ParamLe(q, r)
      ensures ParamLe(p, r)
    {
      ParamLeTransitive(p, q, r);
    }
  }

  lemma ParamLeTransitive(p: Param, q: Param, r: Param)
    requires ParamLe(p, q) && ParamLe(q, r)
    ensures ParamLe(p, r)
  {
    if p.0 == q.0 && q.0 == r.0 {
      StringLeTransitive(p.1, q.1, r.1);
    } else if p.0 != q.0 && q.0 != r.0 {
      StringLeTransitive(p.0, q.0, r.0);
      if p.0 == r.0 {
        StringLeTotal(p.0, q.0);
      }
    }
  }

  function EncodeParam(p: Param): Param {
    (EncodeRfc3986(p.0), EncodeRfc3986(p.1))
  }

  function EncodeAll(params: seq<Param>): seq<Param> {
    seq(|params|, i requires 0 <= i < |params| => EncodeParam(params[i]))
  }

  function Pair(p: Param): string {
    p.0 + "=" + p.1
  }

  /** The pairs with `&` between any two of them. */
  function Join(params: seq<Param>): string {
    if params == [] then ""
    else if |params| == 1 then Pair(params[0])
    else Pair(params[0]) + "&" + Join(params[1..])
  }

  function Canonical(params: seq<Param>): string {
    Join(Sort(EncodeAll(params), ParamLe))
  }

  /** Keys and values hold neither separator. */
  ghost predicate Separable(params: seq<Param>) {
    forall p | p in params :: '&' !in p.0 && '=' !in p.0 && '&' !in p.1 && '=' !in p.1
  }

  lemma AllEncodedAreSeparable(params: seq<Param>)
    ensures Separable(EncodeAll(params))
  {
    forall p | p in EncodeAll(params)
      ensures '&' !in p.0 && '=' !in p.0 && '&' !in p.1 && '=' !in p.1
    {
      var i :| 0 <= i < |params| && EncodeAll(params)[i] == p;
      EncodingIsEncoded(params[i].0);
      EncodingIsEncoded(params[i].1);
      EncodedHasNoSeparators(p.0);
      EncodedHasNoSeparators(p.1);
    }
  }

  /** A text without `c`, followed by `c` and more, can be cut in one way only. */
  lemma {:induction false} OneCut(a: string, b: string, rest: string, rest': string, c: char)
    requires c !in a && c !in b
    requires a + [c] + rest == b + [c] + rest'
    ensures a == b && rest == rest'
  {
    var s, s' := a + [c] + rest, b + [c] + rest';
    assert s[|a|] == c == s'[|b|];
    assert forall k | 0 <= k < |a| :: s[k] == a[k] != c;
    assert forall k | 0 <= k < |b| :: s'[k] == b[k] != c;
    assert a == s[..|a|] && b == s'[..|b|];
    assert rest == s[|a| + 1..] && rest' == s'[|b| + 1..];
  }

  lemma OnePair(p: Param, q: Param)
    requires Separable([p, q]) && Pair(p) == Pair(q)
    ensures p == q
  {
    assert p in [p, q] && q in [p, q];
    OneCut(p.0, q.0, p.1, q.1, '=');
  }

  lemma PairHasNoAmpersand(p: Param)
    requires Separable([p])
    ensures '&' !in Pair(p) && Pair(p) != ""
  {
    assert p in [p];
  }

  lemma ManyPairsAreJoined(params: seq<Param>)
    ensures |params| > 1 ==> '&' in Join(params)
  {
    assert |params| > 1 ==> Join(params)[|Pair(params[0])|] == '&';
  }

  /** A joined query gives back its pairs. */
  lemma {:induction false} JoinTellsApart(a: seq<Param>, b: seq<Param>)
    requires Separable(a) && Separable(b) && Join(a) == Join(b)
    ensures a == b
  {
    hide Pair;
    if a != [] {
      PairHasNoAmpersand(a[0]);
    }
    if b != [] {
      PairHasNoAmpersand(b[0]);
    }
    ManyPairsAreJoined(a);
    ManyPairsAreJoined(b);
    if a != [] && b != [] {
      if |a| > 1 && |b| > 1 {
        OneCut(Pair(a[0]), Pair(b[0]), Join(a[1..]), Join(b[1..]), '&');
        JoinTellsApart(a[1..], b[1..]);
      }
      OnePair(a[0], b[0]);
      assert a == [a[0]] + a[1..] && b == [b[0]] + b[1..];
    }
  }

  lemma EncodeParamTellsApart(p: Param, q: Param)
    ensures EncodeParam(p) == EncodeParam(q) <==> p == q
  {
    EncodingTellsTextsApart(p.0, q.0);
    EncodingTellsTextsApart(p.1, q.1);
  }

  /** Encoding keeps how often each parameter occurs. */
  lemma {:induction false} EncodingKeepsCounts(params: seq<Param>, p: Param)
    ensures multiset(EncodeAll(params))[EncodeParam(p)] == multiset(params)[p]
  {
    hide EncodeParam;
    if params != [] {
      var last := params[|params| - 1];
      var before := params[..|params| - 1];
      assert params == before + [last];
      assert EncodeAll(params) == EncodeAll(before) + [EncodeParam(last)];
      EncodingKeepsCounts(before, p);
      EncodeParamTellsApart(last, p);
    }
  }

  lemma EncodingKeepsMultisets(ps: seq<Param>, qs: seq<Param>)
    ensures multiset(EncodeAll(ps)) == multiset(EncodeAll(qs)) <==> multiset(ps) == multiset(qs)
  {
    hide EncodeParam;
    if multiset(ps) == multiset(qs) {
      forall e
        ensures multiset(EncodeAll(ps))[e] == multiset(EncodeAll(qs))[e]
      {
        if e in EncodeAll(ps) || e in EncodeAll(qs) {
          var p := EncodedFrom(if e in EncodeAll(ps) then ps else qs, e);
          EncodingKeepsCounts(ps, p);
          EncodingKeepsCounts(qs, p);
        }
      }
    }
    if multiset(EncodeAll(ps)) == multiset(EncodeAll(qs)) {
      forall p
        ensures multiset(ps)[p] == multiset(qs)[p]
      {
        EncodingKeepsCounts(ps, p);
        EncodingKeepsCounts(qs, p);
      }
    }
  }

  lemma EncodedFrom(params: seq<Param>, e: Param) returns (p: Param)
    requires e in EncodeAll(params)
    ensures EncodeParam(p) == e
  {
    var i :| 0 <= i < |params| && EncodeAll(params)[i] == e;
    p := params[i];
  }

  /** A canonical form: two parameter lists have one query string exactly when they are permutations of each other. */
  lemma CanonicalForm(ps: seq<Param>, qs: seq<Param>)
    ensures Canonical(ps) == Canonical(qs) <==> multiset(ps) == multiset(qs)
  {
    hide Sort, Join, EncodeAll, ParamLe, Sorted, Separable, TotalPreorder, AntisymmetricOn;
    var these, those := EncodeAll(ps), EncodeAll(qs);
    ParamLeOrders(Sort(these, ParamLe));
    SortSorts(these, ParamLe);
    SortSorts(those, ParamLe);
    EncodingKeepsMultisets(ps, qs);
    if multiset(these) == multiset(those) {
      SortedFormIsUnique(Sort(these, ParamLe), Sort(those, ParamLe), ParamLe);
    }
    if Canonical(ps) == Canonical(qs) {
      SortedStaySeparable(ps);
      SortedStaySeparable(qs);
      JoinTellsApart(Sort(these, ParamLe), Sort(those, ParamLe));
    }
  }

  lemma SortedStaySeparable(params: seq<Param>)
    ensures Separable(Sort(EncodeAll(params), ParamLe))
  {
    hide Sort, EncodeAll, ParamLe, Sorted;
    var all := EncodeAll(params);
    AllEncodedAreSeparable(params);
    ParamLeOrders(all);
    SortSorts(all, ParamLe);
    SameMembers(Sort(all, ParamLe), all);
  }

  // ---------- Reading a query ----------

  /** The pair a piece stands for: what is in front of its first `=` and what is behind. */
  function ReadPair(piece: string): Param {
    var equals := IndexOf(piece, "=", 0);
    if equals == -1 then (piece, "") else (piece[..equals], piece[equals + 1..])
  }

  /** The pairs of a query, cut at `&`. */
  function ReadQuery(query: string): seq<Param> {
    var pieces := Pieces(query, '&');
    if query == "" then [] else seq(|pieces|, i requires 0 <= i < |pieces| => ReadPair(pieces[i]))
  }

  lemma PairReads(p: Param)
    requires Separable([p])
    ensures ReadPair(Pair(p)) == p
  {
    hide IndexOf;
    assert p in [p];
    var s, at := Pair(p), |p.0|;
    assert s[at..at + 1] == "=";
    forall k: nat | k < at
      ensures !At(s, k, "=")
    {
      assert s[k] == p.0[k] && s[k..k + 1] == [p.0[k]];
    }
    FirstIndex(s, "=", 0, at);
    assert s[..at] == p.0 && s[at + 1..] == p.1;
  }

  lemma {:induction false} JoinReads(params: seq<Param>)
    requires Separable(params)
    ensures ReadQuery(Join(params)) == params
  {
    hide Pair, ReadPair, Pieces;
    if params != [] {
      var first, rest := params[0], params[1..];
      PairHasNoAmpersand(first);
      PairReads(first);
      assert params == [first] + rest;
      if rest == [] {
        FirstPiece(Pair(first), '&', "");
      } else {
        JoinReads(rest);
        JoinedIsSomething(rest);
        FirstPiece(Pair(first), '&', Join(rest));
        assert Join(params) == Pair(first) + ['&'] + Join(rest);
      }
    }
  }

  lemma JoinedIsSomething(params: seq<Param>)
    requires params != []
    ensures Join(params) != ""
  {}

  /** `a` comes before `b`: where they first differ it has the smaller character, or it has ended. */
  ghost predicate Precedes(a: string, b: string) {
    exists m: nat :: m <= |a| && m < |b| && a[..m] == b[..m] && (m == |a| || a[m] < b[m])
  }

  lemma {:induction false} LeMeansPrecedes(a: string, b: string)
    requires StringLe(a, b) && a != b
    ensures Precedes(a, b)
  {
    if a == "" {
      assert a[..0] == b[..0];
    } else if a[0] < b[0] {
      assert a[..0] == b[..0];
    } else {
      assert a == [a[0]] + a[1..] && b == [b[0]] + b[1..];
      LeMeansPrecedes(a[1..], b[1..]);
      var m: nat :| m <= |a| - 1 && m < |b| - 1 && a[1..][..m] == b[1..][..m]
                    && (m == |a| - 1 || a[1..][m] < b[1..][m]);
      assert a[..m + 1] == [a[0]] + a[1..][..m] && b[..m + 1] == [b[0]] + b[1..][..m];
    }
  }

  /** By key, and where the keys agree by value; equal pairs may follow one another. */
  ghost predicate InOrder(p: Param, q: Param) {
    Precedes(p.0, q.0) || (p.0 == q.0 && (p.1 == q.1 || Precedes(p.1, q.1)))
  }

  lemma LeMeansInOrder(p: Param, q: Param)
    requires ParamLe(p, q)
    ensures InOrder(p, q)
  {
    hide StringLe, Precedes;
    if p.0 != q.0 {
      LeMeansPrecedes(p.0, q.0);
    } else if p.1 != q.1 {
      LeMeansPrecedes(p.1, q.1);
    }
  }

  /** The pairs read from a canonical query: the encoded parameters, each as often as given, in order. */
  lemma CanonicalReads(params: seq<Param>)
    ensures var pairs := ReadQuery(Canonical(params));
      && multiset(pairs) ==
         multiset(seq(|params|, i requires 0 <= i < |params| =>
                    (EncodeRfc3986(params[i].0), EncodeRfc3986(params[i].1))))
      && forall i | 0 <= i < |pairs| - 1 :: InOrder(pairs[i], pairs[i + 1])
  {
    hide Sort, Join, ParamLe, Sorted, Separable, TotalPreorder, AntisymmetricOn, ReadQuery, EncodeRfc3986, InOrder;
    var all := EncodeAll(params);
    var sorted := Sort(all, ParamLe);
    ParamLeOrders(all);
    SortSorts(all, ParamLe);
    SortedStaySeparable(params);
    JoinReads(sorted);
    assert all == seq(|params|, i requires 0 <= i < |params| =>
                        (EncodeRfc3986(params[i].0), EncodeRfc3986(params[i].1)));
    forall i | 0 <= i < |sorted| - 1
      ensures InOrder(sorted[i], sorted[i + 1])
    {
      SortedAt(sorted, ParamLe, i, i + 1);
      LeMeansInOrder(sorted[i], sorted[i + 1]);
    }
  }

  method CanonicalQueryString(params: seq<Param>) returns (r: string)
    ensures r == Canonical(params)
    // cut at `&` and at `=`, it gives the encoded parameters, by key and then by value
    ensures var pairs := ReadQuery(r);
      && multiset(pairs) ==
         multiset(seq(|params|, i requires 0 <= i < |params| =>
                    (EncodeRfc3986(params[i].0), EncodeRfc3986(params[i].1))))
      && forall i | 0 <= i < |pairs| - 1 :: InOrder(pairs[i], pairs[i + 1])
  {
    CanonicalReads(params);
    hide ReadQuery, InOrder, EncodeRfc3986, ParamLe;
    var sorted: seq<Param> := [];
    for i := 0 to |params|
      invariant sorted == EncodeAll(params[..i])
    {
      var value, key := params[i].1, params[i].0;
      sorted := sorted + [(EncodeRfc3986(key), EncodeRfc3986(value))];
    }
    assert params[..|params|] == params;
    sorted := Sort(sorted, ParamLe);
    r := Join(sorted);
  }
}
