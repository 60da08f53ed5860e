/** Cutting a byte stream into parts. */
module Parts {
  type Byte = n: int | 0 <= n < 256
  type Bytes = seq<Byte>

  function Flatten(pieces: seq<Bytes>): Bytes {
    if pieces == [] then [] else pieces[0] + Flatten(pieces[1..])
  }

  /** Pieces of exactly `size` bytes, and a shorter last one if something is left over. */
  function Cut(s: Bytes, size: nat): (pieces: seq<Bytes>)
    requires size > 0
    ensures s == [] <==> pieces == []
  {
    if s == [] then []
    else if |s| <= size then [s]
    else [s[..size]] + Cut(s[size..], size)
  }

  /** Nothing is lost, doubled or reordered. */
  lemma {:induction false} CutFlattens(s: Bytes, size: nat)
    requires size > 0
    ensures Flatten(Cut(s, size)) == s
  {
    if |s| > size {
      hide Flatten;
      CutFlattens(s[size..], size);
      FlattenMore(s[..size], Cut(s[size..], size));
      assert s[..size] + s[size..] == s;
    } else if s != [] {
      assert [s] + [] == [s];
      FlattenMore(s, []);
    }
  }

  lemma FlattenMore(piece: Bytes, rest: seq<Bytes>)
    ensures Flatten([piece] + rest) == piece + Flatten(rest)
  {
    assert ([piece] + rest)[1..] == rest;
  }

  lemma {:induction false} CutSizes(s: Bytes, size: nat)
    requires size > 0
    ensures var pieces := Cut(s, size);
      && (forall i | 0 <= i < |pieces| - 1 :: |pieces[i]| == size)
      && (pieces != [] ==> 1 <= |pieces[|pieces| - 1]| <= size)
  {
    if |s| > size {
      CutSizes(s[size..], size);
      var rest := Cut(s[size..], size);
      assert forall i | 0 < i <= |rest| :: Cut(s, size)[i] == rest[i - 1];
    }
  }

  /** As many pieces as it takes, rounded up. */
  lemma CutCount(s: Bytes, size: nat)
    requires size > 0
    ensures |Cut(s, size)| == (|s| + size - 1) / size
  {
    CutReach(s, size);
    QuotientIs(|s| + size - 1, size, |Cut(s, size)|);
  }

  lemma {:induction false} CutReach(s: Bytes, size: nat)
    requires size > 0
    ensures |Cut(s, size)| * size - size < |s| + (if s == [] then 1 else 0) && |s| <= |Cut(s, size)| * size
  {
    if |s| > size {
      CutReach(s[size..], size);
      var n := |Cut(s[size..], size)|;
      assert (n + 1) * size == n * size + size;
    } else if s != [] {
      assert 1 * size == size;
    }
  }

  lemma QuotientIs(x: nat, d: nat, q: nat)
    requires d > 0 && q * d <= x < q * d + d
    ensures x / d == q
  {
    var q' := x / d;
    assert q' * d <= x < q' * d + d;
    if q' < q {
      Monotone(q' + 1, q, d);
    } else if q < q' {
      Monotone(q + 1, q', d);
    }
  }

  lemma {:induction false} Monotone(a: nat, b: nat, d: nat)
    requires a <= b
    ensures a * d <= b * d && (a > 0 ==> (a - 1) * d + d == a * d)
  {
    if a < b {
      Monotone(a, b - 1, d);
    }
  }

  /** Nothing else has these sizes and this content, so a service that concatenates gets the stream back. */
  lemma {:induction false} CutIsTheOnly(pieces: seq<Bytes>, size: nat)
    requires size > 0
    requires forall i | 0 <= i < |pieces| - 1 :: |pieces[i]| == size
    requires pieces != [] ==> 1 <= |pieces[|pieces| - 1]| <= size
    ensures Cut(Flatten(pieces), size) == pieces
  {
    if |pieces| == 1 {
      assert Flatten(pieces) == pieces[0] by { assert Flatten(pieces[1..]) == []; }
    } else if |pieces| > 1 {
      CutIsTheOnly(pieces[1..], size);
      var s := Flatten(pieces);
      assert Flatten(pieces[1..]) != [] by { assert pieces[1..] != []; }
      assert s[..size] == pieces[0] && s[size..] == Flatten(pieces[1..]);
    }
  }

  lemma {:induction false} FlattenAppend(pieces: seq<Bytes>, last: Bytes)
    ensures Flatten(pieces + [last]) == Flatten(pieces) + last
  {
    if pieces == [] {
      assert Flatten([last][1..]) == [];
    } else {
      assert (pieces + [last])[1..] == pieces[1..] + [last];
      FlattenAppend(pieces[1..], last);
    }
  }

  /** `s.slice(from, to)`, for positions that are not negative. */
  function Slice(s: Bytes, from: nat, to: nat): Bytes {
    if from >= |s| || to <= from then [] else s[from..if to <= |s| then to else |s|]
  }

  /** The bytes of part `i`, counted from zero, of a stream cut into pieces of `size`. */
  function PartBody(s: Bytes, size: nat, i: nat): Bytes {
    Slice(s, i * size, i * size + size)
  }

  /** The pieces are these stretches of the stream, as far as it goes. */
  lemma {:induction false} CutAt(s: Bytes, size: nat, i: nat)
    requires size > 0
    ensures PartBody(s, size, i) == if i < |Cut(s, size)| then Cut(s, size)[i] else []
  {
    hide Slice;
    if |s| <= size {
      OnePiece(s, size, i);
    } else if i == 0 {
      FirstBody(s, size);
    } else {
      hide PartBody;
      CutAt(s[size..], size, i - 1);
      BodyOfRest(s, size, i);
    }
  }

  lemma OnePiece(s: Bytes, size: nat, i: nat)
    requires |s| <= size
    ensures PartBody(s, size, i) == if i == 0 then s else []
  {
    NotSmaller(size, i);
    assert 0 * size == 0;
  }

  lemma FirstBody(s: Bytes, size: nat)
    requires |s| > size
    ensures PartBody(s, size, 0) == s[..size]
  {
    assert 0 * size == 0;
  }

  lemma BodyOfRest(s: Bytes, size: nat, i: nat)
    requires |s| > size && i > 0
    ensures PartBody(s, size, i) == PartBody(s[size..], size, i - 1)
  {
    assert i * size == (i - 1) * size + size;
    SliceOfRest(s, size, (i - 1) * size, (i - 1) * size + size);
  }

  lemma NotSmaller(size: nat, i: nat)
    ensures i > 0 ==> i * size >= size
  {
    if i > 0 {
      assert i * size == (i - 1) * size + size;
    }
  }

  lemma SliceOfRest(s: Bytes, front: nat, from: nat, to: nat)
    requires front <= |s|
    ensures Slice(s[front..], from, to) == Slice(s, from + front, to + front)
  {}
}
