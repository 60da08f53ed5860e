/** Sorting by a total preorder, as `Array.prototype.sort` promises it. */
module Sorting {

  ghost predicate TotalPreorder<T(!new)>(le: (T, T) -> bool) {
    && (forall x, y :: le(x, y) || le(y, x))
    && forall x, y, z :: le(x, y) && le(y, z) ==> le(x, z)
  }

  /** The order tells the elements of `s` apart. */
  ghost predicate AntisymmetricOn<T>(s: seq<T>, le: (T, T) -> bool) {
    forall x, y | x in s && y in s && le(x, y) && le(y, x) :: x == y
  }

  ghost predicate BelowAll<T>(x: T, s: seq<T>, le: (T, T) -> bool) {
    forall k | 0 <= k < |s| :: le(x, s[k])
  }

  ghost predicate Sorted<T>(s: seq<T>, le: (T, T) -> bool) {
    s != [] ==> BelowAll(s[0], s[1..], le) && Sorted(s[1..], le)
  }

  function Insert<T>(x: T, s: seq<T>, le: (T, T) -> bool): seq<T> {
    if s == [] || le(x, s[0]) then [x] + s else [s[0]] + Insert(x, s[1..], le)
  }

  function Sort<T>(s: seq<T>, le: (T, T) -> bool): seq<T> {
    if s == [] then [] else Insert(s[0], Sort(s[1..], le), le)
  }

  lemma {:induction false} SortedAt<T>(s: seq<T>, le: (T, T) -> bool, i: nat, j: nat)
    requires Sorted(s, le) && i < j < |s|
    ensures le(s[i], s[j])
  {
    if i == 0 {
      assert s[j] == s[1..][j - 1];
    } else {
      SortedAt(s[1..], le, i - 1, j - 1);
    }
  }

  lemma {:induction false} BelowInserted<T>(y: T, x: T, s: seq<T>, le: (T, T) -> bool)
    requires le(y, x) && BelowAll(y, s, le)
    ensures BelowAll(y, Insert(x, s, le), le)
  {
    if s != [] && !le(x, s[0]) {
      BelowInserted(y, x, s[1..], le);
    }
  }

  lemma PutInFront<T(!new)>(x: T, s: seq<T>, le: (T, T) -> bool)
    requires TotalPreorder(le) && Sorted(s, le) && (s == [] || le(x, s[0]))
    ensures Sorted([x] + s, le)
  {
    var r := [x] + s;
    assert r[1..] == s;
    forall k | 0 <= k < |s|
      ensures le(x, s[k])
    {
      assert k > 0 ==> s[1..][k - 1] == s[k];
      assert le(x, s[0]) && (k > 0 ==> le(s[0], s[k]));
    }
  }

  lemma {:induction false} InsertKeepsSorted<T(!new)>(x: T, s: seq<T>, le: (T, T) -> bool)
    requires TotalPreorder(le) && Sorted(s, le)
    ensures Sorted(Insert(x, s, le), le)
    ensures multiset(Insert(x, s, le)) == multiset(s) + multiset{x}
  {
    assert s != [] ==> le(x, s[0]) || le(s[0], x);
    hide TotalPreorder, BelowAll;
    if s == [] || le(x, s[0]) {
      PutInFront(x, s, le);
    } else {
      InsertKeepsSorted(x, s[1..], le);
      BelowInserted(s[0], x, s[1..], le);
      var rest := Insert(x, s[1..], le);
      assert ([s[0]] + rest)[1..] == rest;
      assert s == [s[0]] + s[1..];
    }
  }

  lemma {:induction false} SortSorts<T(!new)>(s: seq<T>, le: (T, T) -> bool)
    requires TotalPreorder(le)
    ensures Sorted(Sort(s, le), le)
    ensures multiset(Sort(s, le)) == multiset(s)
  {
    if s != [] {
      SortSorts(s[1..], le);
      InsertKeepsSorted(s[0], Sort(s[1..], le), le);
      assert s == [s[0]] + s[1..];
    }
  }

  /** The elements that `le` does not tell apart from `x`, in order. */
  function Ties<T>(s: seq<T>, le: (T, T) -> bool, x: T): seq<T> {
    if s == [] then [] else (if le(x, s[0]) && le(s[0], x) then [s[0]] else []) + Ties(s[1..], le, x)
  }

  lemma {:induction false} TiesConcat<T>(a: seq<T>, b: seq<T>, le: (T, T) -> bool, x: T)
    ensures Ties(a + b, le, x) == Ties(a, le, x) + Ties(b, le, x)
  {
    if a == [] {
      assert a + b == b;
    } else {
      TiesConcat(a[1..], b, le, x);
      assert (a + b)[1..] == a[1..] + b;
      var first := if le(x, a[0]) && le(a[0], x) then [a[0]] else [];
      assert Ties(a + b, le, x) == first + (Ties(a[1..], le, x) + Ties(b, le, x));
    }
  }

  lemma Transitive<T(!new)>(x: T, y: T, z: T, le: (T, T) -> bool)
    requires TotalPreorder(le)
    ensures le(x, y) && le(y, z) ==> le(x, z)
  {}

  lemma {:induction false} InsertKeepsTies<T(!new)>(x: T, s: seq<T>, le: (T, T) -> bool, y: T)
    requires TotalPreorder(le)
    ensures Ties(Insert(x, s, le), le, y) == Ties([x], le, y) + Ties(s, le, y)
  {
    if s == [] || le(x, s[0]) {
      TiesConcat([x], s, le, y);
    } else {
      InsertKeepsTies(x, s[1..], le, y);
      TiesConcat([s[0]], Insert(x, s[1..], le), le, y);
      TiesConcat([s[0]], s[1..], le, y);
      assert s == [s[0]] + s[1..] && [x][1..] == [] && [s[0]][1..] == [];
      Transitive(x, y, s[0], le);
    }
  }

  /** The sort is stable. */
  lemma {:induction false} SortIsStable<T(!new)>(s: seq<T>, le: (T, T) -> bool, x: T)
    requires TotalPreorder(le)
    ensures Ties(Sort(s, le), le, x) == Ties(s, le, x)
  {
    hide TotalPreorder;
    if s != [] {
      SortIsStable(s[1..], le, x);
      InsertKeepsTies(s[0], Sort(s[1..], le), le, x);
      TiesConcat([s[0]], s[1..], le, x);
      assert s == [s[0]] + s[1..];
    }
  }

  lemma LeastComesFirst<T>(s: seq<T>, le: (T, T) -> bool, x: T)
    requires Sorted(s, le) && x in s
    ensures s[0] == x || le(s[0], x)
  {
    var k :| 0 <= k < |s| && s[k] == x;
    if k > 0 {
      SortedAt(s, le, 0, k);
    }
  }

  lemma WithoutHead<T>(a: seq<T>)
    requires a != []
    ensures multiset(a[1..]) == multiset(a) - multiset{a[0]}
  {
    assert a == [a[0]] + a[1..];
  }

  lemma SameMembers<T(!new)>(a: seq<T>, b: seq<T>)
    requires multiset(a) == multiset(b)
    ensures |a| == |b| && forall x :: x in a <==> x in b
  {
    assert |a| == |multiset(a)| == |multiset(b)| == |b|;
    assert forall x :: x in a <==> x in multiset(a);
    assert forall x :: x in b <==> x in multiset(b);
  }

  /** Under an order that tells its elements apart, a multiset can be sorted in one way only. */
  lemma {:induction false} SortedFormIsUnique<T(!new)>(a: seq<T>, b: seq<T>, le: (T, T) -> bool)
    requires AntisymmetricOn(a, le)
    requires Sorted(a, le) && Sorted(b, le) && multiset(a) == multiset(b)
    ensures a == b
  {
    hide BelowAll;
    SameMembers(a, b);
    if a != [] {
      LeastComesFirst(a, le, b[0]);
      LeastComesFirst(b, le, a[0]);
      WithoutHead(a);
      WithoutHead(b);
      SortedFormIsUnique(a[1..], b[1..], le);
      assert a == [a[0]] + a[1..] && b == [b[0]] + b[1..];
    }
  }
}
