/** Property-level differences of two templates: packages/core/src/stack-diff.ts. */
module StackDiff {
  import opened OrderedSets
  import opened Templates
  import opened PropertyPaths
  import opened Wrappers

  datatype PropertyChange = PropertyChange(path: string, oldValue: Option<Json>, newValue: Option<Json>)

  /** `TypeError` is what `Object.keys(null)` throws. */
  datatype Outcome = Changes(changes: seq<PropertyChange>) | TypeError

  /** A change at the end of a chain of keys, before the chain is printed as a path. */
  datatype Delta = Delta(keys: seq<string>, oldValue: Option<Json>, newValue: Option<Json>)

  datatype Kind = IsBool | IsNumber | IsString | IsObject

  /** The `typeof` of a value; null and arrays are objects. */
  function TypeOf(j: Json): Kind {
    match j
    case Bool(_) => IsBool
    case Num(_) => IsNumber
    case Str(_) => IsString
    case _ => IsObject
  }

  function Get(j: Json, key: string): Option<Json> {
    if j.Obj? && key in j.fields then Some(j.fields[key]) else None
  }

  /** The keys of both objects, each once, those of the old one first. */
  function AllKeys(oldKeys: seq<string>, newKeys: seq<string>): (keys: seq<string>)
    requires NoDup(oldKeys)
    ensures NoDup(keys)
    ensures forall k :: k in keys <==> k in oldKeys || k in newKeys
    ensures oldKeys <= keys
  {
    if newKeys == [] then oldKeys
    else Add(AllKeys(oldKeys, newKeys[..|newKeys| - 1]), newKeys[|newKeys| - 1])
  }

  /** `JSON.stringify`: arrays are compared by what it gives for them. */
  type Printer = Json -> string

  /** The differences found below two values of one kind, both of them present; none if the walk throws. */
  function ValueDeltas(o: Json, n: Json, stringify: Printer): Option<seq<Delta>>
    requires o.Valid() && n.Valid()
    decreases o, 1, 0
  {
    var whole := [Delta([], Some(o), Some(n))];
    if TypeOf(o) != TypeOf(n) then Some(whole)
    else if TypeOf(o) == IsObject && o != Null then
      if o.Arr? && n.Arr? then Some(if stringify(o) != stringify(n) then whole else [])
      else if !o.Arr? && !n.Arr? then
        if n == Null then None else ObjectDeltas(o, n, AllKeys(o.keys, n.keys), stringify)
      else Some(whole)
    else Some(if o != n then whole else [])
  }

  /** The differences of two objects at the given keys. */
  function ObjectDeltas(o: Json, n: Json, keys: seq<string>, stringify: Printer): Option<seq<Delta>>
    requires o.Valid() && n.Valid() && o.Obj? && n.Obj?
    decreases o, 0, |keys|
  {
    if keys == [] then Some([])
    else
      var key := keys[|keys| - 1];
      match ObjectDeltas(o, n, keys[..|keys| - 1], stringify)
      case None => None
      case Some(before) =>
        match FieldDeltas(o, n, key, stringify)
        case None => None
        case Some(here) => Some(before + Below(key, here))
  }

  function FieldDeltas(o: Json, n: Json, key: string, stringify: Printer): Option<seq<Delta>>
    requires o.Valid() && n.Valid() && o.Obj? && n.Obj?
    decreases o, 0, 0
  {
    var oldValue, newValue := Get(o, key), Get(n, key);
    if oldValue == None || newValue == None then
      Some(if oldValue != newValue then [Delta([], oldValue, newValue)] else [])
    else ValueDeltas(oldValue.value, newValue.value, stringify)
  }

  function Below(key: string, deltas: seq<Delta>): seq<Delta> {
    seq(|deltas|, i requires 0 <= i < |deltas| => deltas[i].(keys := [key] + deltas[i].keys))
  }

  /** Equal, but for the order of object keys, and with arrays compared by their printed form. */
  ghost predicate Same(a: Json, b: Json, stringify: Printer) {
    if a.Arr? && b.Arr? then stringify(a) == stringify(b)
    else if a.Obj? && b.Obj? then
      a.fields.Keys == b.fields.Keys && forall k | k in a.fields :: Same(a.fields[k], b.fields[k], stringify)
    else a == b
  }

  ghost predicate SameSlot(o: Option<Json>, n: Option<Json>, stringify: Printer) {
    if o.Some? && n.Some? then Same(o.value, n.value, stringify) else o == n
  }

  /** A difference that is not one of fields below. */
  ghost predicate DiffersHere(o: Option<Json>, n: Option<Json>, stringify: Printer) {
    !SameSlot(o, n, stringify) && !(o.Some? && n.Some? && o.value.Obj? && n.value.Obj?)
  }

  function Descend(slot: Option<Json>, key: string): Option<Json> {
    if slot.Some? then Get(slot.value, key) else None
  }

  /** The value at the end of a chain of keys. */
  function Look(slot: Option<Json>, keys: seq<string>): Option<Json>
    decreases |keys|
  {
    if keys == [] then slot else Look(Descend(slot, keys[0]), keys[1..])
  }

  /** `keys` leads through objects on both sides to a difference that is not one of fields below. */
  ghost predicate DiffersAt(o: Option<Json>, n: Option<Json>, keys: seq<string>, stringify: Printer)
    decreases |keys|
  {
    if keys == [] then DiffersHere(o, n, stringify)
    else
      && o.Some? && n.Some? && o.value.Obj? && n.value.Obj?
      && DiffersAt(Get(o.value, keys[0]), Get(n.value, keys[0]), keys[1..], stringify)
  }

  /** `d` says where the two values differ and what is there on either side. */
  ghost predicate Tells(d: Delta, o: Option<Json>, n: Option<Json>, stringify: Printer) {
    DiffersAt(o, n, d.keys, stringify) && d.oldValue == Look(o, d.keys) && d.newValue == Look(n, d.keys)
  }

  lemma {:induction false} TellsBelow(d: Delta, key: string, o: Json, n: Json, stringify: Printer)
    requires o.Obj? && n.Obj? && d.keys != [] && d.keys[0] == key
    ensures Tells(d, Some(o), Some(n), stringify) <==>
      Tells(d.(keys := d.keys[1..]), Get(o, key), Get(n, key), stringify)
  {}

  lemma BelowMembers(key: string, deltas: seq<Delta>, d: Delta)
    ensures d in Below(key, deltas) <==> d.keys != [] && d.keys[0] == key && d.(keys := d.keys[1..]) in deltas
  {
    if d.keys != [] && d.keys[0] == key && d.(keys := d.keys[1..]) in deltas {
      var i :| 0 <= i < |deltas| && deltas[i] == d.(keys := d.keys[1..]);
      assert [key] + d.keys[1..] == d.keys;
      assert Below(key, deltas)[i] == d;
    }
  }

  /** Soundness and completeness of the walk: it reports exactly the places where the values differ. */
  lemma {:induction false} ReportsWhatDiffers(o: Json, n: Json, stringify: Printer, d: Delta)
    requires o.Valid() && n.Valid() && ValueDeltas(o, n, stringify).Some?
    ensures d in ValueDeltas(o, n, stringify).value <==> Tells(d, Some(o), Some(n), stringify)
    decreases o, 1, 0
  {
    if o.Obj? && n.Obj? {
      ObjectReports(o, n, AllKeys(o.keys, n.keys), stringify, d);
      if d.keys != [] && d.keys[0] !in AllKeys(o.keys, n.keys) {
        assert Get(o, d.keys[0]) == None == Get(n, d.keys[0]);
        assert !DiffersAt(None, None, d.keys[1..], stringify);
      }
    }
  }

  lemma {:induction false} ObjectReports(o: Json, n: Json, keys: seq<string>, stringify: Printer, d: Delta)
    requires o.Valid() && n.Valid() && o.Obj? && n.Obj? && ObjectDeltas(o, n, keys, stringify).Some?
    ensures d in ObjectDeltas(o, n, keys, stringify).value <==>
      d.keys != [] && d.keys[0] in keys && Tells(d, Some(o), Some(n), stringify)
    decreases o, 0, |keys|
  {
    if keys != [] {
      var key := keys[|keys| - 1];
      var before := keys[..|keys| - 1];
      assert keys == before + [key];
      ObjectReports(o, n, before, stringify, d);
      var here := FieldDeltas(o, n, key, stringify).value;
      BelowMembers(key, here, d);
      if d.keys != [] && d.keys[0] == key {
        TellsBelow(d, key, o, n, stringify);
        FieldReports(o, n, key, stringify, d.(keys := d.keys[1..]));
      }
    }
  }

  lemma {:induction false} FieldReports(o: Json, n: Json, key: string, stringify: Printer, d: Delta)
    requires o.Valid() && n.Valid() && o.Obj? && n.Obj? && FieldDeltas(o, n, key, stringify).Some?
    ensures d in FieldDeltas(o, n, key, stringify).value <==> Tells(d, Get(o, key), Get(n, key), stringify)
    decreases o, 0, 0
  {
    var oldValue, newValue := Get(o, key), Get(n, key);
    if oldValue.Some? && newValue.Some? {
      ReportsWhatDiffers(oldValue.value, newValue.value, stringify, d);
    }
  }

  /** The first place on a chain of keys where the values differ ends every reported chain through it. */
  lemma {:induction false} ReportedChainsDoNotNest(
    o: Option<Json>, n: Option<Json>, p: seq<string>, q: seq<string>, stringify: Printer)
    requires DiffersAt(o, n, p, stringify) && DiffersAt(o, n, q, stringify) && p <= q
    ensures p == q
    decreases |p|
  {
    if p != [] {
      ReportedChainsDoNotNest(Get(o.value, p[0]), Get(n.value, p[0]), p[1..], q[1..], stringify);
      assert p == [p[0]] + p[1..] && q == [q[0]] + q[1..];
    }
  }

  ghost predicate DistinctKeys(deltas: seq<Delta>) {
    forall i, j | 0 <= i < j < |deltas| :: deltas[i].keys != deltas[j].keys
  }

  lemma {:induction false} NoPlaceTwice(o: Json, n: Json, stringify: Printer)
    requires o.Valid() && n.Valid() && ValueDeltas(o, n, stringify).Some?
    ensures DistinctKeys(ValueDeltas(o, n, stringify).value)
    decreases o, 1, 0
  {
    if o.Obj? && n.Obj? {
      NoPlaceTwiceInObject(o, n, AllKeys(o.keys, n.keys), stringify);
    }
  }

  lemma {:induction false} NoPlaceTwiceInObject(o: Json, n: Json, keys: seq<string>, stringify: Printer)
    requires o.Valid() && n.Valid() && o.Obj? && n.Obj? && NoDup(keys)
    requires ObjectDeltas(o, n, keys, stringify).Some?
    ensures var ds := ObjectDeltas(o, n, keys, stringify).value;
      DistinctKeys(ds) && forall i | 0 <= i < |ds| :: ds[i].keys != [] && ds[i].keys[0] in keys
    decreases o, 0, |keys|
  {
    if keys != [] {
      var key := keys[|keys| - 1];
      var before := keys[..|keys| - 1];
      NoPlaceTwiceInObject(o, n, before, stringify);
      var oldValue, newValue := Get(o, key), Get(n, key);
      if oldValue.Some? && newValue.Some? {
        NoPlaceTwice(oldValue.value, newValue.value, stringify);
      }
      var here := FieldDeltas(o, n, key, stringify).value;
      assert DistinctKeys(here);
      BelowKeepsDistinct(key, here);
      assert key !in before;
    }
  }

  lemma BelowKeepsDistinct(key: string, deltas: seq<Delta>)
    requires DistinctKeys(deltas)
    ensures DistinctKeys(Below(key, deltas))
    ensures forall i | 0 <= i < |deltas| :: Below(key, deltas)[i].keys != [] && Below(key, deltas)[i].keys[0] == key
  {
    forall i, j | 0 <= i < j < |deltas|
      ensures Below(key, deltas)[i].keys != Below(key, deltas)[j].keys
    {
      assert Below(key, deltas)[i].keys[1..] == deltas[i].keys;
      assert Below(key, deltas)[j].keys[1..] == deltas[j].keys;
    }
  }

  /** No reported chain of keys is a prefix of another. */
  lemma ReportsArePrefixFree(o: Json, n: Json, stringify: Printer, i: nat, j: nat)
    requires o.Valid() && n.Valid() && ValueDeltas(o, n, stringify).Some?
    requires i < |ValueDeltas(o, n, stringify).value| && j < |ValueDeltas(o, n, stringify).value| && i != j
    ensures var ds := ValueDeltas(o, n, stringify).value; !(ds[i].keys <= ds[j].keys)
  {
    var ds := ValueDeltas(o, n, stringify).value;
    ReportsWhatDiffers(o, n, stringify, ds[i]);
    ReportsWhatDiffers(o, n, stringify, ds[j]);
    NoPlaceTwice(o, n, stringify);
    if ds[i].keys <= ds[j].keys {
      ReportedChainsDoNotNest(Some(o), Some(n), ds[i].keys, ds[j].keys, stringify);
    }
  }

  /** Two values differ somewhere exactly when they are not the same. */
  lemma {:induction false} DifferenceIsSomewhere(o: Json, n: Json, stringify: Printer) returns (keys: seq<string>)
    requires !Same(o, n, stringify)
    ensures DiffersAt(Some(o), Some(n), keys, stringify)
  {
    if o.Obj? && n.Obj? {
      var k :| (k in o.fields || k in n.fields) && !SameSlot(Get(o, k), Get(n, k), stringify);
      var rest := [];
      if k in o.fields && k in n.fields {
        assert SameSlot(Get(o, k), Get(n, k), stringify) == Same(o.fields[k], n.fields[k], stringify);
        rest := DifferenceIsSomewhere(o.fields[k], n.fields[k], stringify);
      }
      keys := [k] + rest;
      assert keys[1..] == rest;
    } else {
      keys := [];
    }
  }

  lemma {:induction false} SameDiffersNowhere(o: Option<Json>, n: Option<Json>, keys: seq<string>, stringify: Printer)
    requires SameSlot(o, n, stringify)
    ensures !DiffersAt(o, n, keys, stringify)
    decreases |keys|
  {
    if keys != [] && o.Some? && n.Some? && o.value.Obj? && n.value.Obj? {
      SameDiffersNowhere(Get(o.value, keys[0]), Get(n.value, keys[0]), keys[1..], stringify);
    }
  }

  /** The report is empty exactly when the two trees are the same. */
  lemma NothingReportedMeansSame(o: Json, n: Json, stringify: Printer)
    requires o.Valid() && n.Valid() && ValueDeltas(o, n, stringify).Some?
    ensures ValueDeltas(o, n, stringify).value == [] <==> Same(o, n, stringify)
  {
    var ds := ValueDeltas(o, n, stringify).value;
    if Same(o, n, stringify) && ds != [] {
      ReportsWhatDiffers(o, n, stringify, ds[0]);
      SameDiffersNowhere(Some(o), Some(n), ds[0].keys, stringify);
    }
    if !Same(o, n, stringify) {
      var keys := DifferenceIsSomewhere(o, n, stringify);
      var d := Delta(keys, Look(Some(o), keys), Look(Some(n), keys));
      ReportsWhatDiffers(o, n, stringify, d);
    }
  }

  function Swap(d: Delta): Delta {
    Delta(d.keys, d.newValue, d.oldValue)
  }

  lemma {:induction false} SameIsSymmetric(a: Json, b: Json, stringify: Printer)
    ensures Same(a, b, stringify) <==> Same(b, a, stringify)
  {
    if a.Obj? && b.Obj? {
      forall k | k in a.fields && k in b.fields {
        SameIsSymmetric(a.fields[k], b.fields[k], stringify);
      }
    }
  }

  lemma {:induction false} DiffersBothWays(o: Option<Json>, n: Option<Json>, keys: seq<string>, stringify: Printer)
    ensures DiffersAt(o, n, keys, stringify) <==> DiffersAt(n, o, keys, stringify)
    decreases |keys|
  {
    if keys != [] {
      if o.Some? && n.Some? {
        DiffersBothWays(Get(o.value, keys[0]), Get(n.value, keys[0]), keys[1..], stringify);
      }
    } else if o.Some? && n.Some? {
      SameIsSymmetric(o.value, n.value, stringify);
    }
  }

  /** Comparing the other way round reports the same places with the values swapped, if it does not throw. */
  lemma SwappingSwaps(o: Json, n: Json, stringify: Printer, d: Delta)
    requires o.Valid() && n.Valid()
    requires ValueDeltas(o, n, stringify).Some? && ValueDeltas(n, o, stringify).Some?
    ensures d in ValueDeltas(o, n, stringify).value <==> Swap(d) in ValueDeltas(n, o, stringify).value
  {
    ReportsWhatDiffers(o, n, stringify, d);
    ReportsWhatDiffers(n, o, stringify, Swap(d));
    DiffersBothWays(Some(o), Some(n), d.keys, stringify);
  }

  /** An object on the old side meets null on the new side. */
  ghost predicate MeetsNull(o: Json, n: Json, keys: seq<string>) {
    var oldValue, newValue := Look(Some(o), keys), Look(Some(n), keys);
    oldValue.Some? && oldValue.value.Obj? && newValue == Some(Null)
  }

  /** The comparison throws exactly when somewhere an object has become null. */
  lemma {:induction false} ThrowsOnNull(o: Json, n: Json, stringify: Printer)
    requires o.Valid() && n.Valid()
    ensures ValueDeltas(o, n, stringify).None? <==> exists keys :: MeetsNull(o, n, keys)
    decreases o, 1, 0
  {
    hide ObjectDeltas, AllKeys, FieldMeetsNull, Look;
    if o.Obj? && n.Obj? {
      ObjectThrowsOnNull(o, n, AllKeys(o.keys, n.keys), stringify);
      MeetsNullInField(o, n);
    } else if o.Obj? && n == Null {
      MeetsNullAtOnce(o);
    } else {
      NoNullToMeet(o, n);
    }
  }

  lemma MeetsNullAtOnce(o: Json)
    requires o.Obj?
    ensures MeetsNull(o, Null, [])
  {}

  lemma NoNullToMeet(o: Json, n: Json)
    requires !(o.Obj? && (n.Obj? || n == Null))
    ensures forall keys :: !MeetsNull(o, n, keys)
  {
    forall keys
      ensures !MeetsNull(o, n, keys)
    {
      if keys != [] {
        LookNone(keys[1..]);
      }
    }
  }

  lemma MeetsNullInField(o: Json, n: Json)
    requires o.Valid() && n.Valid() && o.Obj? && n.Obj?
    ensures (exists keys :: MeetsNull(o, n, keys)) <==>
      exists k :: k in AllKeys(o.keys, n.keys) && FieldMeetsNull(o, n, k)
  {
    hide Look, MeetsNull, FieldMeetsNull, AllKeys;
    forall k | FieldMeetsNull(o, n, k)
      ensures exists keys :: MeetsNull(o, n, keys)
    {
      var keys := NullThroughField(o, n, k);
    }
    forall keys | MeetsNull(o, n, keys)
      ensures keys != [] && keys[0] in AllKeys(o.keys, n.keys) && FieldMeetsNull(o, n, keys[0])
    {
      NullIsInField(o, n, keys);
    }
  }

  lemma NullThroughField(o: Json, n: Json, k: string) returns (keys: seq<string>)
    requires o.Obj? && n.Obj? && FieldMeetsNull(o, n, k)
    ensures MeetsNull(o, n, keys)
  {
    var rest :| MeetsNull(Get(o, k).value, Get(n, k).value, rest);
    keys := [k] + rest;
    assert keys[1..] == rest;
  }

  lemma NullIsInField(o: Json, n: Json, keys: seq<string>)
    requires o.Obj? && n.Obj? && MeetsNull(o, n, keys)
    ensures keys != [] && keys[0] in o.fields && FieldMeetsNull(o, n, keys[0])
  {
    LookNone(keys[1..]);
    assert MeetsNull(Get(o, keys[0]).value, Get(n, keys[0]).value, keys[1..]);
  }

  lemma {:induction false} LookNone(keys: seq<string>)
    ensures Look(None, keys) == None
  {
    if keys != [] {
      LookNone(keys[1..]);
    }
  }

  ghost predicate FieldMeetsNull(o: Json, n: Json, key: string) {
    Get(o, key).Some? && Get(n, key).Some? && exists keys :: MeetsNull(Get(o, key).value, Get(n, key).value, keys)
  }

  lemma {:induction false} ObjectThrowsOnNull(o: Json, n: Json, keys: seq<string>, stringify: Printer)
    requires o.Valid() && n.Valid() && o.Obj? && n.Obj?
    ensures ObjectDeltas(o, n, keys, stringify).None? <==> exists k :: k in keys && FieldMeetsNull(o, n, k)
    decreases o, 0, |keys|
  {
    if keys != [] {
      var key := keys[|keys| - 1];
      var before := keys[..|keys| - 1];
      assert keys == before + [key];
      ObjectThrowsOnNull(o, n, before, stringify);
      if Get(o, key).Some? && Get(n, key).Some? {
        ThrowsOnNull(Get(o, key).value, Get(n, key).value, stringify);
      }
      assert FieldDeltas(o, n, key, stringify).None? <==> FieldMeetsNull(o, n, key);
      assert key in keys && forall k | k in before :: k in keys;
    }
  }

  function Without(keys: seq<string>, key: string): (rest: seq<string>)
    ensures forall k :: k in rest <==> k in keys && k != key
  {
    if keys == [] then [] else (if keys[0] == key then [] else [keys[0]]) + Without(keys[1..], key)
  }

  /** Sets a field, or removes it. */
  function SetField(j: Json, key: string, v: Option<Json>): Json
    requires j.Obj?
  {
    if v.Some? then Obj(Add(j.keys, key), j.fields[key := v.value])
    else Obj(Without(j.keys, key), j.fields - {key})
  }

  /** Puts `v` at the end of a chain of keys; a chain that leaves the objects changes nothing. */
  function Put(slot: Option<Json>, keys: seq<string>, v: Option<Json>): Option<Json>
    decreases |keys|
  {
    if keys == [] then v
    else if slot.Some? && slot.value.Obj? then
      Some(SetField(slot.value, keys[0], Put(Get(slot.value, keys[0]), keys[1..], v)))
    else slot
  }

  function ApplyAll(slot: Option<Json>, deltas: seq<Delta>): Option<Json>
    decreases |deltas|
  {
    if deltas == [] then slot else ApplyAll(Put(slot, deltas[0].keys, deltas[0].newValue), deltas[1..])
  }

  lemma {:induction false} ApplyAppend(slot: Option<Json>, a: seq<Delta>, b: seq<Delta>)
    ensures ApplyAll(slot, a + b) == ApplyAll(ApplyAll(slot, a), b)
    decreases |a|
  {
    if a == [] {
      assert a + b == b;
    } else {
      assert (a + b)[1..] == a[1..] + b;
      ApplyAppend(Put(slot, a[0].keys, a[0].newValue), a[1..], b);
    }
  }

  /** Changes below one key touch that field only, and do to it what they say. */
  lemma {:induction false} ApplyBelow(j: Json, key: string, deltas: seq<Delta>)
    requires j.Obj?
    ensures var r := ApplyAll(Some(j), Below(key, deltas));
      && r.Some? && r.value.Obj?
      && Get(r.value, key) == ApplyAll(Get(j, key), deltas)
      && forall k | k != key :: Get(r.value, k) == Get(j, k)
    decreases |deltas|
  {
    if deltas != [] {
      var d := deltas[0];
      var all := Below(key, deltas);
      assert all[0].keys[1..] == d.keys && all[1..] == Below(key, deltas[1..]);
      ApplyBelow(SetField(j, key, Put(Get(j, key), d.keys, d.newValue)), key, deltas[1..]);
    }
  }

  lemma {:induction false} SameIsReflexive(a: Json, stringify: Printer)
    ensures Same(a, a, stringify)
  {
    if a.Obj? {
      forall k | k in a.fields {
        SameIsReflexive(a.fields[k], stringify);
      }
    }
  }

  /** The report is a patch: applied to the old value it gives the new one. */
  lemma {:induction false} ReportIsAPatch(o: Json, n: Json, stringify: Printer)
    requires o.Valid() && n.Valid() && ValueDeltas(o, n, stringify).Some?
    ensures SameSlot(ApplyAll(Some(o), ValueDeltas(o, n, stringify).value), Some(n), stringify)
    decreases o, 1, 0
  {
    SameIsReflexive(n, stringify);
    if o.Obj? && n.Obj? {
      var all := AllKeys(o.keys, n.keys);
      ObjectReportIsAPatch(o, n, all, stringify);
      var r := ApplyAll(Some(o), ValueDeltas(o, n, stringify).value).value;
      forall k
        ensures SameSlot(Get(r, k), Get(n, k), stringify)
      {
        if k !in all {
          assert Get(o, k) == None == Get(n, k);
        }
      }
      SameFieldsMeanSame(r, n, stringify);
    }
  }

  lemma SameFieldsMeanSame(a: Json, b: Json, stringify: Printer)
    requires a.Obj? && b.Obj? && forall k :: SameSlot(Get(a, k), Get(b, k), stringify)
    ensures Same(a, b, stringify)
  {
    forall k
      ensures k in a.fields <==> k in b.fields
      ensures k in a.fields && k in b.fields ==> Same(a.fields[k], b.fields[k], stringify)
    {
      assert SameSlot(Get(a, k), Get(b, k), stringify);
    }
  }

  lemma {:induction false} ObjectReportIsAPatch(o: Json, n: Json, keys: seq<string>, stringify: Printer)
    requires o.Valid() && n.Valid() && o.Obj? && n.Obj? && NoDup(keys)
    requires ObjectDeltas(o, n, keys, stringify).Some?
    ensures var r := ApplyAll(Some(o), ObjectDeltas(o, n, keys, stringify).value);
      && r.Some? && r.value.Obj?
      && (forall k | k in keys :: SameSlot(Get(r.value, k), Get(n, k), stringify))
      && forall k | k !in keys :: Get(r.value, k) == Get(o, k)
    decreases o, 0, |keys|
  {
    if keys != [] {
      var key := keys[|keys| - 1];
      var before := keys[..|keys| - 1];
      assert keys == before + [key] && key !in before;
      ObjectReportIsAPatch(o, n, before, stringify);
      var earlier := ObjectDeltas(o, n, before, stringify).value;
      var here := FieldDeltas(o, n, key, stringify).value;
      var middle := ApplyAll(Some(o), earlier).value;
      ApplyAppend(Some(o), earlier, Below(key, here));
      ApplyBelow(middle, key, here);
      FieldReportIsAPatch(o, n, key, stringify);
    }
  }

  lemma {:induction false} FieldReportIsAPatch(o: Json, n: Json, key: string, stringify: Printer)
    requires o.Valid() && n.Valid() && o.Obj? && n.Obj? && FieldDeltas(o, n, key, stringify).Some?
    ensures SameSlot(ApplyAll(Get(o, key), FieldDeltas(o, n, key, stringify).value), Get(n, key), stringify)
    decreases o, 0, 0
  {
    var oldValue, newValue := Get(o, key), Get(n, key);
    if oldValue.Some? && newValue.Some? {
      ReportIsAPatch(oldValue.value, newValue.value, stringify);
    } else if newValue.Some? {
      SameIsReflexive(newValue.value, stringify);
    }
  }

  /** The changes as the source lists them, found below `path`. */
  function Printed(path: string, deltas: seq<Delta>): seq<PropertyChange> {
    seq(|deltas|, i requires 0 <= i < |deltas| =>
      PropertyChange(JoinFrom(path, deltas[i].keys), deltas[i].oldValue, deltas[i].newValue))
  }

  function OutcomeOf(path: string, deltas: Option<seq<Delta>>): Outcome {
    if deltas.None? then TypeError else Changes(Printed(path, deltas.value))
  }

  /** What the walk finds in two property objects; nothing, if there is no new one to list the keys of. */
  function PropertyDeltas(o: Json, n: Json, stringify: Printer): Option<seq<Delta>>
    requires o.Valid() && n.Valid() && o.Obj?
  {
    if n.Obj? then ObjectDeltas(o, n, AllKeys(o.keys, n.keys), stringify) else None
  }

  function PathBelow(path: string, key: string): string {
    if path != "" then path + "." + key else key
  }

  lemma PrintedBelow(path: string, key: string, before: seq<Delta>, here: seq<Delta>)
    ensures Printed(path, before + Below(key, here)) == Printed(path, before) + Printed(PathBelow(path, key), here)
  {
    forall i | 0 <= i < |here|
      ensures JoinFrom(path, Below(key, here)[i].keys) == JoinFrom(PathBelow(path, key), here[i].keys)
    {
      assert Below(key, here)[i].keys[1..] == here[i].keys;
    }
  }

  lemma NoKeys(o: Json, n: Json, keys: seq<string>, path: string, stringify: Printer)
    requires o.Valid() && n.Valid() && o.Obj? && n.Obj?
    ensures ObjectDeltas(o, n, keys[..0], stringify) == Some([]) && Printed(path, []) == []
  {}

  lemma NextKey(o: Json, n: Json, keys: seq<string>, i: nat, path: string, stringify: Printer)
    requires o.Valid() && n.Valid() && o.Obj? && n.Obj? && i < |keys|
    requires ObjectDeltas(o, n, keys[..i], stringify).Some?
    ensures var here, all := FieldDeltas(o, n, keys[i], stringify), ObjectDeltas(o, n, keys[..i + 1], stringify);
      && (here.Some? <==> all.Some?)
      && (here.Some? ==>
            Printed(path, all.value) ==
            Printed(path, ObjectDeltas(o, n, keys[..i], stringify).value) +
            Printed(PathBelow(path, keys[i]), here.value))
  {
    hide Printed;
    assert keys[..i + 1][..i] == keys[..i];
    var here := FieldDeltas(o, n, keys[i], stringify);
    if here.Some? {
      PrintedBelow(path, keys[i], ObjectDeltas(o, n, keys[..i], stringify).value, here.value);
    }
  }

  lemma PrintedWhole(path: string, oldValue: Option<Json>, newValue: Option<Json>)
    ensures Printed(path, []) == []
    ensures Printed(path, [Delta([], oldValue, newValue)]) == [PropertyChange(path, oldValue, newValue)]
  {}

  method CompareProperties(oldProps: Json, newProps: Json, path: string, stringify: Printer) returns (r: Outcome)
    requires oldProps.Valid() && newProps.Valid()
    requires oldProps.Obj? && (newProps.Obj? || newProps == Null)
    ensures r == OutcomeOf(path, PropertyDeltas(oldProps, newProps, stringify))
    decreases oldProps
  {
    hide ObjectDeltas, Printed, Below, AllKeys;
    if newProps == Null {
      return TypeError;
    }
    var changes: seq<PropertyChange> := [];
    var allKeys := AllKeys(oldProps.keys, newProps.keys);
    NoKeys(oldProps, newProps, allKeys, path, stringify);
    for i := 0 to |allKeys|
      invariant ObjectDeltas(oldProps, newProps, allKeys[..i], stringify).Some?
      invariant changes == Printed(path, ObjectDeltas(oldProps, newProps, allKeys[..i], stringify).value)
    {
      var key := allKeys[i];
      var currentPath := if path != "" then path + "." + key else key;
      var oldValue, newValue := Get(oldProps, key), Get(newProps, key);
      NextKey(oldProps, newProps, allKeys, i, path, stringify);
      PrintedWhole(currentPath, oldValue, newValue);
      var change := PropertyChange(currentPath, oldValue, newValue);
      if oldValue.None? && newValue.Some? {
        changes := changes + [change];
      } else if oldValue.Some? && newValue.None? {
        changes := changes + [change];
      } else if oldValue.Some? && newValue.Some? && TypeOf(oldValue.value) != TypeOf(newValue.value) {
        changes := changes + [change];
      } else if oldValue.Some? && TypeOf(oldValue.value) == IsObject && oldValue.value != Null {
        if oldValue.value.Arr? && newValue.value.Arr? {
          if stringify(oldValue.value) != stringify(newValue.value) {
            changes := changes + [change];
          }
        } else if !oldValue.value.Arr? && !newValue.value.Arr? {
          var nested := CompareProperties(oldValue.value, newValue.value, currentPath, stringify);
          if nested.TypeError? {
            AnyKeyThrows(oldProps, newProps, allKeys, i, stringify);
            return TypeError;
          }
          changes := changes + nested.changes;
        } else {
          changes := changes + [change];
        }
      } else if oldValue != newValue {
        changes := changes + [change];
      }
    }
    assert allKeys[..|allKeys|] == allKeys;
    r := Changes(changes);
  }

  lemma {:induction false} AnyKeyThrows(o: Json, n: Json, keys: seq<string>, i: nat, stringify: Printer)
    requires o.Valid() && n.Valid() && o.Obj? && n.Obj? && i < |keys|
    requires FieldDeltas(o, n, keys[i], stringify).None?
    ensures ObjectDeltas(o, n, keys, stringify).None?
  {
    if i < |keys| - 1 {
      AnyKeyThrows(o, n, keys[..|keys| - 1], i, stringify);
    }
  }

  /** Every key of every object inside `j` is nonempty and has no dot in it. */
  ghost predicate PlainKeys(j: Json) {
    j.Obj? ==> forall k | k in j.fields :: k != "" && '.' !in k && PlainKeys(j.fields[k])
  }

  lemma {:induction false} ReportedKeysArePlain(o: Option<Json>, n: Option<Json>, keys: seq<string>, stringify: Printer)
    requires o.Some? ==> PlainKeys(o.value)
    requires n.Some? ==> PlainKeys(n.value)
    requires DiffersAt(o, n, keys, stringify)
    ensures DotFree(keys) && forall i | 0 <= i < |keys| :: keys[i] != ""
    decreases |keys|
  {
    if keys != [] {
      ReportedKeysArePlain(Get(o.value, keys[0]), Get(n.value, keys[0]), keys[1..], stringify);
      assert Get(o.value, keys[0]).Some? || Get(n.value, keys[0]).Some? by {
        assert keys[1..] == [] || keys[1..] != [];
      }
      assert forall i | 0 < i < |keys| :: keys[i] == keys[1..][i - 1];
    }
  }

  /** Applying changes by the path printed in them. */
  function ApplyPrinted(slot: Option<Json>, changes: seq<PropertyChange>): Option<Json>
    decreases |changes|
  {
    if changes == [] then slot
    else ApplyPrinted(Put(slot, Split(changes[0].path), changes[0].newValue), changes[1..])
  }

  lemma {:induction false} PrintedPathsApply(slot: Option<Json>, deltas: seq<Delta>)
    requires forall i | 0 <= i < |deltas| :: Split(JoinFrom("", deltas[i].keys)) == deltas[i].keys
    ensures ApplyPrinted(slot, Printed("", deltas)) == ApplyAll(slot, deltas)
    decreases |deltas|
  {
    if deltas != [] {
      assert Printed("", deltas)[1..] == Printed("", deltas[1..]);
      PrintedPathsApply(Put(slot, deltas[0].keys, deltas[0].newValue), deltas[1..]);
    }
  }

  /** The printed path of a report splits into its keys: no dot in them, no way through an empty key at the top. */
  ghost predicate ReadsAsPrinted(keys: seq<string>) {
    keys != [] && DotFree(keys) && (keys[0] != "" || |keys| == 1)
  }

  /** Where the reported paths read back, the printed changes alone turn the old properties into the new ones. */
  lemma PrintedReportIsAPatch(o: Json, n: Json, stringify: Printer)
    requires o.Valid() && n.Valid() && o.Obj? && n.Obj?
    requires var deltas := PropertyDeltas(o, n, stringify);
      deltas.Some? && forall i | 0 <= i < |deltas.value| :: ReadsAsPrinted(deltas.value[i].keys)
    ensures SameSlot(
      ApplyPrinted(Some(o), Printed("", PropertyDeltas(o, n, stringify).value)), Some(n), stringify)
  {
    var ds := PropertyDeltas(o, n, stringify).value;
    forall i | 0 <= i < |ds|
      ensures Split(JoinFrom("", ds[i].keys)) == ds[i].keys
    {
      PathsReadBack(ds[i].keys);
    }
    PrintedPathsApply(Some(o), ds);
    ReportIsAPatch(o, n, stringify);
  }

  /** So it is at least where all property names are plain. */
  lemma PlainNamesReadAsPrinted(o: Json, n: Json, stringify: Printer)
    requires o.Valid() && n.Valid() && o.Obj? && n.Obj? && PlainKeys(o) && PlainKeys(n)
    ensures var deltas := PropertyDeltas(o, n, stringify);
      deltas.Some? ==> forall i | 0 <= i < |deltas.value| :: ReadsAsPrinted(deltas.value[i].keys)
  {
    hide PlainKeys;
    var deltas := PropertyDeltas(o, n, stringify);
    if deltas.Some? {
      forall i | 0 <= i < |deltas.value|
        ensures ReadsAsPrinted(deltas.value[i].keys)
      {
        ReportsWhatDiffers(o, n, stringify, deltas.value[i]);
        ReportedKeysArePlain(Some(o), Some(n), deltas.value[i].keys, stringify);
      }
    }
  }
}
