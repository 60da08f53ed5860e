/** Nested request parameters, flattened to dotted names: packages/core/src/aws/cloudformation.ts. */
module Parameters {
  import opened OrderedSets
  import opened PropertyPaths
  import opened Templates
  import opened Wrappers

  /** `String(value)` of what is neither an object nor null. */
  type Show = Json -> string

  /** A key is printed behind a dot unless nothing precedes it, an item number always is. */
  datatype Step = Key(name: string) | Item(number: nat)

  datatype Leaf = Leaf(path: seq<Step>, value: string)

  datatype Outcome = Flat(params: map<string, string>) | TypeError

  // ---------- Decimal numerals ----------

  function Decimal(n: nat): (s: string)
    ensures s != "" && forall i | 0 <= i < |s| :: '0' <= s[i] <= '9'
  {
    var digit := ('0' as int + n % 10) as char;
    if n < 10 then [digit] else Decimal(n / 10) + [digit]
  }

  /** No zeros in front. */
  lemma {:induction false} DecimalIsShort(n: nat)
    ensures |Decimal(n)| > 1 ==> Decimal(n)[0] != '0'
    ensures n > 0 ==> Decimal(n)[0] != '0'
  {
    if n >= 10 {
      DecimalIsShort(n / 10);
    }
  }

  function NumberOf(s: string): int {
    if s == "" then 0 else 10 * NumberOf(s[..|s| - 1]) + (s[|s| - 1] as int - '0' as int)
  }

  lemma {:induction false} DecimalReadsBack(n: nat)
    ensures NumberOf(Decimal(n)) == n
  {
    if n < 10 {
      assert Decimal(n)[..0] == "";
    } else {
      DecimalReadsBack(n / 10);
      assert Decimal(n)[..|Decimal(n)| - 1] == Decimal(n / 10);
    }
  }

  // ---------- The tree of parameters ----------

  predicate Nested(j: Json) {
    j.Arr? || j.Obj?
  }

  function Width(j: Json): nat
    requires Nested(j)
  {
    if j.Arr? then |j.items| else |j.keys|
  }

  function Child(j: Json, i: nat): (c: Json)
    requires j.Valid() && Nested(j) && i < Width(j)
    ensures c.Valid() && c < j
  {
    if j.Arr? then j.items[i] else j.fields[j.keys[i]]
  }

  /** An array is numbered from one, but from zero when it is itself an item of such an array. */
  function StepTo(j: Json, isItem: bool, i: nat): Step
    requires Nested(j) && i < Width(j)
  {
    if j.Obj? then Key(j.keys[i]) else if isItem then Key(Decimal(i)) else Item(i + 1)
  }

  /** Whether the children of `j` are items of an array that is numbered from one. */
  predicate HoldsItems(j: Json, isItem: bool) {
    j.Arr? && !isItem
  }

  function NameOf(s: Step): string {
    match s
    case Key(name) => name
    case Item(number) => Decimal(number)
  }

  function NamesOf(path: seq<Step>): seq<string> {
    seq(|path|, i requires 0 <= i < |path| => NameOf(path[i]))
  }

  // ---------- What flattening lists ----------

  function Below(step: Step, leaves: seq<Leaf>): seq<Leaf> {
    seq(|leaves|, i requires 0 <= i < |leaves| => Leaf([step] + leaves[i].path, leaves[i].value))
  }

  /** The leaves of `j` in the order they are assigned; none, if the source throws. */
  function Leaves(j: Json, isItem: bool, shown: Show): Option<seq<Leaf>>
    requires j.Valid()
    decreases j, 1, 0
  {
    if j.Null? then (if isItem then None else Some([]))
    else if Nested(j) then LeavesUpTo(j, isItem, Width(j), shown)
    else Some([Leaf([], shown(j))])
  }

  function LeavesUpTo(j: Json, isItem: bool, n: nat, shown: Show): Option<seq<Leaf>>
    requires j.Valid() && Nested(j) && n <= Width(j)
    decreases j, 0, n
  {
    if n == 0 then Some([])
    else
      match (LeavesUpTo(j, isItem, n - 1, shown), Leaves(Child(j, n - 1), HoldsItems(j, isItem), shown))
      case (Some(before), Some(here)) => Some(before + Below(StepTo(j, isItem, n - 1), here))
      case _ => None
  }

  // ---------- Printed names and assignments ----------

  function Extend(prefix: string, step: Step): string {
    match step
    case Key(name) => if prefix != "" then prefix + "." + name else name
    case Item(number) => prefix + "." + Decimal(number)
  }

  function Printed(prefix: string, path: seq<Step>): string
    decreases |path|
  {
    if path == [] then prefix else Printed(Extend(prefix, path[0]), path[1..])
  }

  /** The leaves assigned one after the other, a later one over an earlier one of the same name. */
  function Assigned(m: map<string, string>, prefix: string, leaves: seq<Leaf>): map<string, string> {
    if leaves == [] then m
    else
      var last := leaves[|leaves| - 1];
      Assigned(m, prefix, leaves[..|leaves| - 1])[Printed(prefix, last.path) := last.value]
  }

  function Outcomes(prefix: string, leaves: Option<seq<Leaf>>): Outcome {
    if leaves.None? then TypeError else Flat(Assigned(map[], prefix, leaves.value))
  }

  lemma {:induction false} AssignedAppend(m: map<string, string>, prefix: string, a: seq<Leaf>, b: seq<Leaf>)
    ensures Assigned(m, prefix, a + b) == Assigned(Assigned(m, prefix, a), prefix, b)
  {
    if b == [] {
      assert a + b == a;
    } else {
      AssignedAppend(m, prefix, a, b[..|b| - 1]);
      assert (a + b)[..|a + b| - 1] == a + b[..|b| - 1];
    }
  }

  lemma PrintedBelow(prefix: string, step: Step, path: seq<Step>)
    ensures Printed(prefix, [step] + path) == Printed(Extend(prefix, step), path)
  {
    assert ([step] + path)[1..] == path;
  }

  lemma {:induction false} AssignedBelow(m: map<string, string>, prefix: string, step: Step, leaves: seq<Leaf>)
    ensures Assigned(m, prefix, Below(step, leaves)) == Assigned(m, Extend(prefix, step), leaves)
  {
    hide Printed, Extend;
    if leaves != [] {
      var n := |leaves| - 1;
      AssignedBelow(m, prefix, step, leaves[..n]);
      assert Below(step, leaves)[..n] == Below(step, leaves[..n]);
      PrintedBelow(prefix, step, leaves[n].path);
    }
  }

  lemma {:induction false} MergedIsAssigned(m: map<string, string>, prefix: string, leaves: seq<Leaf>)
    ensures m + Assigned(map[], prefix, leaves) == Assigned(m, prefix, leaves)
  {
    if leaves != [] {
      MergedIsAssigned(m, prefix, leaves[..|leaves| - 1]);
    }
  }

  /** One more child: what is assigned so far, and what assigning it as a whole or as one value gives. */
  lemma NextChild(m: map<string, string>, prefix: string, j: Json, isItem: bool, i: nat, shown: Show)
    requires j.Valid() && Nested(j) && i < Width(j)
    requires LeavesUpTo(j, isItem, i, shown).Some?
    ensures var here, all := Leaves(Child(j, i), HoldsItems(j, isItem), shown), LeavesUpTo(j, isItem, i + 1, shown);
      && (here.Some? <==> all.Some?)
      && (here.Some? ==>
            && Assigned(m, prefix, all.value) ==
               Assigned(Assigned(m, prefix, LeavesUpTo(j, isItem, i, shown).value),
                        Extend(prefix, StepTo(j, isItem, i)), here.value))
  {
    hide Assigned, Below;
    var here := Leaves(Child(j, i), HoldsItems(j, isItem), shown);
    if here.Some? {
      var before := LeavesUpTo(j, isItem, i, shown).value;
      AssignedAppend(m, prefix, before, Below(StepTo(j, isItem, i), here.value));
      AssignedBelow(Assigned(m, prefix, before), prefix, StepTo(j, isItem, i), here.value);
    }
  }

  lemma {:induction false} AnyChildThrows(j: Json, isItem: bool, i: nat, n: nat, shown: Show)
    requires j.Valid() && Nested(j) && i < n <= Width(j)
    requires Leaves(Child(j, i), HoldsItems(j, isItem), shown).None?
    ensures LeavesUpTo(j, isItem, n, shown).None?
  {
    if i < n - 1 {
      AnyChildThrows(j, isItem, i, n - 1, shown);
    }
  }

  lemma OneLeaf(m: map<string, string>, prefix: string, v: string)
    ensures Assigned(m, prefix, []) == m
    ensures Assigned(m, prefix, [Leaf([], v)]) == m[prefix := v]
  {
    assert [Leaf([], v)][..0] == [];
    assert Printed(prefix, []) == prefix;
  }

  lemma {:induction false} ObjectsAreNoItems(j: Json, n: nat, shown: Show)
    requires j.Valid() && j.Obj? && n <= Width(j)
    ensures LeavesUpTo(j, true, n, shown) == LeavesUpTo(j, false, n, shown)
  {
    if n > 0 {
      ObjectsAreNoItems(j, n - 1, shown);
    }
  }

  // ---------- The recursive loop ----------

  method FlattenParams(params: Json, prefix: string, shown: Show) returns (r: Outcome)
    requires params.Valid() && (Nested(params) || params.Null?)
    ensures r == Outcomes(prefix, Leaves(params, true, shown))
    decreases params, 1
  {
    hide Assigned, LeavesUpTo;
    if params.Null? {
      return TypeError;
    }
    var result: map<string, string> := map[];
    NothingYet(prefix, params, true, shown);
    for i := 0 to Width(params)
      invariant LeavesUpTo(params, true, i, shown).Some?
      invariant result == Assigned(map[], prefix, LeavesUpTo(params, true, i, shown).value)
    {
      var key, value := NameOf(StepTo(params, true, i)), Child(params, i);
      var fullKey := if prefix != "" then prefix + "." + key else key;
      NextChild(map[], prefix, params, true, i, shown);
      var next := FlattenValue(value, fullKey, result, shown);
      if next.TypeError? {
        AnyChildThrows(params, true, i, Width(params), shown);
        return TypeError;
      }
      result := next.params;
    }
    r := Flat(result);
  }

  lemma NothingYet(prefix: string, j: Json, isItem: bool, shown: Show)
    requires j.Valid() && Nested(j)
    ensures LeavesUpTo(j, isItem, 0, shown) == Some([])
    ensures forall m :: Assigned(m, prefix, []) == m
  {}

  /** The body of the loop over the entries, which writes into the result so far. */
  method FlattenValue(value: Json, fullKey: string, soFar: map<string, string>, shown: Show) returns (r: Outcome)
    requires value.Valid()
    ensures var here := Leaves(value, false, shown);
      r == if here.None? then TypeError else Flat(Assigned(soFar, fullKey, here.value))
    decreases value, 2
  {
    hide Assigned, LeavesUpTo;
    var result := soFar;
    NothingYet(fullKey, if Nested(value) then value else Arr([]), false, shown);
    if value.Arr? {
      for index := 0 to |value.items|
        invariant LeavesUpTo(value, false, index, shown).Some?
        invariant result == Assigned(soFar, fullKey, LeavesUpTo(value, false, index, shown).value)
      {
        var item := value.items[index];
        var itemKey := fullKey + "." + Decimal(index + 1);
        NextChild(soFar, fullKey, value, false, index, shown);
        if item.Null? || Nested(item) {
          var nested := FlattenParams(item, itemKey, shown);
          if nested.TypeError? {
            AnyChildThrows(value, false, index, |value.items|, shown);
            return TypeError;
          }
          MergedIsAssigned(result, itemKey, Leaves(item, true, shown).value);
          result := result + nested.params;
        } else {
          OneLeaf(result, itemKey, shown(item));
          result := result[itemKey := shown(item)];
        }
      }
    } else if value.Obj? {
      var nested := FlattenParams(value, fullKey, shown);
      ObjectsAreNoItems(value, Width(value), shown);
      if nested.TypeError? {
        return TypeError;
      }
      MergedIsAssigned(result, fullKey, Leaves(value, false, shown).value);
      result := result + nested.params;
    } else if !value.Null? {
      OneLeaf(result, fullKey, shown(value));
      result := result[fullKey := shown(value)];
    }
    r := Flat(result);
  }

  // ---------- What flattening means ----------

  datatype Place = Place(value: Json, isItem: bool)

  /** One name down, reading array positions as they are numbered. */
  function Enter(p: Place, name: string): Option<Place>
    requires p.value.Valid()
  {
    var j := p.value;
    if j.Obj? then
      if name in j.fields then Some(Place(j.fields[name], false)) else None
    else if j.Arr? then
      var n := NumberOf(name) - (if p.isItem then 0 else 1);
      if 0 <= n < |j.items| && name == Decimal(NumberOf(name)) then Some(Place(j.items[n], !p.isItem)) else None
    else None
  }

  function Follow(p: Place, names: seq<string>): Option<Place>
    requires p.value.Valid()
    ensures Follow(p, names).Some? ==> Follow(p, names).value.value.Valid()
    decreases |names|
  {
    if names == [] then Some(p)
    else
      match Enter(p, names[0])
      case None => None
      case Some(below) => Follow(below, names[1..])
  }

  /** The value a chain of names leads to, as it is shown. */
  function ReadAt(p: Place, names: seq<string>, shown: Show): Option<string>
    requires p.value.Valid()
  {
    match Follow(p, names)
    case None => None
    case Some(end) => if end.value.Null? || Nested(end.value) then None else Some(shown(end.value))
  }

  /** The children are entered by the names their steps print. */
  lemma ChildHasItsName(j: Json, isItem: bool, i: nat)
    requires j.Valid() && Nested(j) && i < Width(j)
    ensures Enter(Place(j, isItem), NameOf(StepTo(j, isItem, i))) == Some(Place(Child(j, i), HoldsItems(j, isItem)))
  {
    hide NumberOf, Decimal;
    if j.Arr? {
      DecimalReadsBack(if isItem then i else i + 1);
    }
  }

  lemma EnteredIsAChild(j: Json, isItem: bool, name: string) returns (i: nat)
    requires j.Valid() && Enter(Place(j, isItem), name).Some?
    ensures Nested(j) && i < Width(j) && name == NameOf(StepTo(j, isItem, i))
    ensures Enter(Place(j, isItem), name) == Some(Place(Child(j, i), HoldsItems(j, isItem)))
  {
    if j.Obj? {
      i := IndexIn(j.keys, name);
    } else {
      i := NumberOf(name) - (if isItem then 0 else 1);
    }
  }

  /** Every leaf listed comes from a child. */
  lemma {:induction false} FromAChild(j: Json, isItem: bool, n: nat, shown: Show, l: Leaf) returns (i: nat, inner: Leaf)
    requires j.Valid() && Nested(j) && n <= Width(j)
    requires LeavesUpTo(j, isItem, n, shown).Some? && l in LeavesUpTo(j, isItem, n, shown).value
    ensures i < n && Leaves(Child(j, i), HoldsItems(j, isItem), shown).Some?
    ensures inner in Leaves(Child(j, i), HoldsItems(j, isItem), shown).value
    ensures l == Leaf([StepTo(j, isItem, i)] + inner.path, inner.value)
  {
    var here := Leaves(Child(j, n - 1), HoldsItems(j, isItem), shown).value;
    if l in LeavesUpTo(j, isItem, n - 1, shown).value {
      i, inner := FromAChild(j, isItem, n - 1, shown, l);
    } else {
      var k :| 0 <= k < |here| && Below(StepTo(j, isItem, n - 1), here)[k] == l;
      i, inner := n - 1, here[k];
    }
  }

  lemma {:induction false} IntoTheList(j: Json, isItem: bool, n: nat, shown: Show, i: nat, inner: Leaf)
    requires j.Valid() && Nested(j) && i < n <= Width(j) && LeavesUpTo(j, isItem, n, shown).Some?
    ensures var here := Leaves(Child(j, i), HoldsItems(j, isItem), shown);
      && here.Some?
      && (inner in here.value ==>
            Leaf([StepTo(j, isItem, i)] + inner.path, inner.value) in LeavesUpTo(j, isItem, n, shown).value)
  {
    if i < n - 1 {
      IntoTheList(j, isItem, n - 1, shown, i, inner);
    } else {
      var here := Leaves(Child(j, i), HoldsItems(j, isItem), shown).value;
      if inner in here {
        var k :| 0 <= k < |here| && here[k] == inner;
        assert Below(StepTo(j, isItem, i), here)[k] in LeavesUpTo(j, isItem, n, shown).value;
      }
    }
  }

  lemma FollowBelow(p: Place, name: string, rest: seq<string>)
    requires p.value.Valid() && Enter(p, name).Some?
    ensures Follow(p, [name] + rest) == Follow(Enter(p, name).value, rest)
  {
    assert ([name] + rest)[1..] == rest;
  }

  lemma ReadBelow(p: Place, name: string, rest: seq<string>, shown: Show)
    requires p.value.Valid() && Enter(p, name).Some?
    ensures ReadAt(p, [name] + rest, shown) == ReadAt(Enter(p, name).value, rest, shown)
  {
    FollowBelow(p, name, rest);
  }

  lemma NamesBelow(step: Step, path: seq<Step>)
    ensures NamesOf([step] + path) == [NameOf(step)] + NamesOf(path)
  {}

  /** Every leaf is what following its names leads to. */
  lemma {:induction false} LeavesAreThere(j: Json, isItem: bool, shown: Show, l: Leaf)
    requires j.Valid() && Leaves(j, isItem, shown).Some? && l in Leaves(j, isItem, shown).value
    ensures ReadAt(Place(j, isItem), NamesOf(l.path), shown) == Some(l.value)
    ensures Nested(j) ==> l.path != []
    decreases |l.path|
  {
    if Nested(j) {
      hide LeavesUpTo, ReadAt, NamesOf, Enter;
      var i, inner := FromAChild(j, isItem, Width(j), shown, l);
      LeavesAreThere(Child(j, i), HoldsItems(j, isItem), shown, inner);
      ChildHasItsName(j, isItem, i);
      NamesBelow(StepTo(j, isItem, i), inner.path);
      ReadBelow(Place(j, isItem), NameOf(StepTo(j, isItem, i)), NamesOf(inner.path), shown);
    }
  }

  /** Whatever names lead to a value, it is listed under them. */
  lemma {:induction false} NothingIsLost(j: Json, isItem: bool, shown: Show, names: seq<string>) returns (l: Leaf)
    requires j.Valid() && Leaves(j, isItem, shown).Some? && ReadAt(Place(j, isItem), names, shown).Some?
    ensures l in Leaves(j, isItem, shown).value && NamesOf(l.path) == names
    decreases |names|
  {
    if names == [] {
      l := Leaf([], shown(j));
    } else {
      hide LeavesUpTo, Enter, StepTo, NameOf, NamesOf;
      assert [names[0]] + names[1..] == names;
      ReadBelow(Place(j, isItem), names[0], names[1..], shown);
      var i := EnteredIsAChild(j, isItem, names[0]);
      IntoTheList(j, isItem, Width(j), shown, i, Leaf([], ""));
      var inner := NothingIsLost(Child(j, i), HoldsItems(j, isItem), shown, names[1..]);
      IntoTheList(j, isItem, Width(j), shown, i, inner);
      l := Leaf([StepTo(j, isItem, i)] + inner.path, inner.value);
      NamesBelow(StepTo(j, isItem, i), inner.path);
    }
  }

  // ---------- When flattening throws ----------

  /** Some names lead to a null that is an item of an array numbered from one. */
  ghost predicate HasNullItem(p: Place)
    requires p.value.Valid()
  {
    exists names :: Follow(p, names) == Some(Place(Null, true))
  }

  lemma {:induction false} FirstToThrow(j: Json, isItem: bool, n: nat, shown: Show) returns (i: nat)
    requires j.Valid() && Nested(j) && n <= Width(j) && LeavesUpTo(j, isItem, n, shown).None?
    ensures i < n && Leaves(Child(j, i), HoldsItems(j, isItem), shown).None?
  {
    if LeavesUpTo(j, isItem, n - 1, shown).None? {
      i := FirstToThrow(j, isItem, n - 1, shown);
    } else {
      i := n - 1;
    }
  }

  lemma {:induction false} ThrowingNames(j: Json, isItem: bool, shown: Show) returns (names: seq<string>)
    requires j.Valid() && Leaves(j, isItem, shown).None?
    ensures Follow(Place(j, isItem), names) == Some(Place(Null, true))
    decreases j
  {
    hide LeavesUpTo, Enter, NameOf;
    if j.Null? {
      names := [];
    } else {
      var i := FirstToThrow(j, isItem, Width(j), shown);
      var below := ThrowingNames(Child(j, i), HoldsItems(j, isItem), shown);
      ChildHasItsName(j, isItem, i);
      names := [NameOf(StepTo(j, isItem, i))] + below;
      FollowBelow(Place(j, isItem), NameOf(StepTo(j, isItem, i)), below);
    }
  }

  lemma {:induction false} NullItemThrows(j: Json, isItem: bool, shown: Show, names: seq<string>)
    requires j.Valid() && Follow(Place(j, isItem), names) == Some(Place(Null, true))
    ensures Leaves(j, isItem, shown).None?
    decreases |names|
  {
    if names != [] {
      var i := EnteredIsAChild(j, isItem, names[0]);
      NullItemThrows(Child(j, i), HoldsItems(j, isItem), shown, names[1..]);
      AnyChildThrows(j, isItem, i, Width(j), shown);
    }
  }

  /** Flattening throws exactly when an array has a null item, an array directly in an array excepted. */
  lemma ThrowsOnNullItem(params: Json, prefix: string, shown: Show)
    requires params.Valid()
    ensures Outcomes(prefix, Leaves(params, true, shown)).TypeError? <==> HasNullItem(Place(params, true))
  {
    if Leaves(params, true, shown).None? {
      var _ := ThrowingNames(params, true, shown);
    }
    if HasNullItem(Place(params, true)) {
      var names :| Follow(Place(params, true), names) == Some(Place(Null, true));
      NullItemThrows(params, true, shown, names);
    }
  }

  // ---------- How arrays are numbered ----------

  predicate IsScalar(j: Json) {
    !Nested(j) && !j.Null?
  }

  function Numbered(items: seq<Json>, isItem: bool, n: nat, shown: Show): seq<Leaf>
    requires n <= |items|
  {
    seq(n, i requires 0 <= i < n => Leaf([if isItem then Key(Decimal(i)) else Item(i + 1)], shown(items[i])))
  }

  lemma {:induction false} ScalarItems(items: seq<Json>, isItem: bool, n: nat, shown: Show)
    requires Arr(items).Valid() && n <= |items| && forall i | 0 <= i < n :: IsScalar(items[i])
    ensures LeavesUpTo(Arr(items), isItem, n, shown) == Some(Numbered(items, isItem, n, shown))
  {
    hide Decimal, Numbered, Leaves;
    if n == 0 {
      NothingNumbered(items, isItem, shown);
    } else {
      ScalarItems(items, isItem, n - 1, shown);
      OneScalar(items[n - 1], HoldsItems(Arr(items), isItem), StepTo(Arr(items), isItem, n - 1), shown);
      OneMoreNumbered(items, isItem, n, shown);
    }
  }

  lemma NothingNumbered(items: seq<Json>, isItem: bool, shown: Show)
    ensures Numbered(items, isItem, 0, shown) == []
  {}

  lemma OneScalar(j: Json, isItem: bool, step: Step, shown: Show)
    requires j.Valid() && IsScalar(j)
    ensures Leaves(j, isItem, shown) == Some([Leaf([], shown(j))])
    ensures Below(step, [Leaf([], shown(j))]) == [Leaf([step], shown(j))]
  {
    assert [step] + [] == [step];
  }

  lemma OneMoreNumbered(items: seq<Json>, isItem: bool, n: nat, shown: Show)
    requires 0 < n <= |items|
    ensures Numbered(items, isItem, n, shown) ==
      Numbered(items, isItem, n - 1, shown) + [Leaf([StepTo(Arr(items), isItem, n - 1)], shown(items[n - 1]))]
  {
    hide Decimal;
  }

  lemma OneField(k: string, value: Json, shown: Show)
    requires value.Valid() && Leaves(value, false, shown).Some?
    ensures var params := Obj([k], map[k := value]);
      params.Valid() && Leaves(params, true, shown) == Some(Below(Key(k), Leaves(value, false, shown).value))
  {
    hide Below;
    var params := Obj([k], map[k := value]);
    var here := Below(Key(k), Leaves(value, false, shown).value);
    assert Child(params, 0) == value && StepTo(params, true, 0) == Key(k) && Width(params) == 1;
    assert LeavesUpTo(params, true, 0, shown) == Some([]);
    assert LeavesUpTo(params, true, 1, shown) == Some([] + here);
    assert [] + here == here;
  }

  /** The items of an array are numbered from one, behind the name of the array and a dot. */
  lemma ItemsFromOne(k: string, items: seq<Json>, shown: Show)
    requires Arr(items).Valid() && forall i | 0 <= i < |items| :: IsScalar(items[i])
    ensures var params := Obj([k], map[k := Arr(items)]);
      params.Valid() && Leaves(params, true, shown).Some?
      && var leaves := Leaves(params, true, shown).value;
      && |leaves| == |items|
      && forall i | 0 <= i < |items| ::
           Printed("", leaves[i].path) == k + "." + Decimal(i + 1) && leaves[i].value == shown(items[i])
  {
    hide Decimal, LeavesUpTo, Printed;
    ScalarItems(items, false, |items|, shown);
    assert Width(Arr(items)) == |items|;
    OneField(k, Arr(items), shown);
    var leaves := Leaves(Obj([k], map[k := Arr(items)]), true, shown).value;
    forall i | 0 <= i < |items|
      ensures Printed("", leaves[i].path) == k + "." + Decimal(i + 1) && leaves[i].value == shown(items[i])
    {
      assert leaves[i].path == [Key(k)] + [Item(i + 1)];
      ItemPrinted(k, i + 1);
    }
  }

  lemma ItemPrinted(k: string, number: nat)
    ensures Printed("", [Key(k)] + [Item(number)]) == k + "." + Decimal(number)
  {
    hide Decimal;
    PrintedBelow("", Key(k), [Item(number)]);
    assert [Item(number)][1..] == [];
  }

  /** Those of an array that is itself the first item of one are numbered from zero. */
  lemma InnerItemsFromZero(k: string, items: seq<Json>, shown: Show)
    requires Arr(items).Valid() && forall i | 0 <= i < |items| :: IsScalar(items[i])
    ensures var params := Obj([k], map[k := Arr([Arr(items)])]);
      params.Valid() && Leaves(params, true, shown).Some?
      && var leaves := Leaves(params, true, shown).value;
      && |leaves| == |items|
      && forall i | 0 <= i < |items| ::
           Printed("", leaves[i].path) == k + ".1." + Decimal(i) && leaves[i].value == shown(items[i])
  {
    hide Decimal, Below, LeavesUpTo, Printed;
    var inner, outer := Arr(items), Arr([Arr(items)]);
    ScalarItems(items, true, |items|, shown);
    assert Width(inner) == |items|;
    OneItem(inner, shown);
    OneField(k, outer, shown);
    BelowBelow(k, Leaves(inner, true, shown).value);
    var leaves := Leaves(Obj([k], map[k := outer]), true, shown).value;
    forall i | 0 <= i < |items|
      ensures Printed("", leaves[i].path) == k + ".1." + Decimal(i) && leaves[i].value == shown(items[i])
    {
      assert leaves[i].path == [Key(k), Item(1)] + [Key(Decimal(i))];
      InnerItemPrinted(k, i);
    }
  }

  lemma OneItem(item: Json, shown: Show)
    requires item.Valid() && Nested(item) && Leaves(item, true, shown).Some?
    ensures Leaves(Arr([item]), false, shown) == Some(Below(Item(1), Leaves(item, true, shown).value))
  {
    hide Below;
    var outer, here := Arr([item]), Below(Item(1), Leaves(item, true, shown).value);
    assert LeavesUpTo(outer, false, 0, shown) == Some([]);
    assert LeavesUpTo(outer, false, 1, shown) == Some([] + here);
    assert [] + here == here;
  }

  lemma InnerItemPrinted(k: string, i: nat)
    ensures Printed("", [Key(k), Item(1)] + [Key(Decimal(i))]) == k + ".1." + Decimal(i)
  {
    One();
    hide Decimal, Printed;
    assert [Key(k), Item(1)] + [Key(Decimal(i))] == [Key(k)] + ([Item(1)] + [Key(Decimal(i))]);
    PrintedBelow("", Key(k), [Item(1)] + [Key(Decimal(i))]);
    PrintedBelow(k, Item(1), [Key(Decimal(i))]);
    assert [Key(Decimal(i))] + [] == [Key(Decimal(i))];
    PrintedBelow(k + "." + "1", Key(Decimal(i)), []);
    PrintedNothing(k + "." + "1" + "." + Decimal(i));
    assert k + "." + "1" + "." + Decimal(i) == k + ".1." + Decimal(i);
  }

  lemma PrintedNothing(prefix: string)
    ensures Printed(prefix, []) == prefix
  {}

  lemma One()
    ensures Decimal(1) == "1"
  {}

  lemma BelowBelow(k: string, leaves: seq<Leaf>)
    ensures var both := Below(Key(k), Below(Item(1), leaves));
      |both| == |leaves|
      && forall i | 0 <= i < |leaves| :: both[i] == Leaf([Key(k), Item(1)] + leaves[i].path, leaves[i].value)
  {
    assert forall i | 0 <= i < |leaves| ::
      [Key(k)] + ([Item(1)] + leaves[i].path) == [Key(k), Item(1)] + leaves[i].path;
  }
}
