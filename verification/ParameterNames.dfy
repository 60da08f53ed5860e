/** What the names of flattened parameters tell: packages/core/src/aws/cloudformation.ts. */
module ParameterNames {
  import opened OrderedSets
  import opened Parameters
  import opened PropertyPaths
  import opened Templates
  import opened Wrappers

  /** Every key of every object inside `j`, also inside arrays, is nonempty and has no dot in it. */
  ghost predicate PlainNames(j: Json) {
    match j
    case Arr(items) => forall i | 0 <= i < |items| :: PlainNames(items[i])
    case Obj(keys, fields) => forall k | k in fields :: k != "" && '.' !in k && PlainNames(fields[k])
    case _ => true
  }

  lemma {:induction false} FollowedNamesArePlain(p: Place, names: seq<string>)
    requires p.value.Valid() && PlainNames(p.value) && Follow(p, names).Some?
    ensures DotFree(names) && forall i | 0 <= i < |names| :: names[i] != ""
    decreases |names|
  {
    if names != [] {
      FollowedNamesArePlain(Enter(p, names[0]).value, names[1..]);
      assert names[0] != "" && '.' !in names[0];
      assert forall i | 0 < i < |names| :: names[i] == names[1..][i - 1];
    }
  }

  lemma {:induction false} PrintedIsDotted(prefix: string, path: seq<Step>)
    requires prefix != ""
    ensures Printed(prefix, path) == Dotted([prefix] + NamesOf(path))
    decreases |path|
  {
    if path != [] {
      var longer := Extend(prefix, path[0]);
      PrintedIsDotted(longer, path[1..]);
      assert ([prefix] + NamesOf(path))[1..] == [NameOf(path[0])] + NamesOf(path[1..]);
      assert ([longer] + NamesOf(path[1..]))[1..] == NamesOf(path[1..]);
      assert ([NameOf(path[0])] + NamesOf(path[1..]))[1..] == NamesOf(path[1..]);
    }
  }

  lemma {:induction false} AssignedKeys(m: map<string, string>, prefix: string, leaves: seq<Leaf>, key: string)
    ensures forall l | l in leaves :: Printed(prefix, l.path) in Assigned(m, prefix, leaves)
    ensures key in Assigned(m, prefix, leaves) && key !in m ==>
      exists l | l in leaves :: Printed(prefix, l.path) == key && Assigned(m, prefix, leaves)[key] == l.value
  {
    if leaves != [] {
      var n := |leaves| - 1;
      AssignedKeys(m, prefix, leaves[..n], key);
      assert leaves == leaves[..n] + [leaves[n]];
    }
  }

  lemma PrintedFromTheTop(path: seq<Step>)
    requires path != [] && path[0].Key? && path[0].name != ""
    ensures Printed("", path) == Dotted(NamesOf(path))
  {
    hide Decimal, Dotted;
    var rest := path[1..];
    PrintedIsDotted(path[0].name, rest);
    NamesBelow(path[0], rest);
    assert [path[0]] + rest == path;
    PrintedBelow("", path[0], rest);
  }

  /** No name has a dot in it, and the path does not lead through an empty key at the top into a further key. */
  ghost predicate PlainPath(path: seq<Step>) {
    DotFree(NamesOf(path)) && !(|path| > 1 && path[0] == Key("") && path[1].Key?)
  }

  /** Behind an empty key at the top an item number is printed with its dot. */
  lemma PrintedFromAnItem(path: seq<Step>)
    requires |path| > 1 && path[0] == Key("") && path[1].Item?
    ensures Printed("", path) == Dotted(NamesOf(path))
  {
    hide Decimal, Dotted, Printed, NamesOf;
    var number, rest := NameOf(path[1]), path[2..];
    assert path == [path[0]] + ([path[1]] + rest);
    PrintedBelow("", path[0], [path[1]] + rest);
    PrintedBelow("", path[1], rest);
    assert Extend("", path[0]) == "" && Extend("", path[1]) == "." + number;
    PrintedIsDotted("." + number, rest);
    NamesBelow(path[0], [path[1]] + rest);
    NamesBelow(path[1], rest);
    DottedBehindNothing(number, NamesOf(rest));
    assert NamesOf(path) == [""] + ([number] + NamesOf(rest));
  }

  lemma DottedBehindNothing(name: string, rest: seq<string>)
    ensures Dotted([""] + ([name] + rest)) == Dotted(["." + name] + rest)
  {
    var all, first, second := [""] + ([name] + rest), [name] + rest, ["." + name] + rest;
    assert all[1..] == first && first[1..] == rest && second[1..] == rest;
    if rest != [] {
      assert "." + (name + "." + Dotted(rest)) == "." + name + "." + Dotted(rest);
    }
  }

  lemma {:induction false} PrintedIsNoLonger(path: seq<Step>)
    requires path != [] && path[0].Key?
    ensures |Printed("", path)| <= |Dotted(NamesOf(path))|
    ensures |path| > 1 && path[0] == Key("") && path[1].Key? ==> |Printed("", path)| < |Dotted(NamesOf(path))|
    ensures !(|path| > 1 && path[0] == Key("") && path[1].Key?) ==> Printed("", path) == Dotted(NamesOf(path))
    decreases |path|
  {
    hide Decimal;
    if path[0].name != "" {
      PrintedFromTheTop(path);
    } else if |path| == 1 {
      assert path[1..] == [] && NamesOf(path) == [""];
    } else if path[1].Item? {
      PrintedFromAnItem(path);
    } else {
      PrintedIsNoLonger(path[1..]);
      assert [path[0]] + path[1..] == path;
      NamesBelow(path[0], path[1..]);
      assert ([""] + NamesOf(path[1..]))[1..] == NamesOf(path[1..]);
    }
  }

  /** A printed name splits into the names of its path exactly if the path is plain. */
  lemma PrintedNameReadsBack(path: seq<Step>)
    requires path != [] && path[0].Key?
    ensures Split(Printed("", path)) == NamesOf(path) <==> PlainPath(path)
  {
    hide Printed, Dotted, Split, Decimal;
    PrintedIsNoLonger(path);
    assert NamesOf(path) != [];
    if PlainPath(path) {
      SplitDotted(NamesOf(path));
    }
  }

  /** The path of a leaf begins with a key. */
  lemma LeafStartsWithKey(params: Json, shown: Show, l: Leaf)
    requires params.Valid() && Nested(params)
    requires Leaves(params, true, shown).Some? && l in Leaves(params, true, shown).value
    ensures l.path != [] && l.path[0].Key?
  {
    hide LeavesUpTo, Decimal;
    var i, inner := FromAChild(params, true, Width(params), shown, l);
    assert l.path[0] == StepTo(params, true, i);
  }

  /** All leaves have plain paths. */
  ghost predicate PlainLeaves(leaves: seq<Leaf>) {
    forall l | l in leaves :: PlainPath(l.path)
  }

  /** `key` is in the result exactly when its parts lead to a value of the tree, and then with that value. */
  ghost predicate ReadsRight(params: Json, shown: Show, m: map<string, string>, key: string)
    requires params.Valid()
  {
    var read := ReadAt(Place(params, true), Split(key), shown);
    (key in m <==> read.Some?) && (key in m ==> m[key] == read.value)
  }

  /** Plain paths are enough for the flattened parameters to be a faithful reading of the tree. */
  lemma FlattenedReadsBack(params: Json, shown: Show, m: map<string, string>, key: string)
    requires params.Valid() && Nested(params)
    requires Outcomes("", Leaves(params, true, shown)) == Flat(m) && PlainLeaves(Leaves(params, true, shown).value)
    ensures ReadsRight(params, shown, m, key)
  {
    hide Leaves, ReadAt, NamesOf, Printed, Assigned, Split, Dotted, PlainPath;
    var leaves := Leaves(params, true, shown).value;
    AssignedKeys(map[], "", leaves, key);
    if key in m {
      var l :| l in leaves && Printed("", l.path) == key && m[key] == l.value;
      LeafStartsWithKey(params, shown, l);
      PrintedNameReadsBack(l.path);
      LeavesAreThere(params, true, shown, l);
    }
    if ReadAt(Place(params, true), Split(key), shown).Some? {
      var l := NothingIsLost(params, true, shown, Split(key));
      LeafStartsWithKey(params, shown, l);
      PrintedNameReadsBack(l.path);
      assert Dotted(Split(Printed("", l.path))) == Printed("", l.path);
    }
  }

  /** With plain keys all paths are plain. */
  lemma PlainNamesArePlain(params: Json, shown: Show)
    requires params.Valid() && PlainNames(params) && Leaves(params, true, shown).Some?
    ensures PlainLeaves(Leaves(params, true, shown).value)
  {
    hide Leaves, NameOf, Follow, PlainNames;
    forall l | l in Leaves(params, true, shown).value
      ensures PlainPath(l.path)
    {
      LeavesAreThere(params, true, shown, l);
      FollowedNamesArePlain(Place(params, true), NamesOf(l.path));
      if |l.path| > 1 && l.path[0] == Key("") {
        assert NamesOf(l.path)[0] == NameOf(Key("")) == "" by {
          EmptyKey();
        }
        assert false;
      }
    }
  }

  lemma EmptyKey()
    ensures NameOf(Key("")) == ""
  {}

  // ---------- Values that are overwritten ----------

  function PrintedNames(leaves: seq<Leaf>): seq<string> {
    seq(|leaves|, i requires 0 <= i < |leaves| => Printed("", leaves[i].path))
  }

  /** `m` has an entry under each name; there are as many as names exactly if no name occurs twice. */
  ghost predicate AccountsFor(m: map<string, string>, names: seq<string>, values: seq<string>)
    requires |names| == |values|
  {
    && m.Keys == Elements(names)
    && |m| <= |names| && (|m| == |names| <==> NoDup(names))
    && (NoDup(names) ==> forall i | 0 <= i < |names| :: names[i] in m && m[names[i]] == values[i])
  }

  lemma AccountsForMore(m: map<string, string>, names: seq<string>, values: seq<string>, k: string, v: string)
    requires |names| == |values| && AccountsFor(m, names, values)
    ensures AccountsFor(m[k := v], names + [k], values + [v])
  {
    hide NoDup, Elements;
    LastIsNew(names, k);
    var more := m[k := v];
    assert more.Keys == m.Keys + {k};
    assert |m| == |m.Keys| && |more| == |more.Keys|;
    assert k in m.Keys <==> k in names by { InElements(names, k); }
    if NoDup(names + [k]) {
      forall i | 0 <= i < |names + [k]|
        ensures (names + [k])[i] in more && more[(names + [k])[i]] == (values + [v])[i]
      {
        if i < |names| {
          assert names[i] in names;
        }
      }
    }
  }

  lemma InElements(names: seq<string>, k: string)
    ensures k in Elements(names) <==> k in names
  {}

  function ValuesOf(leaves: seq<Leaf>): seq<string> {
    seq(|leaves|, i requires 0 <= i < |leaves| => leaves[i].value)
  }

  /** No value is overwritten exactly if no two leaves are printed alike. */
  lemma {:induction false} NothingOverwritten(leaves: seq<Leaf>)
    ensures AccountsFor(Assigned(map[], "", leaves), PrintedNames(leaves), ValuesOf(leaves))
  {
    hide Printed;
    if leaves != [] {
      hide AccountsFor;
      var n := |leaves| - 1;
      var before, k := leaves[..n], Printed("", leaves[n].path);
      NothingOverwritten(before);
      assert PrintedNames(leaves) == PrintedNames(before) + [k];
      assert ValuesOf(leaves) == ValuesOf(before) + [leaves[n].value];
      AccountsForMore(Assigned(map[], "", before), PrintedNames(before), ValuesOf(before), k, leaves[n].value);
    }
  }

  lemma LastIsNew(names: seq<string>, k: string)
    ensures NoDup(names + [k]) <==> NoDup(names) && k !in names
    ensures Elements(names + [k]) == Elements(names) + {k}
  {
    var more := names + [k];
    assert forall i | 0 <= i < |names| :: more[i] == names[i];
    assert more[|names|] == k;
  }

  /** Two leaves never have the same names. */
  ghost predicate NamesDiffer(leaves: seq<Leaf>) {
    forall i, j | 0 <= i < j < |leaves| :: NamesOf(leaves[i].path) != NamesOf(leaves[j].path)
  }

  lemma {:induction false} LeavesDiffer(j: Json, isItem: bool, shown: Show)
    requires j.Valid() && Leaves(j, isItem, shown).Some?
    ensures NamesDiffer(Leaves(j, isItem, shown).value)
    decreases j, 1, 0
  {
    if Nested(j) {
      LeavesUpToDiffer(j, isItem, Width(j), shown);
    }
  }

  lemma {:induction false} LeavesUpToDiffer(j: Json, isItem: bool, n: nat, shown: Show)
    requires j.Valid() && Nested(j) && n <= Width(j) && LeavesUpTo(j, isItem, n, shown).Some?
    ensures NamesDiffer(LeavesUpTo(j, isItem, n, shown).value)
    decreases j, 0, n
  {
    hide Below, NamesDiffer, NameOf, StepTo, Leaves;
    if n == 0 {
      NoneDiffer();
    } else {
      LeavesUpToDiffer(j, isItem, n - 1, shown);
      LeavesDiffer(Child(j, n - 1), HoldsItems(j, isItem), shown);
      var before := LeavesUpTo(j, isItem, n - 1, shown).value;
      var here := Leaves(Child(j, n - 1), HoldsItems(j, isItem), shown).value;
      forall l | l in before
        ensures l.path != [] && NameOf(l.path[0]) != NameOf(StepTo(j, isItem, n - 1))
      {
        var i, inner := FromAChild(j, isItem, n - 1, shown, l);
        ChildrenHaveDifferentNames(j, isItem, i, n - 1);
      }
      BelowDiffers(before, StepTo(j, isItem, n - 1), here);
    }
  }

  lemma NoneDiffer()
    ensures NamesDiffer([])
  {}

  lemma ChildrenHaveDifferentNames(j: Json, isItem: bool, i: nat, k: nat)
    requires j.Valid() && Nested(j) && i < k < Width(j)
    ensures NameOf(StepTo(j, isItem, i)) != NameOf(StepTo(j, isItem, k))
  {
    hide Decimal, NumberOf;
    if j.Arr? {
      DecimalReadsBack(if isItem then i else i + 1);
      DecimalReadsBack(if isItem then k else k + 1);
    }
  }

  lemma BelowDiffers(before: seq<Leaf>, step: Step, here: seq<Leaf>)
    requires NamesDiffer(before) && NamesDiffer(here)
    requires forall l | l in before :: l.path != [] && NameOf(l.path[0]) != NameOf(step)
    ensures NamesDiffer(before + Below(step, here))
  {
    hide NameOf;
    var all := before + Below(step, here);
    forall i, j | 0 <= i < j < |all|
      ensures NamesOf(all[i].path) != NamesOf(all[j].path)
    {
      if j < |before| {
        assert all[i] == before[i] && all[j] == before[j];
      } else {
        NamesBelow(step, here[j - |before|].path);
        if i < |before| {
          assert all[i] in before && NamesOf(all[i].path)[0] == NameOf(all[i].path[0]);
        } else {
          NamesBelow(step, here[i - |before|].path);
          assert NamesOf(all[i].path)[1..] == NamesOf(here[i - |before|].path);
          assert NamesOf(all[j].path)[1..] == NamesOf(here[j - |before|].path);
        }
      }
    }
  }

  /**
   The flattened parameters are a faithful reading of the tree, with an entry for every value, exactly
   if all paths are plain.
   */
  lemma FlattensFaithfully(params: Json, shown: Show, m: map<string, string>)
    requires params.Valid() && Nested(params) && Outcomes("", Leaves(params, true, shown)) == Flat(m)
    ensures var leaves := Leaves(params, true, shown).value;
      (forall key :: ReadsRight(params, shown, m, key)) && |m| == |leaves| <==> PlainLeaves(leaves)
  {
    hide Leaves, ReadsRight, Printed, Assigned, NamesOf, PlainPath, Split;
    var leaves := Leaves(params, true, shown).value;
    NothingOverwritten(leaves);
    if PlainLeaves(leaves) {
      forall key
        ensures ReadsRight(params, shown, m, key)
      {
        FlattenedReadsBack(params, shown, m, key);
      }
      LeavesDiffer(params, true, shown);
      forall i, j | 0 <= i < j < |leaves|
        ensures PrintedNames(leaves)[i] != PrintedNames(leaves)[j]
      {
        LeafStartsWithKey(params, shown, leaves[i]);
        LeafStartsWithKey(params, shown, leaves[j]);
        PrintedNameReadsBack(leaves[i].path);
        PrintedNameReadsBack(leaves[j].path);
      }
    }
    if (forall key :: ReadsRight(params, shown, m, key)) && |m| == |leaves| {
      forall l | l in leaves
        ensures PlainPath(l.path)
      {
        var i :| 0 <= i < |leaves| && leaves[i] == l;
        FaithfulMeansPlain(params, shown, m, i);
      }
    }
  }

  /** A leaf that does not read back would be preceded by ever shorter ones. */
  lemma {:induction false} FaithfulMeansPlain(params: Json, shown: Show, m: map<string, string>, i: nat)
    requires params.Valid() && Nested(params) && Outcomes("", Leaves(params, true, shown)) == Flat(m)
    requires forall key :: ReadsRight(params, shown, m, key)
    requires i < |Leaves(params, true, shown).value| && NoDup(PrintedNames(Leaves(params, true, shown).value))
    ensures PlainPath(Leaves(params, true, shown).value[i].path)
    decreases |Printed("", Leaves(params, true, shown).value[i].path)|
  {
    hide Leaves, ReadAt, Printed, Assigned, NamesOf, Split, Dotted, NoDup;
    var leaves := Leaves(params, true, shown).value;
    var l := leaves[i];
    var key := Printed("", l.path);
    NothingOverwritten(leaves);
    assert PrintedNames(leaves)[i] == key;
    assert ReadsRight(params, shown, m, key);
    var other := NothingIsLost(params, true, shown, Split(key));
    var j :| 0 <= j < |leaves| && leaves[j] == other;
    LeafStartsWithKey(params, shown, l);
    LeafStartsWithKey(params, shown, other);
    PrintedNameReadsBack(l.path);
    if i != j {
      PrintedIsNoLonger(other.path);
      DifferentNames(PrintedNames(leaves), i, j);
      assert Printed("", other.path) != key && Dotted(NamesOf(other.path)) == key;
      FaithfulMeansPlain(params, shown, m, j);
      PrintedNameReadsBack(other.path);
    }
  }

  lemma DifferentNames(names: seq<string>, i: nat, j: nat)
    requires NoDup(names) && i < |names| && j < |names| && i != j
    ensures names[i] != names[j]
  {}

  lemma OneMoreLeaf(j: Json, n: nat, shown: Show, before: seq<Leaf>, path: seq<Step>, v: string)
    requires j.Valid() && j.Obj? && n < Width(j)
    requires LeavesUpTo(j, true, n, shown) == Some(before)
    requires Leaves(Child(j, n), false, shown) == Some([Leaf(path, v)])
    ensures LeavesUpTo(j, true, n + 1, shown) == Some(before + [Leaf([Key(j.keys[n])] + path, v)])
  {
    assert Below(Key(j.keys[n]), [Leaf(path, v)]) == [Leaf([Key(j.keys[n])] + path, v)];
  }

  lemma OnlyLeaf(key: string, v: Json, shown: Show)
    requires v.Valid() && !Nested(v) && !v.Null?
    ensures Obj([key], map[key := v]).Valid()
    ensures Leaves(Obj([key], map[key := v]), false, shown) == Some([Leaf([Key(key)], shown(v))])
  {
    var j := Obj([key], map[key := v]);
    OneMoreLeaf(j, 0, shown, [], [], shown(v));
    ObjectsAreNoItems(j, 1, shown);
    assert [Key(key)] + [] == [Key(key)];
    assert [] + [Leaf([Key(key)], shown(v))] == [Leaf([Key(key)], shown(v))];
  }

  lemma SecondOverwrites(a: string, b: string, v: string, w: string)
    requires a != ""
    ensures Assigned(map[], "", [Leaf([Key(a + "." + b)], v), Leaf([Key(a), Key(b)], w)]) == map[a + "." + b := w]
  {
    var first, second := Leaf([Key(a + "." + b)], v), Leaf([Key(a), Key(b)], w);
    assert first.path[1..] == [] && second.path[1..] == [Key(b)] && [Key(b)][1..] == [];
    assert Printed(a, [Key(b)]) == Printed(a + "." + b, []);
    assert [first, second][..1] == [first] && [first][..0] == [];
    assert Assigned(map[], "", [first]) == map[a + "." + b := v];
  }

  /** With a dot in a key, one value can overwrite another: of two values only the second is sent. */
  lemma DottedKeysCollide(a: string, b: string, v: Json, w: Json, shown: Show)
    requires a != "" && v.Valid() && w.Valid() && !Nested(v) && !v.Null? && !Nested(w) && !w.Null?
    ensures var params := Obj([a + "." + b, a], map[a + "." + b := v, a := Obj([b], map[b := w])]);
      && params.Valid()
      && Outcomes("", Leaves(params, true, shown)) == Flat(map[a + "." + b := shown(w)])
  {
    hide Below, Assigned, Printed;
    assert |a + "." + b| > |a|;
    var params := Obj([a + "." + b, a], map[a + "." + b := v, a := Obj([b], map[b := w])]);
    OnlyLeaf(b, w, shown);
    OneMoreLeaf(params, 0, shown, [], [], shown(v));
    var first, second := Leaf([Key(a + "." + b)], shown(v)), Leaf([Key(a), Key(b)], shown(w));
    assert [Key(a + "." + b)] + [] == [Key(a + "." + b)] && [Key(a)] + [Key(b)] == [Key(a), Key(b)];
    assert [] + [Leaf([Key(a + "." + b)] + [], shown(v))] == [first];
    OneMoreLeaf(params, 1, shown, [first], [Key(b)], shown(w));
    assert [first] + [Leaf([Key(a)] + [Key(b)], shown(w))] == [first, second];
    SecondOverwrites(a, b, shown(v), shown(w));
  }
}
