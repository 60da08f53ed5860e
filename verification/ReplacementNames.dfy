/** Which changes are filed under a property that replaces its resource: packages/core/src/stack-diff.ts. */
module ReplacementNames {
  import opened Templates
  import opened PropertyPaths
  import opened StackDiff
  import opened StackAnalysis
  import opened Wrappers

  /** A listed property differs between the two property objects. */
  ghost predicate ListedPropertyChanged(resourceType: TypeName, o: Json, n: Json, stringify: Printer) {
    exists k | k in ReplacementProperties(resourceType) :: !SameSlot(Get(o, k), Get(n, k), stringify)
  }

  /** The key a printed path begins with: empty keys in front leave nothing of themselves. */
  function TopName(keys: seq<string>): string
    requires keys != []
  {
    if keys[0] != "" || |keys| == 1 then keys[0] else TopName(keys[1..])
  }

  /** What a change at `keys` is filed under. */
  function FiledUnder(keys: seq<string>): string
    requires keys != []
  {
    Split(TopName(keys))[0]
  }

  /** The property changed is not the one the change is filed under. */
  ghost predicate IsMisread(keys: seq<string>)
    requires keys != []
  {
    '.' in keys[0] || (keys[0] == "" && |keys| > 1)
  }

  ghost predicate MisreadAsListed(resourceType: TypeName, o: Json, n: Json, stringify: Printer) {
    exists keys: seq<string> | keys != [] && DiffersAt(Some(o), Some(n), keys, stringify) ::
      IsMisread(keys) && FiledUnder(keys) in ReplacementProperties(resourceType)
  }

  lemma {:induction false} FirstComponent(a: string, rest: string)
    ensures Split(a + "." + rest)[0] == Split(a)[0]
  {
    var s := a + "." + rest;
    if a == "" {
      assert s[0] == '.';
    } else {
      assert s[0] == a[0] && s[1..] == a[1..] + "." + rest;
      FirstComponent(a[1..], rest);
    }
  }

  lemma {:induction false} PathStartsWithTopName(keys: seq<string>)
    requires keys != []
    ensures Split(JoinFrom("", keys))[0] == FiledUnder(keys)
    decreases |keys|
  {
    if |keys| == 1 {
      assert JoinFrom("", keys) == keys[0];
    } else if keys[0] == "" {
      PathStartsWithTopName(keys[1..]);
    } else {
      JoinIsNoLonger(keys);
      FirstComponent(keys[0], Dotted(keys[1..]));
    }
  }

  lemma WholeName(k: string)
    requires '.' !in k
    ensures Split(k) == [k]
  {
    SplitPrefix(k, "");
  }

  const BUCKET_TO_ENGINE := {"BucketName", "TableName", "KeySchema", "DBInstanceIdentifier", "DBName", "Engine"}

  const FUNCTION_TO_FAMILY := {"FunctionName", "ImageId", "InstanceType", "KeyName", "Family"}

  const CONTAINERS_TO_DOMAIN :=
    {"ContainerDefinitions", "CacheNodeType", "Name", "RoleName", "Path", "KeyPolicy", "UserPoolName", "DomainName"}

  lemma ListedNames(resourceType: TypeName, k: string)
    requires k in ReplacementProperties(resourceType)
    ensures k in BUCKET_TO_ENGINE || k in FUNCTION_TO_FAMILY || k in CONTAINERS_TO_DOMAIN
  {}

  lemma ListedNamesArePlain(resourceType: TypeName, k: string)
    requires k in ReplacementProperties(resourceType)
    ensures k != "" && '.' !in k
  {
    hide ReplacementProperties;
    ListedNames(resourceType, k);
    if k in BUCKET_TO_ENGINE {
      BucketToEngine(k);
    } else if k in FUNCTION_TO_FAMILY {
      FunctionToFamily(k);
    } else {
      ContainersToDomain(k);
    }
  }

  lemma BucketToEngine(k: string)
    requires k in BUCKET_TO_ENGINE
    ensures k != "" && '.' !in k
  {}

  lemma FunctionToFamily(k: string)
    requires k in FUNCTION_TO_FAMILY
    ensures k != "" && '.' !in k
  {}

  lemma ContainersToDomain(k: string)
    requires k in CONTAINERS_TO_DOMAIN
    ensures k != "" && '.' !in k
  {}

  /** A change of a listed property is filed under it, and a change filed under another name is misread. */
  lemma FiledRight(keys: seq<string>)
    requires keys != [] && !IsMisread(keys)
    ensures FiledUnder(keys) == keys[0]
  {
    hide Split;
    WholeName(keys[0]);
  }

  /** The change at the end of `keys` is one of the reported ones. */
  lemma IsReported(o: Json, n: Json, stringify: Printer, keys: seq<string>) returns (i: nat)
    requires o.Valid() && n.Valid() && o.Obj? && n.Obj? && PropertyDeltas(o, n, stringify).Some?
    requires DiffersAt(Some(o), Some(n), keys, stringify)
    ensures i < |PropertyDeltas(o, n, stringify).value| && PropertyDeltas(o, n, stringify).value[i].keys == keys
  {
    hide DiffersAt, Look, ObjectDeltas, AllKeys;
    var d := Delta(keys, Look(Some(o), keys), Look(Some(n), keys));
    assert Tells(d, Some(o), Some(n), stringify);
    ReportsWhatDiffers(o, n, stringify, d);
    i :| 0 <= i < |PropertyDeltas(o, n, stringify).value| && PropertyDeltas(o, n, stringify).value[i] == d;
  }

  lemma TopKeyDiffers(o: Json, n: Json, stringify: Printer, d: Delta)
    requires o.Valid() && n.Valid() && o.Obj? && n.Obj?
    requires PropertyDeltas(o, n, stringify).Some? && d in PropertyDeltas(o, n, stringify).value
    ensures d.keys != [] && DiffersAt(Some(o), Some(n), d.keys, stringify)
    ensures !SameSlot(Get(o, d.keys[0]), Get(n, d.keys[0]), stringify)
  {
    hide ObjectDeltas, AllKeys, Same;
    ReportsWhatDiffers(o, n, stringify, d);
    if SameSlot(Get(o, d.keys[0]), Get(n, d.keys[0]), stringify) {
      SameDiffersNowhere(Get(o, d.keys[0]), Get(n, d.keys[0]), d.keys[1..], stringify);
    }
  }

  /** Below a top key whose values differ there is a place where they do. */
  lemma DifferenceBelow(o: Json, n: Json, stringify: Printer, k: string) returns (keys: seq<string>)
    requires o.Valid() && n.Valid() && o.Obj? && n.Obj? && !SameSlot(Get(o, k), Get(n, k), stringify)
    ensures keys != [] && keys[0] == k && DiffersAt(Some(o), Some(n), keys, stringify)
  {
    var rest := [];
    if Get(o, k).Some? && Get(n, k).Some? {
      rest := DifferenceIsSomewhere(Get(o, k).value, Get(n, k).value, stringify);
    }
    keys := [k] + rest;
    assert keys[1..] == rest;
    assert DiffersAt(Get(o, k), Get(n, k), rest, stringify);
  }

  /** Replacement is required exactly when some difference is filed under a listed name. */
  lemma FiledByDifference(resourceType: TypeName, o: Json, n: Json, stringify: Printer)
    requires o.Valid() && n.Valid() && o.Obj? && n.Obj? && PropertyDeltas(o, n, stringify).Some?
    ensures FiledUnderListed(resourceType, Printed("", PropertyDeltas(o, n, stringify).value)) <==>
      exists keys: seq<string> | keys != [] && DiffersAt(Some(o), Some(n), keys, stringify) ::
        FiledUnder(keys) in ReplacementProperties(resourceType)
  {
    hide PropertyDeltas, Split, ReplacementProperties, DiffersAt, JoinFrom, TopName, FiledUnder;
    var ds := PropertyDeltas(o, n, stringify).value;
    var changes := Printed("", ds);
    forall i | 0 <= i < |ds|
      ensures ds[i].keys != [] && DiffersAt(Some(o), Some(n), ds[i].keys, stringify)
      ensures Split(changes[i].path)[0] == FiledUnder(ds[i].keys)
    {
      TopKeyDiffers(o, n, stringify, ds[i]);
      PathStartsWithTopName(ds[i].keys);
    }
    forall keys: seq<string> | keys != [] && DiffersAt(Some(o), Some(n), keys, stringify)
      ensures exists i | 0 <= i < |ds| :: ds[i].keys == keys
    {
      var i := IsReported(o, n, stringify, keys);
    }
  }

  /**
   Going by printed paths, replacement is required exactly when a listed property has changed or a
   change of another one is misread as that of a listed one.
   */
  lemma ReplacementMeansListedPropertyChanged(resourceType: TypeName, o: Json, n: Json, stringify: Printer)
    requires o.Valid() && n.Valid() && o.Obj? && n.Obj? && PropertyDeltas(o, n, stringify).Some?
    ensures FiledUnderListed(resourceType, Printed("", PropertyDeltas(o, n, stringify).value)) <==>
      ListedPropertyChanged(resourceType, o, n, stringify) || MisreadAsListed(resourceType, o, n, stringify)
  {
    hide PropertyDeltas, Split, ReplacementProperties, DiffersAt, FiledUnderListed, FiledUnder;
    hide IsMisread, SameSlot, Printed;
    FiledByDifference(resourceType, o, n, stringify);
    forall keys: seq<string> | keys != [] && DiffersAt(Some(o), Some(n), keys, stringify)
      ensures IsMisread(keys) || (FiledUnder(keys) == keys[0] && !SameSlot(Get(o, keys[0]), Get(n, keys[0]), stringify))
    {
      if !IsMisread(keys) {
        FiledRight(keys);
        var i := IsReported(o, n, stringify, keys);
        TopKeyDiffers(o, n, stringify, PropertyDeltas(o, n, stringify).value[i]);
      }
    }
    forall k | k in ReplacementProperties(resourceType) && !SameSlot(Get(o, k), Get(n, k), stringify)
      ensures exists keys: seq<string> | keys != [] && DiffersAt(Some(o), Some(n), keys, stringify) ::
        FiledUnder(keys) == k
    {
      var keys := DifferenceBelow(o, n, stringify, k);
      ListedNamesArePlain(resourceType, k);
      NotMisread(keys);
      FiledRight(keys);
    }
  }

  lemma NotMisread(keys: seq<string>)
    requires keys != [] && keys[0] != "" && '.' !in keys[0]
    ensures !IsMisread(keys)
  {}

  /** Unless a property of empty name has changed, it is the beginning of the name of a changed property that counts. */
  lemma FiledByTopKey(resourceType: TypeName, o: Json, n: Json, stringify: Printer)
    requires o.Valid() && n.Valid() && o.Obj? && n.Obj? && PropertyDeltas(o, n, stringify).Some?
    requires SameSlot(Get(o, ""), Get(n, ""), stringify)
    ensures FiledUnderListed(resourceType, Printed("", PropertyDeltas(o, n, stringify).value)) <==>
      exists k :: !SameSlot(Get(o, k), Get(n, k), stringify) && Split(k)[0] in ReplacementProperties(resourceType)
  {
    hide PropertyDeltas, Split, ReplacementProperties, DiffersAt, FiledUnderListed, SameSlot, Printed;
    FiledByDifference(resourceType, o, n, stringify);
    forall keys: seq<string> | keys != [] && DiffersAt(Some(o), Some(n), keys, stringify)
      ensures FiledUnder(keys) == Split(keys[0])[0] && !SameSlot(Get(o, keys[0]), Get(n, keys[0]), stringify)
    {
      var i := IsReported(o, n, stringify, keys);
      TopKeyDiffers(o, n, stringify, PropertyDeltas(o, n, stringify).value[i]);
    }
    forall k | !SameSlot(Get(o, k), Get(n, k), stringify)
      ensures exists keys: seq<string> | keys != [] && DiffersAt(Some(o), Some(n), keys, stringify) ::
        FiledUnder(keys) == Split(k)[0]
    {
      var keys := DifferenceBelow(o, n, stringify, k);
    }
  }

  /** With nonempty names free of dots nothing is misread. */
  lemma PlainNamesAreNotMisread(resourceType: TypeName, o: Json, n: Json, stringify: Printer)
    requires o.Obj? && n.Obj?
    requires forall k | k in o.fields || k in n.fields :: k != "" && '.' !in k
    ensures !MisreadAsListed(resourceType, o, n, stringify)
  {
    forall keys: seq<string> | keys != [] && DiffersAt(Some(o), Some(n), keys, stringify)
      ensures !IsMisread(keys)
    {
      assert !DiffersAt(None, None, keys[1..], stringify);
      assert Get(o, keys[0]).Some? || Get(n, keys[0]).Some?;
    }
  }

  /** A listed name with a dot and anything behind it is misread: its change is filed under the listed name. */
  lemma DottedNameIsMisfiled(resourceType: TypeName, k: string, suffix: string, stringify: Printer)
    returns (o: Json, n: Json)
    requires k in ReplacementProperties(resourceType)
    ensures o.Valid() && n.Valid() && o.Obj? && n.Obj? && PropertyDeltas(o, n, stringify).Some?
    ensures FiledUnderListed(resourceType, Printed("", PropertyDeltas(o, n, stringify).value))
    ensures !ListedPropertyChanged(resourceType, o, n, stringify)
  {
    hide PropertyDeltas, Split, ReplacementProperties, FiledUnderListed, Printed;
    ListedNamesArePlain(resourceType, k);
    var key := k + "." + suffix;
    assert key[|k|] == '.';
    o, n := Obj([], map[]), Obj([key], map[key := Bool(true)]);
    EmptyOldNeverThrows(n, stringify);
    FirstComponent(k, suffix);
    WholeName(k);
    assert DiffersAt(Some(o), Some(n), [key], stringify) by { assert [key][1..] == []; }
    assert FiledUnder([key]) == k;
    FiledByDifference(resourceType, o, n, stringify);
    OnlyChangeAt(resourceType, o, n, key, stringify);
  }

  lemma OnlyChangeAt(resourceType: TypeName, o: Json, n: Json, key: string, stringify: Printer)
    requires key == "" || '.' in key
    requires forall k | k != key :: SameSlot(Get(o, k), Get(n, k), stringify)
    ensures !ListedPropertyChanged(resourceType, o, n, stringify)
  {
    hide ReplacementProperties, SameSlot;
    forall k | k in ReplacementProperties(resourceType)
      ensures SameSlot(Get(o, k), Get(n, k), stringify)
    {
      ListedNamesArePlain(resourceType, k);
    }
  }

  /** A change below the empty name is filed under the name of the field that changed. */
  lemma EmptyNameIsMisfiled(resourceType: TypeName, k: string, stringify: Printer) returns (o: Json, n: Json)
    requires k in ReplacementProperties(resourceType)
    ensures o.Valid() && n.Valid() && o.Obj? && n.Obj? && PropertyDeltas(o, n, stringify).Some?
    ensures FiledUnderListed(resourceType, Printed("", PropertyDeltas(o, n, stringify).value))
    ensures !ListedPropertyChanged(resourceType, o, n, stringify)
  {
    hide PropertyDeltas, Split, ReplacementProperties, FiledUnderListed, Printed;
    ListedNamesArePlain(resourceType, k);
    var before, after := Obj([], map[]), Obj([k], map[k := Bool(true)]);
    o, n := Obj([""], map["" := before]), Obj([""], map["" := after]);
    assert before.Valid() && after.Valid();
    NoNullBelowNoName(o, n, stringify);
    WholeName(k);
    assert DiffersAt(Some(before), Some(after), [k], stringify) by { assert [k][1..] == []; }
    assert DiffersAt(Some(o), Some(n), ["", k], stringify) by { assert ["", k][1..] == [k]; }
    assert FiledUnder(["", k]) == k by {
      assert ["", k][1..] == [k] && TopName([k]) == k;
      assert TopName(["", k]) == TopName(["", k][1..]);
    }
    FiledByDifference(resourceType, o, n, stringify);
    OnlyChangeAt(resourceType, o, n, "", stringify);
  }

  lemma NoNullBelowNoName(o: Json, n: Json, stringify: Printer)
    requires o.Valid() && n.Valid() && n.Obj? && "" in n.fields && n.fields[""].Obj?
    requires o == Obj([""], map["" := Obj([], map[])])
    ensures PropertyDeltas(o, n, stringify).Some?
  {
    hide ObjectDeltas, AllKeys, MeetsNull;
    ThrowsOnNull(o, n, stringify);
    forall keys
      ensures !MeetsNull(o, n, keys)
    {
      NoObjectMeetsNull(o, n, keys);
    }
  }

  lemma NoObjectMeetsNull(o: Json, n: Json, keys: seq<string>)
    requires n.Obj? && "" in n.fields && n.fields[""].Obj?
    requires o == Obj([""], map["" := Obj([], map[])])
    ensures !MeetsNull(o, n, keys)
  {
    if keys != [] {
      if keys[0] != "" {
        LookNone(keys[1..]);
      } else if |keys| > 1 {
        LookNone(keys[1..][1..]);
        assert Look(Some(o), keys) == Look(Some(Obj([], map[])), keys[1..]) == None;
      } else {
        assert keys[1..] == [];
        assert Look(Some(n), keys) == Look(Get(n, ""), []) == Some(n.fields[""]);
      }
    }
  }

  lemma EmptyOldNeverThrows(n: Json, stringify: Printer)
    requires n.Valid() && n.Obj?
    ensures PropertyDeltas(Obj([], map[]), n, stringify).Some?
  {
    hide ObjectDeltas, AllKeys, MeetsNull;
    var o := Obj([], map[]);
    ThrowsOnNull(o, n, stringify);
    forall keys
      ensures !MeetsNull(o, n, keys)
    {
      EmptyMeetsNoNull(n, keys);
    }
  }

  lemma EmptyMeetsNoNull(n: Json, keys: seq<string>)
    requires n.Obj?
    ensures !MeetsNull(Obj([], map[]), n, keys)
  {
    if keys != [] {
      LookNone(keys[1..]);
    }
  }
}
