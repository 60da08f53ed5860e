/** Which changes of a stack are warned of: packages/core/src/stack-diff.ts. */
module DangerousChanges {
  import opened OrderedSets
  import opened StackAnalysis
  import opened StackDiff
  import opened Prototypes
  import opened Wrappers

  /** One entry gives rise to one warning at most. */
  lemma AtMostOneWarning(d: ResourceDiff)
    ensures |WarningsFor(d)| <= 1
    ensures forall w | w in WarningsFor(d) :: w.logicalId == d.logicalId
  {}

  lemma {:induction false} WarnedOf(diffs: seq<ResourceDiff>, w: Warning)
    ensures w in AllWarnings(diffs) <==> exists i | 0 <= i < |diffs| :: w in WarningsFor(diffs[i])
  {
    hide WarningsFor;
    if diffs != [] {
      var n := |diffs| - 1;
      WarnedOf(diffs[..n], w);
      assert forall i | 0 <= i < n :: diffs[..n][i] == diffs[i];
    }
  }

  /** Which entries are warned of, risk by risk. */
  predicate IsRisky(risk: Risk, action: Action, t: TypeName) {
    match risk
    case DataLoss =>
      || (action == RemoveIt && (t == Some("AWS::RDS::DBInstance") || t == Some("AWS::DynamoDB::Table")
                                 || t == Some("AWS::ElastiCache::CacheCluster") || t == Some("AWS::S3::Bucket")))
      || (action == ReplaceIt && (t == Some("AWS::RDS::DBInstance") || t == Some("AWS::DynamoDB::Table")
                                  || t == Some("AWS::S3::Bucket")))
    case Downtime => action == ReplaceIt && t == Some("AWS::EC2::Instance")
    case Connectivity => action == UpdateIt && t == Some("AWS::EC2::SecurityGroup")
    case Permissions =>
      (action == UpdateIt || action == ReplaceIt) && (t == Some("AWS::IAM::Role") || t == Some("AWS::IAM::Policy"))
  }

  lemma ToldMeans(told: bool, w: Warning, x: Warning)
    ensures x in When(told, w) <==> told && x == w
  {}

  lemma InOneOfSix<T>(x: T, a: seq<T>, b: seq<T>, c: seq<T>, d: seq<T>, e: seq<T>, f: seq<T>)
    ensures x in a + b + c + d + e + f <==> x in a || x in b || x in c || x in d || x in e || x in f
  {}

  lemma ListedTypes(t: TypeName)
    ensures t in LOST_WHEN_REMOVED <==>
      || t == Some("AWS::RDS::DBInstance") || t == Some("AWS::DynamoDB::Table")
      || t == Some("AWS::ElastiCache::CacheCluster")
    ensures t in LOST_WHEN_REPLACED <==> t == Some("AWS::RDS::DBInstance") || t == Some("AWS::DynamoDB::Table")
    ensures t in IAM_TYPES <==> t == Some("AWS::IAM::Role") || t == Some("AWS::IAM::Policy")
  {}

  lemma RiskOf(d: ResourceDiff, risk: Risk, id: string)
    ensures Warning(risk, id) in WarningsFor(d) <==> d.logicalId == id && IsRisky(risk, d.action, d.resourceType)
  {
    ListedTypes(d.resourceType);
    hide LOST_WHEN_REMOVED, LOST_WHEN_REPLACED, IAM_TYPES, When;
    var own, t, x := d.logicalId, d.resourceType, Warning(risk, id);
    var a := d.action == RemoveIt && t in LOST_WHEN_REMOVED;
    var b := d.action == ReplaceIt && t in LOST_WHEN_REPLACED;
    var c := d.action in {RemoveIt, ReplaceIt} && t == Some("AWS::S3::Bucket");
    var e := d.action == ReplaceIt && t == Some("AWS::EC2::Instance");
    var f := d.action == UpdateIt && t == Some("AWS::EC2::SecurityGroup");
    var g := d.action in {UpdateIt, ReplaceIt} && t in IAM_TYPES;
    ToldMeans(a, Warning(DataLoss, own), x);
    ToldMeans(b, Warning(DataLoss, own), x);
    ToldMeans(c, Warning(DataLoss, own), x);
    ToldMeans(e, Warning(Downtime, own), x);
    ToldMeans(f, Warning(Connectivity, own), x);
    ToldMeans(g, Warning(Permissions, own), x);
    InOneOfSix(x, When(a, Warning(DataLoss, own)), When(b, Warning(DataLoss, own)), When(c, Warning(DataLoss, own)),
               When(e, Warning(Downtime, own)), When(f, Warning(Connectivity, own)),
               When(g, Warning(Permissions, own)));
  }

  /** The type the source looks at: the new one, unless nothing is found under the id any more. */
  function TypeOfEntry(id: string, o: Stack, n: Stack): TypeName {
    if Find(n, id).Some? then Find(n, id).value.resourceType
    else if Find(o, id).Some? then Find(o, id).value.resourceType else None
  }

  lemma RiskInBucket(
    bucket: seq<ResourceDiff>, action: Action, v: Verdict, ids: seq<string>, risk: Risk, id: string,
    o: Stack, n: Stack, stringify: Printer)
    requires o.Valid() && n.Valid() && BucketRight(bucket, action, v, ids, o, n, stringify) && v == VerdictFor(action)
    ensures (exists i | 0 <= i < |bucket| :: Warning(risk, id) in WarningsFor(bucket[i])) <==>
      id in ids && VerdictOf(o, n, id, stringify) == v && IsRisky(risk, action, TypeOfEntry(id, o, n))
  {
    hide WarningsFor, VerdictOf, Select, IsRisky, ChangesOf, EntryRight, TypeOfEntry;
    BucketMembers(bucket, action, v, ids, o, n, stringify);
    forall i | 0 <= i < |bucket|
      ensures bucket[i].logicalId == IdsOf(bucket)[i] && bucket[i].action == action
      ensures Warning(risk, id) in WarningsFor(bucket[i]) <==>
        bucket[i].logicalId == id && IsRisky(risk, action, TypeOfEntry(id, o, n))
    {
      RiskOf(bucket[i], risk, id);
      assert EntryRight(bucket[i], o, n, stringify);
      assert IdsOf(bucket)[i] in IdsOf(bucket);
      TypeIsOfEntry(bucket[i], o, n, stringify);
    }
    if id in ids && VerdictOf(o, n, id, stringify) == v {
      var i :| 0 <= i < |bucket| && IdsOf(bucket)[i] == id;
      assert bucket[i].logicalId == id;
    }
  }

  lemma TypeIsOfEntry(d: ResourceDiff, o: Stack, n: Stack, stringify: Printer)
    requires o.Valid() && n.Valid() && EntryRight(d, o, n, stringify)
    requires VerdictOf(o, n, d.logicalId, stringify) == VerdictFor(d.action)
    ensures d.resourceType == TypeOfEntry(d.logicalId, o, n)
  {
    hide ChangesOf, FiledUnderListed;
  }

  /** The warnings come in the order of the entries. */
  lemma {:induction false} WarningsAppend(a: seq<ResourceDiff>, b: seq<ResourceDiff>)
    ensures AllWarnings(a + b) == AllWarnings(a) + AllWarnings(b)
  {
    hide WarningsFor;
    if b == [] {
      assert a + b == a;
    } else {
      WarningsAppend(a, b[..|b| - 1]);
      assert (a + b)[..|a + b| - 1] == a + b[..|b| - 1];
    }
  }

  /** The warnings of an analysis, by verdict: nothing else is warned of, and nothing is left out. */
  lemma RiskIsWarned(diff: Diff, risk: Risk, id: string, o: Stack, n: Stack, stringify: Printer)
    requires o.Valid() && n.Valid() && BucketsRight(diff, AllKeys(o.ids, n.ids), o, n, stringify)
    ensures Warning(risk, id) in AllWarnings(diff.removed + diff.replaced + diff.updated) <==>
      && id in AllKeys(o.ids, n.ids)
      && match VerdictOf(o, n, id, stringify)
         case Removed => IsRisky(risk, RemoveIt, TypeOfEntry(id, o, n))
         case Replaced => IsRisky(risk, ReplaceIt, TypeOfEntry(id, o, n))
         case Updated => IsRisky(risk, UpdateIt, TypeOfEntry(id, o, n))
         case _ => false
  {
    hide Select, AllKeys, AllWarnings, WarningsFor, VerdictOf, IsRisky, BucketRight, TypeOfEntry;
    var ids, w := AllKeys(o.ids, n.ids), Warning(risk, id);
    WarningsAppend(diff.removed + diff.replaced, diff.updated);
    WarningsAppend(diff.removed, diff.replaced);
    WarnedOf(diff.removed, w);
    WarnedOf(diff.replaced, w);
    WarnedOf(diff.updated, w);
    RiskInBucket(diff.removed, RemoveIt, Removed, ids, risk, id, o, n, stringify);
    RiskInBucket(diff.replaced, ReplaceIt, Replaced, ids, risk, id, o, n, stringify);
    RiskInBucket(diff.updated, UpdateIt, Updated, ids, risk, id, o, n, stringify);
  }

  lemma EntryTypes(o: Stack, n: Stack, id: string, stringify: Printer)
    requires o.Valid() && n.Valid()
    ensures TypeOfEntry(id, o, n) == TypeIn(n, id) || VerdictOf(o, n, id, stringify) == Removed
    ensures VerdictOf(o, n, id, stringify) == Removed ==> TypeOfEntry(id, o, n) == TypeIn(o, id)
  {
    hide INHERITED_NAMES;
    VerdictOfLoneId(o, n, id, stringify);
    if Find(o, id).Some? && Find(n, id).Some? {
      NotLone(o, n, id, stringify);
    }
  }

  /**
   A loss of data is warned of exactly when a resource of a listed type is removed, or replaced by one
   of a listed type: when a replacement changes the type it is the new type that counts.
   */
  lemma DataLossIsWarned(diff: Diff, id: string, o: Stack, n: Stack, stringify: Printer)
    requires o.Valid() && n.Valid() && BucketsRight(diff, AllKeys(o.ids, n.ids), o, n, stringify)
    ensures Warning(DataLoss, id) in AllWarnings(diff.removed + diff.replaced + diff.updated) <==>
      && id in AllKeys(o.ids, n.ids)
      && ((VerdictOf(o, n, id, stringify) == Removed
           && (TypeIn(o, id) == Some("AWS::RDS::DBInstance") || TypeIn(o, id) == Some("AWS::DynamoDB::Table")
               || TypeIn(o, id) == Some("AWS::ElastiCache::CacheCluster") || TypeIn(o, id) == Some("AWS::S3::Bucket")))
          || (VerdictOf(o, n, id, stringify) == Replaced
              && (TypeIn(n, id) == Some("AWS::RDS::DBInstance") || TypeIn(n, id) == Some("AWS::DynamoDB::Table")
                  || TypeIn(n, id) == Some("AWS::S3::Bucket"))))
  {
    hide BucketsRight, AllKeys, AllWarnings, VerdictOf, TypeOfEntry, TypeIn;
    RiskIsWarned(diff, DataLoss, id, o, n, stringify);
    EntryTypes(o, n, id, stringify);
  }

  /** Downtime is expected exactly of the replacement of an instance. */
  lemma DowntimeIsWarned(diff: Diff, id: string, o: Stack, n: Stack, stringify: Printer)
    requires o.Valid() && n.Valid() && BucketsRight(diff, AllKeys(o.ids, n.ids), o, n, stringify)
    ensures Warning(Downtime, id) in AllWarnings(diff.removed + diff.replaced + diff.updated) <==>
      && id in AllKeys(o.ids, n.ids) && VerdictOf(o, n, id, stringify) == Replaced
      && TypeIn(n, id) == Some("AWS::EC2::Instance")
  {
    hide BucketsRight, AllKeys, AllWarnings, VerdictOf, TypeOfEntry, TypeIn;
    RiskIsWarned(diff, Downtime, id, o, n, stringify);
    EntryTypes(o, n, id, stringify);
  }

  /** Connectivity is at risk exactly when a security group is updated. */
  lemma ConnectivityIsWarned(diff: Diff, id: string, o: Stack, n: Stack, stringify: Printer)
    requires o.Valid() && n.Valid() && BucketsRight(diff, AllKeys(o.ids, n.ids), o, n, stringify)
    ensures Warning(Connectivity, id) in AllWarnings(diff.removed + diff.replaced + diff.updated) <==>
      && id in AllKeys(o.ids, n.ids) && VerdictOf(o, n, id, stringify) == Updated
      && TypeIn(n, id) == Some("AWS::EC2::SecurityGroup")
  {
    hide BucketsRight, AllKeys, AllWarnings, VerdictOf, TypeOfEntry, TypeIn;
    RiskIsWarned(diff, Connectivity, id, o, n, stringify);
    EntryTypes(o, n, id, stringify);
  }

  /** Permissions are at risk exactly when a role or a policy is updated or replaced. */
  lemma PermissionsAreWarned(diff: Diff, id: string, o: Stack, n: Stack, stringify: Printer)
    requires o.Valid() && n.Valid() && BucketsRight(diff, AllKeys(o.ids, n.ids), o, n, stringify)
    ensures Warning(Permissions, id) in AllWarnings(diff.removed + diff.replaced + diff.updated) <==>
      && id in AllKeys(o.ids, n.ids)
      && (VerdictOf(o, n, id, stringify) == Updated || VerdictOf(o, n, id, stringify) == Replaced)
      && (TypeIn(n, id) == Some("AWS::IAM::Role") || TypeIn(n, id) == Some("AWS::IAM::Policy"))
  {
    hide BucketsRight, AllKeys, AllWarnings, VerdictOf, TypeOfEntry, TypeIn;
    RiskIsWarned(diff, Permissions, id, o, n, stringify);
    EntryTypes(o, n, id, stringify);
  }

  /** So a database whose type changes to one that holds no data is lost without a word. */
  lemma TypeChangeIsNotWarnedOf(diff: Diff, id: string, o: Stack, n: Stack, stringify: Printer)
    requires o.Valid() && n.Valid() && BucketsRight(diff, AllKeys(o.ids, n.ids), o, n, stringify)
    requires id in o.resources && id in n.resources && TypeIn(o, id) != TypeIn(n, id)
    requires TypeIn(n, id) != Some("AWS::RDS::DBInstance") && TypeIn(n, id) != Some("AWS::DynamoDB::Table")
    requires TypeIn(n, id) != Some("AWS::S3::Bucket")
    ensures VerdictOf(o, n, id, stringify) == Replaced
    ensures Warning(DataLoss, id) !in AllWarnings(diff.removed + diff.replaced + diff.updated)
  {
    hide BucketsRight, AllKeys, AllWarnings;
    VerdictOfLoneId(o, n, id, stringify);
    DataLossIsWarned(diff, id, o, n, stringify);
  }

  /** And so is a resource that is removed although every object answers to its id. */
  lemma InheritedIdIsNotWarnedOf(diff: Diff, id: string, o: Stack, n: Stack, stringify: Printer)
    requires o.Valid() && n.Valid() && BucketsRight(diff, AllKeys(o.ids, n.ids), o, n, stringify)
    requires id in o.resources && id !in n.resources && id in INHERITED_NAMES
    ensures Warning(DataLoss, id) !in AllWarnings(diff.removed + diff.replaced + diff.updated)
  {
    hide BucketsRight, AllKeys, AllWarnings, INHERITED_NAMES, VerdictOf;
    DataLossIsWarned(diff, id, o, n, stringify);
    LoneIdsExactly(o, n, id, stringify);
  }
}
