/** Sorting the resources of two templates into buckets: packages/core/src/stack-diff.ts. */
module StackAnalysis {
  import opened OrderedSets
  import opened Templates
  import opened PropertyPaths
  import opened StackDiff
  import opened Prototypes
  import opened Wrappers

  /** What a resource has for its `Type`; without one it is the source's `undefined`. */
  type TypeName = Option<string>

  /** A resource without `Properties` has an empty object here, as the source substitutes one. */
  datatype StackResource = StackResource(resourceType: TypeName, properties: Json) {
    ghost predicate Valid() {
      properties.Valid() && properties.Obj?
    }
  }

  datatype Stack = Stack(ids: seq<string>, resources: map<string, StackResource>) {
    ghost predicate Valid() {
      && NoDup(ids)
      && (forall k :: k in ids <==> k in resources)
      && forall k | k in resources :: resources[k].Valid()
    }
  }

  /** A function, or the prototype itself: it has neither a `Type` nor `Properties`. */
  const INHERITED := StackResource(None, Obj([], map[]))

  /** What reading `resources[id]` finds. */
  function Find(s: Stack, id: string): Option<StackResource> {
    if id in s.resources then Some(s.resources[id])
    else if id in INHERITED_NAMES then Some(INHERITED)
    else None
  }

  lemma FoundIsValid(s: Stack, id: string)
    requires s.Valid()
    ensures Find(s, id).Some? ==> Find(s, id).value.Valid()
  {
    hide INHERITED_NAMES;
  }

  /** The type a resource of a stack has, if the stack has it and it has one. */
  function TypeIn(s: Stack, id: string): TypeName {
    if id in s.resources then s.resources[id].resourceType else None
  }

  datatype Action = AddIt | RemoveIt | UpdateIt | ReplaceIt

  datatype Reason = NoReason | TypeChanged(before: TypeName, after: TypeName) | PropertiesRequireIt

  datatype ResourceDiff = ResourceDiff(
    logicalId: string, action: Action, resourceType: TypeName, changes: seq<PropertyChange>, reason: Reason)

  datatype Diff = Diff(
    added: seq<ResourceDiff>, removed: seq<ResourceDiff>, updated: seq<ResourceDiff>, replaced: seq<ResourceDiff>,
    untouched: seq<string>)
  {
    function TotalChanges(): nat {
      |added| + |removed| + |updated| + |replaced|
    }
  }

  datatype Risk = DataLoss | Downtime | Connectivity | Permissions

  datatype Warning = Warning(risk: Risk, logicalId: string)

  datatype Analysis = Analysis(diff: Diff, requiresReplacement: bool, dangerousChanges: seq<Warning>) | Thrown

  /** The properties whose change replaces a resource of the given type; none for an unlisted type. */
  function ReplacementProperties(resourceType: TypeName): set<string> {
    if resourceType == Some("AWS::S3::Bucket") then {"BucketName"}
    else if resourceType == Some("AWS::DynamoDB::Table") then {"TableName", "KeySchema"}
    else if resourceType == Some("AWS::RDS::DBInstance") then {"DBInstanceIdentifier", "DBName", "Engine"}
    else if resourceType == Some("AWS::Lambda::Function") then {"FunctionName"}
    else if resourceType == Some("AWS::EC2::Instance") then {"ImageId", "InstanceType", "KeyName"}
    else if resourceType == Some("AWS::ECS::TaskDefinition") then {"Family", "ContainerDefinitions"}
    else if resourceType == Some("AWS::ElastiCache::CacheCluster") then {"CacheNodeType", "Engine"}
    else if resourceType == Some("AWS::Route53::HostedZone") then {"Name"}
    else if resourceType == Some("AWS::IAM::Role") then {"RoleName", "Path"}
    else if resourceType == Some("AWS::KMS::Key") then {"KeyPolicy"}
    else if resourceType == Some("AWS::Cognito::UserPool") then {"UserPoolName"}
    else if resourceType == Some("AWS::OpenSearchService::Domain") then {"DomainName"}
    else {}
  }

  /** Some change is filed under a listed property, going by the first component of its path. */
  ghost predicate FiledUnderListed(resourceType: TypeName, changes: seq<PropertyChange>) {
    exists i | 0 <= i < |changes| :: Split(changes[i].path)[0] in ReplacementProperties(resourceType)
  }

  /** The table, line by line. */
  lemma ReplacementTable(t: TypeName, k: string)
    ensures k in ReplacementProperties(t) <==>
      || (t == Some("AWS::S3::Bucket") && k == "BucketName")
      || (t == Some("AWS::DynamoDB::Table") && (k == "TableName" || k == "KeySchema"))
      || (t == Some("AWS::RDS::DBInstance") && (k == "DBInstanceIdentifier" || k == "DBName" || k == "Engine"))
      || (t == Some("AWS::Lambda::Function") && k == "FunctionName")
      || (t == Some("AWS::EC2::Instance") && (k == "ImageId" || k == "InstanceType" || k == "KeyName"))
      || (t == Some("AWS::ECS::TaskDefinition") && (k == "Family" || k == "ContainerDefinitions"))
      || (t == Some("AWS::ElastiCache::CacheCluster") && (k == "CacheNodeType" || k == "Engine"))
      || (t == Some("AWS::Route53::HostedZone") && k == "Name")
      || (t == Some("AWS::IAM::Role") && (k == "RoleName" || k == "Path"))
      || (t == Some("AWS::KMS::Key") && k == "KeyPolicy")
      || (t == Some("AWS::Cognito::UserPool") && k == "UserPoolName")
      || (t == Some("AWS::OpenSearchService::Domain") && k == "DomainName")
  {}

  method CheckIfReplacementRequired(resourceType: TypeName, changes: seq<PropertyChange>) returns (required: bool)
    ensures required <==> FiledUnderListed(resourceType, changes)
  {
    hide ReplacementProperties, Split;
    var replaceProps := ReplacementProperties(resourceType);
    for i := 0 to |changes|
      invariant forall k | 0 <= k < i :: Split(changes[k].path)[0] !in replaceProps
    {
      var topLevelProp := Split(changes[i].path)[0];
      if topLevelProp in replaceProps {
        return true;
      }
    }
    required := false;
  }

  datatype Verdict = Added | Removed | Replaced | Updated | Untouched | Unanswered

  /** What is to become of one logical id. */
  ghost function VerdictOf(o: Stack, n: Stack, id: string, stringify: Printer): Verdict
    requires o.Valid() && n.Valid()
  {
    FoundIsValid(o, id);
    FoundIsValid(n, id);
    if Find(o, id).None? then Added
    else if Find(n, id).None? then Removed
    else
      var before, after := Find(o, id).value, Find(n, id).value;
      if before.resourceType != after.resourceType then Replaced
      else if exists keys :: MeetsNull(before.properties, after.properties, keys) then Unanswered
      else if Same(before.properties, after.properties, stringify) then Untouched
      else if FiledUnderListed(before.resourceType, ChangesOf(before, after, stringify)) then Replaced
      else Updated
  }

  function ChangesOf(before: StackResource, after: StackResource, stringify: Printer): seq<PropertyChange>
    requires before.Valid() && after.Valid()
  {
    match PropertyDeltas(before.properties, after.properties, stringify)
    case None => []
    case Some(deltas) => Printed("", deltas)
  }

  /** The ids of `ids` with verdict `v`, in order. */
  ghost function Select(ids: seq<string>, v: Verdict, o: Stack, n: Stack, stringify: Printer): seq<string>
    requires o.Valid() && n.Valid()
  {
    if ids == [] then []
    else
      var id := ids[|ids| - 1];
      Select(ids[..|ids| - 1], v, o, n, stringify) + if VerdictOf(o, n, id, stringify) == v then [id] else []
  }

  function IdsOf(diffs: seq<ResourceDiff>): seq<string> {
    seq(|diffs|, i requires 0 <= i < |diffs| => diffs[i].logicalId)
  }

  /** The entry carries the right type, and the property changes where there are any to tell. */
  ghost predicate EntryRight(d: ResourceDiff, o: Stack, n: Stack, stringify: Printer)
    requires o.Valid() && n.Valid()
  {
    var id := d.logicalId;
    FoundIsValid(o, id);
    FoundIsValid(n, id);
    match d.action
    case AddIt =>
      && Find(n, id).Some? && d.resourceType == Find(n, id).value.resourceType
      && d.changes == [] && d.reason == NoReason
    case RemoveIt =>
      && Find(o, id).Some? && d.resourceType == Find(o, id).value.resourceType
      && d.changes == [] && d.reason == NoReason
    case _ =>
      && Find(o, id).Some? && Find(n, id).Some?
      && var before, after := Find(o, id).value, Find(n, id).value;
      && d.resourceType == after.resourceType
      && (if before.resourceType != after.resourceType
          then d.changes == [] && d.reason == TypeChanged(before.resourceType, after.resourceType)
          else d.changes == ChangesOf(before, after, stringify)
               && d.reason == if d.action == ReplaceIt then PropertiesRequireIt else NoReason)
  }

  ghost predicate BucketRight(
    bucket: seq<ResourceDiff>, action: Action, v: Verdict, ids: seq<string>, o: Stack, n: Stack, stringify: Printer)
    requires o.Valid() && n.Valid()
  {
    && IdsOf(bucket) == Select(ids, v, o, n, stringify)
    && forall i | 0 <= i < |bucket| :: bucket[i].action == action && EntryRight(bucket[i], o, n, stringify)
  }

  /** Each id of `ids` is in the bucket of its verdict, once, in order; none of them made the walk throw. */
  ghost predicate BucketsRight(diff: Diff, ids: seq<string>, o: Stack, n: Stack, stringify: Printer)
    requires o.Valid() && n.Valid()
  {
    && BucketRight(diff.added, AddIt, Added, ids, o, n, stringify)
    && BucketRight(diff.removed, RemoveIt, Removed, ids, o, n, stringify)
    && BucketRight(diff.updated, UpdateIt, Updated, ids, o, n, stringify)
    && BucketRight(diff.replaced, ReplaceIt, Replaced, ids, o, n, stringify)
    && diff.untouched == Select(ids, Untouched, o, n, stringify)
    && Select(ids, Unanswered, o, n, stringify) == []
  }

  /** `diff` with one more entry in the bucket its action names. */
  function Place(diff: Diff, d: ResourceDiff): Diff {
    match d.action
    case AddIt => diff.(added := diff.added + [d])
    case RemoveIt => diff.(removed := diff.removed + [d])
    case UpdateIt => diff.(updated := diff.updated + [d])
    case ReplaceIt => diff.(replaced := diff.replaced + [d])
  }

  function VerdictFor(action: Action): Verdict {
    match action
    case AddIt => Added
    case RemoveIt => Removed
    case UpdateIt => Updated
    case ReplaceIt => Replaced
  }

  lemma SelectNext(ids: seq<string>, id: string, v: Verdict, o: Stack, n: Stack, stringify: Printer)
    requires o.Valid() && n.Valid()
    ensures Select(ids + [id], v, o, n, stringify) ==
      Select(ids, v, o, n, stringify) + if VerdictOf(o, n, id, stringify) == v then [id] else []
  {
    assert (ids + [id])[..|ids|] == ids;
  }

  lemma BucketNext(
    bucket: seq<ResourceDiff>, action: Action, v: Verdict, ids: seq<string>, d: ResourceDiff,
    o: Stack, n: Stack, stringify: Printer)
    requires o.Valid() && n.Valid() && BucketRight(bucket, action, v, ids, o, n, stringify)
    ensures VerdictOf(o, n, d.logicalId, stringify) != v ==>
      BucketRight(bucket, action, v, ids + [d.logicalId], o, n, stringify)
    ensures VerdictOf(o, n, d.logicalId, stringify) == v && d.action == action && EntryRight(d, o, n, stringify) ==>
      BucketRight(bucket + [d], action, v, ids + [d.logicalId], o, n, stringify)
  {
    hide VerdictOf, EntryRight, Select;
    SelectNext(ids, d.logicalId, v, o, n, stringify);
    assert IdsOf(bucket + [d]) == IdsOf(bucket) + [d.logicalId];
  }

  lemma PlacedRight(diff: Diff, ids: seq<string>, d: ResourceDiff, o: Stack, n: Stack, stringify: Printer)
    requires o.Valid() && n.Valid() && BucketsRight(diff, ids, o, n, stringify)
    requires VerdictOf(o, n, d.logicalId, stringify) == VerdictFor(d.action) && EntryRight(d, o, n, stringify)
    ensures BucketsRight(Place(diff, d), ids + [d.logicalId], o, n, stringify)
  {
    hide VerdictOf, EntryRight, Select, BucketRight;
    BucketNext(diff.added, AddIt, Added, ids, d, o, n, stringify);
    BucketNext(diff.removed, RemoveIt, Removed, ids, d, o, n, stringify);
    BucketNext(diff.updated, UpdateIt, Updated, ids, d, o, n, stringify);
    BucketNext(diff.replaced, ReplaceIt, Replaced, ids, d, o, n, stringify);
    SelectNext(ids, d.logicalId, Untouched, o, n, stringify);
    SelectNext(ids, d.logicalId, Unanswered, o, n, stringify);
  }

  lemma LeftAlone(diff: Diff, ids: seq<string>, id: string, o: Stack, n: Stack, stringify: Printer)
    requires o.Valid() && n.Valid() && BucketsRight(diff, ids, o, n, stringify)
    requires VerdictOf(o, n, id, stringify) == Untouched
    ensures BucketsRight(diff.(untouched := diff.untouched + [id]), ids + [id], o, n, stringify)
  {
    hide VerdictOf, EntryRight, Select, BucketRight;
    var d := ResourceDiff(id, AddIt, None, [], NoReason);
    BucketNext(diff.added, AddIt, Added, ids, d, o, n, stringify);
    BucketNext(diff.removed, RemoveIt, Removed, ids, d, o, n, stringify);
    BucketNext(diff.updated, UpdateIt, Updated, ids, d, o, n, stringify);
    BucketNext(diff.replaced, ReplaceIt, Replaced, ids, d, o, n, stringify);
    SelectNext(ids, id, Untouched, o, n, stringify);
    SelectNext(ids, id, Unanswered, o, n, stringify);
  }

  /** The verdict on an id both stacks have, in terms of what the comparison of its properties returned. */
  lemma VerdictFromComparison(o: Stack, n: Stack, id: string, stringify: Printer)
    requires o.Valid() && n.Valid() && Find(o, id).Some? && Find(n, id).Some?
    requires Find(o, id).value.resourceType == Find(n, id).value.resourceType
    ensures var before, after := Find(o, id).value, Find(n, id).value;
      before.Valid() && after.Valid() && VerdictOf(o, n, id, stringify) ==
        match OutcomeOf("", PropertyDeltas(before.properties, after.properties, stringify))
        case TypeError => Unanswered
        case Changes(changes) =>
          if changes == [] then Untouched
          else if FiledUnderListed(before.resourceType, changes) then Replaced else Updated
  {
    hide FiledUnderListed, Same, Find;
    FoundIsValid(o, id);
    FoundIsValid(n, id);
    var before, after := Find(o, id).value.properties, Find(n, id).value.properties;
    ThrowsOnNull(before, after, stringify);
    if PropertyDeltas(before, after, stringify).Some? {
      NothingReportedMeansSame(before, after, stringify);
    }
  }

  /**
   Sorts every logical id of the two stacks into the bucket its verdict asks for; throws exactly
   when a resource both stacks have, of one type, has an object property that became null.
   */
  method AnalyzeStackDiff(o: Stack, n: Stack, stringify: Printer) returns (r: Analysis)
    requires o.Valid() && n.Valid()
    ensures r.Thrown? <==> exists id :: id in AllKeys(o.ids, n.ids) && VerdictOf(o, n, id, stringify) == Unanswered
    ensures r.Analysis? ==>
      && BucketsRight(r.diff, AllKeys(o.ids, n.ids), o, n, stringify)
      && (r.requiresReplacement <==>
            exists id :: id in AllKeys(o.ids, n.ids) && VerdictOf(o, n, id, stringify) == Replaced)
      && r.dangerousChanges == AllWarnings(r.diff.removed + r.diff.replaced + r.diff.updated)
  {
    hide VerdictOf, Select, BucketsRight, PropertyDeltas, Printed, FiledUnderListed, AllKeys, AllWarnings, Find;
    var diff := Diff([], [], [], [], []);
    var allLogicalIds := AllKeys(o.ids, n.ids);
    NothingPlaced(o, n, stringify);
    for i := 0 to |allLogicalIds|
      invariant BucketsRight(diff, allLogicalIds[..i], o, n, stringify)
      invariant forall k | 0 <= k < i :: VerdictOf(o, n, allLogicalIds[k], stringify) != Unanswered
    {
      var id := allLogicalIds[i];
      assert allLogicalIds[..i + 1] == allLogicalIds[..i] + [id];
      var oldResource, newResource := Find(o, id), Find(n, id);
      FoundSomewhere(o, n, id);
      VerdictOfLoneId(o, n, id, stringify);
      if oldResource.None? && newResource.Some? {
        var d := ResourceDiff(id, AddIt, newResource.value.resourceType, [], NoReason);
        PlacedRight(diff, allLogicalIds[..i], d, o, n, stringify);
        diff := diff.(added := diff.added + [d]);
      } else if oldResource.Some? && newResource.None? {
        var d := ResourceDiff(id, RemoveIt, oldResource.value.resourceType, [], NoReason);
        PlacedRight(diff, allLogicalIds[..i], d, o, n, stringify);
        diff := diff.(removed := diff.removed + [d]);
      } else if oldResource.value.resourceType != newResource.value.resourceType {
        var reason := TypeChanged(oldResource.value.resourceType, newResource.value.resourceType);
        var d := ResourceDiff(id, ReplaceIt, newResource.value.resourceType, [], reason);
        PlacedRight(diff, allLogicalIds[..i], d, o, n, stringify);
        diff := diff.(replaced := diff.replaced + [d]);
      } else {
        VerdictFromComparison(o, n, id, stringify);
        var outcome := CompareProperties(oldResource.value.properties, newResource.value.properties, "", stringify);
        if outcome.TypeError? {
          return Thrown;
        }
        var changes := outcome.changes;
        if |changes| > 0 {
          var requiresReplacement := CheckIfReplacementRequired(oldResource.value.resourceType, changes);
          var action, reason := UpdateIt, NoReason;
          if requiresReplacement {
            action, reason := ReplaceIt, PropertiesRequireIt;
          }
          var d := ResourceDiff(id, action, newResource.value.resourceType, changes, reason);
          PlacedRight(diff, allLogicalIds[..i], d, o, n, stringify);
          if requiresReplacement {
            diff := diff.(replaced := diff.replaced + [d]);
          } else {
            diff := diff.(updated := diff.updated + [d]);
          }
        } else {
          LeftAlone(diff, allLogicalIds[..i], id, o, n, stringify);
          diff := diff.(untouched := diff.untouched + [id]);
        }
      }
    }
    assert allLogicalIds[..|allLogicalIds|] == allLogicalIds;
    ReplacedMembers(diff, o, n, stringify);
    var dangerousChanges := IdentifyDangerousChanges(diff.removed + diff.replaced + diff.updated);
    r := Analysis(diff, |diff.replaced| > 0, dangerousChanges);
  }

  lemma {:induction false} SelectedIds(ids: seq<string>, v: Verdict, o: Stack, n: Stack, stringify: Printer)
    requires o.Valid() && n.Valid()
    ensures forall id :: id in Select(ids, v, o, n, stringify) <==> id in ids && VerdictOf(o, n, id, stringify) == v
  {
    hide VerdictOf;
    if ids != [] {
      SelectedIds(ids[..|ids| - 1], v, o, n, stringify);
      assert ids == ids[..|ids| - 1] + [ids[|ids| - 1]];
    }
  }

  /** The entries of a bucket are those of the ids with its verdict. */
  lemma BucketMembers(
    bucket: seq<ResourceDiff>, action: Action, v: Verdict, ids: seq<string>, o: Stack, n: Stack, stringify: Printer)
    requires o.Valid() && n.Valid() && BucketRight(bucket, action, v, ids, o, n, stringify)
    ensures forall id :: id in ids && VerdictOf(o, n, id, stringify) == v <==> id in IdsOf(bucket)
    ensures bucket != [] <==> exists id :: id in ids && VerdictOf(o, n, id, stringify) == v
  {
    hide VerdictOf, Select, EntryRight;
    SelectedIds(ids, v, o, n, stringify);
    if bucket != [] {
      assert IdsOf(bucket)[0] in IdsOf(bucket);
    }
  }

  lemma ReplacedMembers(diff: Diff, o: Stack, n: Stack, stringify: Printer)
    requires o.Valid() && n.Valid() && BucketsRight(diff, AllKeys(o.ids, n.ids), o, n, stringify)
    ensures |diff.replaced| > 0 <==>
      exists id :: id in AllKeys(o.ids, n.ids) && VerdictOf(o, n, id, stringify) == Replaced
  {
    hide VerdictOf, Select, BucketRight, AllKeys;
    BucketMembers(diff.replaced, ReplaceIt, Replaced, AllKeys(o.ids, n.ids), o, n, stringify);
  }

  // ---------- Warnings ----------

  /** What is to be warned of about one entry. */
  function WarningsFor(d: ResourceDiff): seq<Warning> {
    var id, t := d.logicalId, d.resourceType;
    When(d.action == RemoveIt && t in LOST_WHEN_REMOVED, Warning(DataLoss, id)) +
    When(d.action == ReplaceIt && t in LOST_WHEN_REPLACED, Warning(DataLoss, id)) +
    When(d.action in {RemoveIt, ReplaceIt} && t == Some("AWS::S3::Bucket"), Warning(DataLoss, id)) +
    When(d.action == ReplaceIt && t == Some("AWS::EC2::Instance"), Warning(Downtime, id)) +
    When(d.action == UpdateIt && t == Some("AWS::EC2::SecurityGroup"), Warning(Connectivity, id)) +
    When(d.action in {UpdateIt, ReplaceIt} && t in IAM_TYPES, Warning(Permissions, id))
  }

  function When(told: bool, w: Warning): seq<Warning> {
    if told then [w] else []
  }

  const LOST_WHEN_REMOVED :=
    {Some("AWS::RDS::DBInstance"), Some("AWS::DynamoDB::Table"), Some("AWS::ElastiCache::CacheCluster")}

  const LOST_WHEN_REPLACED := {Some("AWS::RDS::DBInstance"), Some("AWS::DynamoDB::Table")}

  const IAM_TYPES := {Some("AWS::IAM::Role"), Some("AWS::IAM::Policy")}

  function AllWarnings(diffs: seq<ResourceDiff>): seq<Warning> {
    if diffs == [] then [] else AllWarnings(diffs[..|diffs| - 1]) + WarningsFor(diffs[|diffs| - 1])
  }

  lemma ToldOrNot(before: seq<Warning>, told: bool, w: Warning)
    ensures before + When(told, w) == if told then before + [w] else before
  {}

  lemma AllTold(
    before: seq<Warning>, a: seq<Warning>, b: seq<Warning>, c: seq<Warning>, d: seq<Warning>, e: seq<Warning>,
    f: seq<Warning>)
    ensures before + a + b + c + d + e + f == before + (a + b + c + d + e + f)
  {}

  method IdentifyDangerousChanges(diffs: seq<ResourceDiff>) returns (dangerous: seq<Warning>)
    ensures dangerous == AllWarnings(diffs)
  {
    hide LOST_WHEN_REMOVED, LOST_WHEN_REPLACED, IAM_TYPES, When;
    dangerous := [];
    for i := 0 to |diffs|
      invariant dangerous == AllWarnings(diffs[..i])
    {
      var d := diffs[i];
      var id, t := d.logicalId, d.resourceType;
      ghost var before := dangerous;
      assert diffs[..i + 1][..i] == diffs[..i];
      ToldOrNot(dangerous, d.action == RemoveIt && t in LOST_WHEN_REMOVED, Warning(DataLoss, id));
      if d.action == RemoveIt && t in LOST_WHEN_REMOVED {
        dangerous := dangerous + [Warning(DataLoss, id)];
      }
      ToldOrNot(dangerous, d.action == ReplaceIt && t in LOST_WHEN_REPLACED, Warning(DataLoss, id));
      if d.action == ReplaceIt && t in LOST_WHEN_REPLACED {
        dangerous := dangerous + [Warning(DataLoss, id)];
      }
      ToldOrNot(
        dangerous, d.action in {RemoveIt, ReplaceIt} && t == Some("AWS::S3::Bucket"), Warning(DataLoss, id));
      if (d.action == RemoveIt || d.action == ReplaceIt) && t == Some("AWS::S3::Bucket") {
        dangerous := dangerous + [Warning(DataLoss, id)];
      }
      ToldOrNot(dangerous, d.action == ReplaceIt && t == Some("AWS::EC2::Instance"), Warning(Downtime, id));
      if d.action == ReplaceIt && t == Some("AWS::EC2::Instance") {
        dangerous := dangerous + [Warning(Downtime, id)];
      }
      ToldOrNot(
        dangerous, d.action == UpdateIt && t == Some("AWS::EC2::SecurityGroup"), Warning(Connectivity, id));
      if d.action == UpdateIt && t == Some("AWS::EC2::SecurityGroup") {
        dangerous := dangerous + [Warning(Connectivity, id)];
      }
      ToldOrNot(dangerous, d.action in {UpdateIt, ReplaceIt} && t in IAM_TYPES, Warning(Permissions, id));
      if (d.action == UpdateIt || d.action == ReplaceIt) && t in IAM_TYPES {
        dangerous := dangerous + [Warning(Permissions, id)];
      }
      AllTold(before,
              When(d.action == RemoveIt && t in LOST_WHEN_REMOVED, Warning(DataLoss, id)),
              When(d.action == ReplaceIt && t in LOST_WHEN_REPLACED, Warning(DataLoss, id)),
              When(d.action in {RemoveIt, ReplaceIt} && t == Some("AWS::S3::Bucket"), Warning(DataLoss, id)),
              When(d.action == ReplaceIt && t == Some("AWS::EC2::Instance"), Warning(Downtime, id)),
              When(d.action == UpdateIt && t == Some("AWS::EC2::SecurityGroup"), Warning(Connectivity, id)),
              When(d.action in {UpdateIt, ReplaceIt} && t in IAM_TYPES, Warning(Permissions, id)));
    }
    assert diffs[..|diffs|] == diffs;
  }

  lemma NothingPlaced(o: Stack, n: Stack, stringify: Printer)
    requires o.Valid() && n.Valid()
    ensures BucketsRight(Diff([], [], [], [], []), [], o, n, stringify)
  {}

  lemma VerdictOfLoneId(o: Stack, n: Stack, id: string, stringify: Printer)
    requires o.Valid() && n.Valid()
    ensures Find(o, id).None? ==> VerdictOf(o, n, id, stringify) == Added
    ensures Find(o, id).Some? && Find(n, id).None? ==> VerdictOf(o, n, id, stringify) == Removed
    ensures Find(o, id).Some? && Find(n, id).Some?
            && Find(o, id).value.resourceType != Find(n, id).value.resourceType ==>
      VerdictOf(o, n, id, stringify) == Replaced
  {
    hide Find;
  }

  lemma FoundSomewhere(o: Stack, n: Stack, id: string)
    requires o.Valid() && n.Valid() && id in AllKeys(o.ids, n.ids)
    ensures Find(o, id).Some? || Find(n, id).Some?
    ensures Find(o, id).Some? ==> Find(o, id).value.Valid()
    ensures Find(n, id).Some? ==> Find(n, id).value.Valid()
  {
    hide INHERITED_NAMES;
    FoundIsValid(o, id);
    FoundIsValid(n, id);
  }

  /**
   A resource only one stack has counts as added or removed, unless every object answers to its id:
   with a type it then counts as replaced.
   */
  lemma LoneIdsExactly(o: Stack, n: Stack, id: string, stringify: Printer)
    requires o.Valid() && n.Valid()
    ensures id in n.resources && id !in o.resources ==>
      && (VerdictOf(o, n, id, stringify) == Added <==> id !in INHERITED_NAMES)
      && (id in INHERITED_NAMES && n.resources[id].resourceType.Some? ==> VerdictOf(o, n, id, stringify) == Replaced)
    ensures id in o.resources && id !in n.resources ==>
      && (VerdictOf(o, n, id, stringify) == Removed <==> id !in INHERITED_NAMES)
      && (id in INHERITED_NAMES && o.resources[id].resourceType.Some? ==> VerdictOf(o, n, id, stringify) == Replaced)
  {
    hide INHERITED_NAMES;
    VerdictOfLoneId(o, n, id, stringify);
  }

  /** The buckets account for every id: what is not counted as a change is untouched. */
  lemma {:induction false} SelectionsAddUp(ids: seq<string>, o: Stack, n: Stack, stringify: Printer)
    requires o.Valid() && n.Valid()
    ensures |Select(ids, Added, o, n, stringify)| + |Select(ids, Removed, o, n, stringify)|
      + |Select(ids, Updated, o, n, stringify)| + |Select(ids, Replaced, o, n, stringify)|
      + |Select(ids, Untouched, o, n, stringify)| + |Select(ids, Unanswered, o, n, stringify)| == |ids|
  {
    hide VerdictOf;
    if ids != [] {
      SelectionsAddUp(ids[..|ids| - 1], o, n, stringify);
    }
  }

  lemma ChangesAreCounted(diff: Diff, o: Stack, n: Stack, stringify: Printer)
    requires o.Valid() && n.Valid() && BucketsRight(diff, AllKeys(o.ids, n.ids), o, n, stringify)
    ensures diff.TotalChanges() + |diff.untouched| == |AllKeys(o.ids, n.ids)|
  {
    hide Select;
    SelectionsAddUp(AllKeys(o.ids, n.ids), o, n, stringify);
  }

  lemma {:induction false} SelectKeepsOrder(
    ids: seq<string>, v: Verdict, o: Stack, n: Stack, stringify: Printer, i: nat, j: nat) returns (p: nat, q: nat)
    requires o.Valid() && n.Valid() && i < j < |Select(ids, v, o, n, stringify)|
    ensures p < q < |ids|
    ensures ids[p] == Select(ids, v, o, n, stringify)[i] && ids[q] == Select(ids, v, o, n, stringify)[j]
  {
    hide VerdictOf;
    var before := Select(ids[..|ids| - 1], v, o, n, stringify);
    if j < |before| {
      p, q := SelectKeepsOrder(ids[..|ids| - 1], v, o, n, stringify, i, j);
    } else {
      q := |ids| - 1;
      p := SelectedFrom(ids[..|ids| - 1], v, o, n, stringify, i);
    }
  }

  lemma {:induction false} SelectedFrom(
    ids: seq<string>, v: Verdict, o: Stack, n: Stack, stringify: Printer, i: nat) returns (p: nat)
    requires o.Valid() && n.Valid() && i < |Select(ids, v, o, n, stringify)|
    ensures p < |ids| && ids[p] == Select(ids, v, o, n, stringify)[i]
  {
    hide VerdictOf;
    if i < |Select(ids[..|ids| - 1], v, o, n, stringify)| {
      p := SelectedFrom(ids[..|ids| - 1], v, o, n, stringify, i);
    } else {
      p := |ids| - 1;
    }
  }

  /** The entries of a bucket are in the order of the ids. */
  lemma BucketInOrder(diff: Diff, o: Stack, n: Stack, stringify: Printer, bucket: seq<ResourceDiff>, i: nat, j: nat)
    returns (p: nat, q: nat)
    requires o.Valid() && n.Valid() && BucketsRight(diff, AllKeys(o.ids, n.ids), o, n, stringify)
    requires bucket == diff.added || bucket == diff.removed || bucket == diff.updated || bucket == diff.replaced
    requires i < j < |bucket|
    ensures p < q < |AllKeys(o.ids, n.ids)|
    ensures AllKeys(o.ids, n.ids)[p] == bucket[i].logicalId && AllKeys(o.ids, n.ids)[q] == bucket[j].logicalId
  {
    hide VerdictOf, Select, AllKeys, EntryRight;
    var ids := AllKeys(o.ids, n.ids);
    var v := if bucket == diff.added then Added
             else if bucket == diff.removed then Removed else if bucket == diff.updated then Updated else Replaced;
    assert IdsOf(bucket) == Select(ids, v, o, n, stringify);
    assert IdsOf(bucket)[i] == bucket[i].logicalId && IdsOf(bucket)[j] == bucket[j].logicalId;
    p, q := SelectKeepsOrder(ids, v, o, n, stringify, i, j);
  }

  /** What the entry of a resource says. */
  lemma EntriesSay(diff: Diff, o: Stack, n: Stack, stringify: Printer, d: ResourceDiff)
    requires o.Valid() && n.Valid() && BucketsRight(diff, AllKeys(o.ids, n.ids), o, n, stringify)
    ensures d in diff.added ==>
      && d.logicalId in n.resources && d.logicalId !in o.resources
      && d == ResourceDiff(d.logicalId, AddIt, TypeIn(n, d.logicalId), [], NoReason)
    ensures d in diff.removed ==>
      && d.logicalId in o.resources && d.logicalId !in n.resources
      && d == ResourceDiff(d.logicalId, RemoveIt, TypeIn(o, d.logicalId), [], NoReason)
    ensures d in diff.replaced ==>
      d.action == ReplaceIt && d.resourceType == TypeIn(n, d.logicalId)
      && (TypeIn(o, d.logicalId) != TypeIn(n, d.logicalId) ==>
            d.changes == [] && d.reason == TypeChanged(TypeIn(o, d.logicalId), TypeIn(n, d.logicalId)))
      && (TypeIn(o, d.logicalId) == TypeIn(n, d.logicalId) ==> d.changes != [] && d.reason == PropertiesRequireIt)
    ensures d in diff.updated ==>
      && d.action == UpdateIt && d.resourceType == TypeIn(n, d.logicalId) == TypeIn(o, d.logicalId)
      && d.changes != [] && d.reason == NoReason
    ensures (d in diff.replaced || d in diff.updated) && d.changes != []
            && d.logicalId in o.resources && d.logicalId in n.resources ==>
      var before, after := o.resources[d.logicalId], n.resources[d.logicalId];
      OutcomeOf("", PropertyDeltas(before.properties, after.properties, stringify)) == Changes(d.changes)
  {
    hide Select, AllKeys, VerdictOf, INHERITED_NAMES, FiledUnderListed;
    var ids, id := AllKeys(o.ids, n.ids), d.logicalId;
    FoundSomewhereIfKnown(o, n, id);
    EntryVerdict(diff.added, AddIt, Added, ids, o, n, stringify, d);
    EntryVerdict(diff.removed, RemoveIt, Removed, ids, o, n, stringify, d);
    EntryVerdict(diff.replaced, ReplaceIt, Replaced, ids, o, n, stringify, d);
    EntryVerdict(diff.updated, UpdateIt, Updated, ids, o, n, stringify, d);
    VerdictOfLoneId(o, n, id, stringify);
    if Find(o, id).Some? && Find(n, id).Some? {
      FoundIsValid(o, id);
      FoundIsValid(n, id);
      NotLone(o, n, id, stringify);
      if Find(o, id).value.resourceType == Find(n, id).value.resourceType {
        VerdictFromComparison(o, n, id, stringify);
      }
    }
  }

  lemma EntryVerdict(
    bucket: seq<ResourceDiff>, action: Action, v: Verdict, ids: seq<string>, o: Stack, n: Stack, stringify: Printer,
    d: ResourceDiff)
    requires o.Valid() && n.Valid() && BucketRight(bucket, action, v, ids, o, n, stringify)
    ensures d in bucket ==>
      && d.action == action && EntryRight(d, o, n, stringify)
      && d.logicalId in ids && VerdictOf(o, n, d.logicalId, stringify) == v
  {
    hide VerdictOf, Select, EntryRight;
    BucketMembers(bucket, action, v, ids, o, n, stringify);
    if d in bucket {
      var i :| 0 <= i < |bucket| && bucket[i] == d;
      assert IdsOf(bucket)[i] == d.logicalId;
    }
  }

  lemma NotLone(o: Stack, n: Stack, id: string, stringify: Printer)
    requires o.Valid() && n.Valid() && Find(o, id).Some? && Find(n, id).Some?
    ensures VerdictOf(o, n, id, stringify) != Added && VerdictOf(o, n, id, stringify) != Removed
  {
    hide Find;
  }

  lemma FoundSomewhereIfKnown(o: Stack, n: Stack, id: string)
    requires o.Valid() && n.Valid()
    ensures id in AllKeys(o.ids, n.ids) <==> id in o.resources || id in n.resources
  {}
}
