/** JSON values and the resources of a CloudFormation template. */
module Templates {
  import opened OrderedSets
  import opened Wrappers

  /** An object keeps its keys in insertion order next to the values they name. */
  datatype Json =
    | Null
    | Bool(b: bool)
    | Num(n: real)
    | Str(s: string)
    | Arr(items: seq<Json>)
    | Obj(keys: seq<string>, fields: map<string, Json>)
  {
    ghost predicate Valid() {
      match this
      case Arr(items) => forall i | 0 <= i < |items| :: items[i].Valid()
      case Obj(keys, fields) =>
        && NoDup(keys)
        && (forall k :: k in keys <==> k in fields)
        && forall k | k in fields :: fields[k].Valid()
      case _ => true
    }
  }

  datatype DependsOn = NoDependsOn | One(name: string) | Many(names: seq<string>)

  /** `attributes` holds every attribute but `DependsOn`: `Type`, `Properties`, `Metadata` and so on. */
  datatype Resource = Resource(dependsOn: DependsOn, attributes: Json) {
    ghost predicate Valid() {
      attributes.Valid() && attributes.Obj?
    }
  }

  /** The names an explicit `DependsOn` lists; an empty name counts as no `DependsOn` at all. */
  function Listed(d: DependsOn): seq<string> {
    match d
    case NoDependsOn => []
    case One(name) => if name == "" then [] else [name]
    case Many(names) => names
  }

  const PSEUDO_PREFIX := "AWS::"

  /** The name a `Ref` at the top of `j` points to, pseudo parameters excepted. */
  predicate RefersTo(j: Json, name: string) {
    j.Obj? && "Ref" in j.fields && j.fields["Ref"] == Str(name) && !(PSEUDO_PREFIX <= name)
  }

  /** The name an `Fn::GetAtt` at the top of `j` points to. */
  predicate GetsAttributeOf(j: Json, name: string) {
    && j.Obj? && "Fn::GetAtt" in j.fields
    && var att := j.fields["Fn::GetAtt"];
       att.Arr? && |att.items| > 0 && att.items[0] == Str(name)
  }

  /** `inner` is `j` or occurs somewhere inside it. */
  ghost predicate Contains(j: Json, inner: Json) {
    || j == inner
    || (j.Arr? && exists i | 0 <= i < |j.items| :: Contains(j.items[i], inner))
    || (j.Obj? && exists k | k in j.fields :: Contains(j.fields[k], inner))
  }

  /** The references read at the top of `j`; a reader may take an empty `Ref` for no reference. */
  predicate PointsTo(j: Json, name: string, blankRefs: bool) {
    (RefersTo(j, name) && (blankRefs || name != "")) || GetsAttributeOf(j, name)
  }

  /** `name` is referenced at some depth of `j`. */
  ghost predicate Mentions(j: Json, name: string, blankRefs: bool) {
    exists inner :: Contains(j, inner) && PointsTo(inner, name, blankRefs)
  }

  lemma MentionsInLeaf(j: Json, blankRefs: bool)
    requires !j.Arr? && !j.Obj?
    ensures forall x :: !Mentions(j, x, blankRefs)
  {}

  /** A reference inside an array is a reference inside one of its items. */
  lemma MentionsInArray(j: Json, blankRefs: bool)
    requires j.Arr?
    ensures forall x :: Mentions(j, x, blankRefs) <==>
      exists k | 0 <= k < |j.items| :: Mentions(j.items[k], x, blankRefs)
  {
    forall x, k | 0 <= k < |j.items| && Mentions(j.items[k], x, blankRefs)
      ensures Mentions(j, x, blankRefs)
    {
      var inner :| Contains(j.items[k], inner) && PointsTo(inner, x, blankRefs);
      assert Contains(j, inner);
    }
  }

  lemma MentionsInObject(j: Json, blankRefs: bool)
    requires j.Obj? && j.Valid()
    ensures forall x :: Mentions(j, x, blankRefs) <==>
      PointsTo(j, x, blankRefs) || exists k | k in j.keys :: Mentions(j.fields[k], x, blankRefs)
  {
    forall x, k | k in j.keys && Mentions(j.fields[k], x, blankRefs)
      ensures Mentions(j, x, blankRefs)
    {
      var inner :| Contains(j.fields[k], inner) && PointsTo(inner, x, blankRefs);
      assert Contains(j, inner);
    }
    forall x | PointsTo(j, x, blankRefs)
      ensures Mentions(j, x, blankRefs)
    {
      assert Contains(j, j);
    }
  }

  // ---------- References by the way that leads to them ----------

  datatype Down = ToItem(index: nat) | ToField(name: string)

  function StepInto(j: Json, step: Down): Option<Json> {
    match step
    case ToItem(i) => if j.Arr? && i < |j.items| then Some(j.items[i]) else None
    case ToField(name) => if j.Obj? && name in j.fields then Some(j.fields[name]) else None
  }

  /** What a way through items and fields leads to. */
  function EndOf(j: Json, way: seq<Down>): Option<Json>
    decreases |way|
  {
    if way == [] then Some(j)
    else
      match StepInto(j, way[0])
      case None => None
      case Some(inner) => EndOf(inner, way[1..])
  }

  lemma {:induction false} ContainsBack(j: Json, way: seq<Down>)
    ensures EndOf(j, way).Some? ==> Contains(j, EndOf(j, way).value)
    decreases |way|
  {
    if way != [] && StepInto(j, way[0]).Some? {
      ContainsBack(StepInto(j, way[0]).value, way[1..]);
    }
  }

  lemma {:induction false} WayTo(j: Json, inner: Json) returns (way: seq<Down>)
    requires Contains(j, inner)
    ensures EndOf(j, way) == Some(inner)
  {
    if j == inner {
      way := [];
    } else {
      var step: Down;
      if j.Arr? {
        var i :| 0 <= i < |j.items| && Contains(j.items[i], inner);
        step := ToItem(i);
      } else {
        var k :| k in j.fields && Contains(j.fields[k], inner);
        step := ToField(k);
      }
      var below := WayTo(StepInto(j, step).value, inner);
      way := [step] + below;
      assert way[1..] == below;
    }
  }

  /** The object refers to the name by a `Ref` that is no pseudo parameter, or by an `Fn::GetAtt`. */
  ghost predicate IsReferenceTo(j: Json, name: string, blankRefs: bool) {
    && j.Obj?
    && ((&& "Ref" in j.fields && j.fields["Ref"] == Str(name)
         && !(|name| >= 5 && name[..5] == "AWS::") && (name != "" || blankRefs))
        || ("Fn::GetAtt" in j.fields && j.fields["Fn::GetAtt"].Arr? && j.fields["Fn::GetAtt"].items != []
            && j.fields["Fn::GetAtt"].items[0] == Str(name)))
  }

  /** Some way leads to such an object. */
  ghost predicate RefersSomewhere(j: Json, name: string, blankRefs: bool) {
    exists way :: EndOf(j, way).Some? && IsReferenceTo(EndOf(j, way).value, name, blankRefs)
  }

  lemma MentionsMean(j: Json, name: string, blankRefs: bool)
    ensures Mentions(j, name, blankRefs) <==> RefersSomewhere(j, name, blankRefs)
  {
    hide Contains;
    if Mentions(j, name, blankRefs) {
      var inner :| Contains(j, inner) && PointsTo(inner, name, blankRefs);
      var way := WayTo(j, inner);
    }
    if RefersSomewhere(j, name, blankRefs) {
      var way :| EndOf(j, way).Some? && IsReferenceTo(EndOf(j, way).value, name, blankRefs);
      ContainsBack(j, way);
      assert PointsTo(EndOf(j, way).value, name, blankRefs);
    }
  }

  /** The names an explicit `DependsOn` gives: one that is not empty, or all of a list. */
  lemma ListedMeans(d: DependsOn, name: string)
    ensures name in Listed(d) <==> (d == One(name) && name != "") || (d.Many? && name in d.names)
  {}

  /** The resources of a template, keys in order. */
  datatype Template = Template(ids: seq<string>, resources: map<string, Resource>) {
    ghost predicate Valid() {
      && NoDup(ids)
      && (forall k :: k in ids <==> k in resources)
      && forall k | k in resources :: resources[k].Valid()
    }
  }
}
