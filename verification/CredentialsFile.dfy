/** Reading a profile from a credentials file: packages/core/src/aws/credentials.ts. */
module CredentialsFile {
  import opened Texts
  import opened Wrappers

  /** Unset keys are empty, which the source does not tell apart; an unset session token is `None`. */
  datatype Fields = Fields(accessKeyId: string, secretAccessKey: string, sessionToken: Option<string>)

  datatype Line = Ignored | Header(name: string) | Assignment(key: string, value: string)

  const NO_FIELDS := Fields("", "", None)

  /** Blank lines and comments, section headers, and everything else as an assignment. */
  function Classify(line: string): Line {
    var trimmed := Trim(line);
    if trimmed == "" || trimmed[0] == '#' || trimmed[0] == ';' then Ignored
    else if
      |trimmed| > 2 && trimmed[0] == '[' && trimmed[|trimmed| - 1] == ']' && ']' !in trimmed[1..|trimmed| - 1]
    then
      Header(trimmed[1..|trimmed| - 1])
    else
      var equals := IndexOf(trimmed, "=", 0);
      if equals == -1 then Assignment(trimmed, "")
      else Assignment(trimmed[..equals], Trim(trimmed[equals + 1..]))
  }

  /** The effect of an assignment; unknown keys have none. `lower` is the case mapping. */
  function Assign(fields: Fields, key: string, value: string, lower: string -> string): Fields {
    var name := lower(Trim(key));
    if name == "aws_access_key_id" then fields.(accessKeyId := value)
    else if name == "aws_secret_access_key" then fields.(secretAccessKey := value)
    else if name == "aws_session_token" then fields.(sessionToken := Some(value))
    else fields
  }

  predicate Complete(fields: Fields) {
    fields.accessKeyId != "" && fields.secretAccessKey != ""
  }

  /** A section of the file: its name, and the lines up to the next header. Lines before any header have no name. */
  datatype Section = Section(name: Option<string>, lines: seq<Line>)

  function Sections(lines: seq<string>): (sections: seq<Section>)
    ensures sections != []
  {
    if lines == [] then [Section(None, [])] else Grown(Sections(lines[..|lines| - 1]), Classify(lines[|lines| - 1]))
  }

  /** One more line: a header starts a section, anything else goes to the last one. */
  function Grown(sections: seq<Section>, line: Line): (grown: seq<Section>)
    requires sections != []
    ensures grown != []
  {
    var last := sections[|sections| - 1];
    if line.Header? then sections + [Section(Some(line.name), [])]
    else sections[..|sections| - 1] + [last.(lines := last.lines + [line])]
  }

  /** All sections but the last one. */
  function Finished(sections: seq<Section>): seq<Section>
    requires sections != []
  {
    sections[..|sections| - 1]
  }

  function Last(sections: seq<Section>): Section
    requires sections != []
  {
    sections[|sections| - 1]
  }

  lemma GrownParts(sections: seq<Section>, line: Line)
    requires sections != []
    ensures sections == Finished(sections) + [Last(sections)]
    ensures if line.Header?
            then Finished(Grown(sections, line)) == sections
              && Last(Grown(sections, line)) == Section(Some(line.name), [])
            else Finished(Grown(sections, line)) == Finished(sections)
                 && Last(Grown(sections, line)) == Section(Last(sections).name, Last(sections).lines + [line])
  {}

  /** The fields a section gives: of several assignments to one key the last one counts. */
  function FieldsOf(lines: seq<Line>, lower: string -> string): Fields {
    if lines == [] then NO_FIELDS
    else
      var before, line := FieldsOf(lines[..|lines| - 1], lower), lines[|lines| - 1];
      if line.Assignment? then Assign(before, line.key, line.value, lower) else before
  }

  predicate Answers(s: Section, profile: string, lower: string -> string) {
    s.name == Some(profile) && Complete(FieldsOf(s.lines, lower))
  }

  /** The fields of the first section with the name that has both keys. */
  function FirstAnswer(sections: seq<Section>, profile: string, lower: string -> string): Option<Fields> {
    if sections == [] then None
    else if Answers(sections[0], profile, lower) then Some(FieldsOf(sections[0].lines, lower))
    else FirstAnswer(sections[1..], profile, lower)
  }

  /** A prefix without an answer decides nothing, one with an answer everything. */
  lemma {:induction false} FirstAnswerConcat(a: seq<Section>, b: seq<Section>, profile: string, lower: string -> string)
    ensures FirstAnswer(a + b, profile, lower) ==
      if FirstAnswer(a, profile, lower) == None then FirstAnswer(b, profile, lower) else FirstAnswer(a, profile, lower)
  {
    if a == [] {
      assert a + b == b;
    } else {
      assert (a + b)[1..] == a[1..] + b;
      FirstAnswerConcat(a[1..], b, profile, lower);
    }
  }

  lemma OneSection(s: Section, profile: string, lower: string -> string)
    ensures FirstAnswer([s], profile, lower) ==
      if Answers(s, profile, lower) then Some(FieldsOf(s.lines, lower)) else None
  {
    assert [s][1..] == [];
  }

  lemma OneMoreLine(lines: seq<string>, line: string)
    ensures Sections(lines + [line]) == Grown(Sections(lines), Classify(line))
  {
    assert (lines + [line])[..|lines|] == lines;
  }

  /** Sections that are finished after some lines stay as they are. */
  lemma {:induction false} FinishedSectionsStay(lines: seq<string>, k: nat)
    requires k <= |lines|
    ensures Finished(Sections(lines[..k])) <= Finished(Sections(lines))
    decreases |lines| - k
  {
    hide Sections, Grown, Finished, Classify;
    if k < |lines| {
      FinishedSectionsStay(lines, k + 1);
      assert lines[..k + 1] == lines[..k] + [lines[k]];
      OneMoreLine(lines[..k], lines[k]);
      GrownParts(Sections(lines[..k]), Classify(lines[k]));
    } else {
      assert lines[..k] == lines;
    }
  }

  /** What the one pass has in hand after some lines: the section it is in, none finished has answered. */
  ghost predicate InHand(
    lines: seq<string>, currentProfile: Option<string>, fields: Fields, profile: string, lower: string -> string)
  {
    var sections := Sections(lines);
    && currentProfile == Last(sections).name
    && FirstAnswer(Finished(sections), profile, lower) == None
    && (currentProfile == Some(profile) ==> fields == FieldsOf(Last(sections).lines, lower))
  }

  /** A section that ends with a header and answers is the answer of the whole file. */
  lemma AnswerIsFinal(lines: seq<string>, k: nat, profile: string, lower: string -> string)
    requires k < |lines| && Classify(lines[k]).Header?
    requires FirstAnswer(Sections(lines[..k]), profile, lower) != None
    ensures FirstAnswer(Sections(lines), profile, lower) == FirstAnswer(Sections(lines[..k]), profile, lower)
  {
    hide Sections, Grown, Finished, Classify, FirstAnswer;
    var early, all := Sections(lines[..k]), Finished(Sections(lines));
    assert lines[..k + 1] == lines[..k] + [lines[k]];
    OneMoreLine(lines[..k], lines[k]);
    GrownParts(early, Classify(lines[k]));
    FinishedSectionsStay(lines, k + 1);
    assert all == early + all[|early|..];
    FirstAnswerConcat(early, all[|early|..], profile, lower);
    GrownParts(Sections(lines), Ignored);
    FirstAnswerConcat(all, [Last(Sections(lines))], profile, lower);
  }

  /** Up to the section in hand there is its answer, or none. */
  lemma AnswerInHand(
    lines: seq<string>, currentProfile: Option<string>, fields: Fields, profile: string, lower: string -> string)
    requires InHand(lines, currentProfile, fields, profile, lower)
    ensures FirstAnswer(Sections(lines), profile, lower) ==
      if currentProfile == Some(profile) && Complete(fields) then Some(fields) else None
  {
    hide Sections, Grown, Finished, Last, FirstAnswer;
    var sections := Sections(lines);
    GrownParts(sections, Ignored);
    FirstAnswerConcat(Finished(sections), [Last(sections)], profile, lower);
    OneSection(Last(sections), profile, lower);
  }

  /** What one more line does to what the pass has in hand. */
  lemma NextLine(
    lines: seq<string>, line: string, currentProfile: Option<string>, fields: Fields, profile: string,
    lower: string -> string)
    requires InHand(lines, currentProfile, fields, profile, lower)
    ensures match Classify(line)
            case Header(name) =>
              FirstAnswer(Sections(lines), profile, lower) == None ==>
                InHand(lines + [line], Some(name), NO_FIELDS, profile, lower)
            case Ignored => InHand(lines + [line], currentProfile, fields, profile, lower)
            case Assignment(key, value) =>
              InHand(lines + [line], currentProfile,
                     if currentProfile == Some(profile) then Assign(fields, key, value, lower) else fields,
                     profile, lower)
  {
    hide Sections, Grown, Finished, Last, FirstAnswer, Classify, Assign;
    OneMoreLine(lines, line);
    GrownParts(Sections(lines), Classify(line));
    OneMoreField(Last(Sections(lines)).lines, Classify(line), lower);
  }

  lemma OneMoreField(lines: seq<Line>, line: Line, lower: string -> string)
    ensures FieldsOf([], lower) == NO_FIELDS
    ensures FieldsOf(lines + [line], lower) ==
      if line.Assignment? then Assign(FieldsOf(lines, lower), line.key, line.value, lower) else FieldsOf(lines, lower)
  {
    hide Assign;
    assert (lines + [line])[..|lines|] == lines;
  }

  // ---------- What the answer is in terms of the lines ----------

  /** A header line of that name. */
  ghost predicate IsHeaderLine(line: string, name: string) {
    name != "" && ']' !in name && Trim(line) == "[" + name + "]"
  }

  ghost predicate StartsSection(line: string) {
    exists name :: IsHeaderLine(line, name)
  }

  /** A line that is no comment and no header assigns what is behind its first `=` to what is in front of it. */
  ghost predicate Assigns(line: string, key: string, value: string) {
    && var t := Trim(line);
    && t != "" && t[0] != '#' && t[0] != ';' && !StartsSection(line)
    && '=' !in key
    && ((t == key && value == "")
        || (|key| < |t| && t[..|key|] == key && t[|key|] == '=' && value == Trim(t[|key| + 1..])))
  }

  /** The line assigns `value` to the key of that name, up to white space and case. */
  ghost predicate Gives(line: string, name: string, value: string, lower: string -> string) {
    exists key :: Assigns(line, key, value) && lower(Trim(key)) == name
  }

  /** Of the lines from `from` to `to` the last one that assigns to the key assigns `value`. */
  ghost predicate LastGiven(
    lines: seq<string>, from: nat, to: nat, name: string, value: string, lower: string -> string)
    requires to <= |lines|
  {
    exists i | from <= i < to :: Gives(lines[i], name, value, lower) && NeverGiven(lines, i + 1, to, name, lower)
  }

  ghost predicate NeverGiven(lines: seq<string>, from: nat, to: nat, name: string, lower: string -> string)
    requires to <= |lines|
  {
    forall i, value | from <= i < to :: !Gives(lines[i], name, value, lower)
  }

  /** The field holds what the lines give; the empty text, if they give nothing. */
  ghost predicate FieldIs(
    lines: seq<string>, from: nat, to: nat, name: string, field: string, lower: string -> string)
    requires to <= |lines|
  {
    LastGiven(lines, from, to, name, field, lower) || (field == "" && NeverGiven(lines, from, to, name, lower))
  }

  ghost predicate FieldsAre(lines: seq<string>, from: nat, to: nat, fields: Fields, lower: string -> string)
    requires to <= |lines|
  {
    && FieldIs(lines, from, to, "aws_access_key_id", fields.accessKeyId, lower)
    && FieldIs(lines, from, to, "aws_secret_access_key", fields.secretAccessKey, lower)
    && match fields.sessionToken
       case None => NeverGiven(lines, from, to, "aws_session_token", lower)
       case Some(token) => LastGiven(lines, from, to, "aws_session_token", token, lower)
  }

  /** A section of the profile: its header at `h`, and the lines up to the next header or the end, at `e`. */
  ghost predicate IsSection(lines: seq<string>, profile: string, h: nat, e: nat) {
    && h < e <= |lines| && IsHeaderLine(lines[h], profile)
    && (forall k | h < k < e :: !StartsSection(lines[k]))
    && (e < |lines| ==> StartsSection(lines[e]))
  }

  /** It gives both keys. */
  ghost predicate HasBothKeys(lines: seq<string>, profile: string, lower: string -> string, h: nat, e: nat) {
    && IsSection(lines, profile, h, e)
    && SomethingGiven(lines, h + 1, e, "aws_access_key_id", lower)
    && SomethingGiven(lines, h + 1, e, "aws_secret_access_key", lower)
  }

  ghost predicate SomethingGiven(lines: seq<string>, from: nat, to: nat, name: string, lower: string -> string)
    requires to <= |lines|
  {
    exists value :: value != "" && LastGiven(lines, from, to, name, value, lower)
  }

  lemma HeadersAreUnique(line: string, a: string, b: string)
    requires IsHeaderLine(line, a) && IsHeaderLine(line, b)
    ensures a == b
  {
    hide Trim;
    assert Trim(line)[1..|Trim(line)| - 1] == a;
    assert Trim(line)[1..|Trim(line)| - 1] == b;
  }

  lemma HeaderMeans(line: string)
    ensures Classify(line).Header? <==> StartsSection(line)
    ensures Classify(line).Header? ==> IsHeaderLine(line, Classify(line).name)
  {
    hide Trim, IndexOf;
    var t := Trim(line);
    if Classify(line).Header? {
      assert t == "[" + t[1..|t| - 1] + "]";
      assert IsHeaderLine(line, Classify(line).name);
    }
    if name :| IsHeaderLine(line, name) {
      assert t[1..|t| - 1] == name && t[|t| - 1] == ']';
    }
  }

  lemma AssignmentMeans(line: string, key: string, value: string)
    ensures Classify(line) == Assignment(key, value) <==> Assigns(line, key, value)
  {
    hide Trim, IndexOf;
    HeaderMeans(line);
    var t := Trim(line);
    var equals := IndexOf(t, "=", 0);
    FirstEquals(t);
    if Assigns(line, key, value) && t != key {
      EqualsAt(t, |key|);
    }
    if Classify(line) == Assignment(key, value) && equals != -1 {
      assert t[equals] == '=';
    }
  }

  lemma FirstEquals(t: string)
    ensures var equals := IndexOf(t, "=", 0);
      if equals == -1 then '=' !in t else equals < |t| && t[equals] == '=' && '=' !in t[..equals]
  {
    hide IndexOf;
    var equals := IndexOf(t, "=", 0);
    if equals != -1 {
      assert t[equals..equals + 1] == "=";
    }
    forall k: nat | k < (if equals == -1 then |t| else equals)
      ensures t[k] != '='
    {
      if t[k] == '=' {
        NoEqualsBefore(t, k);
      }
    }
  }

  lemma NoEqualsBefore(t: string, k: nat)
    requires k < |t| && t[k] == '='
    ensures 0 <= IndexOf(t, "=", 0) <= k
  {
    hide IndexOf;
    assert t[k..k + 1] == "=";
    NothingEarlier(t, "=", 0, k);
  }

  lemma EqualsAt(t: string, k: nat)
    requires k < |t| && t[k] == '=' && '=' !in t[..k]
    ensures IndexOf(t, "=", 0) == k
  {
    hide IndexOf;
    FirstEquals(t);
    assert t[k..k + 1] == "=";
    NothingEarlier(t, "=", 0, k);
    assert forall j | 0 <= j < k :: t[j] == t[..k][j] != '=';
  }

  /** What one line does to a key of some name. */
  lemma LineGives(line: string, name: string, lower: string -> string)
    ensures var c := Classify(line);
      forall value :: Gives(line, name, value, lower) <==>
        c.Assignment? && lower(Trim(c.key)) == name && c.value == value
  {
    hide Classify, Trim, Assigns;
    forall key, value
      ensures Assigns(line, key, value) <==> Classify(line) == Assignment(key, value)
    {
      AssignmentMeans(line, key, value);
    }
  }

  lemma OneMoreGiven(lines: seq<string>, from: nat, to: nat, name: string, field: string, lower: string -> string)
    requires from <= to < |lines| && FieldIs(lines, from, to, name, field, lower)
    ensures var c := Classify(lines[to]);
      FieldIs(lines, from, to + 1, name,
              if c.Assignment? && lower(Trim(c.key)) == name then c.value else field, lower)
  {
    hide Gives, Classify, Trim;
    LineGives(lines[to], name, lower);
    var c := Classify(lines[to]);
    if c.Assignment? && lower(Trim(c.key)) == name {
      assert Gives(lines[to], name, c.value, lower) && NeverGiven(lines, to + 1, to + 1, name, lower);
    } else if LastGiven(lines, from, to, name, field, lower) {
      var i :| from <= i < to && Gives(lines[i], name, field, lower) && NeverGiven(lines, i + 1, to, name, lower);
      assert NeverGiven(lines, i + 1, to + 1, name, lower);
    }
  }

  lemma OneMoreToken(
    lines: seq<string>, from: nat, to: nat, token: Option<string>, name: string, lower: string -> string)
    requires from <= to < |lines|
    requires if token.None? then NeverGiven(lines, from, to, name, lower)
             else LastGiven(lines, from, to, name, token.value, lower)
    ensures var c := Classify(lines[to]);
      if c.Assignment? && lower(Trim(c.key)) == name then LastGiven(lines, from, to + 1, name, c.value, lower)
      else if token.None? then NeverGiven(lines, from, to + 1, name, lower)
      else LastGiven(lines, from, to + 1, name, token.value, lower)
  {
    hide Gives, Classify, Trim;
    LineGives(lines[to], name, lower);
    var c := Classify(lines[to]);
    if c.Assignment? && lower(Trim(c.key)) == name {
      assert Gives(lines[to], name, c.value, lower) && NeverGiven(lines, to + 1, to + 1, name, lower);
    } else if token.Some? {
      var i :| from <= i < to && Gives(lines[i], name, token.value, lower) && NeverGiven(lines, i + 1, to, name, lower);
      assert NeverGiven(lines, i + 1, to + 1, name, lower);
    }
  }

  /** One more line that is no header. */
  lemma FieldsGrow(lines: seq<string>, from: nat, to: nat, fields: Fields, lower: string -> string)
    requires from <= to < |lines| && FieldsAre(lines, from, to, fields, lower) && !StartsSection(lines[to])
    ensures var c := Classify(lines[to]);
      FieldsAre(lines, from, to + 1,
                if c.Assignment? then Assign(fields, c.key, c.value, lower) else fields, lower)
  {
    hide Classify, Trim, LastGiven, NeverGiven, FieldIs;
    NamesDiffer();
    OneMoreGiven(lines, from, to, "aws_access_key_id", fields.accessKeyId, lower);
    OneMoreGiven(lines, from, to, "aws_secret_access_key", fields.secretAccessKey, lower);
    OneMoreToken(lines, from, to, fields.sessionToken, "aws_session_token", lower);
  }

  lemma NamesDiffer()
    ensures "aws_access_key_id" != "aws_secret_access_key"
    ensures "aws_secret_access_key" != "aws_session_token" && "aws_session_token" != "aws_access_key_id"
  {}

  lemma LastGivenOnce(lines: seq<string>, from: nat, to: nat, name: string, lower: string -> string)
    requires to <= |lines|
    ensures forall v, w |
      LastGiven(lines, from, to, name, v, lower) && FieldIs(lines, from, to, name, w, lower) :: v == w
  {
    hide Gives;
    forall v, w | LastGiven(lines, from, to, name, v, lower) && FieldIs(lines, from, to, name, w, lower)
      ensures v == w
    {
      var i :| from <= i < to && Gives(lines[i], name, v, lower) && NeverGiven(lines, i + 1, to, name, lower);
      assert LastGiven(lines, from, to, name, w, lower);
      var j :| from <= j < to && Gives(lines[j], name, w, lower) && NeverGiven(lines, j + 1, to, name, lower);
      assert i == j;
      hide NeverGiven, LastGiven, FieldIs;
      LineGives(lines[i], name, lower);
    }
  }

  /** Where the pass stands: at line `i`, in the section that began at `h`, if any has; none before has both keys. */
  ghost predicate StandsAt(
    lines: seq<string>, i: nat, h: nat, currentProfile: Option<string>, fields: Fields, profile: string,
    lower: string -> string)
  {
    && i <= |lines|
    && (currentProfile.Some? ==> h < i && IsHeaderLine(lines[h], currentProfile.value))
    && (forall k | (if currentProfile.Some? then h + 1 else 0) <= k < i :: !StartsSection(lines[k]))
    && (currentProfile == Some(profile) ==> FieldsAre(lines, h + 1, i, fields, lower))
    && forall g, e | 0 <= g < (if currentProfile.Some? then h else i) :: !HasBothKeys(lines, profile, lower, g, e)
  }

  lemma StandsAtStart(lines: seq<string>, profile: string, lower: string -> string)
    ensures StandsAt(lines, 0, 0, None, NO_FIELDS, profile, lower)
  {}

  /** A line inside a section. */
  lemma StaysInSection(
    lines: seq<string>, i: nat, h: nat, currentProfile: Option<string>, fields: Fields, profile: string,
    lower: string -> string)
    requires StandsAt(lines, i, h, currentProfile, fields, profile, lower) && i < |lines|
    requires !Classify(lines[i]).Header?
    ensures var c := Classify(lines[i]);
      StandsAt(lines, i + 1, h, currentProfile,
               if currentProfile == Some(profile) && c.Assignment?
               then Assign(fields, c.key, c.value, lower) else fields,
               profile, lower)
  {
    hide Classify, FieldsAre, Assign, HasBothKeys, StartsSection, IsHeaderLine;
    HeaderMeans(lines[i]);
    if currentProfile == Some(profile) {
      FieldsGrow(lines, h + 1, i, fields, lower);
    }
    if currentProfile.None? {
      NotASection(lines, i, profile, lower);
    }
  }

  lemma HeaderStarts(line: string, name: string)
    ensures IsHeaderLine(line, name) ==> StartsSection(line)
  {}

  lemma NotASection(lines: seq<string>, i: nat, profile: string, lower: string -> string)
    requires i < |lines| && !StartsSection(lines[i])
    ensures forall e :: !HasBothKeys(lines, profile, lower, i, e)
  {
    hide LastGiven, Trim, StartsSection, IsHeaderLine;
    HeaderStarts(lines[i], profile);
  }

  /** A section that ends without both keys has not got them. */
  lemma SectionEnds(
    lines: seq<string>, i: nat, h: nat, currentProfile: Option<string>, fields: Fields, profile: string,
    lower: string -> string)
    requires StandsAt(lines, i, h, currentProfile, fields, profile, lower)
    requires i < |lines| ==> StartsSection(lines[i])
    ensures if currentProfile == Some(profile) && Complete(fields)
            then HasBothKeys(lines, profile, lower, h, i) && FieldsAre(lines, h + 1, i, fields, lower)
            else forall g, e | 0 <= g < i :: !HasBothKeys(lines, profile, lower, g, e)
  {
    hide Trim, StartsSection, LastGiven, NeverGiven, IsHeaderLine;
    if currentProfile == Some(profile) {
      if Complete(fields) {
        assert LastGiven(lines, h + 1, i, "aws_access_key_id", fields.accessKeyId, lower);
        assert LastGiven(lines, h + 1, i, "aws_secret_access_key", fields.secretAccessKey, lower);
      } else {
        LastGivenOnce(lines, h + 1, i, "aws_access_key_id", lower);
        LastGivenOnce(lines, h + 1, i, "aws_secret_access_key", lower);
      }
    }
    if !(currentProfile == Some(profile) && Complete(fields)) {
      forall g: nat, e: nat | g < i
        ensures !HasBothKeys(lines, profile, lower, g, e)
      {
        if currentProfile.None? || g > h {
          NotASection(lines, g, profile, lower);
        } else if g == h && HasBothKeys(lines, profile, lower, h, e) {
          HeadersAreUnique(lines[h], currentProfile.value, profile);
        }
      }
    }
  }

  lemma NextSection(
    lines: seq<string>, i: nat, h: nat, currentProfile: Option<string>, fields: Fields, profile: string,
    lower: string -> string)
    requires StandsAt(lines, i, h, currentProfile, fields, profile, lower)
    requires i < |lines| && Classify(lines[i]).Header? && !(currentProfile == Some(profile) && Complete(fields))
    ensures StandsAt(lines, i + 1, i, Some(Classify(lines[i]).name), NO_FIELDS, profile, lower)
  {
    hide Classify, HasBothKeys, StartsSection, IsHeaderLine, Gives;
    HeaderMeans(lines[i]);
    SectionEnds(lines, i, h, currentProfile, fields, profile, lower);
  }

  /**
   The one pass over the lines finds the first section of the profile that has both keys: of several
   assignments to a key the last one in the section counts.
   */
  method ParseCredentialsFile(content: string, profile: string, lower: string -> string) returns (r: Option<Fields>)
    ensures r == FirstAnswer(Sections(Pieces(content, '\n')), profile, lower)
    // the same in terms of the lines alone
    ensures var lines := Pieces(content, '\n');
      && (r.None? <==> forall h: nat, e: nat :: !HasBothKeys(lines, profile, lower, h, e))
      && (r.Some? ==> exists h: nat, e: nat ::
            && HasBothKeys(lines, profile, lower, h, e) && FieldsAre(lines, h + 1, e, r.value, lower)
            && forall g: nat, f: nat | g < h :: !HasBothKeys(lines, profile, lower, g, f))
  {
    hide InHand, Sections, FirstAnswer, Assign, StandsAt, HasBothKeys, FieldsAre, Classify, Pieces;
    var lines := Pieces(content, '\n');
    var currentProfile: Option<string> := None;
    var fields := NO_FIELDS;
    ghost var h: nat := 0;
    assert lines[..0] == [];
    NothingRead(profile, lower);
    StandsAtStart(lines, profile, lower);
    for i := 0 to |lines|
      invariant InHand(lines[..i], currentProfile, fields, profile, lower)
      invariant StandsAt(lines, i, h, currentProfile, fields, profile, lower)
    {
      assert lines[..i + 1] == lines[..i] + [lines[i]];
      NextLine(lines[..i], lines[i], currentProfile, fields, profile, lower);
      AnswerInHand(lines[..i], currentProfile, fields, profile, lower);
      match Classify(lines[i]) {
        case Ignored =>
          StaysInSection(lines, i, h, currentProfile, fields, profile, lower);
        case Header(name) =>
          if currentProfile == Some(profile) && Complete(fields) {
            AnswerIsFinal(lines, i, profile, lower);
            HeaderMeans(lines[i]);
            SectionEnds(lines, i, h, currentProfile, fields, profile, lower);
            NoneBefore(lines, i, h, currentProfile, fields, profile, lower);
            return Some(fields);
          }
          NextSection(lines, i, h, currentProfile, fields, profile, lower);
          h := i;
          currentProfile, fields := Some(name), NO_FIELDS;
        case Assignment(key, value) =>
          StaysInSection(lines, i, h, currentProfile, fields, profile, lower);
          if currentProfile == Some(profile) {
            fields := Assign(fields, key, value, lower);
          }
      }
    }
    assert lines[..|lines|] == lines;
    AnswerInHand(lines, currentProfile, fields, profile, lower);
    SectionEnds(lines, |lines|, h, currentProfile, fields, profile, lower);
    NoneBefore(lines, |lines|, h, currentProfile, fields, profile, lower);
    r := if currentProfile == Some(profile) && Complete(fields) then Some(fields) else None;
  }

  lemma NoneBefore(
    lines: seq<string>, i: nat, h: nat, currentProfile: Option<string>, fields: Fields, profile: string,
    lower: string -> string)
    requires StandsAt(lines, i, h, currentProfile, fields, profile, lower)
    ensures currentProfile.Some? ==> forall g: nat, f: nat | g < h :: !HasBothKeys(lines, profile, lower, g, f)
    ensures forall g: nat, f: nat | g >= |lines| :: !HasBothKeys(lines, profile, lower, g, f)
  {
    hide LastGiven, FieldsAre, IsHeaderLine, StartsSection;
  }

  lemma NothingRead(profile: string, lower: string -> string)
    ensures InHand([], None, NO_FIELDS, profile, lower)
  {}
}
