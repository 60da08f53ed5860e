/** Multipart upload: packages/core/src/aws/s3.ts. */
module Multipart {
  import opened OrderedSets
  import opened Parts
  import opened Sorting
  import opened UploadProtocol
  import opened Wrappers

  const MIN_PART_SIZE: nat := 5 * 1024 * 1024
  const DEFAULT_PART_SIZE: nat := 5 * 1024 * 1024
  const DEFAULT_CONCURRENCY: nat := 4

  /** What the reader yields; it may fail after the last chunk instead of reporting the end. */
  datatype Stream = Stream(chunks: seq<Bytes>, fails: bool)

  datatype Response = Response(ok: bool, etagHeader: string)

  /** The outcome of every request, for the fetches the upload may make. */
  datatype Service = Service(initiates: bool, put: (nat, Bytes) -> Response, completes: bool, etag: string)

  /** Zero stands for an option that is not set. */
  datatype Options = Options(partSize: nat, concurrency: nat)

  datatype Part = Part(partNumber: nat, etag: string)

  datatype Progress = Progress(loaded: nat, total: nat, part: nat, totalParts: nat)

  datatype PartsOutcome = Finished(parts: seq<Part>) | Threw

  datatype Outcome = Uploaded(etag: string) | Failed

  datatype Request = Initiate | Work(event: Event) | Complete(parts: seq<Part>) | Abort

  function StripQuotes(s: string): string {
    if s == "" then "" else (if s[0] == '"' then "" else [s[0]]) + StripQuotes(s[1..])
  }

  /** `etag` is `header` with its quotation marks left out: `at` says where its characters stand there. */
  ghost predicate WithoutQuotes(header: string, etag: string) {
    exists at: seq<nat> :: IsWithoutQuotes(header, etag, at)
  }

  ghost predicate IsWithoutQuotes(header: string, etag: string, at: seq<nat>) {
    && |at| == |etag|
    && (forall j | 0 <= j < |at| :: at[j] < |header| && header[at[j]] == etag[j] && etag[j] != '"')
    && (forall j, k | 0 <= j < k < |at| :: at[j] < at[k])
    && forall i: nat | i < |header| && header[i] != '"' :: i in at
  }

  lemma {:induction false} QuotesAreStripped(header: string) returns (at: seq<nat>)
    ensures IsWithoutQuotes(header, StripQuotes(header), at)
  {
    at := [];
    if header != "" {
      var rest := QuotesAreStripped(header[1..]);
      hide StripQuotes;
      QuoteFirst(header);
      OneFurther(header, StripQuotes(header[1..]), rest);
      hide IsWithoutQuotes, PlacesFrom;
      var later := Shifted(rest);
      WithTheFirst(header, StripQuotes(header[1..]), later);
      assert "" + StripQuotes(header[1..]) == StripQuotes(header[1..]);
      at := if header[0] == '"' then later else [0] + later;
    }
  }

  lemma QuoteFirst(header: string)
    requires header != ""
    ensures StripQuotes(header) == (if header[0] == '"' then "" else [header[0]]) + StripQuotes(header[1..])
  {}

  /** The places of the characters, behind one more character in front. */
  ghost predicate PlacesFrom(header: string, etag: string, at: seq<nat>, from: nat) {
    && |at| == |etag|
    && (forall j | 0 <= j < |at| :: from <= at[j] < |header| && header[at[j]] == etag[j] && etag[j] != '"')
    && (forall j, k | 0 <= j < k < |at| :: at[j] < at[k])
    && forall i: nat | from <= i < |header| && header[i] != '"' :: i in at
  }

  lemma OneFurther(header: string, etag: string, rest: seq<nat>)
    requires header != "" && IsWithoutQuotes(header[1..], etag, rest)
    ensures PlacesFrom(header, etag, Shifted(rest), 1)
  {
    var later := Shifted(rest);
    forall j | 0 <= j < |later|
      ensures 1 <= later[j] < |header| && header[later[j]] == etag[j] && etag[j] != '"'
    {
      assert header[later[j]] == header[1..][rest[j]];
    }
    forall j, k | 0 <= j < k < |later|
      ensures later[j] < later[k]
    {
      assert rest[j] < rest[k];
    }
    PlacesShifted(header, rest);
  }

  function Shifted(at: seq<nat>): (later: seq<nat>)
    ensures |later| == |at| && forall j | 0 <= j < |at| :: later[j] == at[j] + 1
  {
    seq(|at|, j requires 0 <= j < |at| => at[j] + 1)
  }

  lemma PlacesShifted(header: string, rest: seq<nat>)
    requires header != "" && forall i: nat | i < |header| - 1 && header[1..][i] != '"' :: i in rest
    ensures forall i: nat | 1 <= i < |header| && header[i] != '"' :: i in Shifted(rest)
  {
    forall i: nat | 1 <= i < |header| && header[i] != '"'
      ensures i in Shifted(rest)
    {
      assert header[1..][i - 1] == header[i];
      var j :| 0 <= j < |rest| && rest[j] == i - 1;
      assert Shifted(rest)[j] == i;
    }
  }

  lemma WithTheFirst(header: string, etag: string, later: seq<nat>)
    requires header != "" && PlacesFrom(header, etag, later, 1)
    ensures if header[0] == '"' then IsWithoutQuotes(header, etag, later)
            else IsWithoutQuotes(header, [header[0]] + etag, [0] + later)
  {
    if header[0] != '"' {
      hide PlacesFrom;
      FirstPlaces(header, etag, later);
      FirstPlacesAreAll(header, etag, later);
    }
  }

  lemma FirstPlaces(header: string, etag: string, later: seq<nat>)
    requires header != "" && header[0] != '"' && PlacesFrom(header, etag, later, 1)
    ensures var at, longer := [0] + later, [header[0]] + etag;
      && |at| == |longer|
      && (forall j | 0 <= j < |at| :: at[j] < |header| && header[at[j]] == longer[j] && longer[j] != '"')
      && (forall j, k | 0 <= j < k < |at| :: at[j] < at[k])
  {
    var at: seq<nat>, longer := [0] + later, [header[0]] + etag;
    forall j | 0 <= j < |at|
      ensures at[j] < |header| && header[at[j]] == longer[j] && longer[j] != '"'
      ensures j > 0 ==> at[j] == later[j - 1]
    {
      if j > 0 {
        assert at[j] == later[j - 1] && longer[j] == etag[j - 1];
      }
    }
  }

  lemma FirstPlacesAreAll(header: string, etag: string, later: seq<nat>)
    requires PlacesFrom(header, etag, later, 1)
    ensures forall i: nat | i < |header| && header[i] != '"' :: i in [0] + later
  {
    var at: seq<nat> := [0] + later;
    forall i: nat | i < |header| && header[i] != '"'
      ensures i in at
    {
      if i == 0 {
        assert at[0] == 0;
      } else {
        var j :| 0 <= j < |later| && later[j] == i;
        assert at[j + 1] == i;
      }
    }
  }

  /** An upload is accepted with an etag that is more than quotation marks. */
  ghost predicate HasCharacter(header: string) {
    exists i: nat :: i < |header| && header[i] != '"'
  }

  lemma EtagIsThere(header: string)
    ensures StripQuotes(header) != "" <==> HasCharacter(header)
    ensures WithoutQuotes(header, StripQuotes(header))
  {
    hide StripQuotes;
    var at := QuotesAreStripped(header);
    if StripQuotes(header) != "" {
      assert header[at[0]] != '"';
    }
    if i: nat :| i < |header| && header[i] != '"' {
      assert i in at;
    }
  }

  predicate Accepted(service: Service, num: nat, body: Bytes) {
    var response := service.put(num, body);
    response.ok && StripQuotes(response.etagHeader) != ""
  }

  /** The entry the completion list has for an accepted part. */
  function PartOf(service: Service, num: nat, body: Bytes): Part {
    Part(num, StripQuotes(service.put(num, body).etagHeader))
  }

  /** Parts 1 to n in order, each with the etag its own upload got. */
  function PartList(service: Service, bodies: seq<Bytes>): seq<Part> {
    seq(|bodies|, i requires 0 <= i < |bodies| => PartOf(service, i + 1, bodies[i]))
  }

  predicate AllAccepted(service: Service, bodies: seq<Bytes>) {
    forall i | 0 <= i < |bodies| :: Accepted(service, i + 1, bodies[i])
  }

  function Number(parts: seq<Part>): set<nat> {
    set i | 0 <= i < |parts| :: parts[i].partNumber
  }

  /** What `uploadParts` keeps about its pool and its list of finished parts. */
  ghost predicate PoolInvariant(
    service: Service, bodies: seq<Bytes>, concurrency: nat,
    partNumber: nat, inFlight: map<nat, Bytes>, parts: seq<Part>, work: seq<Event>)
  {
    && 1 <= partNumber <= |bodies| + 1
    && Run(work, bodies, concurrency) == Some(Pool(partNumber - 1, inFlight.Keys, Number(parts)))
    && (forall n | n in inFlight :: 1 <= n < partNumber && inFlight[n] == bodies[n - 1])
    && (forall i | 0 <= i < |parts| :: IsFinishedPart(service, bodies, partNumber, parts[i]))
    && NoDup(parts)
  }

  ghost predicate IsFinishedPart(service: Service, bodies: seq<Bytes>, partNumber: nat, part: Part) {
    var n := part.partNumber;
    && 1 <= n < partNumber && n <= |bodies|
    && Accepted(service, n, bodies[n - 1]) && part == PartOf(service, n, bodies[n - 1])
  }

  lemma SettleKeepsInvariant(
    service: Service, bodies: seq<Bytes>, concurrency: nat,
    partNumber: nat, inFlight: map<nat, Bytes>, parts: seq<Part>, work: seq<Event>, num: nat)
    requires PoolInvariant(service, bodies, concurrency, partNumber, inFlight, parts, work)
    requires num in inFlight && Accepted(service, num, inFlight[num])
    ensures PoolInvariant(service, bodies, concurrency, partNumber, inFlight - {num},
                          parts + [PartOf(service, num, inFlight[num])], work + [Settle(num)])
  {
    hide Number, Run, Accepted, StripQuotes;
    var part := PartOf(service, num, inFlight[num]);
    RunAppend(work, Settle(num), bodies, concurrency, Pool(partNumber - 1, inFlight.Keys, Number(parts)));
    AddedNumber(parts, part);
    assert (inFlight - {num}).Keys == inFlight.Keys - {num};
    AllowedRuns(work, bodies, concurrency, |work|);
    assert work[..|work|] == work;
    assert part !in parts;
  }

  lemma StaysFinished(service: Service, bodies: seq<Bytes>, partNumber: nat, part: Part)
    requires IsFinishedPart(service, bodies, partNumber, part)
    ensures IsFinishedPart(service, bodies, partNumber + 1, part)
  {
    hide Accepted, PartOf;
  }

  lemma StartKeepsInvariant(
    service: Service, bodies: seq<Bytes>, concurrency: nat,
    partNumber: nat, inFlight: map<nat, Bytes>, parts: seq<Part>, work: seq<Event>)
    requires PoolInvariant(service, bodies, concurrency, partNumber, inFlight, parts, work)
    requires partNumber <= |bodies| && |inFlight| < concurrency
    ensures var body := bodies[partNumber - 1];
      PoolInvariant(service, bodies, concurrency, partNumber + 1, inFlight[partNumber := body],
                    parts, work + [PutPart(partNumber, body)])
  {
    hide Run, IsFinishedPart, Number;
    var body := bodies[partNumber - 1];
    forall i | 0 <= i < |parts|
      ensures IsFinishedPart(service, bodies, partNumber + 1, parts[i])
    {
      StaysFinished(service, bodies, partNumber, parts[i]);
    }
    RunAppend(work, PutPart(partNumber, body), bodies, concurrency, Pool(partNumber - 1, inFlight.Keys, Number(parts)));
    assert |inFlight.Keys| == |inFlight|;
    assert inFlight[partNumber := body].Keys == inFlight.Keys + {partNumber};
  }

  lemma OneMoreEntry(m: map<nat, Bytes>, k: nat, v: Bytes)
    ensures |m[k := v]| <= |m| + 1
  {
    assert m[k := v].Keys == m.Keys + {k};
    assert |m[k := v]| == |m[k := v].Keys| && |m| == |m.Keys|;
  }

  lemma InFlightPartHasItsBody(
    service: Service, bodies: seq<Bytes>, concurrency: nat,
    partNumber: nat, inFlight: map<nat, Bytes>, parts: seq<Part>, work: seq<Event>, num: nat)
    requires PoolInvariant(service, bodies, concurrency, partNumber, inFlight, parts, work)
    requires num in inFlight && !Accepted(service, num, inFlight[num])
    ensures !AllAccepted(service, bodies)
  {
    var i: nat := num - 1;
    assert inFlight[num] == bodies[i];
  }

  /** The locals of `uploadParts`, with the requests sent so far beside them. */
  class PartsUpload {
    var parts: seq<Part>
    var partNumber: nat
    var buffer: Bytes
    var loaded: nat
    var inFlight: map<nat, Bytes>
    var reports: seq<Progress>
    ghost var work: seq<Event>

    constructor ()
      ensures parts == [] && partNumber == 1 && buffer == [] && loaded == 0
      ensures inFlight == map[] && reports == [] && work == []
    {
      parts, partNumber, buffer, loaded, inFlight, reports, work := [], 1, [], 0, map[], [], [];
    }

    ghost predicate Valid(service: Service, bodies: seq<Bytes>, concurrency: nat)
      reads this
    {
      PoolInvariant(service, bodies, concurrency, partNumber, inFlight, parts, work)
    }

    /** Waits for whichever upload in flight settles first; false if that one was rejected. */
    method DrainOne(service: Service, ghost bodies: seq<Bytes>, ghost concurrency: nat) returns (ok: bool)
      requires Valid(service, bodies, concurrency) && inFlight != map[]
      modifies this`parts, this`inFlight, this`work
      ensures Valid(service, bodies, concurrency)
      ensures ok ==> |inFlight| == |old(inFlight)| - 1 && exists num | num in old(inFlight) ::
        && Accepted(service, num, old(inFlight)[num])
        && inFlight == old(inFlight) - {num}
        && parts == old(parts) + [PartOf(service, num, old(inFlight)[num])]
        && work == old(work) + [Settle(num)]
      ensures !ok ==> !AllAccepted(service, bodies)
      ensures !ok ==> inFlight == old(inFlight) && parts == old(parts) && work == old(work)
    {
      hide PoolInvariant;
      var num :| num in inFlight;
      var response := service.put(num, inFlight[num]);
      var etag := StripQuotes(response.etagHeader);
      if !response.ok || etag == "" {
        InFlightPartHasItsBody(service, bodies, concurrency, partNumber, inFlight, parts, work, num);
        return false;
      }
      SettleKeepsInvariant(service, bodies, concurrency, partNumber, inFlight, parts, work, num);
      work := work + [Settle(num)];
      assert (inFlight - {num}).Keys == inFlight.Keys - {num};
      inFlight := inFlight - {num};
      parts := parts + [Part(num, etag)];
      ok := true;
    }

    /** Waits for a free slot, if the pool is full. */
    method MakeRoom(service: Service, ghost bodies: seq<Bytes>, concurrency: nat) returns (ok: bool)
      requires Valid(service, bodies, concurrency) && concurrency >= 1 && |inFlight| <= concurrency
      modifies this`parts, this`inFlight, this`work
      ensures Valid(service, bodies, concurrency)
      ensures if ok then |inFlight| < concurrency else !AllAccepted(service, bodies)
    {
      hide PoolInvariant;
      ok := true;
      if |inFlight| >= concurrency {
        ok := DrainOne(service, bodies, concurrency);
      }
    }

    /** Takes the next piece off the buffer and uploads it, once the pool has a free slot. */
    method StartPart(service: Service, partSize: nat, totalSize: nat, concurrency: nat,
                     ghost total: Bytes, ghost consumed: nat) returns (ok: bool)
      requires partSize > 0 && concurrency >= 1
      requires Valid(service, Cut(total, partSize), concurrency)
      requires CutState(total, consumed, partSize, partNumber, buffer, loaded)
      requires |buffer| >= partSize || (consumed == |total| && buffer != [])
      requires |inFlight| <= concurrency
      requires reports == Reports(Cut(total, partSize), partNumber - 1, totalSize, partSize)
      modifies this
      ensures Valid(service, Cut(total, partSize), concurrency)
      ensures ok ==>
        && 1 <= partNumber <= |Cut(total, partSize)| + 1
        && CutState(total, consumed, partSize, partNumber, buffer, loaded)
        && |buffer| < |old(buffer)| && |inFlight| <= concurrency
        && reports == Reports(Cut(total, partSize), partNumber - 1, totalSize, partSize)
      ensures !ok ==> !AllAccepted(service, Cut(total, partSize))
    {
      hide PoolInvariant, CutState, Run, Reports, ReportOf, Cut, Flatten, AllAccepted;
      ghost var bodies := Cut(total, partSize);
      NextPiece(total, consumed, partSize, partNumber, buffer, loaded);
      var size := if partSize <= |buffer| then partSize else |buffer|;
      var partData := buffer[..size];
      buffer := buffer[size..];
      var currentPartNumber := partNumber;
      ok := MakeRoom(service, bodies, concurrency);
      if !ok {
        return;
      }
      StartKeepsInvariant(service, bodies, concurrency, partNumber, inFlight, parts, work);
      partNumber := partNumber + 1;
      OneMoreEntry(inFlight, currentPartNumber, partData);
      inFlight := inFlight[currentPartNumber := partData];
      work := work + [PutPart(currentPartNumber, partData)];
      loaded := loaded + |partData|;
      NextReport(bodies, currentPartNumber, totalSize, partSize);
      reports := reports + [ReportOf(loaded, currentPartNumber, totalSize, partSize)];
      ok := true;
    }

    /** Starts every part the buffer has bytes for; at the end of the stream that is all of it. */
    method StartReadyParts(service: Service, partSize: nat, totalSize: nat, concurrency: nat, done: bool,
                           ghost total: Bytes, ghost consumed: nat) returns (ok: bool)
      requires partSize > 0 && concurrency >= 1 && (done ==> consumed == |total|)
      requires Valid(service, Cut(total, partSize), concurrency) && |inFlight| <= concurrency
      requires CutState(total, consumed, partSize, partNumber, buffer, loaded)
      requires 1 <= partNumber <= |Cut(total, partSize)| + 1
      requires reports == Reports(Cut(total, partSize), partNumber - 1, totalSize, partSize)
      modifies this
      ensures Valid(service, Cut(total, partSize), concurrency)
      ensures ok ==>
        && |inFlight| <= concurrency
        && CutState(total, consumed, partSize, partNumber, buffer, loaded)
        && 1 <= partNumber <= |Cut(total, partSize)| + 1
        && reports == Reports(Cut(total, partSize), partNumber - 1, totalSize, partSize)
        && (done ==> buffer == [])
      ensures !ok ==> !AllAccepted(service, Cut(total, partSize))
    {
      hide PoolInvariant, CutState, Reports, Cut, AllAccepted;
      ok := true;
      while |buffer| >= partSize || (done && |buffer| > 0)
        invariant Valid(service, Cut(total, partSize), concurrency) && |inFlight| <= concurrency
        invariant CutState(total, consumed, partSize, partNumber, buffer, loaded)
        invariant 1 <= partNumber <= |Cut(total, partSize)| + 1
        invariant reports == Reports(Cut(total, partSize), partNumber - 1, totalSize, partSize)
        invariant ok
        decreases |buffer|
      {
        ok := StartPart(service, partSize, totalSize, concurrency, total, consumed);
        if !ok {
          return;
        }
      }
    }

    /** Waits until nothing is in flight. */
    method DrainAll(service: Service, ghost bodies: seq<Bytes>, ghost concurrency: nat) returns (ok: bool)
      requires Valid(service, bodies, concurrency)
      modifies this`parts, this`inFlight, this`work
      ensures Valid(service, bodies, concurrency)
      ensures if ok then inFlight == map[] else !AllAccepted(service, bodies)
    {
      hide PoolInvariant, AllAccepted, Accepted, PartOf;
      ok := true;
      while |inFlight| > 0
        invariant Valid(service, bodies, concurrency) && ok
        decreases |inFlight|
      {
        ok := DrainOne(service, bodies, concurrency);
        if !ok {
          return;
        }
      }
    }
  }

  /** What the progress callback is told once part `part` has been handed over. */
  function ReportOf(loaded: nat, part: nat, totalSize: nat, partSize: nat): Progress
    requires partSize > 0
  {
    Progress(
      loaded,
      if totalSize != 0 then totalSize else loaded,
      part,
      if totalSize != 0 then (totalSize + partSize - 1) / partSize else part)
  }

  /** The first `k` reports: each part once, with the bytes handed over so far. */
  function Reports(bodies: seq<Bytes>, k: nat, totalSize: nat, partSize: nat): seq<Progress>
    requires k <= |bodies| && partSize > 0
  {
    seq(k, i requires 0 <= i < |bodies| => ReportOf(|Flatten(bodies[..i + 1])|, i + 1, totalSize, partSize))
  }

  lemma NextReport(bodies: seq<Bytes>, part: nat, totalSize: nat, partSize: nat)
    requires 1 <= part <= |bodies| && partSize > 0
    ensures Reports(bodies, part, totalSize, partSize) ==
      Reports(bodies, part - 1, totalSize, partSize) + [ReportOf(|Flatten(bodies[..part])|, part, totalSize, partSize)]
  {}

  /** Of the stream `total`, `consumed` bytes were read and the first `loaded` of them cut into parts. */
  ghost predicate CutState(total: Bytes, consumed: nat, partSize: nat, partNumber: nat, buffer: Bytes, loaded: nat)
    requires partSize > 0
  {
    var bodies := Cut(total, partSize);
    && loaded <= consumed <= |total| && buffer == total[loaded..consumed]
    && 1 <= partNumber <= |bodies| + 1
    && bodies[partNumber - 1..] == Cut(total[loaded..], partSize)
    && loaded == |Flatten(bodies[..partNumber - 1])|
  }

  lemma CutHead(s: Bytes, size: nat)
    requires size > 0 && s != []
    ensures var k := if size <= |s| then size else |s|;
      Cut(s, size)[0] == s[..k] && Cut(s, size)[1..] == Cut(s[k..], size)
  {
    if |s| <= size {
      assert s[..|s|] == s;
    }
  }

  /** The next piece off the buffer is the next part of the stream. */
  lemma NextPiece(total: Bytes, consumed: nat, partSize: nat, partNumber: nat, buffer: Bytes, loaded: nat)
    requires partSize > 0
    requires CutState(total, consumed, partSize, partNumber, buffer, loaded)
    requires |buffer| >= partSize || (consumed == |total| && buffer != [])
    ensures var size, bodies := if partSize <= |buffer| then partSize else |buffer|, Cut(total, partSize);
      && 1 <= partNumber <= |bodies| && buffer[..size] == bodies[partNumber - 1]
      && CutState(total, consumed, partSize, partNumber + 1, buffer[size..], loaded + size)
      && loaded + size == |Flatten(bodies[..partNumber])|
  {
    hide Cut, Flatten;
    var size, bodies := if partSize <= |buffer| then partSize else |buffer|, Cut(total, partSize);
    var rest := total[loaded..];
    assert size == if partSize <= |rest| then partSize else |rest|;
    CutHead(rest, partSize);
    TailHead(bodies, partNumber - 1, Cut(rest, partSize));
    assert buffer[..size] == rest[..size] && rest[size..] == total[loaded + size..];
    assert buffer[size..] == total[loaded + size..consumed];
  }

  lemma AddedNumber(parts: seq<Part>, p: Part)
    ensures Number(parts + [p]) == Number(parts) + {p.partNumber}
    ensures p.partNumber !in Number(parts) ==> p !in parts
  {
    var more := parts + [p];
    assert forall i | 0 <= i < |parts| :: more[i] == parts[i];
    assert more[|parts|] == p;
  }

  /** The next of the pieces, and what is left of them. */
  lemma TailHead(bodies: seq<Bytes>, k: nat, tail: seq<Bytes>)
    requires k <= |bodies| && bodies[k..] == tail && tail != []
    ensures k < |bodies| && bodies[k] == tail[0] && bodies[k + 1..] == tail[1..]
    ensures |Flatten(bodies[..k + 1])| == |Flatten(bodies[..k])| + |bodies[k]|
  {
    hide Flatten;
    assert bodies[k..][0] == bodies[k] && bodies[k..][1..] == bodies[k + 1..];
    FlattenAppend(bodies[..k], bodies[k]);
    assert bodies[..k + 1] == bodies[..k] + [bodies[k]];
  }

  lemma Begin(service: Service, total: Bytes, partSize: nat, concurrency: nat)
    requires partSize > 0
    ensures CutState(total, 0, partSize, 1, [], 0)
    ensures PoolInvariant(service, Cut(total, partSize), concurrency, 1, map[], [], [])
  {
    assert total[0..] == total;
    var none: map<nat, Bytes> := map[];
    assert none.Keys == {} == Number([]);
  }

  lemma ReadChunk(total: Bytes, consumed: nat, partSize: nat, partNumber: nat, buffer: Bytes, loaded: nat, chunk: Bytes)
    requires partSize > 0 && CutState(total, consumed, partSize, partNumber, buffer, loaded)
    requires consumed + |chunk| <= |total| && total[consumed..consumed + |chunk|] == chunk
    ensures CutState(total, consumed + |chunk|, partSize, partNumber, buffer + chunk, loaded)
  {}

  /** Once nothing is left to cut, every part of the stream has been started. */
  lemma AllCut(total: Bytes, partSize: nat, partNumber: nat, loaded: nat)
    requires partSize > 0 && CutState(total, |total|, partSize, partNumber, [], loaded)
    ensures partNumber == |Cut(total, partSize)| + 1
  {
    assert total[loaded..] == [];
  }

  /** Where the chunks read so far end in the whole stream. */
  lemma {:induction false} ChunkPosition(chunks: seq<Bytes>, k: nat)
    requires k <= |chunks|
    ensures |Flatten(chunks[..k])| <= |Flatten(chunks)|
    ensures k < |chunks| ==>
      var at := |Flatten(chunks[..k])|;
      && |Flatten(chunks[..k + 1])| == at + |chunks[k]| <= |Flatten(chunks)|
      && Flatten(chunks)[at..at + |chunks[k]|] == chunks[k]
  {
    if k > 0 {
      ChunkPosition(chunks[1..], k - 1);
      assert chunks[..k][1..] == chunks[1..][..k - 1];
      if k < |chunks| {
        assert chunks[..k + 1][1..] == chunks[1..][..k];
      }
    } else if chunks != [] {
      assert chunks[..1][1..] == [];
      assert chunks[..1] == [chunks[0]];
    }
  }

  /** In order of part number; the sort of the source compares nothing else. */
  predicate ByNumber(a: Part, b: Part) {
    a.partNumber <= b.partNumber
  }

  /** With nothing in flight and nothing left to start, exactly the listed parts have finished. */
  lemma EveryPartFinished(service: Service, bodies: seq<Bytes>, concurrency: nat, parts: seq<Part>, work: seq<Event>)
    requires PoolInvariant(service, bodies, concurrency, |bodies| + 1, map[], parts, work)
    ensures NoDup(parts) && Number(parts) == UpTo(|bodies|)
    ensures forall i | 0 <= i < |parts| :: IsFinishedPart(service, bodies, |bodies| + 1, parts[i])
    ensures Run(work, bodies, concurrency) == Some(Pool(|bodies|, {}, UpTo(|bodies|)))
  {
    hide Run, IsFinishedPart;
    AllowedRuns(work, bodies, concurrency, |work|);
    assert work[..|work|] == work;
    var none: map<nat, Bytes> := map[];
    assert none.Keys == {};
  }

  /** The list entry of part `i + 1` is among the finished parts. */
  lemma ListedPartFinished(service: Service, bodies: seq<Bytes>, parts: seq<Part>, i: nat)
    requires i < |bodies| && i + 1 in Number(parts)
    requires forall k | 0 <= k < |parts| :: IsFinishedPart(service, bodies, |bodies| + 1, parts[k])
    ensures PartOf(service, i + 1, bodies[i]) in parts && Accepted(service, i + 1, bodies[i])
  {
    hide PartOf, Accepted;
    var j :| 0 <= j < |parts| && parts[j].partNumber == i + 1;
    assert IsFinishedPart(service, bodies, |bodies| + 1, parts[j]);
  }

  lemma AllListedFinished(service: Service, bodies: seq<Bytes>, parts: seq<Part>)
    requires Number(parts) == UpTo(|bodies|)
    requires forall i | 0 <= i < |parts| :: IsFinishedPart(service, bodies, |bodies| + 1, parts[i])
    ensures AllAccepted(service, bodies)
    ensures forall x | x in PartList(service, bodies) :: x in parts
  {
    hide PartOf, Accepted, Number, IsFinishedPart;
    forall i: nat | i < |bodies|
      ensures PartOf(service, i + 1, bodies[i]) in parts && Accepted(service, i + 1, bodies[i])
    {
      ListedPartFinished(service, bodies, parts, i);
    }
  }

  lemma FinishedPartListed(service: Service, bodies: seq<Bytes>, part: Part)
    requires IsFinishedPart(service, bodies, |bodies| + 1, part)
    ensures part in PartList(service, bodies)
  {
    hide PartOf, Accepted;
    assert PartList(service, bodies)[part.partNumber - 1] == part;
  }

  lemma FinishedPartsAreTheList(service: Service, bodies: seq<Bytes>, parts: seq<Part>)
    requires NoDup(parts) && Number(parts) == UpTo(|bodies|)
    requires forall i | 0 <= i < |parts| :: IsFinishedPart(service, bodies, |bodies| + 1, parts[i])
    ensures multiset(parts) == multiset(PartList(service, bodies))
    ensures AllAccepted(service, bodies)
  {
    hide PartOf, Accepted, Number, IsFinishedPart, PartList, NoDup;
    AllListedFinished(service, bodies, parts);
    forall x | x in parts
      ensures x in PartList(service, bodies)
    {
      FinishedPartListed(service, bodies, x);
    }
    PartListNoDup(service, bodies);
    SameMembersArePermutations(parts, PartList(service, bodies));
  }

  lemma PartListNoDup(service: Service, bodies: seq<Bytes>)
    ensures NoDup(PartList(service, bodies))
  {}

  /** A full list of finished parts, sorted by number, is the list the service expects. */
  lemma SortedPartsAreTheList(service: Service, bodies: seq<Bytes>, parts: seq<Part>)
    requires multiset(parts) == multiset(PartList(service, bodies))
    ensures Sort(parts, ByNumber) == PartList(service, bodies)
  {
    hide Sort, Sorted;
    SortSorts(parts, ByNumber);
    PartListSorted(service, bodies, 0);
    assert PartList(service, bodies)[0..] == PartList(service, bodies);
    SortedFormIsUnique(PartList(service, bodies), Sort(parts, ByNumber), ByNumber);
  }

  lemma {:induction false} PartListSorted(service: Service, bodies: seq<Bytes>, k: nat)
    requires k <= |bodies|
    ensures Sorted(PartList(service, bodies)[k..], ByNumber)
    decreases |bodies| - k
  {
    var rest := PartList(service, bodies)[k..];
    if k < |bodies| {
      PartListSorted(service, bodies, k + 1);
      assert rest[1..] == PartList(service, bodies)[k + 1..];
    }
  }

  /**
   Whatever the chunking and the order in which uploads settle: succeeds exactly when the stream
   ends well and the service accepts every part, with the parts listed 1 to n. The requests follow
   the pool protocol in any case.
   */
  method UploadParts(service: Service, stream: Stream, partSize: nat, totalSize: nat, concurrency: nat)
    returns (r: PartsOutcome, reports: seq<Progress>, ghost work: seq<Event>)
    requires partSize > 0 && concurrency >= 1
    ensures var bodies := Cut(Flatten(stream.chunks), partSize);
      && (r.Finished? <==> !stream.fails && AllAccepted(service, bodies))
      && (r.Finished? ==>
            && r.parts == PartList(service, bodies)
            && reports == Reports(bodies, |bodies|, totalSize, partSize))
    ensures var bodies := Cut(Flatten(stream.chunks), partSize);
      && Run(work, bodies, concurrency).Some?
      && (r.Finished? ==> Run(work, bodies, concurrency) == Some(Pool(|bodies|, {}, UpTo(|bodies|))))
  {
    hide PoolInvariant, CutState, Run, Reports, Cut, Flatten, AllAccepted, PartList, IsFinishedPart;
    hide Number, Sort, NoDup;
    var u := new PartsUpload();
    ghost var total := Flatten(stream.chunks);
    ghost var bodies := Cut(total, partSize);
    ghost var consumed := 0;
    Begin(service, total, partSize, concurrency);
    NoReports(bodies, totalSize, partSize);
    var next := 0;
    var done := false;
    while !done
      invariant fresh(u) && next <= |stream.chunks| && consumed == |Flatten(stream.chunks[..next])|
      invariant u.Valid(service, bodies, concurrency) && |u.inFlight| <= concurrency
      invariant CutState(total, consumed, partSize, u.partNumber, u.buffer, u.loaded)
      invariant 1 <= u.partNumber <= |bodies| + 1
      invariant u.reports == Reports(bodies, u.partNumber - 1, totalSize, partSize)
      invariant done ==> !stream.fails && consumed == |total| && u.buffer == []
      decreases |stream.chunks| - next, !done
    {
      ChunkPosition(stream.chunks, next);
      if next < |stream.chunks| {
        ReadChunk(total, consumed, partSize, u.partNumber, u.buffer, u.loaded, stream.chunks[next]);
        u.buffer := u.buffer + stream.chunks[next];
        consumed := consumed + |stream.chunks[next]|;
        next := next + 1;
      } else if stream.fails {
        WorkIsAllowed(service, bodies, concurrency, u.partNumber, u.inFlight, u.parts, u.work);
        return Threw, u.reports, u.work;
      } else {
        done := true;
        assert stream.chunks[..next] == stream.chunks;
      }
      var ok := u.StartReadyParts(service, partSize, totalSize, concurrency, done, total, consumed);
      if !ok {
        WorkIsAllowed(service, bodies, concurrency, u.partNumber, u.inFlight, u.parts, u.work);
        return Threw, u.reports, u.work;
      }
    }
    AllCut(total, partSize, u.partNumber, u.loaded);
    var drained := u.DrainAll(service, bodies, concurrency);
    if !drained {
      WorkIsAllowed(service, bodies, concurrency, u.partNumber, u.inFlight, u.parts, u.work);
      return Threw, u.reports, u.work;
    }
    EveryPartFinished(service, bodies, concurrency, u.parts, u.work);
    FinishedPartsAreTheList(service, bodies, u.parts);
    SortedPartsAreTheList(service, bodies, u.parts);
    u.parts := Sort(u.parts, ByNumber);
    return Finished(u.parts), u.reports, u.work;
  }

  lemma NoReports(bodies: seq<Bytes>, totalSize: nat, partSize: nat)
    requires partSize > 0
    ensures Reports(bodies, 0, totalSize, partSize) == []
  {}

  lemma WorkIsAllowed(
    service: Service, bodies: seq<Bytes>, concurrency: nat,
    partNumber: nat, inFlight: map<nat, Bytes>, parts: seq<Part>, work: seq<Event>)
    requires PoolInvariant(service, bodies, concurrency, partNumber, inFlight, parts, work)
    ensures Run(work, bodies, concurrency).Some? && partNumber <= |bodies| + 1
  {}

  function EffectivePartSize(options: Options): (size: nat)
    ensures size >= MIN_PART_SIZE
  {
    var wanted := if options.partSize != 0 then options.partSize else DEFAULT_PART_SIZE;
    if wanted >= MIN_PART_SIZE then wanted else MIN_PART_SIZE
  }

  function EffectiveConcurrency(options: Options): (concurrency: nat)
    ensures concurrency >= 1
  {
    if options.concurrency != 0 then options.concurrency else DEFAULT_CONCURRENCY
  }

  function Works(work: seq<Event>): seq<Request> {
    seq(|work|, i requires 0 <= i < |work| => Work(work[i]))
  }

  /** What follows the part uploads: nothing else is sent, and the abort comes last. */
  function Ending(service: Service, bodies: seq<Bytes>, stream: Stream): seq<Request> {
    if stream.fails || !AllAccepted(service, bodies) then [Abort]
    else if service.completes then [Complete(PartList(service, bodies))]
    else [Complete(PartList(service, bodies)), Abort]
  }

  /** The list entry of part `i + 1` is what the service has for the bytes at that place of the stream. */
  ghost predicate ListsPart(service: Service, total: Bytes, size: nat, part: Part, i: nat) {
    && part.partNumber == i + 1
    && WithoutQuotes(service.put(i + 1, PartBody(total, size, i)).etagHeader, part.etag)
  }

  /** The answer to the upload of the bytes at that place, if there are any. */
  ghost predicate TakesPart(service: Service, total: Bytes, size: nat, i: nat) {
    PartBody(total, size, i) != [] ==>
      var response := service.put(i + 1, PartBody(total, size, i));
      response.ok && HasCharacter(response.etagHeader)
  }

  lemma AcceptedMeans(service: Service, total: Bytes, size: nat)
    requires size > 0
    ensures AllAccepted(service, Cut(total, size)) <==> forall i: nat :: TakesPart(service, total, size, i)
  {
    hide Cut, PartBody, StripQuotes, HasCharacter;
    var bodies := Cut(total, size);
    forall i: nat
      ensures TakesPart(service, total, size, i) <==> (i < |bodies| ==> Accepted(service, i + 1, bodies[i]))
    {
      CutAt(total, size, i);
      CutSizes(total, size);
      EtagIsThere(service.put(i + 1, PartBody(total, size, i)).etagHeader);
    }
  }

  lemma ListMeans(service: Service, total: Bytes, size: nat)
    requires size > 0
    ensures var parts := PartList(service, Cut(total, size));
      && |parts| == (|total| + size - 1) / size
      && forall i: nat | i < |parts| :: ListsPart(service, total, size, parts[i], i)
  {
    hide Cut, PartBody, StripQuotes, WithoutQuotes;
    CutCount(total, size);
    var parts := PartList(service, Cut(total, size));
    forall i: nat | i < |parts|
      ensures ListsPart(service, total, size, parts[i], i)
    {
      CutAt(total, size, i);
      EtagIsThere(service.put(i + 1, PartBody(total, size, i)).etagHeader);
    }
  }

  /** The uploads started carry the bytes at their places, and the pool is never larger than allowed. */
  lemma WorkMeans(work: seq<Event>, total: Bytes, size: nat, concurrency: nat)
    requires size > 0 && Run(work, Cut(total, size), concurrency).Some?
    ensures CountsUp(Started(work))
    ensures forall i | 0 <= i < |work| && work[i].PutPart? ::
      work[i].num >= 1 && work[i].body == PartBody(total, size, work[i].num - 1) != []
    ensures forall k | 0 <= k <= |work| :: |Unsettled(work[..k])| <= concurrency
  {
    hide Cut, PartBody, Run, Unsettled, Started, CountsUp;
    var bodies := Cut(total, size);
    AllowedRunMeans(work, bodies, concurrency);
    CutSizes(total, size);
    forall i | 0 <= i < |work| && work[i].PutPart?
      ensures work[i].num >= 1 && work[i].body == PartBody(total, size, work[i].num - 1) != []
    {
      CutAt(total, size, work[i].num - 1);
    }
    forall k | 0 <= k <= |work|
      ensures |Unsettled(work[..k])| <= concurrency
    {
      AllowedRuns(work, bodies, concurrency, k);
      AllowedRunMeans(work[..k], bodies, concurrency);
    }
  }

  /** The whole stream has been started part by part, and nothing is in flight any more. */
  lemma AllWorkDone(work: seq<Event>, total: Bytes, size: nat, concurrency: nat)
    requires size > 0
    requires Run(work, Cut(total, size), concurrency) ==
      Some(Pool(|Cut(total, size)|, {}, UpTo(|Cut(total, size)|)))
    ensures Unsettled(work) == {} && |Started(work)| == (|total| + size - 1) / size
  {
    hide Cut, Run, Unsettled, Started;
    AllowedRunMeans(work, Cut(total, size), concurrency);
    CutCount(total, size);
  }

  /**
   The whole upload, with every request it sends. Once the upload exists, the run is an allowed run
   of the pool followed by `Ending`; it succeeds exactly when the stream, all parts and the
   completion do, and then the parts the service was sent make up the stream.
   */
  method UploadMultipart(service: Service, stream: Stream, totalSize: nat, options: Options)
    returns (r: Outcome, ghost log: seq<Request>, ghost work: seq<Event>)
    ensures var bodies := Cut(Flatten(stream.chunks), EffectivePartSize(options));
      && Flatten(bodies) == Flatten(stream.chunks)
      && (r == if service.initiates && !stream.fails && AllAccepted(service, bodies) && service.completes
               then Uploaded(service.etag) else Failed)
    ensures var bodies := Cut(Flatten(stream.chunks), EffectivePartSize(options));
      && log == [Initiate] + (if service.initiates then Works(work) + Ending(service, bodies, stream) else [])
      && Run(work, bodies, EffectiveConcurrency(options)).Some?
      && (Complete(PartList(service, bodies)) in log ==>
            Run(work, bodies, EffectiveConcurrency(options)) == Some(Pool(|bodies|, {}, UpTo(|bodies|))))
    // the same in terms of the options, the stream and the answers alone
    ensures forall k | 0 <= k <= |work| ::
      |Unsettled(work[..k])| <= if options.concurrency != 0 then options.concurrency else 4
    ensures CountsUp(Started(work))
    ensures var total, size := Flatten(stream.chunks),
      if options.partSize >= 5 * 1024 * 1024 then options.partSize else 5 * 1024 * 1024;
      && (forall i | 0 <= i < |work| && work[i].PutPart? ::
            work[i].num >= 1 && work[i].body == PartBody(total, size, work[i].num - 1) != [])
      && (r.Uploaded? <==>
            service.initiates && !stream.fails && service.completes
            && forall i: nat :: TakesPart(service, total, size, i))
      && (r.Uploaded? ==>
            && r.etag == service.etag && Unsettled(work) == {} && |Started(work)| == (|total| + size - 1) / size
            && |log| == |work| + 2 && log[|log| - 1].Complete?
            && var parts := log[|log| - 1].parts;
            && |parts| == (|total| + size - 1) / size
            && forall i: nat | i < |parts| :: ListsPart(service, total, size, parts[i], i))
    ensures |log| > 0 && log[0] == Initiate && (service.initiates ==> |log| > |work| + 1)
    ensures forall i | 0 <= i < |work| :: i + 1 < |log| && log[i + 1] == Work(work[i])
    ensures r.Failed? && service.initiates ==> log[|log| - 1] == Abort
    ensures r.Failed? && !service.initiates ==> log == [Initiate]
  {
    hide Run, AllAccepted, PartList, Cut, Flatten, PartBody, Unsettled, Started, CountsUp, TakesPart, ListsPart;
    ghost var total, size := Flatten(stream.chunks), EffectivePartSize(options);
    ghost var bodies := Cut(total, size);
    CutFlattens(total, size);
    AcceptedMeans(service, total, size);
    ListMeans(service, total, size);
    log := [Initiate];
    work := [];
    NothingSent(bodies, EffectiveConcurrency(options));
    WorkMeans(work, total, size, EffectiveConcurrency(options));
    if !service.initiates {
      return Failed, log, work;
    }
    var outcome, reports;
    outcome, reports, work := UploadParts(
      service, stream, EffectivePartSize(options), totalSize, EffectiveConcurrency(options));
    WorkMeans(work, total, size, EffectiveConcurrency(options));
    log := log + Works(work);
    if outcome.Finished? {
      AllWorkDone(work, total, size, EffectiveConcurrency(options));
      log := log + [Complete(outcome.parts)];
      if service.completes {
        return Uploaded(service.etag), log, work;
      }
    }
    log := log + [Abort];
    r := Failed;
  }

  lemma NothingSent(bodies: seq<Bytes>, concurrency: nat)
    ensures Run([], bodies, concurrency).Some?
  {}

  /** Aborts in a trace. */
  function Aborts(log: seq<Request>): nat {
    if log == [] then 0 else Aborts(log[..|log| - 1]) + if log[|log| - 1] == Abort then 1 else 0
  }

  lemma {:induction false} AbortsAppend(log: seq<Request>, more: seq<Request>)
    ensures Aborts(log + more) == Aborts(log) + Aborts(more)
  {
    if more == [] {
      assert log + more == log;
    } else {
      assert (log + more)[..|log + more| - 1] == log + more[..|more| - 1];
      AbortsAppend(log, more[..|more| - 1]);
    }
  }

  lemma {:induction false} WorkNeverAborts(work: seq<Event>)
    ensures Aborts(Works(work)) == 0
  {
    if work != [] {
      assert Works(work)[..|work| - 1] == Works(work[..|work| - 1]);
      WorkNeverAborts(work[..|work| - 1]);
    }
  }

  /** A run that throws after initiation aborts exactly once, as its last request; one that returns never aborts. */
  lemma AbortsOnceOrNever(service: Service, bodies: seq<Bytes>, stream: Stream, work: seq<Event>)
    ensures var log := [Initiate] + (Works(work) + Ending(service, bodies, stream));
      if !stream.fails && AllAccepted(service, bodies) && service.completes
      then Aborts(log) == 0
      else Aborts(log) == 1 && log[|log| - 1] == Abort
  {
    hide AllAccepted, PartList;
    var ending := Ending(service, bodies, stream);
    AbortsAppend([Initiate], Works(work) + ending);
    AbortsAppend(Works(work), ending);
    WorkNeverAborts(work);
    assert Aborts([Initiate]) == 0;
    assert ending[..|ending| - 1] == [] || ending[..|ending| - 1] == [Complete(PartList(service, bodies))];
    assert Aborts([Complete(PartList(service, bodies))]) == 0;
  }

  /** What the reports say of a stream: how far it has been handed over, and of how much. */
  lemma ReportsMean(total: Bytes, size: nat, totalSize: nat, i: nat)
    requires size > 0 && i < |Cut(total, size)|
    ensures var reports, loaded := Reports(Cut(total, size), |Cut(total, size)|, totalSize, size),
      if i * size + size <= |total| then i * size + size else |total|;
      && |reports| == (|total| + size - 1) / size
      && reports[i].loaded == loaded && reports[i].part == i + 1
      && (totalSize != 0 ==> reports[i].total == totalSize && reports[i].totalParts == (totalSize + size - 1) / size)
      && (totalSize == 0 ==> reports[i].total == loaded && reports[i].totalParts == i + 1)
  {
    hide Cut, Flatten;
    CutCount(total, size);
    HandedOver(total, size, i);
  }

  lemma {:induction false} HandedOver(total: Bytes, size: nat, i: nat)
    requires size > 0 && i < |Cut(total, size)|
    ensures |Flatten(Cut(total, size)[..i + 1])| == if i * size + size <= |total| then i * size + size else |total|
    decreases i
  {
    hide Cut, Flatten;
    var bodies := Cut(total, size);
    CutAt(total, size, i);
    CutSizes(total, size);
    FlattenAppend(bodies[..i], bodies[i]);
    assert bodies[..i + 1] == bodies[..i] + [bodies[i]];
    if i > 0 {
      HandedOver(total, size, i - 1);
      assert i * size == (i - 1) * size + size;
    } else {
      assert 0 * size == 0;
      NothingFlattened(bodies);
    }
  }

  lemma NothingFlattened(bodies: seq<Bytes>)
    ensures |Flatten(bodies[..0])| == 0
  {
    assert bodies[..0] == [];
  }

  /** With the size known, the last report says that everything has been handed over. */
  lemma LastReportIsComplete(total: Bytes, partSize: nat)
    requires partSize > 0 && total != []
    ensures var bodies := Cut(total, partSize);
      var reports := Reports(bodies, |bodies|, |total|, partSize);
      reports != [] && reports[|reports| - 1] == Progress(|total|, |total|, |bodies|, |bodies|)
  {
    var bodies := Cut(total, partSize);
    CutFlattens(total, partSize);
    CutCount(total, partSize);
    assert bodies[..|bodies|] == bodies;
  }
}
