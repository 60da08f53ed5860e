/** The bounded pool of part uploads, as a protocol the trace of an upload has to follow. */
module UploadProtocol {
  import opened Parts
  import opened Wrappers

  datatype Event = PutPart(num: nat, body: Bytes) | Settle(num: nat)

  datatype Pool = Pool(started: nat, inFlight: set<nat>, finished: set<nat>)

  /** A part may start when it is the next one, carries its own piece and finds a free slot. */
  function Step(p: Pool, e: Event, bodies: seq<Bytes>, concurrency: nat): Option<Pool> {
    match e
    case PutPart(num, body) =>
      if num == p.started + 1 && num <= |bodies| && body == bodies[num - 1] && |p.inFlight| < concurrency
      then Some(Pool(num, p.inFlight + {num}, p.finished)) else None
    case Settle(num) =>
      if num in p.inFlight then Some(Pool(p.started, p.inFlight - {num}, p.finished + {num})) else None
  }

  /** Where a trace leads from the empty pool; none, if some step of it is not allowed. */
  function Run(work: seq<Event>, bodies: seq<Bytes>, concurrency: nat): Option<Pool> {
    if work == [] then Some(Pool(0, {}, {}))
    else
      match Run(work[..|work| - 1], bodies, concurrency)
      case None => None
      case Some(p) => Step(p, work[|work| - 1], bodies, concurrency)
  }

  function UpTo(n: nat): (s: set<nat>)
    ensures forall k :: k in s <==> 1 <= k <= n
  {
    if n == 0 then {} else UpTo(n - 1) + {n}
  }

  lemma RunAppend(work: seq<Event>, e: Event, bodies: seq<Bytes>, concurrency: nat, p: Pool)
    requires Run(work, bodies, concurrency) == Some(p)
    ensures Run(work + [e], bodies, concurrency) == Step(p, e, bodies, concurrency)
  {
    assert (work + [e])[..|work|] == work;
  }

  /** The pool is within bounds and no started part is lost or doubled. */
  predicate InBounds(p: Pool, n: nat, concurrency: nat) {
    && |p.inFlight| <= concurrency
    && p.inFlight !! p.finished
    && p.inFlight + p.finished == UpTo(p.started)
    && p.started <= n
  }

  lemma StepStaysInBounds(p: Pool, e: Event, bodies: seq<Bytes>, concurrency: nat)
    requires InBounds(p, |bodies|, concurrency) && Step(p, e, bodies, concurrency).Some?
    ensures InBounds(Step(p, e, bodies, concurrency).value, |bodies|, concurrency)
  {
    if e.PutPart? {
      StartingStaysInBounds(p, |bodies|, concurrency);
    } else {
      SettlingStaysInBounds(p, e.num, |bodies|, concurrency);
    }
  }

  lemma StartingStaysInBounds(p: Pool, n: nat, concurrency: nat)
    requires InBounds(p, n, concurrency) && p.started < n && |p.inFlight| < concurrency
    ensures InBounds(Pool(p.started + 1, p.inFlight + {p.started + 1}, p.finished), n, concurrency)
  {
    hide UpTo;
    var next := p.started + 1;
    OneMorePart(p.started);
    assert next !in p.inFlight && next !in p.finished;
    assert (p.inFlight + {next}) + p.finished == UpTo(p.started) + {next};
    assert |p.inFlight + {next}| == |p.inFlight| + 1;
  }

  lemma OneMorePart(started: nat)
    ensures started + 1 !in UpTo(started) && UpTo(started + 1) == UpTo(started) + {started + 1}
  {}

  lemma SettlingStaysInBounds(p: Pool, num: nat, n: nat, concurrency: nat)
    requires InBounds(p, n, concurrency) && num in p.inFlight
    ensures InBounds(Pool(p.started, p.inFlight - {num}, p.finished + {num}), n, concurrency)
  {
    hide UpTo;
    assert (p.inFlight - {num}) + (p.finished + {num}) == p.inFlight + p.finished;
    assert |p.inFlight - {num}| == |p.inFlight| - 1;
  }

  /** At every moment of an allowed run. */
  lemma {:induction false} AllowedRuns(work: seq<Event>, bodies: seq<Bytes>, concurrency: nat, k: nat)
    requires Run(work, bodies, concurrency).Some? && k <= |work|
    ensures Run(work[..k], bodies, concurrency).Some?
    ensures InBounds(Run(work[..k], bodies, concurrency).value, |bodies|, concurrency)
  {
    hide InBounds, Step;
    if k < |work| {
      assert work[..|work| - 1][..k] == work[..k];
      AllowedRuns(work[..|work| - 1], bodies, concurrency, k);
    } else if work != [] {
      var before := work[..|work| - 1];
      AllowedRuns(before, bodies, concurrency, |before|);
      assert before[..|before|] == before && work[..k] == work;
      StepStaysInBounds(Run(before, bodies, concurrency).value, work[|work| - 1], bodies, concurrency);
    } else {
      EmptyPoolInBounds(bodies, concurrency);
      assert work[..k] == [];
    }
  }

  lemma EmptyPoolInBounds(bodies: seq<Bytes>, concurrency: nat)
    ensures InBounds(Pool(0, {}, {}), |bodies|, concurrency)
  {}

  // ---------- What an allowed run looks like ----------

  /** The parts whose upload has been started and not been seen to settle. */
  function Unsettled(work: seq<Event>): set<nat> {
    set i | 0 <= i < |work| && work[i].PutPart? && Settle(work[i].num) !in work :: work[i].num
  }

  /** The numbers of the parts started, in order. */
  function Started(work: seq<Event>): seq<nat> {
    if work == [] then []
    else Started(work[..|work| - 1]) + if work[|work| - 1].PutPart? then [work[|work| - 1].num] else []
  }

  ghost predicate CountsUp(numbers: seq<nat>) {
    forall i | 0 <= i < |numbers| :: numbers[i] == i + 1
  }

  /** Every upload started carries its own piece. */
  ghost predicate CarriesPieces(work: seq<Event>, bodies: seq<Bytes>) {
    forall i | 0 <= i < |work| && work[i].PutPart? ::
      1 <= work[i].num <= |bodies| && work[i].body == bodies[work[i].num - 1]
  }

  ghost predicate SettlesIn(work: seq<Event>, pool: Pool) {
    && (forall n :: n in pool.finished <==> Settle(n) in work)
    && (forall i | 0 <= i < |work| && work[i].PutPart? :: work[i].num in pool.inFlight + pool.finished)
  }

  /**
   In an allowed run parts are started in the order of their numbers, from one on without a gap, each
   with its own piece, and what is in flight is what has been started and not settled.
   */
  lemma {:induction false} AllowedRunMeans(work: seq<Event>, bodies: seq<Bytes>, concurrency: nat)
    requires Run(work, bodies, concurrency).Some?
    ensures var pool := Run(work, bodies, concurrency).value;
      && pool.inFlight == Unsettled(work) && SettlesIn(work, pool)
      && |Started(work)| == pool.started && CountsUp(Started(work)) && CarriesPieces(work, bodies)
  {
    hide Unsettled, Started, CountsUp, CarriesPieces, SettlesIn, InBounds;
    if work == [] {
      NothingStarted(bodies);
    } else {
      var before, e := work[..|work| - 1], work[|work| - 1];
      AllowedRunMeans(before, bodies, concurrency);
      AllowedRuns(before, bodies, concurrency, |before|);
      assert before[..|before|] == before && work == before + [e];
      var pool := Run(before, bodies, concurrency).value;
      OneMoreEvent(before, e, bodies, concurrency, pool);
    }
  }

  lemma NothingStarted(bodies: seq<Bytes>)
    ensures Unsettled([]) == {} && SettlesIn([], Pool(0, {}, {})) && Started([]) == [] && CountsUp([])
    ensures CarriesPieces([], bodies)
  {}

  lemma OneMoreEvent(work: seq<Event>, e: Event, bodies: seq<Bytes>, concurrency: nat, pool: Pool)
    requires InBounds(pool, |bodies|, concurrency) && Step(pool, e, bodies, concurrency).Some?
    requires pool.inFlight == Unsettled(work) && SettlesIn(work, pool)
    requires |Started(work)| == pool.started && CountsUp(Started(work)) && CarriesPieces(work, bodies)
    ensures var more, after := work + [e], Step(pool, e, bodies, concurrency).value;
      && after.inFlight == Unsettled(more) && SettlesIn(more, after)
      && |Started(more)| == after.started && CountsUp(Started(more)) && CarriesPieces(more, bodies)
  {
    hide Unsettled, Started, CountsUp, CarriesPieces, UpTo, SettlesIn;
    PiecesMore(work, e, bodies);
    StartedMore(work, e);
    if e.PutPart? {
      assert e.num !in pool.inFlight + pool.finished by {
        OneMorePart(pool.started);
      }
      UnsettledPut(work, e, pool);
    } else {
      UnsettledSettle(work, e, pool);
    }
  }

  lemma PiecesMore(work: seq<Event>, e: Event, bodies: seq<Bytes>)
    requires CarriesPieces(work, bodies)
    requires e.PutPart? ==> 1 <= e.num <= |bodies| && e.body == bodies[e.num - 1]
    ensures CarriesPieces(work + [e], bodies)
  {}

  lemma StartedMore(work: seq<Event>, e: Event)
    requires CountsUp(Started(work)) && (e.PutPart? ==> e.num == |Started(work)| + 1)
    ensures Started(work + [e]) == Started(work) + if e.PutPart? then [e.num] else []
    ensures CountsUp(Started(work + [e]))
  {
    assert (work + [e])[..|work|] == work;
  }

  lemma UnsettledPut(work: seq<Event>, e: Event, pool: Pool)
    requires pool.inFlight == Unsettled(work) && SettlesIn(work, pool)
    requires e.PutPart? && e.num !in pool.inFlight + pool.finished
    ensures Unsettled(work + [e]) == pool.inFlight + {e.num}
    ensures SettlesIn(work + [e], Pool(e.num, pool.inFlight + {e.num}, pool.finished))
  {
    var more := work + [e];
    assert forall n :: Settle(n) in more <==> Settle(n) in work;
    assert forall i | 0 <= i < |work| :: more[i] == work[i];
    assert more[|work|] == e;
  }

  lemma UnsettledSettle(work: seq<Event>, e: Event, pool: Pool)
    requires pool.inFlight == Unsettled(work) && SettlesIn(work, pool)
    requires e.Settle? && e.num in pool.inFlight
    ensures Unsettled(work + [e]) == pool.inFlight - {e.num}
    ensures SettlesIn(work + [e], Pool(pool.started, pool.inFlight - {e.num}, pool.finished + {e.num}))
  {
    var more := work + [e];
    assert forall n :: Settle(n) in more <==> Settle(n) in work || n == e.num;
    assert forall i | 0 <= i < |work| :: more[i] == work[i];
    assert more[|work|] == e;
  }
}
