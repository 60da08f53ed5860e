/** The caching credential provider: packages/core/src/aws/credentials.ts. */
module CredentialProvider {
  import opened Wrappers

  /** Times are in milliseconds. */
  datatype Credentials = Credentials(accessKeyId: string, secretAccessKey: string, expiration: Option<int>)

  /** What becomes of a refresh. */
  datatype Outcome = Got(credentials: Credentials) | Failed

  /** What a caller gets: credentials at once, or the promise of a refresh. */
  datatype Answer = Now(credentials: Credentials) | Later(refresh: nat)

  const BUFFER_MS: int := 5 * 60 * 1000

  /** No expiry, or more than five minutes left. */
  predicate Fresh(c: Credentials, now: int) {
    c.expiration.None? || c.expiration.value - now > BUFFER_MS
  }

  /** What happens to a provider, in order; refreshes are numbered. */
  datatype Event =
    | Answered(caller: nat, now: int, credentials: Credentials)
    | Started(caller: nat, now: int, refresh: nat)
    | Joined(caller: nat, now: int, refresh: nat)
    | Settled(refresh: nat, outcome: Outcome)

  /** The refreshes begun and not yet settled. */
  function InFlight(log: seq<Event>): set<nat> {
    if log == [] then {}
    else
      var before, e := InFlight(log[..|log| - 1]), log[|log| - 1];
      if e.Started? then before + {e.refresh} else if e.Settled? then before - {e.refresh} else before
  }

  /** The credentials last fetched. */
  function Cached(log: seq<Event>): Option<Credentials> {
    if log == [] then None
    else
      var e := log[|log| - 1];
      if e.Settled? && e.outcome.Got? then Some(e.outcome.credentials) else Cached(log[..|log| - 1])
  }

  predicate HasFresh(log: seq<Event>, now: int) {
    Cached(log).Some? && Fresh(Cached(log).value, now)
  }

  /** What may happen after `log`. */
  ghost predicate Allowed(log: seq<Event>, e: Event) {
    match e
    case Answered(_, now, credentials) => Cached(log) == Some(credentials) && Fresh(credentials, now)
    case Started(_, now, r) =>
      && !HasFresh(log, now) && InFlight(log) == {}
      && forall i | 0 <= i < |log| && log[i].Started? :: log[i].refresh < r
    case Joined(_, now, r) => !HasFresh(log, now) && InFlight(log) == {r}
    case Settled(r, _) => r in InFlight(log)
  }

  ghost predicate IsHistory(log: seq<Event>) {
    forall i | 0 <= i < |log| :: Allowed(log[..i], log[i])
  }

  lemma HistoryGrows(log: seq<Event>, e: Event)
    requires IsHistory(log) && Allowed(log, e)
    ensures IsHistory(log + [e])
    ensures InFlight(log + [e]) ==
      if e.Started? then InFlight(log) + {e.refresh}
      else if e.Settled? then InFlight(log) - {e.refresh} else InFlight(log)
    ensures Cached(log + [e]) == if e.Settled? && e.outcome.Got? then Some(e.outcome.credentials) else Cached(log)
  {
    hide Allowed;
    var more := log + [e];
    assert more[..|log|] == log;
    forall i | 0 <= i < |more|
      ensures Allowed(more[..i], more[i])
    {
      assert i < |log| ==> more[..i] == log[..i];
    }
  }

  class Provider {
    var cachedCredentials: Option<Credentials>
    var refreshPromise: Option<nat>
    var refreshes: nat
    ghost var log: seq<Event>

    constructor ()
      ensures Valid() && log == []
    {
      cachedCredentials, refreshPromise, refreshes, log := None, None, 0, [];
    }

    /** The two variables of the closure are what the history says. */
    ghost predicate Valid()
      reads this
    {
      && IsHistory(log)
      && cachedCredentials == Cached(log)
      && InFlight(log) == (if refreshPromise.Some? then {refreshPromise.value} else {})
      && forall i | 0 <= i < |log| && log[i].Started? :: log[i].refresh < refreshes
    }

    /** One call of the provider: fresh credentials if there are any, else the refresh in flight, else a new one. */
    method Call(caller: nat, now: int) returns (a: Answer)
      requires Valid()
      modifies this
      ensures Valid()
      ensures log == old(log) + [
        if a.Now? then Answered(caller, now, a.credentials)
        else if old(InFlight(log)) == {} then Started(caller, now, a.refresh)
        else Joined(caller, now, a.refresh)]
      ensures a.Now? <==> HasFresh(old(log), now)
    {
      hide IsHistory, InFlight, Cached;
      if cachedCredentials.Some? {
        if cachedCredentials.value.expiration.None? {
          HistoryGrows(log, Answered(caller, now, cachedCredentials.value));
          log := log + [Answered(caller, now, cachedCredentials.value)];
          return Now(cachedCredentials.value);
        }
        if cachedCredentials.value.expiration.value - now > BUFFER_MS {
          HistoryGrows(log, Answered(caller, now, cachedCredentials.value));
          log := log + [Answered(caller, now, cachedCredentials.value)];
          return Now(cachedCredentials.value);
        }
      }
      if refreshPromise.Some? {
        HistoryGrows(log, Joined(caller, now, refreshPromise.value));
        log := log + [Joined(caller, now, refreshPromise.value)];
        return Later(refreshPromise.value);
      }
      HistoryGrows(log, Started(caller, now, refreshes));
      log := log + [Started(caller, now, refreshes)];
      refreshPromise := Some(refreshes);
      refreshes := refreshes + 1;
      a := Later(refreshPromise.value);
    }

    /** The refresh in flight settles; whatever comes of it, none is in flight afterwards. */
    method Settle(refresh: nat, outcome: Outcome)
      requires Valid() && refresh in InFlight(log)
      modifies this
      ensures Valid() && log == old(log) + [Settled(refresh, outcome)] && InFlight(log) == {}
    {
      hide IsHistory, InFlight, Cached;
      HistoryGrows(log, Settled(refresh, outcome));
      log := log + [Settled(refresh, outcome)];
      if outcome.Got? {
        cachedCredentials := Some(outcome.credentials);
      }
      refreshPromise := None;
    }
  }

  /** What the outside does: a caller calls, or the refresh in flight, if any, settles. */
  datatype Stimulus = Calls(caller: nat, now: int) | Settles(outcome: Outcome)

  /** The event is what came of this call. */
  predicate IsCallOf(e: Event, caller: nat, now: int) {
    !e.Settled? && e.caller == caller && e.now == now
  }

  /**
   The log has the calls of the script in order, each with its caller and its time, and between them
   the outcome of every refresh that was in flight when the script let it settle.
   */
  ghost predicate Records(log: seq<Event>, script: seq<Stimulus>)
    decreases |script|
  {
    if script == [] then log == []
    else
      var before := script[..|script| - 1];
      match script[|script| - 1]
      case Calls(caller, now) =>
        log != [] && IsCallOf(log[|log| - 1], caller, now) && Records(log[..|log| - 1], before)
      case Settles(outcome) =>
        if InFlight(log) == {} && Records(log, before) then true
        else
          && log != [] && log[|log| - 1].Settled? && log[|log| - 1].outcome == outcome
          && InFlight(log[..|log| - 1]) != {} && Records(log[..|log| - 1], before)
  }

  lemma RecordsMore(log: seq<Event>, script: seq<Stimulus>, s: Stimulus, e: Event)
    requires Records(log, script)
    requires s.Calls? ==> IsCallOf(e, s.caller, s.now)
    requires s.Settles? ==> e.Settled? && e.outcome == s.outcome && InFlight(log) != {}
    ensures Records(log + [e], script + [s])
  {
    hide InFlight;
    assert (log + [e])[..|log|] == log && (script + [s])[..|script|] == script;
  }

  lemma RecordsNothing(log: seq<Event>, script: seq<Stimulus>, outcome: Outcome)
    requires Records(log, script) && InFlight(log) == {}
    ensures Records(log, script + [Settles(outcome)])
  {
    hide InFlight;
    assert (script + [Settles(outcome)])[..|script|] == script;
  }

  /** Any interleaving of callers, successes and failures, at any times, is recorded and makes a history. */
  method Drive(script: seq<Stimulus>) returns (p: Provider)
    ensures p.Valid() && IsHistory(p.log) && Records(p.log, script)
  {
    hide InFlight, IsHistory, Cached, Records;
    p := new Provider();
    NothingRecorded();
    for i := 0 to |script|
      invariant fresh(p) && p.Valid() && Records(p.log, script[..i])
    {
      assert script[..i + 1] == script[..i] + [script[i]];
      ghost var log := p.log;
      match script[i] {
        case Calls(caller, now) =>
          var a := p.Call(caller, now);
          RecordsMore(log, script[..i], script[i], p.log[|log|]);
        case Settles(outcome) =>
          if p.refreshPromise.Some? {
            p.Settle(p.refreshPromise.value, outcome);
            RecordsMore(log, script[..i], script[i], p.log[|log|]);
          } else {
            RecordsNothing(log, script[..i], outcome);
          }
      }
    }
    assert script[..|script|] == script;
  }

  lemma NothingRecorded()
    ensures Records([], [])
  {}

  /** Single flight: at no time is more than one refresh in flight. */
  lemma {:induction false} AtMostOneInFlight(log: seq<Event>, k: nat)
    requires IsHistory(log) && k <= |log|
    ensures |InFlight(log[..k])| <= 1
  {
    if k > 0 {
      AtMostOneInFlight(log, k - 1);
      assert log[..k][..k - 1] == log[..k - 1];
      assert Allowed(log[..k - 1], log[k - 1]);
      if log[k - 1].Settled? {
        SmallerSet(InFlight(log[..k]), InFlight(log[..k - 1]));
      }
    }
  }

  lemma SmallerSet(a: set<nat>, b: set<nat>)
    requires a <= b
    ensures |a| <= |b|
  {
    assert b == a + (b - a);
  }

  /** What is in flight was started before. */
  lemma {:induction false} InFlightWasStarted(log: seq<Event>, r: nat) returns (i: nat)
    requires r in InFlight(log)
    ensures i < |log| && log[i].Started? && log[i].refresh == r
    ensures forall j | i < j < |log| :: !(log[j].Settled? && log[j].refresh == r)
  {
    var e := log[|log| - 1];
    if e.Started? && e.refresh == r {
      i := |log| - 1;
    } else {
      i := InFlightWasStarted(log[..|log| - 1], r);
    }
  }

  /** A refresh is started once. */
  lemma StartedOnce(log: seq<Event>, i: nat, j: nat)
    requires IsHistory(log) && i < j < |log| && log[i].Started? && log[j].Started?
    ensures log[i].refresh < log[j].refresh
  {
    assert Allowed(log[..j], log[j]);
    assert log[..j][i] == log[i];
  }

  /** A refresh settles once: all who wait for it get the one outcome it has. */
  lemma SettledOnce(log: seq<Event>, i: nat, j: nat)
    requires IsHistory(log) && i <= j < |log|
    requires log[i].Settled? && log[j].Settled? && log[i].refresh == log[j].refresh
    ensures i == j
  {
    if i < j {
      var r := log[i].refresh;
      assert Allowed(log[..i], log[i]) && Allowed(log[..j], log[j]);
      var a := InFlightWasStarted(log[..i], r);
      var b := InFlightWasStarted(log[..j], r);
      assert log[a].Started? && log[b].Started? && log[..j][i] == log[i];
      StartedOnce(log, a, b);
    }
  }

  /** Who waits for a refresh came between its start and its end. */
  lemma JoinersAreInTime(log: seq<Event>, i: nat, j: nat) returns (s: nat)
    requires IsHistory(log) && i < |log| && j < |log|
    requires log[i].Joined? && log[j].Settled? && log[i].refresh == log[j].refresh
    ensures s < i < j && log[s].Started? && log[s].refresh == log[i].refresh
  {
    var r := log[i].refresh;
    assert Allowed(log[..i], log[i]) && Allowed(log[..j], log[j]);
    s := InFlightWasStarted(log[..i], r);
    if j < i {
      var b := InFlightWasStarted(log[..j], r);
      assert log[..i][j] == log[j] && log[..i][b] == log[b] && log[..j][b] == log[b];
      StartedOnce(log, b, s);
    }
  }

  /** After a refresh has settled, well or not, the next call without fresh credentials starts a new one. */
  lemma NextCallRefreshes(log: seq<Event>, i: nat)
    requires IsHistory(log) && i + 1 < |log| && log[i].Settled?
    ensures log[i + 1].Started? || log[i + 1].Answered?
    ensures log[i].outcome.Failed? && !HasFresh(log[..i], log[i + 1].now) ==> log[i + 1].Started?
  {
    assert Allowed(log[..i + 1], log[i + 1]) && Allowed(log[..i], log[i]);
    assert log[..i + 1][..i] == log[..i];
    AtMostOneInFlight(log, i);
    OnlyMember(InFlight(log[..i]), log[i].refresh);
  }

  lemma OnlyMember(s: set<nat>, x: nat)
    requires |s| <= 1 && x in s
    ensures s == {x}
  {
    assert |s - {x}| == |s| - 1;
  }

  /** An answer from the cache is what the latest successful refresh fetched, and it is fresh. */
  lemma {:induction false} AnswersAreFresh(log: seq<Event>, i: nat) returns (j: nat)
    requires IsHistory(log) && i < |log| && log[i].Answered?
    ensures log[i].credentials.expiration.Some? ==> log[i].credentials.expiration.value - log[i].now > 5 * 60 * 1000
    ensures j < i && log[j].Settled? && log[j].outcome == Got(log[i].credentials)
    ensures forall k | j < k < i :: !(log[k].Settled? && log[k].outcome.Got?)
  {
    assert Allowed(log[..i], log[i]);
    j := LatestFetch(log[..i]);
    forall k | j < k < i
      ensures !(log[k].Settled? && log[k].outcome.Got?)
    {
      assert log[..i][k] == log[k];
    }
  }

  lemma {:induction false} LatestFetch(log: seq<Event>) returns (j: nat)
    requires Cached(log).Some?
    ensures j < |log| && log[j].Settled? && log[j].outcome == Got(Cached(log).value)
    ensures forall k | j < k < |log| :: !(log[k].Settled? && log[k].outcome.Got?)
  {
    var e := log[|log| - 1];
    if e.Settled? && e.outcome.Got? {
      j := |log| - 1;
    } else {
      j := LatestFetch(log[..|log| - 1]);
    }
  }

  /** The credentials that fetch `j` brought are the latest before `i`, and more than five minutes are left to them. */
  ghost predicate IsFreshFetch(log: seq<Event>, i: nat, now: int, j: nat)
    requires i <= |log|
  {
    && j < i && log[j].Settled? && log[j].outcome.Got?
    && (forall k | j < k < i :: !(log[k].Settled? && log[k].outcome.Got?))
    && var expiration := log[j].outcome.credentials.expiration;
    && (expiration.None? || expiration.value - now > 5 * 60 * 1000)
  }

  /** A call is answered at once exactly if the latest fetch is fresh at that time; otherwise it waits for a refresh. */
  lemma AnsweredExactlyWhenFresh(log: seq<Event>, i: nat)
    requires IsHistory(log) && i < |log| && !log[i].Settled?
    ensures log[i].Answered? <==> exists j: nat :: IsFreshFetch(log, i, log[i].now, j)
    ensures !log[i].Answered? ==> log[i].Started? || log[i].Joined?
  {
    assert Allowed(log[..i], log[i]);
    if log[i].Answered? {
      var j := AnswersAreFresh(log, i);
      assert IsFreshFetch(log, i, log[i].now, j);
    }
    if j: nat :| IsFreshFetch(log, i, log[i].now, j) {
      LatestIsCached(log[..i], j);
    }
  }

  lemma {:induction false} LatestIsCached(log: seq<Event>, j: nat)
    requires j < |log| && log[j].Settled? && log[j].outcome.Got?
    requires forall k | j < k < |log| :: !(log[k].Settled? && log[k].outcome.Got?)
    ensures Cached(log) == Some(log[j].outcome.credentials)
  {
    if j < |log| - 1 {
      LatestIsCached(log[..|log| - 1], j);
    }
  }
}
