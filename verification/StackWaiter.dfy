/** Waiting for a stack, with a feed of its events: packages/core/src/aws/cloudformation.ts. */
module StackWaiter {
  import opened Wrappers

  const MAX_ATTEMPTS: nat := 360

  datatype Event = Event(id: string, text: string)

  /** An unset status is the empty string. */
  datatype StackReply = Described(status: string) | DescribeFailed

  datatype EventsReply = Fetched(newestFirst: seq<Event>) | FetchFailed

  datatype Poll = Poll(stack: StackReply, events: EventsReply)

  datatype Outcome = Reached(status: string) | FailedState(status: string) | TimedOut | Threw

  predicate Includes(s: string, part: string) {
    exists i | 0 <= i <= |s| :: part <= s[i..]
  }

  /** How a poll ends the wait, if it does. */
  function Verdict(stack: StackReply, desired: seq<string>): Option<Outcome> {
    match stack
    case DescribeFailed => Some(Threw)
    case Described(status) =>
      if status != "" && status in desired then Some(Reached(status))
      else if Includes(status, "FAILED") || Includes(status, "ROLLBACK") then Some(FailedState(status))
      else None
  }

  /** `part` stands somewhere in `s`. */
  ghost predicate Holds(s: string, part: string) {
    exists i | 0 <= i <= |s| :: part <= s[i..]
  }

  /** The poll leaves it open how the wait ends. */
  ghost predicate LeavesOpen(stack: StackReply, desired: seq<string>) {
    && stack.Described?
    && (stack.status == "" || stack.status !in desired)
    && !Holds(stack.status, "FAILED") && !Holds(stack.status, "ROLLBACK")
  }

  /** It ends so: with a desired status, with a failed one that is not desired, or because the fetch threw. */
  ghost predicate EndsWith(stack: StackReply, desired: seq<string>, r: Outcome) {
    match r
    case Reached(status) => stack == Described(status) && status != "" && status in desired
    case FailedState(status) =>
      && stack == Described(status) && (status == "" || status !in desired)
      && (Holds(status, "FAILED") || Holds(status, "ROLLBACK"))
    case Threw => stack == DescribeFailed
    case TimedOut => LeavesOpen(stack, desired)
  }

  lemma VerdictMeans(stack: StackReply, desired: seq<string>)
    ensures Verdict(stack, desired).None? <==> LeavesOpen(stack, desired)
    ensures Verdict(stack, desired).Some? ==> EndsWith(stack, desired, Verdict(stack, desired).value)
  {}

  function Reverse<T>(s: seq<T>): (r: seq<T>)
    ensures |r| == |s| && forall i | 0 <= i < |s| :: r[i] == s[|s| - 1 - i]
  {
    if s == [] then [] else Reverse(s[1..]) + [s[0]]
  }

  /** The part of the log, positions `lo` to `hi`, that a fetch returned; none, if it failed. */
  type Window = Option<(nat, nat)>

  /** The log has one id for one event, and no id is empty. */
  ghost predicate IsLog(log: seq<Event>) {
    && (forall i | 0 <= i < |log| :: log[i].id != "")
    && forall i, j | 0 <= i < j < |log| :: log[i].id != log[j].id
  }

  /** The reply is the window's part of the log, newest first. */
  ghost predicate Shows(reply: EventsReply, log: seq<Event>, w: Window) {
    match w
    case None => reply.FetchFailed?
    case Some((lo, hi)) => lo <= hi <= |log| && reply == Fetched(Reverse(log[lo..hi]))
  }

  /** Up to which position of the log events have been seen after these fetches; 0 before the first. */
  function Seen(windows: seq<Window>): nat {
    if windows == [] then 0
    else
      var before := Seen(windows[..|windows| - 1]);
      match windows[|windows| - 1]
      case None => before
      case Some((lo, hi)) => if lo < hi then hi else before
  }

  function Max(a: nat, b: nat): nat {
    if a <= b then b else a
  }

  /** Where in the log a fetch starts to report: at its newest event if nothing was seen yet. */
  function From(seen: nat, lo: nat, hi: nat): nat
    requires lo < hi
  {
    if seen == 0 then hi - 1 else Max(lo, seen)
  }

  /** A log only grows: no fetch ends before what has been seen. */
  ghost predicate Grows(windows: seq<Window>) {
    forall k | 0 <= k < |windows| && windows[k].Some? && windows[k].value.0 < windows[k].value.1 ::
      Seen(windows[..k]) <= windows[k].value.1
  }

  /** The positions reported after these fetches. */
  function Positions(windows: seq<Window>): seq<nat> {
    if windows == [] then []
    else
      var before := windows[..|windows| - 1];
      match windows[|windows| - 1]
      case None => Positions(before)
      case Some((lo, hi)) =>
        if lo < hi then Positions(before) + Range(From(Seen(before), lo, hi), hi) else Positions(before)
  }

  function Range(lo: nat, hi: nat): (r: seq<nat>)
    ensures |r| == if lo <= hi then hi - lo else 0
    ensures forall i | 0 <= i < |r| :: r[i] == lo + i
  {
    seq(if lo <= hi then hi - lo else 0, i requires 0 <= i => lo + i)
  }

  function Pick(log: seq<Event>, positions: seq<nat>): seq<Event>
    requires forall i | 0 <= i < |positions| :: positions[i] < |log|
  {
    seq(|positions|, i requires 0 <= i < |positions| => log[positions[i]])
  }

  /** Events are reported in the order of the log, each at most once. */
  lemma {:induction false} ReportedInOrder(windows: seq<Window>)
    requires Grows(windows)
    ensures forall i, j | 0 <= i < j < |Positions(windows)| :: Positions(windows)[i] < Positions(windows)[j]
    ensures forall i | 0 <= i < |Positions(windows)| :: Positions(windows)[i] < Seen(windows)
  {
    if windows != [] {
      var before := windows[..|windows| - 1];
      GrewBefore(windows, |windows| - 1);
      ReportedInOrder(before);
    }
  }

  lemma GrewBefore(windows: seq<Window>, k: nat)
    requires Grows(windows) && k <= |windows|
    ensures Grows(windows[..k])
  {
    forall i | 0 <= i < k
      ensures windows[..k][..i] == windows[..i]
    {}
  }

  /** Every fetch that shows something reaches back to what had been seen. */
  ghost predicate ReachesBack(windows: seq<Window>) {
    forall k | 0 <= k < |windows| && windows[k].Some? && windows[k].value.0 < windows[k].value.1 ::
      Seen(windows[..k]) == 0 || windows[k].value.0 <= Seen(windows[..k])
  }

  /** The newest event of the first fetch that showed something. */
  function FirstSeen(windows: seq<Window>): nat {
    if windows == [] then 0
    else
      var before := windows[..|windows| - 1];
      match windows[|windows| - 1]
      case None => FirstSeen(before)
      case Some((lo, hi)) => if lo < hi && Seen(before) == 0 then hi - 1 else FirstSeen(before)
  }

  /** Continuing a run of positions, or skipping some. */
  lemma RangesJoin(p: seq<nat>, first: nat, seen: nat, from: nat, hi: nat)
    requires first <= seen <= from <= hi && |p| <= seen - first
    ensures |p + Range(from, hi)| <= hi - first
    ensures p + Range(from, hi) == Range(first, hi) <==> p == Range(first, seen) && (from == seen)
  {
    var all := p + Range(from, hi);
    if p == Range(first, seen) && from == seen {
      assert all == Range(first, hi);
    }
    if all == Range(first, hi) {
      assert |all| == hi - first;
      assert p == all[..|p|] == Range(first, hi)[..|p|];
    }
  }

  lemma LastWindow(windows: seq<Window>)
    requires windows != []
    ensures var before, w := windows[..|windows| - 1], windows[|windows| - 1];
      if w.Some? && w.value.0 < w.value.1 then
        && Seen(windows) == w.value.1
        && Positions(windows) == Positions(before) + Range(From(Seen(before), w.value.0, w.value.1), w.value.1)
        && FirstSeen(windows) == if Seen(before) == 0 then w.value.1 - 1 else FirstSeen(before)
      else
        && Seen(windows) == Seen(before) && Positions(windows) == Positions(before)
        && FirstSeen(windows) == FirstSeen(before)
  {}

  /**
   The feed has every event from the newest one first observed up to the newest one last observed
   exactly when each fetch reached back to what had been seen; in particular when fetches return
   the whole log.
   */
  lemma {:induction false} NothingIsSkipped(windows: seq<Window>)
    requires Grows(windows)
    ensures FirstSeen(windows) <= Seen(windows)
    ensures ReachesBack(windows) <==> Positions(windows) == Range(FirstSeen(windows), Seen(windows))
    ensures |Positions(windows)| <= Seen(windows) - FirstSeen(windows)
  {
    if windows != [] {
      var before, w := windows[..|windows| - 1], windows[|windows| - 1];
      LatestGrows(windows);
      GrewBefore(windows, |windows| - 1);
      NothingIsSkipped(before);
      ReachedBackBefore(windows);
      LastWindow(windows);
      hide Positions, Seen, FirstSeen, ReachesBack, Grows, Range;
      if w.Some? && w.value.0 < w.value.1 {
        var (lo, hi) := w.value;
        if Seen(before) == 0 {
          RangesJoin(Positions(before), hi - 1, hi - 1, hi - 1, hi);
          EmptyRange(hi - 1);
          EmptyRange(FirstSeen(before));
        } else {
          RangesJoin(Positions(before), FirstSeen(before), Seen(before), From(Seen(before), lo, hi), hi);
        }
      }
    }
  }

  lemma EmptyRange(n: nat)
    ensures Range(n, n) == []
  {}

  lemma LatestGrows(windows: seq<Window>)
    requires Grows(windows) && windows != []
    ensures var w := windows[|windows| - 1];
      w.Some? && w.value.0 < w.value.1 ==> Seen(windows[..|windows| - 1]) <= w.value.1
  {}

  lemma ReachedBackBefore(windows: seq<Window>)
    requires windows != []
    ensures var before, w := windows[..|windows| - 1], windows[|windows| - 1];
      ReachesBack(windows) <==>
        && ReachesBack(before)
        && (w.Some? && w.value.0 < w.value.1 ==> Seen(before) == 0 || w.value.0 <= Seen(before))
  {
    var before := windows[..|windows| - 1];
    forall k | 0 <= k < |before|
      ensures windows[..k] == before[..k] && windows[k] == before[k]
    {}
  }

  // ---------- Which events are reported ----------

  /** The fetch showed at least one event. */
  predicate ShowsEvents(w: Window) {
    w.Some? && w.value.0 < w.value.1
  }

  /** Fetch `k` shows position `p` for the first time; of the first fetch that shows anything only the newest counts. */
  ghost predicate NewAt(windows: seq<Window>, k: nat, p: nat)
    requires k < |windows|
  {
    && ShowsEvents(windows[k]) && windows[k].value.0 <= p < windows[k].value.1
    && (forall j | 0 <= j < k && ShowsEvents(windows[j]) :: windows[j].value.1 <= p)
    && ((exists j | 0 <= j < k :: ShowsEvents(windows[j])) || p == windows[k].value.1 - 1)
  }

  /** `seen` is how far the fetches reach that showed anything, 0 if none did. */
  ghost predicate ReachesTo(windows: seq<Window>, seen: nat) {
    && (forall j | 0 <= j < |windows| && ShowsEvents(windows[j]) :: windows[j].value.1 <= seen)
    && (seen > 0 ==> exists j | 0 <= j < |windows| && ShowsEvents(windows[j]) :: windows[j].value.1 == seen)
  }

  lemma ReachesFurther(before: seq<Window>, w: Window, seen: nat)
    requires ReachesTo(before, seen) && (ShowsEvents(w) ==> seen <= w.value.1)
    ensures ReachesTo(before + [w], if ShowsEvents(w) then w.value.1 else seen)
  {
    var windows := before + [w];
    assert forall j | 0 <= j < |before| :: windows[j] == before[j];
    assert windows[|before|] == w;
    if !ShowsEvents(w) && seen > 0 {
      var j :| 0 <= j < |before| && ShowsEvents(before[j]) && before[j].value.1 == seen;
      assert windows[j] == before[j];
    }
  }

  lemma {:induction false} SeenReaches(windows: seq<Window>)
    requires Grows(windows)
    ensures ReachesTo(windows, Seen(windows))
  {
    if windows != [] {
      var n := |windows| - 1;
      GrewBefore(windows, n);
      LatestGrows(windows);
      SeenReaches(windows[..n]);
      LastWindow(windows);
      hide Seen, Grows, ReachesTo;
      ReachesFurther(windows[..n], windows[n], Seen(windows[..n]));
      assert windows[..n] + [windows[n]] == windows;
    }
  }

  lemma SeenMeans(windows: seq<Window>)
    requires Grows(windows)
    ensures forall j | 0 <= j < |windows| && ShowsEvents(windows[j]) :: windows[j].value.1 <= Seen(windows)
    ensures Seen(windows) == 0 <==> forall j | 0 <= j < |windows| :: !ShowsEvents(windows[j])
    ensures Seen(windows) > 0 ==>
      exists j | 0 <= j < |windows| && ShowsEvents(windows[j]) :: windows[j].value.1 == Seen(windows)
  {
    SeenReaches(windows);
    hide Seen, Grows;
  }

  /** A position is reported exactly if some fetch shows it for the first time. */
  lemma {:induction false} FeedMeans(windows: seq<Window>, p: nat)
    requires Grows(windows)
    ensures p in Positions(windows) <==> exists k | 0 <= k < |windows| :: NewAt(windows, k, p)
  {
    if windows != [] {
      var n := |windows| - 1;
      var before, w := windows[..n], windows[n];
      GrewBefore(windows, n);
      FeedMeans(before, p);
      SeenMeans(before);
      LastWindow(windows);
      NewBefore(windows, p);
      hide Positions, Seen, NewAt, Grows, Range, From;
      if ShowsEvents(w) {
        InRange(From(Seen(before), w.value.0, w.value.1), w.value.1, p);
        NewInTheLast(windows, p);
        assert p in Positions(windows) <==> p in Positions(before) || NewAt(windows, n, p);
      } else {
        NothingNew(windows, p);
        assert p in Positions(windows) <==> p in Positions(before) || NewAt(windows, n, p);
      }
      if k :| 0 <= k < n && NewAt(before, k, p) {
        assert NewAt(windows, k, p);
      }
      if k :| 0 <= k < |windows| && NewAt(windows, k, p) {
        assert k < n ==> NewAt(before, k, p);
      }
    }
  }

  lemma NothingNew(windows: seq<Window>, p: nat)
    requires windows != [] && !ShowsEvents(windows[|windows| - 1])
    ensures !NewAt(windows, |windows| - 1, p)
  {}

  lemma NewBefore(windows: seq<Window>, p: nat)
    requires windows != []
    ensures forall k | 0 <= k < |windows| - 1 :: NewAt(windows, k, p) <==> NewAt(windows[..|windows| - 1], k, p)
  {
    assert forall k | 0 <= k < |windows| - 1 :: windows[..|windows| - 1][k] == windows[k];
  }

  lemma NewInTheLast(windows: seq<Window>, p: nat)
    requires windows != [] && Grows(windows) && ShowsEvents(windows[|windows| - 1])
    ensures var before, w := windows[..|windows| - 1], windows[|windows| - 1];
      NewAt(windows, |windows| - 1, p) <==> From(Seen(before), w.value.0, w.value.1) <= p < w.value.1
  {
    var before, n := windows[..|windows| - 1], |windows| - 1;
    GrewBefore(windows, n);
    SeenMeans(before);
    hide Seen, Grows, ShowsEvents;
    assert forall j | 0 <= j < n :: before[j] == windows[j];
    if Seen(before) > 0 {
      var j :| 0 <= j < n && ShowsEvents(before[j]) && before[j].value.1 == Seen(before);
      assert ShowsEvents(windows[j]) && windows[j].value.1 == Seen(before);
      assert Seen(before) <= p <==> forall i | 0 <= i < n && ShowsEvents(windows[i]) :: windows[i].value.1 <= p;
    } else {
      assert forall i | 0 <= i < n :: !ShowsEvents(windows[i]);
    }
  }

  lemma InRange(lo: nat, hi: nat, p: nat)
    ensures p in Range(lo, hi) <==> lo <= p < hi
  {
    if lo <= p < hi {
      assert Range(lo, hi)[p - lo] == p;
    }
  }

  lemma WholeLogsReachBack(windows: seq<Window>)
    requires forall k | 0 <= k < |windows| && windows[k].Some? :: windows[k].value.0 == 0
    ensures ReachesBack(windows)
  {}

  /** What the method has told its callback after these polls. */
  ghost predicate FeedIs(reported: seq<Event>, log: seq<Event>, windows: seq<Window>) {
    && (forall i | 0 <= i < |Positions(windows)| :: Positions(windows)[i] < |log|)
    && reported == Pick(log, Positions(windows))
    && Seen(windows) <= |log|
  }

  /** The id the source keeps: of the last event seen, empty before the first. */
  ghost predicate RemembersLast(lastEventId: string, log: seq<Event>, windows: seq<Window>) {
    if Seen(windows) == 0 then lastEventId == ""
    else Seen(windows) <= |log| && lastEventId == log[Seen(windows) - 1].id
  }

  /** The events in front of the one with the given id, or all of them. */
  method TakeUntil(events: seq<Event>, lastEventId: string) returns (taken: seq<Event>)
    ensures |taken| <= |events| && taken == events[..|taken|]
    ensures forall k | 0 <= k < |taken| :: events[k].id != lastEventId
    ensures |taken| < |events| ==> events[|taken|].id == lastEventId
  {
    taken := [];
    for i := 0 to |events|
      invariant taken == events[..i]
      invariant forall k | 0 <= k < i :: events[k].id != lastEventId
    {
      if events[i].id == lastEventId {
        break;
      }
      taken := taken + [events[i]];
    }
  }

  /** One fetch: the events newer than the last one seen, oldest first. */
  method NewEvents(
    events: seq<Event>, lastEventId: string, ghost log: seq<Event>, ghost w: Window, ghost windows: seq<Window>)
    returns (newEvents: seq<Event>)
    requires IsLog(log) && w.Some? && Shows(Fetched(events), log, w)
    requires RemembersLast(lastEventId, log, windows) && Seen(windows) <= |log|
    requires w.value.0 < w.value.1 ==> Seen(windows) <= w.value.1
    ensures var (lo, hi) := w.value;
      newEvents == if lo < hi then log[From(Seen(windows), lo, hi)..hi] else []
  {
    hide Seen, Reverse;
    newEvents := [];
    if lastEventId != "" {
      newEvents := TakeUntil(events, lastEventId);
      TakenPart(events, lastEventId, |newEvents|, log, w.value.0, w.value.1, Seen(windows));
      newEvents := Reverse(newEvents);
    } else if |events| > 0 {
      newEvents := [events[0]];
    }
  }

  lemma ReplyFromLog(events: seq<Event>, log: seq<Event>, lo: nat, hi: nat)
    requires lo <= hi <= |log| && events == Reverse(log[lo..hi])
    ensures |events| == hi - lo && forall i | 0 <= i < |events| :: events[i] == log[hi - 1 - i]
  {
    hide Reverse;
  }

  /** What stands in front of the last event seen, reversed, is what came after it. */
  lemma TakenPart(events: seq<Event>, lastEventId: string, k: nat, log: seq<Event>, lo: nat, hi: nat, seen: nat)
    requires IsLog(log) && lo <= hi <= |log| && events == Reverse(log[lo..hi]) && (lo < hi ==> seen <= hi)
    requires 0 < seen <= |log| && lastEventId == log[seen - 1].id
    requires k <= |events| && (forall i | 0 <= i < k :: events[i].id != lastEventId)
    requires k < |events| ==> events[k].id == lastEventId
    ensures Reverse(events[..k]) == if lo < hi then log[From(seen, lo, hi)..hi] else []
  {
    hide Reverse;
    var n := hi - k;
    ReplyFromLog(events, log, lo, hi);
    hide IsLog;
    ReversedPart(log, n, hi, events[..k]);
    if k < |events| {
      OneIdOneEvent(log, hi - 1 - k, seen - 1);
    } else {
      LastIsNotShown(events, lastEventId, log, lo, hi, seen);
    }
  }

  lemma OneIdOneEvent(log: seq<Event>, i: nat, j: nat)
    requires IsLog(log) && i < |log| && j < |log| && log[i].id == log[j].id
    ensures i == j
  {}

  lemma LastIsNotShown(events: seq<Event>, lastEventId: string, log: seq<Event>, lo: nat, hi: nat, seen: nat)
    requires lo <= hi <= |log| && |events| == hi - lo && 0 < seen <= |log| && lastEventId == log[seen - 1].id
    requires forall i | 0 <= i < |events| :: events[i] == log[hi - 1 - i] && events[i].id != lastEventId
    ensures !(lo < seen <= hi)
  {
    var i := if lo < seen <= hi then hi - seen else 0;
    if i < |events| {
      assert events[i] == log[hi - 1 - i];
    }
  }

  lemma {:induction false} ReversedPart(log: seq<Event>, lo: nat, hi: nat, newest: seq<Event>)
    requires lo <= hi <= |log| && |newest| == hi - lo
    requires forall i | 0 <= i < |newest| :: newest[i] == log[hi - 1 - i]
    ensures Reverse(newest) == log[lo..hi]
    decreases hi
  {
    if lo < hi {
      ReversedPart(log, lo, hi - 1, newest[1..]);
      assert log[lo..hi] == log[lo..hi - 1] + [log[hi - 1]];
    }
  }

  /** The feed after one more poll. */
  lemma FeedGrows(reported: seq<Event>, log: seq<Event>, windows: seq<Window>, w: Window)
    requires FeedIs(reported, log, windows)
    requires w.Some? ==> w.value.0 <= w.value.1 <= |log|
    requires w.Some? && w.value.0 < w.value.1 ==> Seen(windows) <= w.value.1
    ensures if w.None? || w.value.0 == w.value.1 then FeedIs(reported, log, windows + [w])
            else FeedIs(reported + log[From(Seen(windows), w.value.0, w.value.1)..w.value.1], log, windows + [w])
    ensures Seen(windows + [w]) == if w.None? || w.value.0 == w.value.1 then Seen(windows) else w.value.1
  {
    var more := windows + [w];
    assert more[..|windows|] == windows;
    LastWindow(more);
    hide Positions, Seen, FirstSeen;
    if w.Some? && w.value.0 < w.value.1 {
      var from, hi := From(Seen(windows), w.value.0, w.value.1), w.value.1;
      PickMore(log, Positions(windows), from, hi);
    }
  }

  lemma PickMore(log: seq<Event>, positions: seq<nat>, from: nat, hi: nat)
    requires forall i | 0 <= i < |positions| :: positions[i] < |log|
    requires from <= hi <= |log|
    ensures forall i | 0 <= i < |positions + Range(from, hi)| :: (positions + Range(from, hi))[i] < |log|
    ensures Pick(log, positions + Range(from, hi)) == Pick(log, positions) + log[from..hi]
  {}

  lemma SeenSoFar(reported: seq<Event>, log: seq<Event>, windows: seq<Window>, k: nat)
    requires k < |windows| && Grows(windows) && FeedIs(reported, log, windows[..k])
    ensures Seen(windows[..k]) <= |log|
    ensures windows[k].Some? && windows[k].value.0 < windows[k].value.1 ==> Seen(windows[..k]) <= windows[k].value.1
  {}

  lemma NothingSeen(log: seq<Event>)
    ensures FeedIs([], log, []) && RemembersLast("", log, [])
  {}

  /** What a poll does for the callback; a failed fetch is ignored. */
  method ReportEvents(
    reply: EventsReply, reported: seq<Event>, lastEventId: string,
    ghost log: seq<Event>, ghost windows: seq<Window>, ghost k: nat)
    returns (reported': seq<Event>, lastEventId': string)
    requires IsLog(log) && Grows(windows) && k < |windows| && Shows(reply, log, windows[k])
    requires FeedIs(reported, log, windows[..k]) && RemembersLast(lastEventId, log, windows[..k])
    ensures FeedIs(reported', log, windows[..k + 1]) && RemembersLast(lastEventId', log, windows[..k + 1])
  {
    hide FeedIs, Seen, Grows, IsLog;
    ghost var before, w := windows[..k], windows[k];
    assert windows[..k + 1] == before + [w];
    SeenSoFar(reported, log, windows, k);
    FeedGrows(reported, log, before, w);
    reported', lastEventId' := reported, lastEventId;
    match reply {
      case FetchFailed =>
      case Fetched(events) =>
        var newEvents := NewEvents(events, lastEventId, log, w, before);
        assert reported + [] == reported;
        reported' := reported + newEvents;
        if |events| > 0 {
          lastEventId' := events[0].id;
        }
    }
  }

  lemma PollsMean(polls: nat -> Poll, desired: seq<string>)
    ensures forall k: nat :: Verdict(polls(k).stack, desired).None? <==> LeavesOpen(polls(k).stack, desired)
    ensures forall k: nat | Verdict(polls(k).stack, desired).Some? ::
      EndsWith(polls(k).stack, desired, Verdict(polls(k).stack, desired).value)
  {
    forall k: nat
      ensures Verdict(polls(k).stack, desired).None? <==> LeavesOpen(polls(k).stack, desired)
      ensures Verdict(polls(k).stack, desired).Some? ==>
        EndsWith(polls(k).stack, desired, Verdict(polls(k).stack, desired).value)
    {
      VerdictMeans(polls(k).stack, desired);
    }
  }

  lemma OutOfTime(polls: nat -> Poll, desired: seq<string>)
    ensures forall k: nat | LeavesOpen(polls(k).stack, desired) :: EndsWith(polls(k).stack, desired, TimedOut)
  {}

  /**
   Polls until a poll gives a verdict, at most 360 times. What is reported is the feed of the
   fetches made, whatever they show of the log and whichever of them fail; the log and the
   windows are what the service did, not something the method sees.
   */
  method WaitForStack(
    polls: nat -> Poll, desiredStates: seq<string>, onProgress: bool, ghost log: seq<Event>, ghost windows: seq<Window>)
    returns (r: Outcome, attempts: nat, reported: seq<Event>)
    requires |windows| == MAX_ATTEMPTS && IsLog(log) && Grows(windows)
    requires forall k | 0 <= k < MAX_ATTEMPTS :: Shows(polls(k).events, log, windows[k])
    ensures 1 <= attempts <= MAX_ATTEMPTS
    ensures forall k | 0 <= k < attempts - 1 :: Verdict(polls(k).stack, desiredStates).None?
    ensures match Verdict(polls(attempts - 1).stack, desiredStates)
            case Some(outcome) => r == outcome
            case None => r == TimedOut && attempts == MAX_ATTEMPTS
    ensures !onProgress ==> reported == []
    // the same in terms of the polls alone
    ensures attempts <= 360 && (r.TimedOut? ==> attempts == 360)
    ensures forall k | 0 <= k < attempts - 1 :: LeavesOpen(polls(k).stack, desiredStates)
    ensures EndsWith(polls(attempts - 1).stack, desiredStates, r)
    ensures onProgress ==> FeedIs(reported, log, windows[..if r.Threw? then attempts - 1 else attempts])
  {
    PollsMean(polls, desiredStates);
    hide FeedIs, RemembersLast, Grows, IsLog, Includes, Shows, LeavesOpen, EndsWith;
    OutOfTime(polls, desiredStates);
    attempts := 0;
    reported := [];
    var lastEventId := "";
    NothingSeen(log);
    assert windows[..0] == [];
    while attempts < MAX_ATTEMPTS
      invariant attempts <= MAX_ATTEMPTS
      invariant forall k | 0 <= k < attempts :: Verdict(polls(k).stack, desiredStates).None?
      invariant
        if onProgress
        then FeedIs(reported, log, windows[..attempts]) && RemembersLast(lastEventId, log, windows[..attempts])
        else reported == []
    {
      var poll := polls(attempts);
      attempts := attempts + 1;
      if poll.stack.DescribeFailed? {
        return Threw, attempts, reported;
      }
      if onProgress {
        reported, lastEventId := ReportEvents(poll.events, reported, lastEventId, log, windows, attempts - 1);
      }
      var status := poll.stack.status;
      if status != "" && status in desiredStates {
        return Reached(status), attempts, reported;
      }
      if Includes(status, "FAILED") || Includes(status, "ROLLBACK") {
        return FailedState(status), attempts, reported;
      }
    }
    r := TimedOut;
  }
}
