/** Requests with automatic retries: packages/core/src/aws/signature.ts. */
module Retries {

  datatype Thrown = Thrown(isError: bool, name: string, message: string)

  datatype Body = Text(text: string) | Unreadable(error: Thrown)

  /** How one attempt ends; a timeout is a rejection with an `AbortError`, signing can throw before anything is sent. */
  datatype Reply =
    | Response(ok: bool, status: string, body: Body)
    | Rejected(error: Thrown)
    | NotSigned(message: string)

  datatype Options = Options(
    maxRetries: int, initialDelayMs: real, maxDelayMs: real, retryableStatusCodes: seq<string>, timeoutMs: string)

  datatype Outcome = Returned(response: Reply) | Threw(message: string)

  const MARKER := "AWS API request failed"

  function TimedOut(o: Options): string {
    "Request timed out after " + o.timeoutMs + "ms"
  }

  predicate HasMarker(message: string) {
    exists i | 0 <= i <= |message| :: MARKER <= message[i..]
  }

  /** The test in the catch clause: such an error ends the search. */
  predicate IsFailure(error: Thrown) {
    error.isError && HasMarker(error.message)
  }

  function FailureOf(status: string, text: string): Thrown {
    Thrown(true, "Error", MARKER + " (" + status + "): " + text)
  }

  /** The error an attempt ends in when its response is read to the end. */
  function ErrorOf(reply: Reply): Thrown
    requires !reply.NotSigned? && (reply.Response? ==> !reply.ok)
  {
    match reply
    case Rejected(error) => error
    case Response(_, _, Unreadable(error)) => error
    case Response(_, status, Text(text)) => FailureOf(status, text)
  }

  predicate Succeeds(reply: Reply) {
    reply.Response? && reply.ok
  }

  /** Another attempt follows, if one is left. */
  predicate Transient(reply: Reply, codes: seq<string>) {
    && !Succeeds(reply)
    && ((reply.Response? && reply.status in codes)
        || (reply.Response? && reply.body.Unreadable? && !IsFailure(reply.body.error))
        || (reply.Rejected? && !IsFailure(reply.error)))
  }

  /** What the caller gets if this attempt is the last one. */
  function Verdict(reply: Reply, o: Options): Outcome {
    if Succeeds(reply) then Returned(reply)
    else if reply.NotSigned? then Threw(reply.message)
    else if ErrorOf(reply).isError && ErrorOf(reply).name == "AbortError" then Threw(TimedOut(o))
    else Threw(ErrorOf(reply).message)
  }

  // ---------- Backoff ----------

  function PowerOfTwo(n: nat): real {
    if n == 0 then 1.0 else 2.0 * PowerOfTwo(n - 1)
  }

  function ExponentialDelay(attempt: nat, o: Options): real {
    o.initialDelayMs * PowerOfTwo(attempt)
  }

  function Backoff(attempt: nat, o: Options, random: real): real {
    var delay := Jittered(ExponentialDelay(attempt, o), random);
    if delay < o.maxDelayMs then delay else o.maxDelayMs
  }

  function Jittered(exponentialDelay: real, random: real): real {
    exponentialDelay + random * 0.3 * exponentialDelay
  }

  function Delays(n: nat, o: Options, random: nat -> real): seq<real> {
    seq(n, i requires 0 <= i < n => Backoff(i, o, random(i)))
  }

  // ---------- Where the search ends ----------

  /** All attempts before this one are transient, and this one is not or is the last one allowed. */
  ghost predicate EndsAt(replies: nat -> Reply, o: Options, last: nat) {
    && last <= o.maxRetries
    && (forall i | 0 <= i < last :: Transient(replies(i), o.retryableStatusCodes))
    && (Transient(replies(last), o.retryableStatusCodes) ==> last == o.maxRetries)
  }

  ghost predicate SucceedsFirstAt(replies: nat -> Reply, o: Options, n: nat) {
    && Succeeds(replies(n))
    && forall i | 0 <= i < n :: Transient(replies(i), o.retryableStatusCodes)
  }

  /** There is one place for the search to end. */
  lemma EndsOnce(replies: nat -> Reply, o: Options, a: nat, b: nat)
    requires EndsAt(replies, o, a) && EndsAt(replies, o, b)
    ensures a == b
  {
    assert a < b ==> Transient(replies(a), o.retryableStatusCodes);
    assert b < a ==> Transient(replies(b), o.retryableStatusCodes);
  }

  /** The caller gets a response exactly when one succeeds in time, all attempts before it being transient. */
  lemma ReturnsTheFirstSuccess(replies: nat -> Reply, o: Options, last: nat)
    requires EndsAt(replies, o, last)
    ensures Verdict(replies(last), o).Returned? <==> exists n | 0 <= n <= o.maxRetries :: SucceedsFirstAt(replies, o, n)
  {
    if Succeeds(replies(last)) {
      assert SucceedsFirstAt(replies, o, last);
    }
    forall n | 0 <= n <= o.maxRetries && SucceedsFirstAt(replies, o, n)
      ensures n == last
    {
      EndsOnce(replies, o, n, last);
    }
  }

  function Total(delays: seq<real>): real {
    if delays == [] then 0.0 else Total(delays[..|delays| - 1]) + delays[|delays| - 1]
  }

  lemma ProductIsNotNegative(x: real, y: real)
    requires x >= 0.0 && y >= 0.0
    ensures x * y >= 0.0
  {}

  lemma ProductRange(factor: real, x: real, most: real)
    requires 0.0 <= factor <= most && x >= 0.0
    ensures 0.0 <= factor * x <= most * x
  {
    ProductIsNotNegative(factor, x);
    ProductIsNotNegative(most - factor, x);
    assert (most - factor) * x == most * x - factor * x;
  }

  lemma JitterRange(e: real, random: real)
    requires 0.0 <= random < 1.0 && e >= 0.0
    ensures e <= Jittered(e, random) <= 1.3 * e
  {
    var factor := random * 0.3;
    ProductRange(factor, e, 0.3);
    assert Jittered(e, random) == e + factor * e;
  }

  lemma ExponentialIsNotNegative(attempt: nat, o: Options)
    requires o.initialDelayMs >= 0.0
    ensures ExponentialDelay(attempt, o) >= 0.0
  {
    hide PowerOfTwo;
    PowerIsPositive(attempt);
    ProductIsNotNegative(o.initialDelayMs, PowerOfTwo(attempt));
  }

  /** Between the exponential delay and 1.3 times that, unless the maximum cuts it off. */
  lemma DelayRange(attempt: nat, o: Options, random: real)
    requires 0.0 <= random < 1.0 && o.initialDelayMs >= 0.0
    ensures var e, delay := ExponentialDelay(attempt, o), Backoff(attempt, o, random);
      && e >= 0.0 && delay <= o.maxDelayMs && delay <= 1.3 * e
      && (delay >= e || delay == o.maxDelayMs)
  {
    hide ExponentialDelay, Jittered;
    ExponentialIsNotNegative(attempt, o);
    JitterRange(ExponentialDelay(attempt, o), random);
  }

  lemma {:induction false} PowerIsPositive(n: nat)
    ensures PowerOfTwo(n) >= 1.0
  {
    if n > 0 {
      PowerIsPositive(n - 1);
    }
  }

  /** The exponential delays before `n` retries add up to one less than the next doubling. */
  function Doublings(n: nat, o: Options): real {
    o.initialDelayMs * (PowerOfTwo(n) - 1.0)
  }

  lemma OneMoreDoubling(n: nat, o: Options)
    ensures Doublings(0, o) == 0.0
    ensures Doublings(n + 1, o) == Doublings(n, o) + ExponentialDelay(n, o)
  {
    var first, p := o.initialDelayMs, PowerOfTwo(n);
    assert first * (2.0 * p - 1.0) == first * (p - 1.0) + first * p;
  }

  lemma OneMoreMaximum(n: nat, most: real)
    ensures 0 as real * most == 0.0
    ensures (n + 1) as real * most == n as real * most + most
  {
    assert (n + 1) as real == n as real + 1.0;
  }

  /** The time waited before `n` attempts have failed is bounded in two ways. */
  lemma {:induction false} WaitIsBounded(n: nat, o: Options, random: nat -> real)
    requires forall i | 0 <= i < n :: 0.0 <= random(i) < 1.0
    requires o.initialDelayMs >= 0.0
    ensures Total(Delays(n, o, random)) <= n as real * o.maxDelayMs
    ensures Total(Delays(n, o, random)) <= 1.3 * Doublings(n, o)
  {
    hide Backoff, Doublings, ExponentialDelay;
    if n == 0 {
      OneMoreDoubling(0, o);
      OneMoreMaximum(0, o.maxDelayMs);
    } else {
      WaitIsBounded(n - 1, o, random);
      assert Delays(n, o, random)[..n - 1] == Delays(n - 1, o, random);
      DelayRange(n - 1, o, random(n - 1));
      OneMoreMaximum(n - 1, o.maxDelayMs);
      OneMoreDoubling(n - 1, o);
    }
  }

  /** The delay in one formula: doubled with every attempt, up to 30 percent more, cut off at the maximum. */
  lemma DelayFormula(attempt: nat, o: Options, random: real)
    ensures var d := o.initialDelayMs * PowerOfTwo(attempt) * (1.0 + 0.3 * random);
      Backoff(attempt, o, random) == if d < o.maxDelayMs then d else o.maxDelayMs
    ensures PowerOfTwo(0) == 1.0 && PowerOfTwo(attempt + 1) == 2.0 * PowerOfTwo(attempt)
  {
    var e := ExponentialDelay(attempt, o);
    JitterFormula(e, random);
  }

  lemma JitterFormula(e: real, random: real)
    ensures Jittered(e, random) == e * (1.0 + 0.3 * random)
  {
    var factor := random * 0.3;
    assert e * (1.0 + factor) == e + e * factor;
    assert e * factor == factor * e;
  }

  // ---------- What an attempt can end in ----------

  /** The error does not say that it is a failed response. */
  ghost predicate IsOfTheNetwork(error: Thrown) {
    !(error.isError && exists i | 0 <= i <= |error.message| :: "AWS API request failed" <= error.message[i..])
  }

  /** Another attempt may follow: a listed status, or an error that is not about a failed response. */
  ghost predicate MayBeRepeated(reply: Reply, codes: seq<string>) {
    match reply
    case NotSigned(_) => false
    case Rejected(error) => IsOfTheNetwork(error)
    case Response(ok, status, Text(_)) => !ok && status in codes
    case Response(ok, status, Unreadable(error)) => !ok && (status in codes || IsOfTheNetwork(error))
  }

  lemma RepeatedMeans(reply: Reply, codes: seq<string>)
    ensures MayBeRepeated(reply, codes) <==> Transient(reply, codes)
  {}

  /** The message of an error as it is thrown: a timeout is told as such. */
  function MessageOf(error: Thrown, o: Options): string {
    if error.isError && error.name == "AbortError" then "Request timed out after " + o.timeoutMs + "ms"
    else error.message
  }

  /** What the last attempt made of it. */
  ghost predicate ComesOf(r: Outcome, reply: Reply, o: Options) {
    match reply
    case NotSigned(message) => r == Threw(message)
    case Rejected(error) => r == Threw(MessageOf(error, o))
    case Response(true, _, _) => r == Returned(reply)
    case Response(false, status, Text(text)) => r == Threw("AWS API request failed (" + status + "): " + text)
    case Response(false, _, Unreadable(error)) => r == Threw(MessageOf(error, o))
  }

  lemma VerdictMeans(reply: Reply, o: Options)
    ensures ComesOf(Verdict(reply, o), reply, o)
  {
    if reply.Response? && !reply.ok && reply.body.Text? {
      var status, text := reply.status, reply.body.text;
      assert FailureOf(status, text).message == "AWS API request failed (" + status + "): " + text;
      assert FailureOf(status, text).name != "AbortError" by {
        assert "Error"[0] != "AbortError"[0];
      }
    }
  }

  // ---------- The loop ----------

  /** `replies` and `random` say how every attempt ends and which random number it draws. */
  method MakeAWSRequest(replies: nat -> Reply, random: nat -> real, o: Options)
    returns (r: Outcome, attempts: nat, delays: seq<real>)
    ensures o.maxRetries < 0 ==> attempts == 0 && r.Threw?
    ensures o.maxRetries >= 0 ==>
      attempts > 0 && EndsAt(replies, o, attempts - 1) && r == Verdict(replies(attempts - 1), o)
    ensures r.Returned? <==> exists n | 0 <= n <= o.maxRetries :: SucceedsFirstAt(replies, o, n)
    ensures delays == Delays(if attempts == 0 then 0 else attempts - 1, o, random)
    // the same in terms of the replies alone
    ensures attempts > 0 ==>
      && (forall i | 0 <= i < attempts - 1 :: MayBeRepeated(replies(i), o.retryableStatusCodes))
      && (attempts == o.maxRetries + 1 || !MayBeRepeated(replies(attempts - 1), o.retryableStatusCodes))
      && attempts <= o.maxRetries + 1 && ComesOf(r, replies(attempts - 1), o)
    ensures attempts == 0 ==> r == Threw("Request failed after retries") && delays == []
    ensures attempts > 0 ==> |delays| == attempts - 1
    ensures forall i: nat | i < |delays| ::
      var d := o.initialDelayMs * PowerOfTwo(i) * (1.0 + 0.3 * random(i));
      delays[i] == if d < o.maxDelayMs then d else o.maxDelayMs
  {
    RepliesMean(replies, o);
    DelaysMean(o, random);
    hide PowerOfTwo, MayBeRepeated, ComesOf;
    attempts, delays := 0, [];
    while attempts <= o.maxRetries
      invariant forall i | 0 <= i < attempts :: Transient(replies(i), o.retryableStatusCodes)
      invariant if o.maxRetries >= 0 then attempts <= o.maxRetries else attempts == 0
      invariant delays == Delays(attempts, o, random)
      decreases o.maxRetries - attempts
    {
      hide HasMarker, Backoff, TimedOut;
      var reply, attempt := replies(attempts), attempts;
      attempts := attempts + 1;
      if reply.NotSigned? {
        ReturnsTheFirstSuccess(replies, o, attempt);
        return Threw(reply.message), attempts, delays;
      }
      if reply.Response? && reply.ok {
        ReturnsTheFirstSuccess(replies, o, attempt);
        return Returned(reply), attempts, delays;
      }
      if attempt < o.maxRetries && reply.Response? && reply.status in o.retryableStatusCodes {
        delays := delays + [Backoff(attempt, o, random(attempt))];
        continue;
      }
      var error := match reply
        case Response(_, status, Text(text)) => FailureOf(status, text)
        case Response(_, _, Unreadable(e)) => e
        case Rejected(e) => e;
      FailuresAreMarked(reply);
      if attempt < o.maxRetries && !(error.isError && HasMarker(error.message)) {
        delays := delays + [Backoff(attempt, o, random(attempt))];
        continue;
      }
      var lastError := if error.isError && error.name == "AbortError" then TimedOut(o) else error.message;
      ReturnsTheFirstSuccess(replies, o, attempt);
      return Threw(lastError), attempts, delays;
    }
    r := Threw("Request failed after retries");
  }

  lemma RepliesMean(replies: nat -> Reply, o: Options)
    ensures forall i: nat ::
      MayBeRepeated(replies(i), o.retryableStatusCodes) <==> Transient(replies(i), o.retryableStatusCodes)
    ensures forall i: nat :: ComesOf(Verdict(replies(i), o), replies(i), o)
  {
    forall i: nat
      ensures MayBeRepeated(replies(i), o.retryableStatusCodes) <==> Transient(replies(i), o.retryableStatusCodes)
      ensures ComesOf(Verdict(replies(i), o), replies(i), o)
    {
      RepeatedMeans(replies(i), o.retryableStatusCodes);
      VerdictMeans(replies(i), o);
    }
  }

  lemma DelaysMean(o: Options, random: nat -> real)
    ensures forall i: nat ::
      var d := o.initialDelayMs * PowerOfTwo(i) * (1.0 + 0.3 * random(i));
      Backoff(i, o, random(i)) == if d < o.maxDelayMs then d else o.maxDelayMs
  {
    hide PowerOfTwo, Backoff;
    forall i: nat
      ensures var d := o.initialDelayMs * PowerOfTwo(i) * (1.0 + 0.3 * random(i));
        Backoff(i, o, random(i)) == if d < o.maxDelayMs then d else o.maxDelayMs
    {
      DelayFormula(i, o, random(i));
    }
  }

  /** A failed response that could be read is told apart from failures of the network by its message. */
  lemma FailuresAreMarked(reply: Reply)
    ensures reply.Response? && reply.body.Text? ==> HasMarker(FailureOf(reply.status, reply.body.text).message)
  {
    if reply.Response? && reply.body.Text? {
      var message := FailureOf(reply.status, reply.body.text).message;
      assert message[0..] == message;
    }
  }
}
