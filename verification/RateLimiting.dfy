/** The token bucket of the network utilities, over exact reals instead of `f64`. */
module RateLimiting {

  datatype Bucket = Bucket(tokens: real, lastRefill: real)

  datatype Request = Request(time: real, tokens: real)

  function Min(a: real, b: real): real { if a <= b then a else b }

  /** `Instant::duration_since` is zero, not negative, for an earlier instant. */
  function Elapsed(now: real, since: real): real { if now <= since then 0.0 else now - since }

  /** The tokens that flow back over a time. It is a named product, so that proofs can hide the multiplication. */
  function Inflow(rate: real, time: real): real { time * rate }

  lemma InflowIsProduct(rate: real, time: real)
    ensures Inflow(rate, time) == rate * time
  {
  }

  lemma InflowLaws(rate: real, s: real, t: real)
    requires rate >= 0.0 && s >= 0.0 && t >= 0.0
    ensures Inflow(rate, s + t) == Inflow(rate, s) + Inflow(rate, t)
    ensures Inflow(rate, s) >= 0.0 && Inflow(rate, t) >= 0.0
  {
  }

  function Refilled(capacity: real, rate: real, b: Bucket, now: real): Bucket {
    Bucket(Min(b.tokens + Inflow(rate, Elapsed(now, b.lastRefill)), capacity), now)
  }

  predicate Grants(capacity: real, rate: real, b: Bucket, r: Request) {
    Refilled(capacity, rate, b, r.time).tokens >= r.tokens
  }

  function After(capacity: real, rate: real, b: Bucket, r: Request): Bucket {
    var refilled := Refilled(capacity, rate, b, r.time);
    if Grants(capacity, rate, b, r) then refilled.(tokens := refilled.tokens - r.tokens) else refilled
  }

  class RateLimiter {
    var tokens: real
    const capacity: real
    const refillRate: real
    var lastRefill: real

    function State(): Bucket
      reads this
    {
      Bucket(tokens, lastRefill)
    }

    constructor (capacity: real, refillRate: real, now: real)
      ensures this.capacity == capacity && this.refillRate == refillRate && State() == Bucket(capacity, now)
    {
      this.tokens, this.capacity, this.refillRate, this.lastRefill := capacity, capacity, refillRate, now;
    }

    method TryAcquire(request: real, now: real) returns (granted: bool)
      modifies this
      ensures granted <==> Grants(capacity, refillRate, old(State()), Request(now, request))
      ensures State() == After(capacity, refillRate, old(State()), Request(now, request))
      ensures var full := old(tokens) + Inflow(refillRate, Elapsed(now, old(lastRefill)));
              && lastRefill == now
              && tokens == (if full <= capacity then full else capacity) - (if granted then request else 0.0)
    {
      Refill(now);
      if tokens >= request {
        tokens := tokens - request;
        granted := true;
      } else {
        granted := false;
      }
    }

    method Refill(now: real)
      modifies this
      ensures State() == Refilled(capacity, refillRate, old(State()), now)
    {
      var elapsed := Elapsed(now, lastRefill);
      var newTokens := elapsed * refillRate;
      tokens := Min(tokens + newTokens, capacity);
      lastRefill := now;
    }
  }

  // ---------------------------------------------------------------- runs

  predicate InRange(capacity: real, b: Bucket) { 0.0 <= b.tokens <= capacity }

  ghost predicate Ordered(requests: seq<Request>, from: real) {
    && (forall i :: 0 <= i < |requests| ==> from <= requests[i].time)
    && (forall i, j :: 0 <= i <= j < |requests| ==> requests[i].time <= requests[j].time)
  }

  ghost predicate NonNegative(requests: seq<Request>) {
    forall i :: 0 <= i < |requests| ==> requests[i].tokens >= 0.0
  }

  function Run(capacity: real, rate: real, b: Bucket, requests: seq<Request>): Bucket
    decreases |requests|
  {
    if requests == [] then b else Run(capacity, rate, After(capacity, rate, b, requests[0]), requests[1..])
  }

  /** The tokens handed out over a run. */
  function Granted(capacity: real, rate: real, b: Bucket, requests: seq<Request>): real
    decreases |requests|
  {
    if requests == [] then 0.0
    else
      (if Grants(capacity, rate, b, requests[0]) then requests[0].tokens else 0.0)
      + Granted(capacity, rate, After(capacity, rate, b, requests[0]), requests[1..])
  }

  /**
   * One call keeps the tokens between zero and the capacity exactly when the request is not so negative that
   * granting it would overfill the bucket. No non-negative request is.
   */
  lemma StepInRange(capacity: real, rate: real, b: Bucket, r: Request)
    requires capacity >= 0.0 && rate >= 0.0 && InRange(capacity, b)
    ensures InRange(capacity, After(capacity, rate, b, r))
            <==> r.tokens >= Refilled(capacity, rate, b, r.time).tokens - capacity
    ensures r.tokens >= 0.0 ==> InRange(capacity, After(capacity, rate, b, r))
  {
    InflowLaws(rate, Elapsed(r.time, b.lastRefill), 0.0);
  }

  /** The exception is real: on a full bucket a request for minus one token is granted and overfills it. */
  lemma NegativeRequestOverfills()
    ensures var b := Bucket(10.0, 0.0); var r := Request(0.0, -1.0);
            InRange(10.0, b) && Grants(10.0, 5.0, b, r) && After(10.0, 5.0, b, r).tokens == 11.0
  {
  }

  lemma {:induction false} BalanceInflow(capacity: real, rate: real, b: Bucket, requests: seq<Request>, end: real)
    requires capacity >= 0.0 && rate >= 0.0 && InRange(capacity, b)
    requires NonNegative(requests) && Ordered(requests, b.lastRefill)
    requires b.lastRefill <= end && forall i :: 0 <= i < |requests| ==> requests[i].time <= end
    ensures InRange(capacity, Run(capacity, rate, b, requests))
    ensures Granted(capacity, rate, b, requests) + Run(capacity, rate, b, requests).tokens
            <= b.tokens + Inflow(rate, end - b.lastRefill)
    decreases |requests|
  {
    hide Inflow;
    if requests == [] {
      InflowLaws(rate, end - b.lastRefill, 0.0);
    } else {
      var r, next := requests[0], After(capacity, rate, b, requests[0]);
      StepInRange(capacity, rate, b, r);
      BalanceInflow(capacity, rate, next, requests[1..], end);
      InflowLaws(rate, r.time - b.lastRefill, end - r.time);
    }
  }

  /** What is handed out over a run, plus what is left, never exceeds what was there plus the refill for the time. */
  lemma Balance(capacity: real, rate: real, b: Bucket, requests: seq<Request>, end: real)
    requires capacity >= 0.0 && rate >= 0.0 && InRange(capacity, b)
    requires NonNegative(requests) && Ordered(requests, b.lastRefill)
    requires b.lastRefill <= end && forall i :: 0 <= i < |requests| ==> requests[i].time <= end
    ensures InRange(capacity, Run(capacity, rate, b, requests))
    ensures Granted(capacity, rate, b, requests) + Run(capacity, rate, b, requests).tokens
            <= b.tokens + rate * (end - b.lastRefill)
  {
    BalanceInflow(capacity, rate, b, requests, end);
    InflowIsProduct(rate, end - b.lastRefill);
    hide Inflow, Granted, Run;
  }

  lemma {:induction false} RunAppend(capacity: real, rate: real, b: Bucket, before: seq<Request>, rest: seq<Request>)
    decreases |before|
    ensures Run(capacity, rate, b, before + rest) == Run(capacity, rate, Run(capacity, rate, b, before), rest)
  {
    if before == [] {
      assert before + rest == rest;
    } else {
      assert (before + rest)[1..] == before[1..] + rest;
      RunAppend(capacity, rate, After(capacity, rate, b, before[0]), before[1..], rest);
    }
  }

  lemma WindowInflow(capacity: real, rate: real, start: real, requests: seq<Request>, i: nat, j: nat)
    requires capacity >= 0.0 && rate >= 0.0
    requires NonNegative(requests) && Ordered(requests, start)
    requires i <= j < |requests|
    ensures var b := Run(capacity, rate, Bucket(capacity, start), requests[..i]);
            Granted(capacity, rate, b, requests[i..j + 1])
            <= capacity + Inflow(rate, requests[j].time - requests[i].time)
  {
    hide Inflow, After, Grants;
    var b := Run(capacity, rate, Bucket(capacity, start), requests[..i]);
    BalanceInflow(capacity, rate, Bucket(capacity, start), requests[..i], requests[i].time);
    assert requests[i..j + 1] == [requests[i]] + requests[i + 1..j + 1];
    FirstGrant(capacity, rate, b, requests[i]);
    BalanceInflow(capacity, rate, After(capacity, rate, b, requests[i]), requests[i + 1..j + 1], requests[j].time);
  }

  /**
   * The rate limit: in every run from a full bucket, the calls number `i` to `j`, which fall into the time window
   * from the first of them to the last, are together granted at most the capacity plus the refill for the window.
   */
  lemma WindowLimit(capacity: real, rate: real, start: real, requests: seq<Request>, i: nat, j: nat)
    requires capacity >= 0.0 && rate >= 0.0
    requires NonNegative(requests) && Ordered(requests, start)
    requires i <= j < |requests|
    ensures var b := Run(capacity, rate, Bucket(capacity, start), requests[..i]);
            Granted(capacity, rate, b, requests[i..j + 1])
            <= capacity + rate * (requests[j].time - requests[i].time)
  {
    WindowInflow(capacity, rate, start, requests, i, j);
    InflowIsProduct(rate, requests[j].time - requests[i].time);
    hide Inflow, Granted, Run;
  }

  /** However long the bucket rested, one call starts from at most the capacity. */
  lemma FirstGrant(capacity: real, rate: real, b: Bucket, r: Request)
    requires capacity >= 0.0 && rate >= 0.0 && InRange(capacity, b) && r.tokens >= 0.0
    ensures var next := After(capacity, rate, b, r);
            InRange(capacity, next) && next.lastRefill == r.time
            && (if Grants(capacity, rate, b, r) then r.tokens else 0.0) + next.tokens <= capacity
  {
    StepInRange(capacity, rate, b, r);
  }

  /** A call with an earlier time refills nothing. */
  lemma NoRefillFromThePast(capacity: real, rate: real, b: Bucket, now: real)
    requires InRange(capacity, b) && now <= b.lastRefill
    ensures Refilled(capacity, rate, b, now).tokens == b.tokens
  {
  }

  /** The limiter is not too strict either: a request within the capacity is granted after waiting for its refill. */
  lemma GrantedAfterWaiting(capacity: real, rate: real, b: Bucket, r: Request)
    requires InRange(capacity, b) && r.tokens <= capacity
    requires r.time >= b.lastRefill && rate * (r.time - b.lastRefill) >= r.tokens - b.tokens
    ensures Grants(capacity, rate, b, r)
  {
  }

  // ---------------------------------------------------------------- what is never lost

  /** The tokens that one refill loses at the capacity. */
  function Overflow(capacity: real, rate: real, b: Bucket, now: real): real {
    var full := b.tokens + Inflow(rate, Elapsed(now, b.lastRefill));
    if full > capacity then full - capacity else 0.0
  }

  /** The tokens that all refills of a run lose. */
  function Lost(capacity: real, rate: real, b: Bucket, requests: seq<Request>): real
    decreases |requests|
  {
    if requests == [] then 0.0
    else
      Overflow(capacity, rate, b, requests[0].time)
      + Lost(capacity, rate, After(capacity, rate, b, requests[0]), requests[1..])
  }

  /** The refills that lose nothing. */
  ghost predicate NeverFull(capacity: real, rate: real, b: Bucket, requests: seq<Request>)
    decreases |requests|
  {
    requests == [] ||
    (&& b.tokens + Inflow(rate, Elapsed(requests[0].time, b.lastRefill)) <= capacity
     && NeverFull(capacity, rate, After(capacity, rate, b, requests[0]), requests[1..]))
  }

  lemma {:induction false} ConservedInflow(capacity: real, rate: real, b: Bucket, requests: seq<Request>)
    requires Ordered(requests, b.lastRefill) && rate >= 0.0
    ensures var end := Run(capacity, rate, b, requests);
            && end.lastRefill == (if requests == [] then b.lastRefill else requests[|requests| - 1].time)
            && Granted(capacity, rate, b, requests) + end.tokens + Lost(capacity, rate, b, requests)
               == b.tokens + Inflow(rate, end.lastRefill - b.lastRefill)
    ensures Lost(capacity, rate, b, requests) >= 0.0
    ensures Lost(capacity, rate, b, requests) == 0.0 <==> NeverFull(capacity, rate, b, requests)
    decreases |requests|
  {
    if requests == [] {
      InflowLaws(rate, 0.0, 0.0);
    } else {
      var r, next := requests[0], After(capacity, rate, b, requests[0]);
      var rest := requests[1..];
      ConservedInflow(capacity, rate, next, rest);
      hide Inflow, Run, Granted, Lost;
      var end := Run(capacity, rate, next, rest);
      assert rest != [] ==> rest[|rest| - 1] == requests[|requests| - 1];
      InflowLaws(rate, r.time - b.lastRefill, end.lastRefill - r.time);
      ConservationStep(capacity, rate, b, requests);
    }
  }

  /**
   * Tokens are conserved: what a run hands out, what is left and what the capacity cut off are together exactly what
   * was there plus the refill up to the last request. Nothing is cut off exactly if no refill meets the capacity.
   */
  lemma Conservation(capacity: real, rate: real, b: Bucket, requests: seq<Request>)
    requires Ordered(requests, b.lastRefill) && rate >= 0.0
    ensures var end := Run(capacity, rate, b, requests);
            && end.lastRefill == (if requests == [] then b.lastRefill else requests[|requests| - 1].time)
            && Granted(capacity, rate, b, requests) + end.tokens + Lost(capacity, rate, b, requests)
               == b.tokens + rate * (end.lastRefill - b.lastRefill)
    ensures Lost(capacity, rate, b, requests) >= 0.0
    ensures Lost(capacity, rate, b, requests) == 0.0 <==> NeverFull(capacity, rate, b, requests)
  {
    ConservedInflow(capacity, rate, b, requests);
    InflowIsProduct(rate, Run(capacity, rate, b, requests).lastRefill - b.lastRefill);
    hide Inflow, Granted, Run, Lost, NeverFull;
  }

  lemma ConservationStep(capacity: real, rate: real, b: Bucket, requests: seq<Request>)
    requires requests != [] && requests[0].time >= b.lastRefill
    ensures var r, next := requests[0], After(capacity, rate, b, requests[0]);
            && Run(capacity, rate, b, requests) == Run(capacity, rate, next, requests[1..])
            && Granted(capacity, rate, b, requests) + next.tokens
               + Overflow(capacity, rate, b, r.time)
               == Granted(capacity, rate, next, requests[1..]) + b.tokens + Inflow(rate, r.time - b.lastRefill)
            && Lost(capacity, rate, b, requests)
               == Overflow(capacity, rate, b, r.time) + Lost(capacity, rate, next, requests[1..])
  {
    hide Inflow;
  }

  // ---------------------------------------------------------------- denied requests

  /** From time `t` on, the two buckets answer alike. */
  ghost predicate Alike(capacity: real, rate: real, b: Bucket, c: Bucket, t: real) {
    forall q: Request :: q.time >= t ==>
      && Refilled(capacity, rate, b, q.time) == Refilled(capacity, rate, c, q.time)
      && (Grants(capacity, rate, b, q) <==> Grants(capacity, rate, c, q))
  }

  /** Refilling in between makes no difference. */
  lemma RefillTwice(capacity: real, rate: real, b: Bucket, s: real, t: real)
    requires rate >= 0.0 && b.lastRefill <= s <= t
    ensures Refilled(capacity, rate, Refilled(capacity, rate, b, s), t) == Refilled(capacity, rate, b, t)
  {
    InflowLaws(rate, s - b.lastRefill, t - s);
    hide Inflow;
    assert s == b.lastRefill ==> Inflow(rate, 0.0) == 0.0 by {
      InflowLaws(rate, 0.0, 0.0);
    }
    assert Elapsed(t, s) == t - s && Elapsed(s, b.lastRefill) == s - b.lastRefill;
    assert Elapsed(t, b.lastRefill) == (s - b.lastRefill) + (t - s);
  }

  /** A denied request costs nothing: every later request gets the answer it would have got without it. */
  lemma DeniedCostsNothing(capacity: real, rate: real, b: Bucket, r: Request)
    requires rate >= 0.0 && r.time >= b.lastRefill && !Grants(capacity, rate, b, r)
    ensures forall q: Request :: q.time >= r.time ==>
              (Grants(capacity, rate, After(capacity, rate, b, r), q) <==> Grants(capacity, rate, b, q))
    ensures Alike(capacity, rate, After(capacity, rate, b, r), b, r.time)
  {
    forall q: Request | q.time >= r.time
      ensures Refilled(capacity, rate, After(capacity, rate, b, r), q.time) == Refilled(capacity, rate, b, q.time)
    {
      RefillTwice(capacity, rate, b, r.time, q.time);
    }
    hide Refilled;
  }

  /** The requests of a run that are granted, in order. */
  function Successful(capacity: real, rate: real, b: Bucket, requests: seq<Request>): (some: seq<Request>)
    ensures forall q :: q in some ==> q in requests
    decreases |requests|
  {
    if requests == [] then []
    else
      var rest := Successful(capacity, rate, After(capacity, rate, b, requests[0]), requests[1..]);
      if Grants(capacity, rate, b, requests[0]) then [requests[0]] + rest else rest
  }

  lemma AlikeRuns(capacity: real, rate: real, b: Bucket, c: Bucket, t: real, requests: seq<Request>)
    requires Alike(capacity, rate, b, c, t) && forall q :: q in requests ==> q.time >= t
    ensures Granted(capacity, rate, b, requests) == Granted(capacity, rate, c, requests)
    ensures requests != [] ==> Run(capacity, rate, b, requests) == Run(capacity, rate, c, requests)
  {
    if requests != [] {
      assert requests[0] in requests;
      assert After(capacity, rate, b, requests[0]) == After(capacity, rate, c, requests[0]);
      hide Refilled;
    }
  }

  /** Dropping the denied requests of a run leaves unchanged what is granted, and every later answer. */
  lemma {:induction false} DropDenied(capacity: real, rate: real, b: Bucket, requests: seq<Request>, end: real)
    requires rate >= 0.0 && Ordered(requests, b.lastRefill) && b.lastRefill <= end
    requires forall i :: 0 <= i < |requests| ==> requests[i].time <= end
    ensures var some := Successful(capacity, rate, b, requests);
            && Granted(capacity, rate, b, some) == Granted(capacity, rate, b, requests)
            && Alike(capacity, rate, Run(capacity, rate, b, some), Run(capacity, rate, b, requests), end)
    decreases |requests|
  {
    if requests != [] {
      var r, rest := requests[0], requests[1..];
      var next := After(capacity, rate, b, r);
      var some := Successful(capacity, rate, next, rest);
      DropDenied(capacity, rate, next, rest, end);
      if Grants(capacity, rate, b, r) {
        assert ([r] + some)[1..] == some;
      } else {
        DeniedCostsNothing(capacity, rate, b, r);
        forall q | q in some
          ensures q.time >= r.time
        {
          assert q in rest;
        }
        AlikeRuns(capacity, rate, next, b, r.time, some);
      }
      hide Refilled, Alike;
    }
  }
}
