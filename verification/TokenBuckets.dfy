/** The token bucket rate limiter, over real arithmetic and a clock that is read once per call. */
module TokenBuckets {

  /** The tokens a stretch of time earns, and the most a bucket holds. */
  datatype Limits = Limits(earned: real -> real, burst: nat)

  /** What one stretch of time and then another earn together. */
  function Together(l: Limits, first: real, second: real): real {
    l.earned(first + second)
  }

  /** Time earns tokens at a steady rate. */
  ghost predicate Steady(l: Limits) {
    && (forall a, b {:trigger Together(l, a, b)} :: Together(l, a, b) == l.earned(a) + l.earned(b))
    && (forall t :: t >= 0.0 ==> l.earned(t) >= 0.0)
  }

  lemma EarnedTogether(l: Limits, first: real, second: real, whole: real)
    requires Steady(l) && whole == first + second
    ensures l.earned(whole) == l.earned(first) + l.earned(second)
  {
    assert Together(l, first, second) == l.earned(first) + l.earned(second);
  }

  function PerSecond(rate: real, burst: nat): Limits {
    Limits((seconds: real) => seconds * rate, burst)
  }

  lemma PerSecondSteady(rate: real, burst: nat)
    requires rate >= 0.0
    ensures Steady(PerSecond(rate, burst))
  {}

  /** What each call leaves behind. */
  datatype Bucket = Bucket(tokens: real, lastRefill: real)

  function Min(a: real, b: real): real {
    if a <= b then a else b
  }

  function Max(a: real, b: real): real {
    if a >= b then a else b
  }

  /** The bucket at time `now`. A clock that moved backward counts as no time at all. */
  function Refilled(l: Limits, b: Bucket, now: real): Bucket {
    var last := Max(now, b.lastRefill);
    Bucket(Min(b.tokens + l.earned(last - b.lastRefill), l.burst as real), last)
  }

  predicate Grants(l: Limits, b: Bucket, now: real) {
    Refilled(l, b, now).tokens >= 1.0
  }

  function Step(l: Limits, b: Bucket, now: real): Bucket {
    var filled := Refilled(l, b, now);
    if filled.tokens >= 1.0 then filled.(tokens := filled.tokens - 1.0) else filled
  }

  function Run(l: Limits, b: Bucket, times: seq<real>): Bucket
    decreases |times|
  {
    if times == [] then b else Run(l, Step(l, b, times[0]), times[1..])
  }

  /** The times of the calls that were granted. */
  function Granted(l: Limits, b: Bucket, times: seq<real>): seq<real>
    decreases |times|
  {
    if times == [] then []
    else (if Grants(l, b, times[0]) then [times[0]] else []) + Granted(l, Step(l, b, times[0]), times[1..])
  }

  predicate Sound(l: Limits, b: Bucket) {
    0.0 <= b.tokens <= l.burst as real
  }

  class TokenBucket {
    const rate: real
    const burst: nat
    var tokens: real
    var lastRefill: real

    function Now(): Bucket
      reads this
    {
      Bucket(tokens, lastRefill)
    }

    /** A full bucket. */
    constructor (rate: real, burst: nat, now: real)
      ensures this.rate == rate && this.burst == burst
      ensures Now() == Bucket(burst as real, now) && Sound(PerSecond(rate, burst), Now())
    {
      this.rate, this.burst := rate, burst;
      tokens, lastRefill := burst as real, now;
    }

    method Allow(now: real) returns (granted: bool)
      modifies this
      ensures granted == old(Grants(PerSecond(rate, burst), Now(), now))
      ensures Now() == old(Step(PerSecond(rate, burst), Now(), now))
      ensures rate >= 0.0 && old(Sound(PerSecond(rate, burst), Now())) ==> Sound(PerSecond(rate, burst), Now())
    {
      if rate >= 0.0 && Sound(PerSecond(rate, burst), Now()) {
        PerSecondSteady(rate, burst);
        StepSound(PerSecond(rate, burst), Now(), now);
      }
      var elapsed := if now >= lastRefill then now - lastRefill else 0.0;
      tokens := Min(tokens + elapsed * rate, burst as real);
      lastRefill := Max(now, lastRefill);
      if tokens >= 1.0 {
        tokens := tokens - 1.0;
        return true;
      }
      return false;
    }
  }

  // ---------- every state of a run ----------

  lemma StepSound(l: Limits, b: Bucket, now: real)
    requires Steady(l) && Sound(l, b)
    ensures Sound(l, Refilled(l, b, now)) && Sound(l, Step(l, b, now))
  {}

  /** The tokens never leave the range from none to the burst. */
  lemma {:induction false} RunSound(l: Limits, b: Bucket, times: seq<real>)
    requires Steady(l) && Sound(l, b)
    ensures Sound(l, Run(l, b, times)) && b.lastRefill <= Run(l, b, times).lastRefill
    decreases |times|
  {
    if times != [] {
      StepSound(l, b, times[0]);
      RunSound(l, Step(l, b, times[0]), times[1..]);
    }
  }

  // ---------- how much can be granted ----------

  lemma StepSpends(l: Limits, b: Bucket, now: real)
    ensures
      var next := Step(l, b, now);
      (if Grants(l, b, now) then 1.0 else 0.0) + next.tokens <= b.tokens + l.earned(next.lastRefill - b.lastRefill)
  {}

  /** Every grant is paid for out of the tokens there were and the time that passed. */
  lemma {:induction false} RunSpends(l: Limits, b: Bucket, times: seq<real>)
    requires Steady(l)
    ensures |Granted(l, b, times)| as real + Run(l, b, times).tokens <=
            b.tokens + l.earned(Run(l, b, times).lastRefill - b.lastRefill)
    decreases |times|
  {
    if times != [] {
      var next := Step(l, b, times[0]);
      StepSpends(l, b, times[0]);
      RunSpends(l, next, times[1..]);
      var last := Run(l, b, times).lastRefill;
      EarnedTogether(l, next.lastRefill - b.lastRefill, last - next.lastRefill, last - b.lastRefill);
    }
  }

  /** The grants in any window of calls: at most the burst, and what the rate allows from its first call to
      its last, however long the bucket stood before. */
  lemma {:induction false} WindowBound(l: Limits, b: Bucket, times: seq<real>)
    requires Steady(l) && Sound(l, b) && times != []
    ensures |Granted(l, b, times)| as real <=
            l.burst as real + l.earned(Run(l, b, times).lastRefill - Max(times[0], b.lastRefill))
  {
    var now := times[0];
    var filled, next := Refilled(l, b, now), Step(l, b, now);
    StepSound(l, b, now);
    RunSpends(l, next, times[1..]);
    RunSound(l, next, times[1..]);
    assert (if Grants(l, b, now) then 1.0 else 0.0) + next.tokens == filled.tokens;
  }

  predicate Ordered(times: seq<real>) {
    forall i, j :: 0 <= i < j < |times| ==> times[i] <= times[j]
  }

  /** With a clock that never moves backward, the last refill is the last call. */
  lemma {:induction false} LastRefill(l: Limits, b: Bucket, times: seq<real>)
    requires times != [] && Ordered(times) && b.lastRefill <= times[0]
    ensures Run(l, b, times).lastRefill == times[|times| - 1]
    decreases |times|
  {
    if |times| > 1 {
      LastRefill(l, Step(l, b, times[0]), times[1..]);
    }
  }

  lemma {:induction false} RunSplit(l: Limits, b: Bucket, first: seq<real>, rest: seq<real>)
    ensures Run(l, b, first + rest) == Run(l, Run(l, b, first), rest)
    ensures Granted(l, b, first + rest) == Granted(l, b, first) + Granted(l, Run(l, b, first), rest)
    decreases |first|
  {
    if first == [] {
      assert first + rest == rest;
    } else {
      assert (first + rest)[1..] == first[1..] + rest;
      RunSplit(l, Step(l, b, first[0]), first[1..], rest);
    }
  }

  lemma {:induction false} OrderedWindow(l: Limits, b: Bucket, times: seq<real>)
    requires Steady(l) && Sound(l, b) && times != [] && Ordered(times) && b.lastRefill <= times[0]
    ensures |Granted(l, b, times)| as real <= l.burst as real + l.earned(times[|times| - 1] - times[0])
  {
    WindowBound(l, b, times);
    LastRefill(l, b, times);
  }

  lemma {:induction false} WindowOfRun(l: Limits, b: Bucket, times: seq<real>, i: nat, j: nat)
    requires Steady(l) && Sound(l, b) && Ordered(times) && i < j <= |times| && b.lastRefill <= times[0]
    ensures |Granted(l, Run(l, b, times[..i]), times[i..j])| as real <= l.burst as real + l.earned(times[j - 1] - times[i])
  {
    RunSound(l, b, times[..i]);
    if i > 0 {
      LastRefill(l, b, times[..i]);
    }
    OrderedWindow(l, Run(l, b, times[..i]), times[i..j]);
  }

  /** Calls `i` up to `j` of a run, counted out of its grants. */
  lemma {:induction false} GrantedBetween(l: Limits, b: Bucket, times: seq<real>, i: nat, j: nat)
    requires i <= j <= |times|
    ensures |Granted(l, b, times[..j])| - |Granted(l, b, times[..i])| == |Granted(l, Run(l, b, times[..i]), times[i..j])|
  {
    assert times[..j] == times[..i] + times[i..j];
    RunSplit(l, b, times[..i], times[i..j]);
  }

  /** Out of one run over an ordered clock, the calls from `times[i]` up to `times[j - 1]` are granted no more often
      than the burst plus what the time between them earns. */
  lemma {:induction false} LimitHolds(l: Limits, b: Bucket, times: seq<real>, i: nat, j: nat)
    requires Steady(l) && Sound(l, b) && Ordered(times) && i < j <= |times| && b.lastRefill <= times[0]
    ensures (|Granted(l, b, times[..j])| - |Granted(l, b, times[..i])|) as real <= l.burst as real + l.earned(times[j - 1] - times[i])
  {
    GrantedBetween(l, b, times, i, j);
    WindowOfRun(l, b, times, i, j);
  }

  /** Exactly `rate` tokens a second. */
  ghost predicate EarnsAt(l: Limits, rate: real) {
    forall t {:trigger Paid(l, t)} :: Paid(l, t) == t * rate
  }

  function Paid(l: Limits, time: real): real {
    l.earned(time)
  }

  lemma PerSecondEarns(rate: real, burst: nat)
    ensures EarnsAt(PerSecond(rate, burst), rate) && PerSecond(rate, burst).burst == burst
  {}

  /** No more than the burst plus the rate times the time. */
  predicate WithinRate(count: int, burst: nat, rate: real, time: real) {
    count as real <= burst as real + rate * time
  }

  lemma EarnedWithin(l: Limits, rate: real, count: int, time: real)
    requires EarnsAt(l, rate) && count as real <= l.burst as real + l.earned(time)
    ensures WithinRate(count, l.burst, rate, time)
  {
    assert Paid(l, time) == time * rate;
  }

  /** The same at `rate` tokens a second: no window of calls is granted more often than the burst plus the rate times
      its length. */
  lemma {:induction false} RateHolds(l: Limits, rate: real, b: Bucket, times: seq<real>, i: nat, j: nat)
    requires Steady(l) && EarnsAt(l, rate) && Sound(l, b)
    requires Ordered(times) && i < j <= |times| && b.lastRefill <= times[0]
    ensures WithinRate(|Granted(l, b, times[..j])| - |Granted(l, b, times[..i])|, l.burst, rate, times[j - 1] - times[i])
  {
    LimitHolds(l, b, times, i, j);
    EarnedWithin(l, rate, |Granted(l, b, times[..j])| - |Granted(l, b, times[..i])|, times[j - 1] - times[i]);
  }

  /** And so for a bucket made with a rate that is not negative. */
  lemma PerSecondHolds(rate: real, burst: nat, l: Limits, b: Bucket, times: seq<real>, i: nat, j: nat)
    requires rate >= 0.0 && l == PerSecond(rate, burst) && Sound(l, b)
    requires Ordered(times) && i < j <= |times| && b.lastRefill <= times[0]
    ensures WithinRate(|Granted(l, b, times[..j])| - |Granted(l, b, times[..i])|, burst, rate, times[j - 1] - times[i])
  {
    PerSecondSteady(rate, burst);
    PerSecondEarns(rate, burst);
    RateHolds(l, rate, b, times, i, j);
  }

  // ---------- what is always granted ----------

  /** Calls the tokens cover are all granted, whatever the clock does. */
  lemma {:induction false} BurstGranted(l: Limits, b: Bucket, times: seq<real>)
    requires Steady(l) && Sound(l, b) && |times| as real <= b.tokens
    ensures Granted(l, b, times) == times
    decreases |times|
  {
    if times != [] {
      StepSound(l, b, times[0]);
      BurstGranted(l, Step(l, b, times[0]), times[1..]);
      assert times == [times[0]] + times[1..];
    }
  }

  /** Every call comes late enough after the one before for a token to have been earned in between. */
  predicate Paced(l: Limits, last: real, times: seq<real>)
    decreases |times|
  {
    times == [] || (last <= times[0] && l.earned(times[0] - last) >= 1.0 && Paced(l, times[0], times[1..]))
  }

  /** A caller that keeps to the rate is never denied. */
  lemma {:induction false} PacedGranted(l: Limits, b: Bucket, times: seq<real>)
    requires Steady(l) && Sound(l, b) && l.burst >= 1 && Paced(l, b.lastRefill, times)
    ensures Granted(l, b, times) == times
    decreases |times|
  {
    if times != [] {
      StepSound(l, b, times[0]);
      PacedGranted(l, Step(l, b, times[0]), times[1..]);
      assert times == [times[0]] + times[1..];
    }
  }

  // ---------- denied calls ----------

  /** `late` is `early` some time later, with too little in it to grant anything; or they are the same. */
  predicate Behind(l: Limits, early: Bucket, late: Bucket) {
    early == late || (late.tokens < 1.0 && early.lastRefill <= late.lastRefill && late == Refilled(l, early, late.lastRefill))
  }

  /** Refilling in two steps is refilling in one. */
  lemma RefilledTwice(l: Limits, b: Bucket, t: real, now: real)
    requires Steady(l) && b.lastRefill <= t <= now
    ensures Refilled(l, Refilled(l, b, t), now) == Refilled(l, b, now)
  {
    EarnedTogether(l, t - b.lastRefill, now - t, now - b.lastRefill);
  }

  lemma BehindStep(l: Limits, early: Bucket, late: Bucket, now: real)
    requires Steady(l) && Behind(l, early, late)
    ensures if Grants(l, late, now) then Grants(l, early, now) && Step(l, early, now) == Step(l, late, now)
            else Behind(l, early, Step(l, late, now))
  {
    if early != late {
      if now >= late.lastRefill {
        RefilledTwice(l, early, late.lastRefill, now);
      } else {
        EarnedTogether(l, 0.0, 0.0, 0.0);
      }
    }
  }

  lemma {:induction false} GrantedFromBehind(l: Limits, early: Bucket, late: Bucket, times: seq<real>)
    requires Steady(l) && Behind(l, early, late)
    ensures Granted(l, early, Granted(l, late, times)) == Granted(l, late, times)
    decreases |times|
  {
    if times != [] {
      var now := times[0];
      BehindStep(l, early, late, now);
      var next, rest := Step(l, late, now), times[1..];
      if Grants(l, late, now) {
        GrantedFromBehind(l, next, next, rest);
        assert Granted(l, late, times)[1..] == Granted(l, next, rest);
      } else {
        GrantedFromBehind(l, early, next, rest);
        assert Granted(l, late, times) == Granted(l, next, rest);
      }
    }
  }

  /** A denied call costs nothing: without the denied calls, exactly the same calls are granted. */
  lemma {:induction false} DeniedCallsDoNotMatter(l: Limits, b: Bucket, times: seq<real>)
    requires Steady(l)
    ensures Granted(l, b, Granted(l, b, times)) == Granted(l, b, times)
  {
    GrantedFromBehind(l, b, b, times);
  }
}
