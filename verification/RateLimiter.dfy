/** The token bucket that limits how often one message is let through, and what it promises over runs. */
module RateLimiter {
  import opened Wrappers

  /** The messages still allowed, and when that was last worked out.  Times are in seconds. */
  datatype Bucket = Bucket(allowance: real, lastTs: real)

  const FRESH := Bucket(0.0, 0.0)

  /** What is earned in a time. */
  function Gain(rate: int, per: real, time: real): real
    requires per > 0.0
  {
    time * (rate as real / per)
  }

  function Refilled(rate: int, per: real, b: Bucket, now: real): (a: real)
    requires per > 0.0
    ensures a <= rate as real
  {
    var a := b.allowance + Gain(rate, per, now - b.lastTs);
    if a > rate as real then rate as real else a
  }

  /** Whether a message at `now` is let through, and the bucket afterwards. */
  function Step(rate: int, per: real, b: Bucket, now: real): (r: (bool, Bucket))
    requires per > 0.0
  {
    var a := Refilled(rate, per, b, now);
    if a < 1.0 then (false, Bucket(a, now)) else (true, Bucket(a - 1.0, now))
  }

  class RateLimiter {
    const maxPerDt: int
    const dt: real
    var lastTs: real
    var allowance: real

    constructor (maxPerDt: int, dt: real)
      ensures this.maxPerDt == maxPerDt && this.dt == dt && State() == FRESH
    {
      this.maxPerDt := maxPerDt;
      this.dt := dt;
      lastTs := 0.0;
      allowance := 0.0;
    }

    function State(): Bucket
      reads `allowance, `lastTs
    {
      Bucket(allowance, lastTs)
    }

    /** The check at the time `now` of the clock. */
    method Check(now: real) returns (accepted: bool)
      requires dt > 0.0
      modifies this
      ensures (accepted, State()) == Step(maxPerDt, dt, old(State()), now)
    {
      var timePassed := now - lastTs;
      assert timePassed * (maxPerDt as real / dt) == Gain(maxPerDt, dt, timePassed);
      allowance := allowance + timePassed * (maxPerDt as real / dt);
      lastTs := now;
      if allowance > maxPerDt as real {
        allowance := maxPerDt as real;
      }
      if allowance < 1.0 {
        return false;
      }
      allowance := allowance - 1.0;
      return true;
    }
  }

  // ----- runs: one message, checked again and again, whose limiter is now and then thrown away

  datatype Event = Check(now: real) | Evicted

  /** One event, for a limiter that may not exist (yet, or any more): a check then starts a fresh one. */
  function Next(rate: int, per: real, s: Option<Bucket>, e: Event): (bool, Option<Bucket>)
    requires per > 0.0
  {
    match e
    case Evicted => (false, None)
    case Check(now) =>
      var r := Step(rate, per, if s.Some? then s.value else FRESH, now);
      (r.0, Some(r.1))
  }

  function After(rate: int, per: real, s: Option<Bucket>, run: seq<Event>): Option<Bucket>
    requires per > 0.0
    decreases |run|
  {
    if run == [] then s else After(rate, per, Next(rate, per, s, run[0]).1, run[1..])
  }

  function Accepted(rate: int, per: real, s: Option<Bucket>, run: seq<Event>): nat
    requires per > 0.0
    decreases |run|
  {
    if run == [] then 0
    else
      var n := Next(rate, per, s, run[0]);
      (if n.0 then 1 else 0) + Accepted(rate, per, n.1, run[1..])
  }

  /** What becomes of each check, in order. */
  function Verdicts(rate: int, per: real, s: Option<Bucket>, run: seq<Event>): seq<bool>
    requires per > 0.0
    decreases |run|
  {
    if run == [] then []
    else
      var n := Next(rate, per, s, run[0]);
      (if run[0].Check? then [n.0] else []) + Verdicts(rate, per, n.1, run[1..])
  }

  function Evictions(run: seq<Event>): nat {
    if run == [] then 0 else (if run[0].Evicted? then 1 else 0) + Evictions(run[1..])
  }

  /** The clock does not run backwards, starting from t. */
  predicate Chronological(t: real, run: seq<Event>)
    decreases |run|
  {
    run == [] ||
    if run[0].Evicted? then Chronological(t, run[1..])
    else t <= run[0].now && Chronological(run[0].now, run[1..])
  }

  /** The time of the last check, or t if there is none. */
  function End(t: real, run: seq<Event>): real
    decreases |run|
  {
    if run == [] then t else End(if run[0].Evicted? then t else run[0].now, run[1..])
  }

  // ----- what is earned

  lemma GainAdds(rate: int, per: real, x: real, y: real)
    requires per > 0.0
    ensures Gain(rate, per, x + y) == Gain(rate, per, x) + Gain(rate, per, y)
  {
    Distributes(x, y, rate as real / per);
  }

  lemma Distributes(x: real, y: real, r: real)
    ensures (x + y) * r == x * r + y * r
  {
  }

  lemma GainPositive(rate: int, per: real, x: real)
    requires per > 0.0 && x >= 0.0 && rate >= 0
    ensures Gain(rate, per, x) >= 0.0
  {
    QuotientPositive(rate as real, per);
    ProductPositive(x, rate as real / per);
  }

  lemma QuotientPositive(x: real, y: real)
    requires x >= 0.0 && y > 0.0
    ensures x / y >= 0.0
  {
  }

  lemma ProductPositive(x: real, y: real)
    requires x >= 0.0 && y >= 0.0
    ensures x * y >= 0.0
  {
  }

  lemma GainMonotone(rate: int, per: real, x: real, y: real)
    requires per > 0.0 && x <= y && rate >= 0
    ensures Gain(rate, per, x) <= Gain(rate, per, y)
  {
    hide Gain;
    GainAdds(rate, per, x, y - x);
    GainPositive(rate, per, y - x);
  }

  lemma GainOfPeriod(rate: int, per: real)
    requires per > 0.0 && rate >= 1
    ensures Gain(rate, per, per / rate as real) == 1.0 && Gain(rate, per, per) == rate as real
  {
    Inverse(per, rate as real);
  }

  lemma Inverse(x: real, y: real)
    requires x > 0.0 && y > 0.0
    ensures (x / y) * (y / x) == 1.0 && x * (y / x) == y
  {
    Undone(x / y, y / x, x, y);
  }

  lemma Undone(p: real, q: real, x: real, y: real)
    requires x > 0.0 && p * y == x && x * q == y
    ensures p * q == 1.0
  {
    var z := p * q;
    Reorder(p, x, q);
    assert z * x == x;
    Cancel(z, x);
  }

  lemma Reorder(p: real, x: real, q: real)
    ensures p * (x * q) == (p * q) * x
  {
  }

  lemma Cancel(z: real, x: real)
    requires z * x == x && x > 0.0
    ensures z == 1.0
  {
    Distributes(z, -1.0, x);
  }

  // ----- the bound

  /** A limiter as it is at time t: not ahead of the clock, nothing owed. */
  predicate Sound(s: Option<Bucket>, t: real) {
    0.0 <= t && (s.Some? ==> s.value.allowance >= 0.0 && s.value.lastTs <= t)
  }

  /** What may still be accepted at time t. */
  function Credit(rate: int, per: real, s: Option<Bucket>, t: real): real
    requires per > 0.0
  {
    if s.None? then rate as real else Refilled(rate, per, s.value, t)
  }

  lemma CheckSound(rate: int, per: real, s: Option<Bucket>, t: real, now: real)
    requires per > 0.0 && rate >= 0 && Sound(s, t) && t <= now
    ensures Sound(Next(rate, per, s, Check(now)).1, now)
  {
    hide Gain;
    GainPositive(rate, per, now - if s.Some? then s.value.lastTs else 0.0);
  }

  /** One check spends what it accepts; waiting for it earns at most the rate. */
  lemma CheckCredit(rate: int, per: real, s: Option<Bucket>, t: real, now: real)
    requires per > 0.0 && rate >= 0 && Sound(s, t) && t <= now
    ensures var n := Next(rate, per, s, Check(now));
            (if n.0 then 1.0 else 0.0) + Credit(rate, per, n.1, now)
            <= Credit(rate, per, s, t) + Gain(rate, per, now - t)
  {
    hide Gain;
    GainPositive(rate, per, now - t);
    if s.Some? {
      GainAdds(rate, per, now - t, t - s.value.lastTs);
      GainPositive(rate, per, t - s.value.lastTs);
    }
    var b := if s.Some? then s.value else FRESH;
    GainPositive(rate, per, now - b.lastTs);
    assert Gain(rate, per, now - now) == 0.0 by { GainAdds(rate, per, 0.0, 0.0); }
  }

  lemma {:induction false} CreditBound(rate: int, per: real, s: Option<Bucket>, t: real, run: seq<Event>)
    requires per > 0.0 && rate >= 0 && Sound(s, t) && Chronological(t, run)
    ensures Accepted(rate, per, s, run) as real
            <= Credit(rate, per, s, t) + Allowances(Evictions(run), rate) + Gain(rate, per, End(t, run) - t)
    decreases |run|
  {
    hide Gain, Credit, Sound, Allowances, Refilled;
    if run == [] {
      CreditPositive(rate, per, s, t);
      NoAllowances(rate);
    } else if run[0].Evicted? {
      Emptied(rate, per, s, t);
      CreditBound(rate, per, None, t, run[1..]);
      OneMore(Evictions(run[1..]), rate);
    } else {
      var now := run[0].now;
      var n := Next(rate, per, s, Check(now));
      CheckSound(rate, per, s, t, now);
      CheckCredit(rate, per, s, t, now);
      CreditBound(rate, per, n.1, now, run[1..]);
      GainAdds(rate, per, now - t, End(now, run[1..]) - now);
      assert End(t, run) == End(now, run[1..]);
      assert Evictions(run) == Evictions(run[1..]);
    }
  }

  /** The allowance, n times. */
  function Allowances(n: nat, rate: int): real {
    n as real * rate as real
  }

  lemma OneMore(n: nat, rate: int)
    ensures Allowances(1 + n, rate) == rate as real + Allowances(n, rate)
  {
    assert (1 + n) as real == 1.0 + n as real;
    Distributes(1.0, n as real, rate as real);
  }

  lemma CreditPositive(rate: int, per: real, s: Option<Bucket>, t: real)
    requires per > 0.0 && rate >= 0 && Sound(s, t)
    ensures 0.0 <= Credit(rate, per, s, t) + Gain(rate, per, t - t)
  {
    hide Gain;
    GainPositive(rate, per, t - t);
    if s.Some? { GainPositive(rate, per, t - s.value.lastTs); }
  }

  lemma NoAllowances(rate: int)
    ensures Allowances(0, rate) == 0.0
  {
  }

  /** Throwing a limiter away gives at most a whole allowance back. */
  lemma Emptied(rate: int, per: real, s: Option<Bucket>, t: real)
    requires per > 0.0 && rate >= 0 && Sound(s, t)
    ensures Sound(None, t) && Credit(rate, per, None, t) <= Credit(rate, per, s, t) + rate as real
  {
    CreditPositive(rate, per, s, t);
    assert Gain(rate, per, t - t) == 0.0;
  }

  lemma {:induction false} RunSound(rate: int, per: real, s: Option<Bucket>, t: real, run: seq<Event>)
    requires per > 0.0 && rate >= 0 && Sound(s, t) && Chronological(t, run)
    ensures Sound(After(rate, per, s, run), End(t, run))
    decreases |run|
  {
    hide Sound;
    if run != [] {
      if run[0].Evicted? {
        Emptied(rate, per, s, t);
        RunSound(rate, per, None, t, run[1..]);
      } else {
        CheckSound(rate, per, s, t, run[0].now);
        RunSound(rate, per, Next(rate, per, s, run[0]).1, run[0].now, run[1..]);
      }
    }
  }

  /** In any window of any run, at most one allowance, one more for every eviction, and what is earned
      during the window are let through. */
  lemma WindowBound(rate: int, per: real, before: seq<Event>, start: real, window: seq<Event>)
    requires per > 0.0 && rate >= 0
    requires Chronological(0.0, before) && End(0.0, before) <= start && Chronological(start, window)
    ensures Accepted(rate, per, After(rate, per, None, before), window) as real
            <= Allowances(1 + Evictions(window), rate) + Gain(rate, per, End(start, window) - start)
  {
    hide Gain, Allowances, Accepted, Chronological;
    var s := After(rate, per, None, before);
    RunSound(rate, per, None, 0.0, before);
    CreditBound(rate, per, s, start, window);
    OneMore(Evictions(window), rate);
  }

  /** A message that comes at least per/rate after the one before on the same limiter always passes. */
  lemma SpacedIsAccepted(rate: int, per: real, before: seq<Event>, last: real, now: real)
    requires per > 0.0 && rate >= 1
    requires Chronological(0.0, before) && End(0.0, before) <= last && last + per / rate as real <= now
    ensures var s := Next(rate, per, After(rate, per, None, before), Check(last)).1;
            Next(rate, per, s, Check(now)).0
  {
    hide Gain, After;
    RunSound(rate, per, None, 0.0, before);
    var b := After(rate, per, None, before);
    assert Sound(b, last);
    CheckSound(rate, per, b, last, last);
    GainOfPeriod(rate, per);
    GainMonotone(rate, per, per / rate as real, now - last);
  }

  /** Whatever the clock does, a refused check changes nothing for the next one: what had been earned
      stays. */
  lemma RefusedKeepsAllowance(rate: int, per: real, b: Bucket, refused: real, now: real)
    requires per > 0.0 && rate >= 1 && !Step(rate, per, b, refused).0
    ensures Step(rate, per, Step(rate, per, b, refused).1, now) == Step(rate, per, b, now)
  {
    hide Gain;
    assert now - b.lastTs == (refused - b.lastTs) + (now - refused);
    GainAdds(rate, per, refused - b.lastTs, now - refused);
  }

  /** A run without one of its refused checks has the same later verdicts, whatever is evicted. */
  lemma RefusedLeavesNoTrace(rate: int, per: real, s: Option<Bucket>, refused: real, later: seq<Event>)
    requires per > 0.0 && rate >= 1 && !Next(rate, per, s, Check(refused)).0
    ensures Verdicts(rate, per, s, [Check(refused)] + later) == [false] + Verdicts(rate, per, s, later)
  {
    hide Step;
    var b := if s.Some? then s.value else FRESH;
    assert ([Check(refused)] + later)[1..] == later;
    if later != [] && later[0].Check? {
      RefusedKeepsAllowance(rate, per, b, refused, later[0].now);
    }
  }

  lemma {:induction false} RefusedRun(rate: int, per: real, s: Option<Bucket>, between: seq<Event>, now: real)
    requires per > 0.0 && rate >= 1 && Accepted(rate, per, s, between) == 0 && Evictions(between) == 0
    ensures Next(rate, per, After(rate, per, s, between), Check(now)) == Next(rate, per, s, Check(now))
    decreases |between|
  {
    hide Step;
    if between != [] {
      RefusedRun(rate, per, Next(rate, per, s, between[0]).1, between[1..], now);
      RefusedKeepsAllowance(rate, per, if s.Some? then s.value else FRESH, between[0].now, now);
    }
  }

  /** So a message that comes at least per/rate after the last one accepted always passes, however many
      have been refused in between, and whenever that was. */
  lemma SpacedSinceAccepted(rate: int, per: real, before: seq<Event>, last: real, between: seq<Event>, now: real)
    requires per > 0.0 && rate >= 1
    requires Chronological(0.0, before) && End(0.0, before) <= last && last + per / rate as real <= now
    requires var s := Next(rate, per, After(rate, per, None, before), Check(last)).1;
             Accepted(rate, per, s, between) == 0 && Evictions(between) == 0
    ensures var s := Next(rate, per, After(rate, per, None, before), Check(last)).1;
            Next(rate, per, After(rate, per, s, between), Check(now)).0
  {
    hide Step, Next, After, Accepted, Evictions, Chronological, End;
    SpacedIsAccepted(rate, per, before, last, now);
    RefusedRun(rate, per, Next(rate, per, After(rate, per, None, before), Check(last)).1, between, now);
  }

  lemma GainGrows(rate: int, per: real, x: real, y: real)
    requires per > 0.0 && x < y && rate >= 1
    ensures Gain(rate, per, x) < Gain(rate, per, y)
  {
    hide Gain;
    GainAdds(rate, per, x, y - x);
    StrictlyPositive(rate, per, y - x);
  }

  lemma StrictlyPositive(rate: int, per: real, x: real)
    requires per > 0.0 && x > 0.0 && rate >= 1
    ensures Gain(rate, per, x) > 0.0
  {
    var q := rate as real / per;
    assert q * per == rate as real;
    assert q > 0.0;
  }

  /** A message never seen before, or forgotten since, passes exactly from per/rate on the clock. */
  lemma UnknownIsAccepted(rate: int, per: real, now: real)
    requires per > 0.0 && rate >= 1
    ensures Next(rate, per, None, Check(now)).0 <==> per / rate as real <= now
  {
    hide Gain;
    GainOfPeriod(rate, per);
    if per / rate as real <= now {
      GainMonotone(rate, per, per / rate as real, now);
    } else {
      GainGrows(rate, per, now, per / rate as real);
    }
  }

  /** n copies of a message at one moment. */
  function Burst(now: real, n: nat): (run: seq<Event>)
    ensures |run| == n
  {
    if n == 0 then [] else [Check(now)] + Burst(now, n - 1)
  }

  lemma {:induction false} BurstFrom(rate: int, per: real, b: Bucket, left: nat, n: nat)
    requires per > 0.0 && b.allowance == left as real && left <= rate
    ensures Accepted(rate, per, Some(b), Burst(b.lastTs, n)) == if n <= left then n else left
    decreases n
  {
    hide Gain;
    if n > 0 {
      var now := b.lastTs;
      assert Gain(rate, per, now - now) == 0.0 by { GainAdds(rate, per, 0.0, 0.0); }
      var r := Step(rate, per, b, now);
      if left == 0 {
        BurstFrom(rate, per, r.1, 0, n - 1);
      } else {
        BurstFrom(rate, per, r.1, left - 1, n - 1);
      }
      assert Burst(now, n)[0] == Check(now) && Burst(now, n)[1..] == Burst(now, n - 1);
    }
  }

  /** The bound is reached: of n copies of a new message, exactly the first `rate` pass. */
  lemma BurstPasses(rate: int, per: real, now: real, n: nat)
    requires per > 0.0 && rate >= 1 && per <= now
    ensures Accepted(rate, per, None, Burst(now, n)) == if n <= rate then n else rate
  {
    hide Gain;
    if n > 0 {
      GainOfPeriod(rate, per);
      GainMonotone(rate, per, per, now);
      var r := Step(rate, per, FRESH, now);
      BurstFrom(rate, per, r.1, rate - 1, n - 1);
      assert Burst(now, n)[0] == Check(now) && Burst(now, n)[1..] == Burst(now, n - 1);
    }
  }

  /** With a limit below one message nothing ever passes. */
  lemma {:induction false} NothingPasses(rate: int, per: real, s: Option<Bucket>, run: seq<Event>)
    requires per > 0.0 && rate <= 0
    ensures Accepted(rate, per, s, run) == 0
    decreases |run|
  {
    hide Gain;
    if run != [] {
      NothingPasses(rate, per, Next(rate, per, s, run[0]).1, run[1..]);
    }
  }
}
