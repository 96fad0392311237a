/** CTimeIt on the 32-bit tick counter, and the periodic branch of threadRoutine that uses it.
    True time is a number of milliseconds; GetTickCount shows it modulo 2^32. */
module TimeArithmetic {
  const WRAP: nat := 0x1_0000_0000
  const UINT_MAX: nat := WRAP - 1
  const INFINITE: nat := UINT_MAX

  function Tick(time: nat): nat { time % WRAP }

  /** Unsigned 32-bit subtraction. */
  function Sub32(a: nat, b: nat): nat
    requires a < WRAP && b < WRAP
  {
    (a - b) % WRAP
  }

  lemma Sub32Exact(a: nat, b: nat)
    requires b <= a < WRAP
    ensures Sub32(a, b) == a - b
  {
  }

  /** timeElapsed, from the two tick values. */
  function Elapsed(start: nat, stop: nat): (e: nat)
    requires start < WRAP && stop < WRAP
    ensures e < WRAP
  {
    if stop >= start then stop - start else (UINT_MAX - start) + stop
  }

  /** The counter passed 2^32 - 1 between the two times. */
  predicate Wrapped(t0: nat, t1: nat) { Tick(t1) < Tick(t0) }

  /** Below 2^32 ms the computed time is exact, except that it is one short when the counter
      wrapped in between. */
  lemma ElapsedExact(t0: nat, t1: nat)
    requires t0 <= t1 < t0 + WRAP
    ensures Elapsed(Tick(t0), Tick(t1)) == if Wrapped(t0, t1) then t1 - t0 - 1 else t1 - t0
  {
    var d := t1 - t0;
    var q := t0 / WRAP;
    assert t0 == q * WRAP + Tick(t0);
    if Tick(t0) + d < WRAP {
      TickAt(t1, q, Tick(t0) + d);
    } else {
      TickAt(t1, q + 1, Tick(t0) + d - WRAP);
    }
  }

  /** One millisecond across the wrap counts as none. */
  lemma WrapExample()
    ensures Elapsed(Tick(WRAP - 1), Tick(WRAP)) == 0
  {
    TickAt(WRAP - 1, 0, WRAP - 1);
    TickAt(WRAP, 1, 0);
  }

  /** An allowance of 2^31 ms, not used at all, counts as used up. */
  lemma RemainingExample()
    ensures Remaining(0x8000_0000, 0) == 0
  {
    Sub32Exact(0x8000_0000, 0);
  }

  lemma TickAt(t: nat, q: nat, r: nat)
    requires t == q * WRAP + r && r < WRAP
    ensures Tick(t) == r
  {
  }

  /** The computed time never exceeds the true time, whatever that is. */
  lemma ElapsedNeverLong(t0: nat, t1: nat)
    requires t0 <= t1
    ensures Elapsed(Tick(t0), Tick(t1)) <= t1 - t0
  {
    if t1 < t0 + WRAP { ElapsedExact(t0, t1); }
  }

  /** isExpired's verdict; an allowance of 0 never expires. */
  predicate Expired(allowed: nat, elapsed: nat) { allowed != 0 && elapsed > allowed }

  /** getRemaining: the 32-bit difference, taken as 0 when its sign bit is set. */
  function Remaining(allowed: nat, elapsed: nat): nat
    requires allowed < WRAP && elapsed < WRAP
  {
    var d := Sub32(allowed, elapsed);
    if d >= 0x8000_0000 then 0 else d
  }

  /** That is the time left, or 0 when none is left, exactly while the difference fits a signed
      32-bit number. */
  lemma RemainingExact(allowed: nat, elapsed: nat)
    requires allowed < WRAP && elapsed < WRAP
    ensures Remaining(allowed, elapsed) == (if elapsed <= allowed then allowed - elapsed else 0)
            <==> -0x8000_0000 <= allowed - elapsed < 0x8000_0000
  {
    if elapsed <= allowed {
      TickAt(allowed - elapsed, 0, allowed - elapsed);
    } else {
      assert (allowed - elapsed) % WRAP == allowed - elapsed + WRAP;
    }
  }
}

module Timer {
  import opened TimeArithmetic

  class TimeIt {
    var start: nat       // m_TStart
    var stop: nat        // m_TStop
    var timing: bool     // m_IsTiming
    var allowed: nat     // m_TimeAllowed

    ghost predicate Valid() reads this { start < WRAP && stop < WRAP && allowed < WRAP }

    constructor ()
      ensures Valid() && allowed == 0 && !timing
    {
      start, stop, timing, allowed := 0, 0, false, 0;
    }

    /** now is the true time, of which GetTickCount shows the tick. */
    method StartTiming(timeAllowed: nat, now: nat)
      requires timeAllowed < WRAP
      modifies this
      ensures Valid() && timing && start == Tick(now)
      ensures allowed == (if timeAllowed == INFINITE then 0 else timeAllowed) && stop == (start + allowed) % WRAP
    {
      allowed := if timeAllowed == INFINITE then 0 else timeAllowed;
      start := now % WRAP;
      stop := (start + allowed) % WRAP;
      timing := true;
    }

    method TimeElapsed(now: nat) returns (elapsed: nat, isTiming: bool)
      requires Valid()
      ensures elapsed == Elapsed(start, Tick(now)) && isTiming == timing
    {
      var t := now % WRAP;
      if t >= start {
        elapsed := t - start;
      } else {
        elapsed := (UINT_MAX - start) + t;
      }
      isTiming := timing;
    }

    method IsExpired(now: nat) returns (expired: bool, elapsed: nat)
      requires Valid()
      ensures elapsed == Elapsed(start, Tick(now)) && expired == Expired(allowed, elapsed)
    {
      var isTiming;
      elapsed, isTiming := TimeElapsed(now);
      expired := if allowed == 0 then false else elapsed > allowed;
    }

    method GetRemaining(now: nat) returns (r: nat)
      requires Valid()
      ensures r == Remaining(allowed, Elapsed(start, Tick(now)))
    {
      var elapsed, isTiming := TimeElapsed(now);
      r := Sub32(allowed, elapsed);
      if r >= 0x8000_0000 {
        r := 0;
      }
    }
  }

  /** The period members of CThreadIt: m_TimePeriod, m_TimeOut, m_Period and the local Elapsed. */
  class Periodic {
    const timer: TimeIt
    var period: nat            // m_TimePeriod
    var timeOut: nat           // m_TimeOut
    var elapsed: nat           // the worker's local, kept between iterations
    ghost var started: nat     // the true time m_Period was last started

    ghost predicate Valid() reads this, timer {
      && timer.Valid()
      && 0 < period < WRAP && elapsed < WRAP
      && timer.start == Tick(started)
      && timer.allowed == (if period == INFINITE then 0 else period)
    }

    /** The start of threadRoutine. */
    constructor (now: nat)
      ensures Valid() && fresh(timer) && period == 2000 && started == now && timeOut == period
    {
      timer := new TimeIt();
      period, timeOut, elapsed, started := 2000, 2000, 0, now;
      new;
      timer.StartTiming(period, now);
    }

    /** Zero turns the period off; an unchanged period is left running. */
    method SetPeriod(p: nat, now: nat)
      requires Valid() && p < WRAP
      modifies this, timer
      ensures Valid() && elapsed == old(elapsed)
      ensures p == old(period) ==> period == p && started == old(started) && timeOut == old(timeOut)
      ensures p != old(period) ==> period == (if p == 0 then INFINITE else p) && started == now && timeOut == period
    {
      if period != p {
        period := if p == 0 then INFINITE else p;
        timeOut := period;
        timer.StartTiming(period, now);
        started := now;
      }
    }

    /** The end of an iteration at true time now, when exit was not requested: hasMethod says whether
        a periodic method is set; after is the time at which that method, if run, has returned.

        A run happens only when more than the whole period has passed since the timer was started,
        that is since the previous run ended or the period was set. Otherwise, with a method set,
        the next wait is for the rest of the period: the subtraction does not underflow. */
    method EndOfIteration(hasMethod: bool, now: nat, after: nat) returns (ran: bool)
      requires Valid() && started <= now <= after
      modifies this, timer
      ensures Valid() && period == old(period)
      ensures ran ==> hasMethod && period != INFINITE && now - old(started) > period
      ensures ran ==> started == after && timeOut == period && elapsed == Elapsed(Tick(old(started)), Tick(now))
      ensures !ran ==> started == old(started)
      ensures !ran && hasMethod ==> elapsed == Elapsed(Tick(started), Tick(now)) <= period
                                    && timeOut == period - elapsed
      ensures hasMethod && period != INFINITE && now - old(started) < WRAP ==>
                (ran <==> now - old(started) > period + (if Wrapped(old(started), now) then 1 else 0))
      ensures !hasMethod ==> !ran && elapsed == old(elapsed) && timeOut == Sub32(period, elapsed)
    {
      hide Elapsed, Tick, Wrapped, Sub32;
      ElapsedNeverLong(started, now);
      if now - started < WRAP { ElapsedExact(started, now); }
      ran := false;
      if hasMethod {
        ran, elapsed := timer.IsExpired(now);
      }
      if ran {
        timer.StartTiming(period, after);
        started := after;
        timeOut := period;
      } else {
        timeOut := Sub32(period, elapsed);
        if elapsed <= period { Sub32Exact(period, elapsed); }
      }
    }
  }

  /** Without a periodic method Elapsed is stale, and the time-out is the rest of the period exactly
      when that stale value does not exceed the period; otherwise it wraps to a wait of weeks. */
  lemma StaleTimeOut(period: nat, stale: nat)
    requires 0 < period < WRAP && stale < WRAP
    ensures Sub32(period, stale) <= period <==> stale <= period
  {
    if stale <= period {
      TickAt(period - stale, 0, period - stale);
    } else {
      assert (period - stale) % WRAP == period - stale + WRAP;
    }
  }

  /** One iteration: whether a periodic method was set, when its test was made, and when the method,
      if run, had returned. */
  datatype Iteration = Iteration(hasMethod: bool, now: nat, after: nat)

  ghost predicate Chronological(from: nat, its: seq<Iteration>) {
    && (forall i :: 0 <= i < |its| ==> from <= its[i].now <= its[i].after)
    && forall i, j :: 0 <= i < j < |its| ==> its[i].after <= its[j].now
  }

  /** The loop of threadRoutine with the period left alone: the times at which the periodic method
      was started are always more than the period apart, and so is the first from the last start of
      the timer. */
  method Iterate(p: Periodic, its: seq<Iteration>) returns (runs: seq<nat>)
    requires p.Valid() && Chronological(p.started, its)
    modifies p, p.timer
    ensures p.Valid() && p.period == old(p.period)
    ensures forall i :: 0 <= i < |runs| - 1 ==> runs[i + 1] - runs[i] > p.period
    ensures runs != [] ==> runs[0] - old(p.started) > p.period
  {
    runs := [];
    ghost var begin := p.started;
    for i := 0 to |its|
      invariant p.Valid() && p.period == old(p.period)
      invariant forall k :: i <= k < |its| ==> p.started <= its[k].now
      invariant forall k :: 0 <= k < |runs| - 1 ==> runs[k + 1] - runs[k] > p.period
      invariant if runs == [] then p.started == begin
                else runs[|runs| - 1] <= p.started && runs[0] - begin > p.period
    {
      var ran := p.EndOfIteration(its[i].hasMethod, its[i].now, its[i].after);
      if ran { runs := runs + [its[i].now]; }
    }
  }

  /** A run that underflows: 1500 ms into a period of 2000 the method is removed and the period
      shortened to 1000. */
  method StaleExample() returns (timeOut: nat)
    ensures timeOut == WRAP - 500
  {
    var p := new Periodic(0);
    var r0 := p.EndOfIteration(true, 1500, 1500);
    TickAt(0, 0, 0);
    TickAt(1500, 0, 1500);
    assert !r0 && p.elapsed == 1500;
    p.SetPeriod(1000, 1500);
    var r1 := p.EndOfIteration(false, 1500, 1500);
    timeOut := p.timeOut;
  }
}
