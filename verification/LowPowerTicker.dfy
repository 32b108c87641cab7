/** The wrapper that hides a slow low power timer: its compare register must not be rewritten too soon and does not
  * fire for a match that is too close. Each method is one critical section; they may follow each other in any order. */
module LowPowerTicker {

  import opened Division
  import opened TickerTime
  import opened TickerCounter

  /** One critical section. A timeout can only run while one is attached. */
  datatype Step =
    | Setting(timestamp: nat)
    | Reading
    | Firing
    | TimingOut
    | Interrupting(handler: bool)

  /** The counter read `last` at `since` and next shows `t` at `at`. */
  ghost predicate NextAt(m: nat, since: nat, last: nat, t: nat, at: nat)
    requires m > 0
  {
    last == since % m && at == since + Wrapped(m, t, last) && at % m == t
  }

  /** The microseconds of a tick, rounded up. */
  predicate RoundedTick(us: nat, frequency: nat) {
    us > 0 && (us - 1) * frequency < 1000000 <= us * frequency
  }

  /** A timeout of `us` microseconds for so many ticks: never shorter, and apart from the 4 microseconds added to every
    * timeout longer by less than a microsecond for every tick. */
  predicate Spans(us: int, frequency: nat, ticks: int) {
    && 0 <= ticks && 4 <= us && 1000000 * ticks <= (us - 4) * frequency
    && (if ticks == 0 then us == 4 else (us - 4) * frequency < (1000000 + frequency) * ticks)
  }

  lemma TickSpans(usPerTick: nat, frequency: nat, ticks: nat)
    requires RoundedTick(usPerTick, frequency)
    ensures Spans(usPerTick * ticks + 4, frequency, ticks)
  {
    var x := usPerTick * frequency;
    assert (usPerTick - 1) * frequency == x - frequency;
    MulMono(1000000, x, ticks);
    assert usPerTick * ticks * frequency == x * ticks;
    if ticks > 0 {
      MulMono(x + 1, 1000000 + frequency, ticks);
      assert (x + 1) * ticks == x * ticks + ticks;
    }
  }

  lemma RoundsUp(frequency: nat)
    requires frequency > 0
    ensures RoundedTick((1000000 + frequency - 1) / frequency, frequency)
  {
    var n := 1000000 + frequency - 1;
    DivMod(n, frequency);
    var us := n / frequency;
    assert (us - 1) * frequency == us * frequency - frequency;
    BelowQuotient(n, 1, frequency);
  }

  /** Each time is at least `gap` after the one before. */
  predicate Apart(log: seq<nat>, gap: nat) {
    forall i :: 0 < i < |log| ==> log[i - 1] + gap <= log[i]
  }

  lemma ApartOne(log: seq<nat>, gap: nat, t: nat)
    requires Apart(log, gap) && (log != [] ==> log[|log| - 1] + gap <= t)
    ensures Apart(log + [t], gap)
  {
  }

  class LowPowerTickerWrapper {
    const intf: Counter
    const minCountBetweenWrites: nat
    const minCountUntilMatch: nat
    const usPerTick: nat
    ghost const frequency: nat
    var timeoutAttached: bool
    var timeoutUs: nat
    var pendingTimeout: bool
    var pendingMatch: bool
    var pendingFireNow: bool
    var setInterruptAllowed: bool
    var curMatchTime: nat
    var lastSetInterrupt: nat
    var lastActualSetInterrupt: nat

    /** When the pending match happens and the reading that last followed a write, both in ticks since power-on, the
      * ticks the timeout stands for, and how many writes the register had seen before this wrapper. */
    ghost var matchAt: nat
    ghost var writeRead: nat
    ghost var timeoutTicks: nat
    ghost const start: nat

    /** When this wrapper wrote the compare register, as the hardware logged it. */
    ghost function Log(): seq<nat>
      requires start <= |intf.writes|
      reads intf`writes
    {
      intf.writes[start..]
    }

    /** The compare register holds the pending match, written early enough for the hardware to see it. */
    ghost predicate Armed()
      reads this`curMatchTime, this`matchAt, intf
    {
      && start < |intf.writes| && intf.compare < intf.modulus
      && intf.compare == curMatchTime && intf.MatchAt() == matchAt
      && intf.clearedAt < matchAt && intf.SetAt() + intf.margin <= matchAt
    }

    /** While a match is pending something will bring it about. */
    ghost predicate NoLostMatch()
      reads this`pendingMatch, this`timeoutAttached, this`curMatchTime, this`matchAt, intf
    {
      pendingMatch ==> timeoutAttached || intf.fired || Armed()
    }

    /** Once a pending match has come, the interrupt has been raised or a timeout is still to look after it. */
    ghost predicate Brought()
      reads this`pendingMatch, this`timeoutAttached, this`matchAt, intf`now, intf`fired
    {
      pendingMatch && matchAt <= intf.now ==> timeoutAttached || intf.fired
    }

    /** A timeout that is attached stands for at most minCountUntilMatch ticks. */
    ghost predicate ShortTimeout()
      reads this`timeoutAttached, this`timeoutUs, this`timeoutTicks
    {
      timeoutAttached ==> timeoutTicks <= minCountUntilMatch && Spans(timeoutUs, frequency, timeoutTicks)
    }

    ghost predicate Spaced()
      requires start <= |intf.writes|
      reads intf`writes
    {
      Apart(Log(), minCountBetweenWrites)
    }

    /** `setInterruptAllowed` is only up once the distance has been seen since the last write. */
    ghost predicate WritesValid()
      reads this`writeRead, this`setInterruptAllowed, this`lastActualSetInterrupt, intf
    {
      && intf.modulus > 0 && start <= |intf.writes|
      && Spaced()
      && (Log() == [] ==> setInterruptAllowed)
      && (Log() != [] ==> intf.SetAt() <= writeRead <= intf.now
                          && lastActualSetInterrupt == writeRead % intf.modulus)
      && (Log() != [] && setInterruptAllowed ==> writeRead + minCountBetweenWrites <= intf.now)
    }

    /** The pending match is the first occurrence of the match value from the reading taken when it was set. */
    ghost predicate MatchValid()
      reads this`pendingMatch, this`lastSetInterrupt, this`curMatchTime, this`matchAt, intf
    {
      && intf.Valid()
      && (pendingMatch ==>
            && intf.watched && curMatchTime < intf.modulus
            && NextAt(intf.modulus, intf.since, lastSetInterrupt, curMatchTime, matchAt))
    }

    ghost predicate Steady()
      reads this, intf
    {
      && minCountUntilMatch > 0 && intf.margin <= minCountUntilMatch && RoundedTick(usPerTick, frequency)
      && ShortTimeout()
      && pendingTimeout == timeoutAttached
      && (timeoutAttached ==> pendingMatch)
      && WritesValid()
      && MatchValid()
    }

    ghost predicate Valid()
      reads this, intf
    {
      Steady() && NoLostMatch()
    }

    constructor (intf: Counter, minCyclesBetweenWrites: nat, minCyclesUntilMatch: nat, frequency: nat)
      requires intf.Valid() && frequency > 0 && intf.margin <= minCyclesUntilMatch + 1
      ensures Valid() && this.intf == intf && Log() == []
      ensures minCountBetweenWrites == minCyclesBetweenWrites + 1 && minCountUntilMatch == minCyclesUntilMatch + 1
      ensures this.frequency == frequency && RoundedTick(usPerTick, frequency)
    {
      hide RoundedTick;
      this.intf, this.frequency := intf, frequency;
      minCountBetweenWrites, minCountUntilMatch := minCyclesBetweenWrites + 1, minCyclesUntilMatch + 1;
      usPerTick := (1000000 + frequency - 1) / frequency;
      timeoutAttached, pendingTimeout, pendingMatch, pendingFireNow := false, false, false, false;
      setInterruptAllowed := true;
      curMatchTime, lastSetInterrupt, lastActualSetInterrupt := 0, 0, 0;
      start, writeRead, matchAt, timeoutTicks := |intf.writes|, 0, 0, 0;
      RoundsUp(frequency);
    }

    method IrqHandler(handler: bool)
      requires Valid()
      modifies this, intf`now, intf`fired, intf`clearedAt, intf`since, intf`watched
      ensures Valid()
      ensures !pendingMatch && !pendingFireNow && !timeoutAttached
      ensures handler || !old(pendingFireNow || pendingMatch) ==> !intf.fired
    {
      hide RoundedTick;
      hide Spans;
      if pendingFireNow || pendingMatch {
        timeoutAttached := false;
        pendingTimeout := false;
        pendingMatch := false;
        pendingFireNow := false;
        intf.StartTurn(false);
        if handler {
          intf.ClearInterrupt();
        }
      } else {
        intf.ClearInterrupt();
      }
    }

    method FireInterrupt()
      requires Valid()
      modifies this`pendingFireNow, intf`now, intf`fired, intf`forced
      ensures Valid() && pendingFireNow && intf.fired
    {
      hide RoundedTick;
      hide Spans;
      pendingFireNow := true;
      intf.FireInterrupt();
    }

    /** True exactly when a match is pending and its time has come. */
    method MatchCheck(current: nat) returns (due: bool)
      requires MatchValid() && current == intf.now % intf.modulus
      ensures due == (pendingMatch && matchAt <= intf.now)
    {
      if !pendingMatch {
        return false;
      }
      Passed(intf.modulus, intf.since, intf.now, curMatchTime);
      due := lastSetInterrupt == curMatchTime || MatchIntervalPassed(lastSetInterrupt, current, curMatchTime);
    }

    method Read() returns (current: nat)
      requires Valid()
      modifies intf`now, intf`fired, intf`forced
      ensures Valid()
      ensures old(intf.forced) <= intf.forced <= old(intf.forced) + 1
      ensures pendingMatch && matchAt <= old(intf.now) ==> intf.fired && intf.forced == old(intf.forced) + 1
      ensures intf.forced != old(intf.forced) ==> pendingMatch && matchAt <= intf.now
    {
      hide RoundedTick;
      hide Spans;
      current := intf.Read();
      var due := MatchCheck(current);
      if due {
        intf.FireInterrupt();
      }
    }

    method SetInterrupt(timestamp: nat)
      requires Valid() && timestamp < intf.modulus
      modifies this, intf
      ensures Valid() && pendingMatch && curMatchTime == timestamp
      ensures old(intf.now) <= intf.since && matchAt < intf.since + intf.modulus
      ensures matchAt % intf.modulus == timestamp
      ensures if intf.writes == old(intf.writes)
              then (TimedFor(matchAt - intf.now) || (timeoutAttached && old(timeoutAttached) && timeoutUs == old(timeoutUs)))
                   && intf.compare == old(intf.compare)
              else WrittenOnce(old(intf.writes)) && Written()
      ensures old(setInterruptAllowed) && intf.since + minCountUntilMatch <= matchAt ==> intf.writes != old(intf.writes)
    {
      hide RoundedTick;
      hide Spans;
      hide Counter.Matched;
      hide Counter.MatchAt;
      hide Wrapped;
      hide Apart;
      hide Written;
      hide Armed;
      lastSetInterrupt := intf.Read();
      intf.StartTurn(true);
      curMatchTime := timestamp;
      pendingMatch := true;
      matchAt := intf.since + Wrapped(intf.modulus, timestamp, lastSetInterrupt);
      ResidueAhead(intf.modulus, intf.since, timestamp);
      ScheduleMatch(lastSetInterrupt);
    }

    method LpTicksToUs(ticks: nat) returns (us: nat)
      ensures us == usPerTick * ticks + 4
    {
      us := usPerTick * ticks + 4;
    }

    /** A timeout for so many ticks, but no more than minCountUntilMatch. */
    ghost predicate TimedFor(ticks: int)
      reads this`timeoutAttached, this`timeoutUs
    {
      timeoutAttached && Spans(timeoutUs, frequency, if ticks < minCountUntilMatch then ticks else minCountUntilMatch)
    }

    method Attach(cyclesUntilMatch: nat)
      requires RoundedTick(usPerTick, frequency)
      modifies this`timeoutAttached, this`timeoutUs, this`timeoutTicks, this`pendingTimeout
      ensures pendingTimeout && TimedFor(cyclesUntilMatch) && ShortTimeout()
    {
      hide RoundedTick;
      hide Spans;
      var ticks := if cyclesUntilMatch < minCountUntilMatch then cyclesUntilMatch else minCountUntilMatch;
      timeoutAttached := true;
      timeoutUs := LpTicksToUs(ticks);
      timeoutTicks := ticks;
      pendingTimeout := true;
      TickSpans(usPerTick, frequency, ticks);
    }

    /** A write is allowed, or enough ticks have passed since the last one. */
    ghost predicate MayWrite(current: nat)
      requires intf.modulus > 0
      reads this`setInterruptAllowed, this`lastActualSetInterrupt
    {
      setInterruptAllowed || Wrapped(intf.modulus, current, lastActualSetInterrupt) >= minCountBetweenWrites
    }

    /** After a write, read back at `writeRead`: a match passed meanwhile is fired, one that is now too close gets a
      * timeout, and any other is left to the compare register. */
    ghost predicate Written()
      reads this, intf
    {
      && intf.compare == curMatchTime && !setInterruptAllowed
      && (matchAt < writeRead ==> intf.fired)
      && (writeRead <= matchAt < writeRead + minCountUntilMatch ==> TimedFor(matchAt - writeRead))
      && (writeRead + minCountUntilMatch <= matchAt ==> Armed())
    }

    /** One write more, just before the reading that followed it. */
    ghost predicate WrittenOnce(before: seq<nat>)
      reads this`writeRead, intf`writes
    {
      |intf.writes| == |before| + 1 && before <= intf.writes && intf.SetAt() <= writeRead
    }

    /** Raises the permission to write once enough ticks have been seen since the last write. */
    method RefreshAllowed(current: nat)
      requires WritesValid() && intf.now % intf.modulus == current
      modifies this`setInterruptAllowed
      ensures WritesValid() && setInterruptAllowed == old(MayWrite(current))
    {
      hide Wrapped;
      if !setInterruptAllowed {
        DistanceSeen(intf.modulus, writeRead, intf.now);
        if Wrapped(intf.modulus, current, lastActualSetInterrupt) >= minCountBetweenWrites {
          setInterruptAllowed := true;
        }
      }
    }

    /** Writes the compare register; `left` is the number of ticks until the match, read afterwards. */
    method WriteCompare() returns (left: nat)
      requires WritesValid() && MatchValid() && pendingMatch && setInterruptAllowed
      modifies this`setInterruptAllowed, this`lastActualSetInterrupt, this`writeRead
      modifies intf`now, intf`fired, intf`compare, intf`writes, intf`setSince
      ensures WritesValid() && MatchValid() && (old(intf.fired) ==> intf.fired)
      ensures intf.writes != [] && intf.writes == old(intf.writes) + [intf.SetAt()]
      ensures intf.compare == curMatchTime && old(intf.now) <= intf.SetAt() <= intf.now
      ensures writeRead == intf.now && !setInterruptAllowed
      ensures left == if intf.now <= matchAt then matchAt - intf.now else matchAt - intf.now + intf.modulus
    {
      hide RoundedTick;
      hide Spans;
      hide Apart;
      hide Counter.Matched;
      hide Counter.MatchAt;
      hide Wrapped;
      hide NextAt;
      Write();
      var current := intf.Read();
      lastActualSetInterrupt := current;
      writeRead := intf.now;
      setInterruptAllowed := false;
      left := Wrapped(intf.modulus, curMatchTime, current);
      Remaining(intf.modulus, intf.since, lastSetInterrupt, intf.now, matchAt, curMatchTime);
    }

    method Write()
      requires WritesValid() && MatchValid() && pendingMatch && setInterruptAllowed
      modifies intf`now, intf`fired, intf`compare, intf`writes, intf`setSince
      ensures MatchValid() && (old(intf.fired) ==> intf.fired)
      ensures intf.writes != [] && intf.writes == old(intf.writes) + [intf.SetAt()] && Spaced()
      ensures intf.compare == curMatchTime && old(intf.now) <= intf.SetAt() == intf.now
    {
      hide Apart;
      hide Counter.Matched;
      hide Counter.MatchAt;
      hide NextAt;
      ghost var log := Log();
      intf.SetInterrupt(curMatchTime);
      ApartOne(log, minCountBetweenWrites, intf.now);
      assert Log() == log + [intf.now];
    }

    method ScheduleMatch(current: nat)
      requires Steady() && pendingMatch && current == intf.now % intf.modulus && intf.now <= matchAt
      modifies this`timeoutAttached, this`timeoutUs, this`timeoutTicks, this`pendingTimeout, this`setInterruptAllowed
      modifies this`lastActualSetInterrupt, this`writeRead
      modifies intf`now, intf`compare, intf`fired, intf`forced, intf`writes, intf`setSince
      ensures Valid()
      ensures old(MayWrite(current) && matchAt >= intf.now + minCountUntilMatch) ==>
                WrittenOnce(old(intf.writes)) && Written()
      ensures !old(MayWrite(current) && matchAt >= intf.now + minCountUntilMatch) ==>
                intf.writes == old(intf.writes) && intf.compare == old(intf.compare)
                && intf.fired == old(intf.fired)
                && (if old(timeoutAttached && !MayWrite(current)) then timeoutAttached && timeoutUs == old(timeoutUs)
                    else TimedFor(matchAt - intf.now))
    {
      hide RoundedTick;
      hide Spans;
      hide Counter.Matched;
      hide Counter.MatchAt;
      hide Wrapped;
      hide Apart;
      hide MayWrite;
      RefreshAllowed(current);
      var cyclesUntilMatch: nat := Wrapped(intf.modulus, curMatchTime, current);
      Remaining(intf.modulus, intf.since, lastSetInterrupt, intf.now, matchAt, curMatchTime);
      var tooClose := cyclesUntilMatch < minCountUntilMatch;
      if !setInterruptAllowed {
        if !pendingTimeout {
          Attach(cyclesUntilMatch);
        }
        return;
      }
      if !tooClose {
        var newCycles := WriteCompare();
        if newCycles > cyclesUntilMatch {
          intf.FireInterrupt();
          return;
        }
        if intf.now + minCountUntilMatch <= matchAt {
          intf.MatchIs(matchAt);
        }
        cyclesUntilMatch := newCycles;
        tooClose := cyclesUntilMatch < minCountUntilMatch;
      }
      if tooClose {
        Attach(cyclesUntilMatch);
      }
    }

    /** The microsecond timeout expired. */
    method TimeoutHandler()
      requires Valid() && timeoutAttached
      modifies this, intf
      ensures Valid() && pendingMatch
      ensures matchAt == old(matchAt) && curMatchTime == old(curMatchTime)
      ensures matchAt <= old(intf.now) ==> intf.fired
      ensures if intf.writes == old(intf.writes)
              then (TimedFor(matchAt - intf.now) || (intf.fired && matchAt <= intf.now)) && intf.compare == old(intf.compare)
              else WrittenOnce(old(intf.writes)) && Written()
    {
      hide RoundedTick;
      hide Spans;
      hide Counter.Matched;
      hide Counter.MatchAt;
      timeoutAttached := false;
      pendingTimeout := false;
      var current := intf.Read();
      Passed(intf.modulus, intf.since, intf.now, curMatchTime);
      if lastSetInterrupt == curMatchTime || MatchIntervalPassed(lastSetInterrupt, current, curMatchTime) {
        intf.FireInterrupt();
      } else {
        ScheduleMatch(current);
      }
    }

    /** Every interleaving: after any steps in any order no match is lost and all writes are far enough apart. */
    method Run(steps: seq<Step>)
      requires Valid() && forall s :: s in steps && s.Setting? ==> s.timestamp < intf.modulus
      modifies this, intf
      ensures Valid() && Brought() && ShortTimeout()
      ensures start <= |intf.writes| && Spaced() && old(intf.writes) <= intf.writes
    {
      hide RoundedTick;
      hide Spans;
      hide NoLostMatch;
      hide Steady;
      ghost var first := intf.writes;
      for i := 0 to |steps|
        invariant Valid() && first <= intf.writes
      {
        assert steps[i] in steps;
        match steps[i]
        case Setting(timestamp) => SetInterrupt(timestamp);
        case Reading => var _ := Read();
        case Firing => FireInterrupt();
        case TimingOut =>
          if timeoutAttached {
            TimeoutHandler();
          }
        case Interrupting(handler) => IrqHandler(handler);
      }
      Outcome();
    }

    /** What the invariant means for the outside: every match that has come was raised or is still looked after, and
      * the hardware saw the writes far enough apart. */
    lemma Outcome()
      requires Valid()
      ensures Brought() && ShortTimeout() && start <= |intf.writes| && Spaced()
    {
      hide RoundedTick;
      hide Spans;
    }
  }

  /** The modular distance seen never exceeds the true one. */
  lemma DistanceSeen(m: nat, then_: nat, now: nat)
    requires m > 0 && then_ <= now
    ensures Wrapped(m, now % m, then_ % m) <= now - then_
  {
    var e := (now - then_) % m;
    DivMod(now - then_, m);
    ShiftTurns(m, then_ + e, (now - then_) / m);
    ElapsedModulo(m, then_, then_ + e);
  }

  lemma ShiftTurns(m: nat, x: nat, k: nat)
    requires m > 0
    ensures (x + k * m) % m == x % m
  {
    DivMod(x, m);
    assert x + k * m == (x / m + k) * m + x % m;
    QuotientIs(x + k * m, m, x / m + k, x % m);
  }

  lemma ResidueAhead(m: nat, since: nat, t: nat)
    requires m > 0 && t < m
    ensures (since + Wrapped(m, t, since % m)) % m == t
  {
    var q, r := since / m, since % m;
    DivMod(since, m);
    var d := Wrapped(m, t, r);
    WrappedIs(m, t, r);
    assert (q + 1) * m == q * m + m;
    if t >= r {
      QuotientIs(since + d, m, q, t);
    } else {
      QuotientIs(since + d, m, q + 1, t);
    }
  }

  lemma WrappedIs(m: nat, t: nat, r: nat)
    requires m > 0 && t < m && r < m
    ensures Wrapped(m, t, r) == if t >= r then t - r else t - r + m
  {
    if t >= r {
      QuotientIs(t - r, m, 0, t - r);
    } else {
      NegativeModulo(t - r + m, m);
    }
  }

  /** With the extra check for equal values, the test is true exactly when the match time has come. */
  lemma Passed(m: nat, since: nat, now: nat, t: nat)
    requires m > 0 && t < m && since <= now < since + m
    ensures (since % m == t || MatchIntervalPassed(since % m, now % m, t)) <==> since + Wrapped(m, t, since % m) <= now
  {
    hide Wrapped;
    MatchPassedExact(m, since, now, t);
    WrappedIs(m, t, since % m);
  }

  /** What is left until the match, as the wrapped subtraction shows it. */
  lemma Remaining(m: nat, since: nat, last: nat, now: nat, matchAt: nat, t: nat)
    requires m > 0 && t < m && since <= now < since + m && NextAt(m, since, last, t, matchAt)
    ensures Wrapped(m, t, now % m) == if now <= matchAt then matchAt - now else matchAt - now + m
  {
    if now <= matchAt {
      ElapsedModulo(m, now, matchAt);
    } else {
      ShiftTurns(m, matchAt, 1);
      ElapsedModulo(m, now, matchAt + m);
    }
  }
}
