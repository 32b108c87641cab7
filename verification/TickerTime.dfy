/** The arithmetic of the ticker: extending a wrapping tick counter to microseconds, rounding a deadline up to a
  * tick, and deciding whether a match tick has been passed. */
module TickerTime {

  import opened Division

  const MEGA := 1_000_000

  function Pow2(n: nat): (p: nat)
    ensures p > 0
  {
    if n == 0 then 1 else 2 * Pow2(n - 1)
  }

  /** What initialize derives from the interface's frequency and width. */
  datatype Base = Base(frequency: nat, shifts: nat, bits: nat) {
    predicate Valid() {
      && 0 < frequency < 0x1_0000_0000
      && 4 <= bits <= 32
      && shifts <= 31
      && (shifts != 0 ==> frequency == Pow2(shifts))
    }

    /** The counter wraps at 2^bits. */
    function Modulus(): (m: nat)
      ensures m > 0
    {
      Pow2(bits)
    }

    /** 7/16 of the counter's range. */
    function MaxDelta(): nat
      requires bits >= 4
    {
      7 * Pow2(bits - 4)
    }

    function MaxDeltaUs(): nat
      requires bits >= 4 && frequency > 0
    {
      (MaxDelta() * MEGA + frequency - 1) / frequency
    }
  }

  lemma {:induction false} Pow2Bound(n: nat, m: nat)
    requires n <= m
    ensures Pow2(n) <= Pow2(m)
    decreases m
  {
    if n < m {
      Pow2Bound(n, m - 1);
    }
  }

  lemma Pow2Values()
    ensures Pow2(28) == 0x1000_0000 && Pow2(32) == 0x1_0000_0000
  {
    assert Pow2(8) == 0x100;
    assert Pow2(16) == 0x1_0000;
    assert Pow2(24) == 0x100_0000;
    assert Pow2(28) == 0x1000_0000;
  }

  /** The longest wait is seven sixteenths of a turn of the counter. */
  lemma Ranges(b: Base)
    requires b.Valid()
    ensures b.Modulus() <= 0x1_0000_0000 && 16 * b.MaxDelta() == 7 * b.Modulus()
    ensures 7 <= b.MaxDelta() < b.Modulus() && b.MaxDelta() <= 0x7000_0000
  {
    Pow2Values();
    Pow2Bound(b.bits, 32);
    Pow2Bound(b.bits - 4, 28);
    var q := Pow2(b.bits - 4);
    assert Pow2(b.bits) == 2 * Pow2(b.bits - 1) == 4 * Pow2(b.bits - 2) == 8 * Pow2(b.bits - 3) == 16 * q;
  }

  // ---------------------------------------------------------------- elapsed microseconds

  /** n - us * d, where us is n / d. */
  function LeftOver(n: nat, us: nat, d: nat): (r: nat)
    requires d > 0 && us == n / d
    ensures r == n % d
  {
    DivMod(n, d);
    n - us * d
  }

  /** The microseconds and the new remainder for `ticks` more ticks, by the branch the frequency selects. */
  function Elapsed(b: Base, remainder: nat, ticks: nat): (nat, nat)
    requires b.Valid()
  {
    if b.frequency == MEGA then (ticks, remainder)
    else if b.shifts != 0 then Split(b.frequency, Pow2(b.shifts), remainder, ticks * MEGA)
    else Split(b.frequency, b.frequency, remainder, ticks * MEGA)
  }

  /** Divides by `d` and carries at most one microsecond out of the remainder. */
  function Split(f: nat, d: nat, remainder: nat, usTicks: nat): (nat, nat)
    requires f > 0 && d > 0
  {
    var us: nat := usTicks / d;
    var rest := remainder + LeftOver(usTicks, us, d);
    if rest >= f then (us + 1, rest - f) else (us, rest)
  }

  /** No branch loses or invents time, and the remainder stays below one microsecond. */
  lemma ElapsedConserves(b: Base, remainder: nat, ticks: nat)
    requires b.Valid() && remainder < b.frequency
    ensures var (us, rest) := Elapsed(b, remainder, ticks);
      us * b.frequency + rest == remainder + MEGA * ticks && rest < b.frequency
  {
    var f := b.frequency;
    var usTicks := ticks * MEGA;
    if f != MEGA {
      var us := usTicks / f;
      assert usTicks == us * f + usTicks % f;
      assert (us + 1) * f == us * f + f;
    }
  }

  /** Every intermediate of the 64-bit arithmetic fits, for any number of ticks the counter can show. */
  lemma ElapsedFits(b: Base, remainder: nat, ticks: nat)
    requires b.Valid() && remainder < b.frequency && ticks < b.Modulus()
    ensures ticks * MEGA < 0x1_0000_0000_0000_0000
    ensures remainder + ticks * MEGA % b.frequency < 0x2_0000_0000
  {
    Ranges(b);
  }

  /** The time after counting `ticks` ticks from zero: the closed form every run agrees with. */
  predicate Keeps(b: Base, presentTime: nat, remainder: nat, ticks: nat)
    requires b.Valid()
  {
    presentTime == MEGA * ticks / b.frequency && remainder == MEGA * ticks % b.frequency
  }

  lemma KeepsAdvance(b: Base, presentTime: nat, remainder: nat, ticks: nat, more: nat)
    requires b.Valid() && Keeps(b, presentTime, remainder, ticks)
    ensures var (us, rest) := Elapsed(b, remainder, more);
      Keeps(b, presentTime + us, rest, ticks + more)
  {
    ElapsedConserves(b, remainder, more);
    var (us, rest) := Elapsed(b, remainder, more);
    AdvanceQuotient(b.frequency, MEGA * ticks, us, rest, MEGA * more);
  }

  lemma AdvanceQuotient(f: nat, n: nat, us: nat, rest: nat, more: nat)
    requires f > 0 && us * f + rest == n % f + more && rest < f
    ensures (n + more) / f == n / f + us && (n + more) % f == rest
  {
    var q := n / f;
    DivMod(n, f);
    assert (q + us) * f == q * f + us * f;
    QuotientIs(n + more, f, q + us, rest);
  }

  /** (a - b) & bitmask. */
  function Wrapped(m: nat, a: nat, b: nat): (d: nat)
    requires m > 0
    ensures d < m
  {
    (a - b) % m
  }

  /** Within one turn the wrapped difference is the number of ticks that passed. */
  lemma ElapsedModulo(m: nat, since: nat, now: nat)
    requires m > 0 && since <= now < since + m
    ensures Wrapped(m, now % m, since % m) == now - since
    ensures now % m == since % m ==> now == since
  {
    var q, r := since / m, since % m;
    var e := now - since;
    DivMod(since, m);
    assert (q + 1) * m == q * m + m;
    if r + e < m {
      QuotientIs(now, m, q, r + e);
      QuotientIs(e, m, 0, e);
    } else {
      QuotientIs(now, m, q + 1, r + e - m);
      assert (r + e - m - r) % m == e by { NegativeModulo(e, m); }
    }
  }

  lemma NegativeModulo(e: nat, m: nat)
    requires e < m
    ensures (e - m) % m == e
  {
  }

  // ---------------------------------------------------------------- rounding a deadline up

  /** Ticks from now until a deadline `deltaUs` microseconds ahead, rounded up and capped. */
  function DeltaTicks(b: Base, deltaUs: nat): nat
    requires b.Valid()
  {
    if deltaUs > b.MaxDeltaUs() then b.MaxDelta()
    else
      var raw := if b.frequency == MEGA then deltaUs
                 else if b.shifts != 0 then (deltaUs * Pow2(b.shifts) + MEGA - 1) / MEGA
                 else (deltaUs * b.frequency + MEGA - 1) / MEGA;
      if raw > b.MaxDelta() then b.MaxDelta() else raw
  }

  /** The uncapped value; all three branches compute it. */
  function RawTicks(b: Base, deltaUs: nat): nat
    requires b.Valid()
  {
    (deltaUs * b.frequency + MEGA - 1) / MEGA
  }

  lemma BranchesAgree(b: Base, deltaUs: nat)
    requires b.Valid()
    ensures DeltaTicks(b, deltaUs) == if RawTicks(b, deltaUs) > b.MaxDelta() then b.MaxDelta() else RawTicks(b, deltaUs)
  {
    hide Pow2;
    var f := b.frequency;
    if deltaUs > b.MaxDeltaUs() {
      var n := b.MaxDelta() * MEGA + f - 1;
      assert n == n / f * f + n % f;
      assert b.MaxDeltaUs() * f >= b.MaxDelta() * MEGA;
      MulMono(b.MaxDeltaUs() + 1, deltaUs, f);
      assert (b.MaxDeltaUs() + 1) * f == b.MaxDeltaUs() * f + f;
      assert deltaUs * f > b.MaxDelta() * MEGA;
    } else if f == MEGA {
      assert (deltaUs * MEGA + MEGA - 1) / MEGA == deltaUs;
    }
  }

  /** Below max_delta_us nothing overflows: neither the 64-bit product nor the 32-bit result before capping. */
  lemma RoundUpFits(b: Base, deltaUs: nat)
    requires b.Valid() && deltaUs <= b.MaxDeltaUs()
    ensures deltaUs * b.frequency + MEGA - 1 < 0x1_0000_0000_0000_0000
    ensures RawTicks(b, deltaUs) < 0x1_0000_0000
  {
    Ranges(b);
    ProductBound(b.MaxDelta() * MEGA, b.frequency, deltaUs);
  }

  lemma ProductBound(top: nat, f: nat, x: nat)
    requires f > 0 && x <= (top + f - 1) / f
    ensures x * f <= top + f - 1
  {
    var q := (top + f - 1) / f;
    DivMod(top + f - 1, f);
    MulMono(x, q, f);
  }

  /** A deadline in the future is at least one tick and at most max_delta ticks away: the two ticks never coincide. */
  lemma RoundUpRange(b: Base, deltaUs: nat, last: nat)
    requires b.Valid() && deltaUs > 0 && last < b.Modulus()
    ensures 1 <= DeltaTicks(b, deltaUs) <= b.MaxDelta()
    ensures (last + DeltaTicks(b, deltaUs)) % b.Modulus() != last
  {
    Ranges(b);
    BranchesAgree(b, deltaUs);
    AtLeastOne(b, deltaUs);
    NeverSameTick(last, DeltaTicks(b, deltaUs), b.Modulus());
  }

  lemma AtLeastOne(b: Base, deltaUs: nat)
    requires b.Valid() && deltaUs > 0
    ensures RawTicks(b, deltaUs) >= 1
  {
    MulMono(1, deltaUs, b.frequency);
  }

  lemma NeverSameTick(last: nat, d: nat, m: nat)
    requires last < m && 1 <= d < m
    ensures (last + d) % m != last
  {
    if last + d >= m {
      QuotientIs(last + d, m, 1, last + d - m);
    } else {
      QuotientIs(last + d, m, 0, last + d);
    }
  }

  /** Unless capped, the rounded tick is the right one: at it the deadline has been reached, and it has been
    * overshot by less than one microsecond and one tick. */
  lemma RoundUpTight(b: Base, presentTime: nat, remainder: nat, ticks: nat, deadline: nat)
    requires b.Valid() && Keeps(b, presentTime, remainder, ticks) && presentTime < deadline
    ensures var delta := RawTicks(b, deadline - presentTime);
      var at := MEGA * (ticks + delta) / b.frequency;
      deadline <= at && (at - deadline) * b.frequency < b.frequency + MEGA
  {
    var delta := RawTicks(b, deadline - presentTime);
    TightQuotient(b.frequency, MEGA * ticks, deadline, (deadline - presentTime) * b.frequency, MEGA * delta);
  }

  /** What the branches of compute_tick_round_up achieve together: at the tick they choose the deadline has been
    * reached, with less than one microsecond and one tick to spare, or the wait was capped at max_delta. */
  lemma WakesInTime(b: Base, presentTime: nat, remainder: nat, ticks: nat, deadline: nat)
    requires b.Valid() && Keeps(b, presentTime, remainder, ticks) && presentTime < deadline
    ensures var delta := DeltaTicks(b, deadline - presentTime);
      var at := MEGA * (ticks + delta) / b.frequency;
      if RawTicks(b, deadline - presentTime) <= b.MaxDelta()
      then deadline <= at && (at - deadline) * b.frequency < b.frequency + MEGA
      else delta == b.MaxDelta()
  {
    BranchesAgree(b, deadline - presentTime);
    RoundUpTight(b, presentTime, remainder, ticks, deadline);
  }

  /** A tick, counted from zero, at which a deadline is overshot by less than one microsecond and one tick, or not yet
    * reached. */
  predicate NotLate(frequency: nat, tick: int, deadline: nat) {
    MEGA * tick < deadline * frequency + frequency + MEGA
  }

  /** The tick the wait is set to is not late, capped or not. */
  lemma WaitNotLate(b: Base, presentTime: nat, remainder: nat, ticks: nat, deadline: nat)
    requires b.Valid() && Keeps(b, presentTime, remainder, ticks) && presentTime < deadline
    ensures NotLate(b.frequency, ticks + DeltaTicks(b, deadline - presentTime), deadline)
  {
    hide Pow2;
    hide DeltaTicks;
    BranchesAgree(b, deadline - presentTime);
    var needed, delta := (deadline - presentTime) * b.frequency, DeltaTicks(b, deadline - presentTime);
    RoundedUp(needed);
    LateBound(b.frequency, MEGA * ticks, deadline, needed, MEGA * delta);
  }

  lemma RoundedUp(n: nat)
    ensures n <= MEGA * ((n + MEGA - 1) / MEGA) < n + MEGA
  {
  }

  lemma LateBound(f: nat, n: nat, deadline: nat, needed: nat, added: nat)
    requires f > 0 && n / f < deadline && needed == (deadline - n / f) * f && added < needed + MEGA
    ensures n + added < deadline * f + f + MEGA
  {
    DivMod(n, f);
    assert deadline * f == n / f * f + (deadline - n / f) * f;
  }

  /** Armed before `wake` and within a turn of it, the compare register first matches at `wake`. */
  lemma FirstMatch(m: nat, armedAt: nat, wake: nat, t: nat)
    requires m > 0 && armedAt < t <= wake <= armedAt + m
    ensures t % m == wake % m <==> t == wake
  {
    if t < wake {
      ElapsedModulo(m, t, wake);
    }
  }

  lemma BelowQuotient(n: nat, q: nat, f: nat)
    requires f > 0
    ensures n / f < q ==> n < q * f
  {
    var p := n / f;
    DivMod(n, f);
    if p < q {
      MulMono(p + 1, q, f);
      assert (p + 1) * f == p * f + f;
    }
  }

  lemma TightQuotient(f: nat, n: nat, deadline: nat, needed: nat, added: nat)
    requires f > 0 && n / f < deadline && needed == (deadline - n / f) * f
    requires needed <= added < needed + MEGA
    ensures deadline <= (n + added) / f && ((n + added) / f - deadline) * f < f + MEGA
  {
    var p, at := n / f, (n + added) / f;
    DivMod(n, f);
    DivMod(n + added, f);
    assert deadline * f == p * f + (deadline - p) * f;
    BelowQuotient(n + added, deadline, f);
    assert (at - deadline) * f == at * f - deadline * f;
  }

  // ---------------------------------------------------------------- has the match been passed?

  function MatchIntervalPassed(prev: nat, cur: nat, match_: nat): bool {
    if match_ > prev then cur >= match_ || cur < prev else cur < prev && cur >= match_
  }

  /** How far ahead of `from` the counter next shows `to`: from 1 to a whole turn. */
  function Ahead(m: nat, from: nat, to: nat): (d: nat)
    requires from < m && to < m
    ensures 1 <= d <= m
  {
    if to > from then to - from else to + m - from
  }

  /** For absolute times: with less than a turn between the two reads, the test is true exactly when the counter has
    * reached the next occurrence of the match value. */
  lemma MatchPassedExact(m: nat, prevAbs: nat, curAbs: nat, match_: nat)
    requires m > 0 && match_ < m && prevAbs <= curAbs < prevAbs + m
    ensures MatchIntervalPassed(prevAbs % m, curAbs % m, match_)
       <==> curAbs >= prevAbs + Ahead(m, prevAbs % m, match_)
  {
    var q, r := prevAbs / m, prevAbs % m;
    var e := curAbs - prevAbs;
    assert prevAbs == q * m + r;
    assert (q + 1) * m == q * m + m;
    if r + e < m {
      QuotientIs(curAbs, m, q, r + e);
    } else {
      QuotientIs(curAbs, m, q + 1, r + e - m);
    }
  }

  lemma AheadOf(m: nat, base: nat, delta: nat)
    requires m > 0 && 1 <= delta <= m
    ensures Ahead(m, base % m, (base + delta) % m) == delta
    ensures (base % m + delta) % m == (base + delta) % m
  {
    DivMod(base, m);
    TickAfter(m, base / m, base % m, delta);
  }

  /** `delta` ticks after q turns and r ticks. */
  lemma TickAfter(m: nat, q: nat, r: nat, delta: nat)
    requires r < m && 1 <= delta <= m
    ensures (q * m + r + delta) % m == (r + delta) % m == if r + delta < m then r + delta else r + delta - m
  {
    assert (q + 1) * m == q * m + m;
    if r + delta < m {
      QuotientIs(q * m + r + delta, m, q, r + delta);
      QuotientIs(r + delta, m, 0, r + delta);
    } else {
      QuotientIs(q * m + r + delta, m, q + 1, r + delta - m);
      QuotientIs(r + delta, m, 1, r + delta - m);
    }
  }

  // ---------------------------------------------------------------- 32-bit timestamps

  /** The 64-bit timestamp a 32-bit one stands for, relative to `ref`. */
  function ConvertTimestamp(ref: nat, timestamp: nat): nat
    requires timestamp < 0x1_0000_0000
  {
    var upper := ref - ref % 0x1_0000_0000 + timestamp;
    if timestamp < ref % 0x1_0000_0000 then upper + 0x1_0000_0000 else upper
  }

  /** It is the earliest time from `ref` on with those lower 32 bits. */
  lemma ConvertIsNext(ref: nat, timestamp: nat, t: nat)
    requires timestamp < 0x1_0000_0000
    ensures t == ConvertTimestamp(ref, timestamp) <==>
            ref <= t < ref + 0x1_0000_0000 && t % 0x1_0000_0000 == timestamp
  {
  }
}
