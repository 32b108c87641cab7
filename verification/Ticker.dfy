/** The ticker: timekeeping, the linked event queue and the interrupt that drives it. */
module Ticker {

  import opened Division
  import opened TickerTime
  import opened TickerClock
  import opened TickerEvents
  import opened TickerScripts
  import opened TickerCounter

  /** An armed match: written since the last clearing, not late for the first event, and near the reading the write was
    * made from; with an empty queue that needs the write to be near it too. `base` is the ticks counted at the counter's
    * zero. */
  ghost predicate Safe(setAt: nat, clearedAt: nat, setSince: nat, matchAt: nat, maxDelta: nat, frequency: nat, base: int,
                       queued: bool, deadline: nat)
  {
    && clearedAt <= setAt
    && (queued || setAt < setSince + maxDelta ==> matchAt <= setSince + maxDelta)
    && (queued ==> NotLate(frequency, base + matchAt, deadline))
  }

  class TickerQueue {
    const counter: Counter
    const frequency: nat
    const bits: nat
    var frequencyShifts: nat
    var maxDelta: nat
    var maxDeltaUs: nat
    var tickLastRead: nat
    var tickRemainder: nat
    var presentTime: nat
    var head: TickerEvent?
    var handlerSet: bool
    var dispatching: bool
    var suspended: bool
    ghost var counted: nat
    ghost var spine: seq<TickerEvent>
    ghost var pool: set<TickerEvent>
    ghost var begun: nat
    ghost var moments: seq<Moment>

    function Settings(): Base
      reads this`frequencyShifts
    {
      Base(frequency, frequencyShifts, bits)
    }

    /** Time: the microseconds shown are exactly those of the ticks counted. */
    ghost predicate TimeValid()
      reads this`frequencyShifts, this`maxDelta, this`maxDeltaUs, this`tickLastRead, this`tickRemainder
      reads this`presentTime, this`counted, this`suspended, this`begun, this`moments, counter
    {
      && counter.Valid() && counter.margin <= 1
      && Clocked(begun, moments, counter.since, counted, suspended)
      && Settings().Valid()
      && counter.modulus == Settings().Modulus()
      && maxDelta == Settings().MaxDelta()
      && maxDeltaUs == Settings().MaxDeltaUs()
      && tickRemainder < frequency
      && Keeps(Settings(), presentTime, tickRemainder, counted)
      && (!suspended ==> counter.watched && tickLastRead == counter.since % counter.modulus)
    }

    /** The queue: `spine` is the chain from head, acyclic and ended by null. */
    ghost predicate Linked()
      reads this`head, this`spine, spine
    {
      Chained(spine) && head == if spine == [] then null else spine[0]
    }

    ghost function Contents(): (s: seq<Entry>)
      reads this`spine, spine
      ensures |s| == |spine|
    {
      Entries(spine)
    }

    ghost predicate QueueValid()
      reads this`head, this`spine, this`pool, spine
    {
      && Linked()
      && Sorted(Contents())
      && (forall e :: e in spine ==> e in pool)
    }

    ghost predicate Valid()
      reads this, counter, spine
    {
      TimeValid() && QueueValid()
    }

    /** initialize: the first reading starts the clock at zero. */
    constructor (counter: Counter, frequency: nat, bits: nat)
      requires counter.Valid() && counter.margin <= 1
      requires 0 < frequency < 0x1_0000_0000 && 4 <= bits <= 32 && counter.modulus == Pow2(bits)
      modifies counter
      ensures Valid() && Contents() == [] && fresh(pool) && OnlyReads(moments) && old(counter.now) <= begun
      ensures this.counter == counter && this.frequency == frequency && this.bits == bits
      ensures !suspended && !dispatching && !handlerSet && WakeUp() && Guarded()
    {
      this.counter, this.frequency, this.bits := counter, frequency, bits;
      handlerSet, head, dispatching, suspended := false, null, false, false;
      spine, pool, counted, moments := [], {}, 0, [];
      new;
      Initialize();
    }

    method Initialize()
      requires counter.Valid() && counter.margin <= 1
      requires 0 < frequency < 0x1_0000_0000 && 4 <= bits <= 32 && counter.modulus == Pow2(bits)
      requires head == null && spine == [] && !suspended && !dispatching && counted == 0 && moments == []
      modifies this`frequencyShifts, this`maxDelta, this`maxDeltaUs, this`begun
      modifies this`tickLastRead, this`tickRemainder, this`presentTime, this`counted
      modifies this`moments, counter
      ensures TimeValid() && WakeUp() && Guarded() && OnlyReads(moments) && old(counter.now) <= begun
    {
      hide WakeUp;
      hide Guarded;
      hide Pow2;
      hide TimeValid;
      FirstReading();
      UpdatePresentTime();
      ScheduleInterrupt();
    }

    /** What the interface's frequency and width determine. */
    method Measure()
      requires 0 < frequency < 0x1_0000_0000 && 4 <= bits <= 32
      modifies this`frequencyShifts, this`maxDelta, this`maxDeltaUs
      ensures Settings().Valid() && maxDelta == Settings().MaxDelta() && maxDeltaUs == Settings().MaxDeltaUs()
    {
      hide Pow2;
      frequencyShifts := ShiftsOf(frequency);
      maxDelta := 7 * Pow2(bits - 4);
      maxDeltaUs := (maxDelta * 1000000 + frequency - 1) / frequency;
    }

    /** The settings and the first reading. */
    method FirstReading()
      requires counter.Valid() && counter.margin <= 1
      requires 0 < frequency < 0x1_0000_0000 && 4 <= bits <= 32 && counter.modulus == Pow2(bits)
      requires !suspended && counted == 0 && moments == []
      modifies this`frequencyShifts, this`maxDelta, this`maxDeltaUs, this`begun
      modifies this`tickLastRead, this`tickRemainder, this`presentTime
      modifies counter`now, counter`fired, counter`since, counter`watched
      ensures TimeValid() && old(counter.now) <= begun
    {
      hide Base.MaxDelta;
      hide Base.MaxDeltaUs;
      hide Counter.MatchAt;
      hide Counter.Matched;
      hide Pow2;
      hide Keeps;
      hide Clocked;
      Measure();
      tickLastRead := counter.Read();
      counter.StartTurn(true);
      begun := counter.now;
      ClockStarts(begun);
      tickRemainder, presentTime := 0, 0;
      TimeZero(Settings());
    }

    static method ShiftsOf(frequency: nat) returns (shifts: nat)
      ensures shifts <= 31
      ensures shifts != 0 ==> frequency == Pow2(shifts)
      ensures shifts == 0 ==> forall i :: 1 <= i <= 31 ==> frequency != Pow2(i)
    {
      shifts := 0;
      var i := 31;
      while i > 0
        invariant 0 <= i <= 31
        invariant forall j :: i < j <= 31 ==> frequency != Pow2(j)
      {
        if Pow2(i) == frequency {
          shifts := i;
          return;
        }
        i := i - 1;
      }
    }

    /** Converts ticks to microseconds by the branch the frequency selects, and adds them to the present time. */
    method AddTicks(elapsedTicks: nat)
      requires Settings().Valid() && tickRemainder < frequency
      modifies this`tickRemainder, this`presentTime
      ensures (presentTime - old(presentTime), tickRemainder) == Elapsed(Settings(), old(tickRemainder), elapsedTicks)
    {
      hide Pow2;
      var elapsedUs: nat;
      if frequency == 1000000 {
        elapsedUs := elapsedTicks;
      } else if frequencyShifts != 0 {
        var usTicks := elapsedTicks * 1000000;
        DivMod(usTicks, Pow2(frequencyShifts));
        elapsedUs := usTicks / Pow2(frequencyShifts);
        tickRemainder := tickRemainder + (usTicks - elapsedUs * Pow2(frequencyShifts));
        if tickRemainder >= frequency {
          elapsedUs := elapsedUs + 1;
          tickRemainder := tickRemainder - frequency;
        }
      } else {
        var usTicks := elapsedTicks * 1000000;
        DivMod(usTicks, frequency);
        elapsedUs := usTicks / frequency;
        tickRemainder := tickRemainder + (usTicks - elapsedUs * frequency);
        if tickRemainder >= frequency {
          elapsedUs := elapsedUs + 1;
          tickRemainder := tickRemainder - frequency;
        }
      }
      presentTime := presentTime + elapsedUs;
    }

    method UpdatePresentTime()
      requires TimeValid()
      modifies this`tickLastRead, this`tickRemainder, this`presentTime, this`counted, this`moments
      modifies counter`now, counter`fired, counter`since, counter`watched
      ensures TimeValid() && old(presentTime) <= presentTime
      ensures old(Guarded()) ==> Guarded()
      ensures suspended ==> unchanged(this, counter)
      ensures !suspended ==> counter.since == counter.now && old(counter.now) <= counter.now
                             && counted == old(counted) + (counter.now - old(counter.since))
                             && moments == old(moments) + [Read(counter.now)]
    {
      hide Safe;
      hide Clocked;
      hide Counter.Matched;
      hide Counter.MatchAt;
      hide Pow2;
      hide Keeps;
      if suspended {
        return;
      }
      var tickerTime := counter.Read();
      CountTo(tickerTime);
    }

    /** Counts the ticks up to a reading. */
    method CountTo(tickerTime: nat)
      requires TimeValid() && !suspended && tickerTime == counter.now % counter.modulus
      modifies this`tickLastRead, this`tickRemainder, this`presentTime, this`counted, this`moments
      modifies counter`since, counter`watched
      ensures TimeValid() && old(presentTime) <= presentTime
      ensures old(Guarded()) ==> Guarded()
      ensures counter.since == counter.now && counted == old(counted) + (counter.now - old(counter.since))
      ensures moments == old(moments) + [Read(counter.now)]
    {
      hide Clocked;
      hide Counter.Matched;
      hide Counter.MatchAt;
      hide Pow2;
      hide Keeps;
      hide Safe;
      ghost var elapsed := counter.now - counter.since;
      ClockReads(begun, moments, counter.since, counted, counter.now);
      moments := moments + [Read(counter.now)];
      ElapsedModulo(counter.modulus, counter.since, counter.now);
      if tickerTime != tickLastRead {
        var elapsedTicks := Wrapped(counter.modulus, tickerTime, tickLastRead);
        tickLastRead := tickerTime;
        KeepsAdvance(Settings(), presentTime, tickRemainder, counted, elapsedTicks);
        ElapsedConserves(Settings(), tickRemainder, elapsedTicks);
        AddTicks(elapsedTicks);
      }
      counted := counted + elapsed;
      counter.StartTurn(true);
    }

    /** At any point of any run: since the first reading every tick of the counter has been counted, or dropped while the
      * ticker was suspended, or lost; and the time shown is the whole microseconds of the ticks counted. */
    lemma TicksAccounted()
      requires TimeValid()
      ensures var c := ClockAfter(Started(begun), moments);
        && begun + counted + c.paused + c.lost == counter.since
        && (c.lost == 0 <==> Prompt(Started(begun), moments))
      ensures presentTime == MEGA * counted / frequency
    {
      Conserved(begun, moments);
      LostExact(Started(begun), moments);
    }

    /** The tick a deadline is reached at, as the counter will show it. */
    method ComputeTickRoundUp(timestamp: nat) returns (tick: nat)
      requires TimeValid() && presentTime <= timestamp
      ensures tick == (tickLastRead + DeltaTicks(Settings(), timestamp - presentTime)) % counter.modulus
    {
      var deltaUs := timestamp - presentTime;
      var delta := maxDelta;
      if deltaUs <= maxDeltaUs {
        if frequency == 1000000 {
          delta := deltaUs;
        } else if frequencyShifts != 0 {
          delta := (deltaUs * Pow2(frequencyShifts) + 1000000 - 1) / 1000000;
        } else {
          delta := (deltaUs * frequency + 1000000 - 1) / 1000000;
        }
        if delta > maxDelta {
          delta := maxDelta;
        }
      }
      tick := (tickLastRead + delta) % counter.modulus;
    }

    /** Right after scheduling: with an event queued that is not yet due, the compare register holds the tick the event
      * was rounded up to, and either the counter has not reached it or the interrupt has been raised. */
    ghost predicate WakeUp()
      reads this, counter, head
      requires TimeValid()
    {
      if head == null then
        counter.compare == (counter.since + maxDelta) % counter.modulus
      else if head.timestamp <= presentTime then
        counter.fired
      else
        var wake := counter.since + DeltaTicks(Settings(), head.timestamp - presentTime);
        && counter.compare == wake % counter.modulus
        && (counter.fired || (counter.now < wake && counter.writes != [] && counter.MatchAt() == wake))
    }

    /** Between calls: unless the ticker is suspended or dispatching, or the interrupt has been raised, the hardware's
      * next match is a safe one. How often the time has been read since it was armed, and which events behind the head
      * came and went, makes no difference. */
    ghost predicate Guarded()
      reads this`frequencyShifts, this`maxDelta, this`maxDeltaUs, this`tickLastRead, this`tickRemainder
      reads this`presentTime, this`counted, this`suspended, this`begun, this`moments, counter
      reads this`dispatching, this`head, head
      requires TimeValid()
    {
      || suspended || dispatching || counter.fired
      || (counter.writes != []
          && Safe(counter.SetAt(), counter.clearedAt, counter.setSince, counter.MatchAt(), maxDelta, frequency,
                  counted - counter.since, head != null, if head == null then 0 else head.timestamp))
    }

    /** Whatever the counter shows by now, the interrupt has been raised, or the first event is not late: it has not
      * been due for a microsecond and a tick. */
    ghost predicate OnTime()
      reads this, counter, head
    {
      || suspended || dispatching || counter.fired
      || (head != null ==> NotLate(frequency, counted + counter.now - counter.since, head.timestamp))
    }

    /** Unless the interrupt has been raised, less than max_delta, and so far less than a turn, has passed since the
      * last reading: handled in the 9/16 of a turn that are left, it keeps the clock from missing a turn. */
    ghost predicate TurnKept()
      reads this, counter
    {
      || suspended || dispatching || counter.fired
      || (counter.writes != []
          && (head != null || counter.SetAt() < counter.setSince + maxDelta ==> counter.now < counter.since + maxDelta))
    }

    /** What the guard means for the outside. */
    lemma GuardedMeans()
      requires TimeValid() && Guarded()
      ensures OnTime() && TurnKept()
    {
      hide Clocked;
      hide Keeps;
    }

    /** The tick for an event not yet due; the interrupt is fired if the counter ran past it meanwhile. */
    method ArmHead()
      requires TimeValid() && !suspended && head != null && presentTime < head.timestamp
      modifies counter`now, counter`compare, counter`fired, counter`forced, counter`writes, counter`setSince
      ensures TimeValid() && WakeUp() && Guarded()
      ensures counter.forced != old(counter.forced) ==>
                counter.since + DeltaTicks(Settings(), head.timestamp - presentTime) <= counter.now
    {
      hide Ahead;
      hide MatchIntervalPassed;
      hide RawTicks;
      hide Keeps;
      hide Pow2;
      hide DeltaTicks;
      hide NotLate;
      hide Clocked;
      hide Counter.MatchAt;
      hide Counter.Matched;
      var matchTick := ComputeTickRoundUp(head.timestamp);
      ghost var delta := DeltaTicks(Settings(), head.timestamp - presentTime);
      RoundUpRange(Settings(), head.timestamp - presentTime, tickLastRead);
      assert matchTick != tickLastRead;
      ghost var wake := counter.since + delta;
      WaitNotLate(Settings(), presentTime, tickRemainder, counted, head.timestamp);
      Ranges(Settings());
      AheadOf(counter.modulus, counter.since, delta);
      counter.SetInterrupt(matchTick);
      var curTick := counter.Read();
      MatchPassedExact(counter.modulus, counter.since, counter.now, matchTick);
      if MatchIntervalPassed(tickLastRead, curTick, matchTick) {
        counter.FireInterrupt();
      } else {
        counter.MatchIs(wake);
      }
    }

    /** With no event queued the interrupt keeps the time from running away. */
    method ArmIdle()
      requires TimeValid() && !suspended && head == null
      modifies counter`now, counter`compare, counter`fired, counter`writes, counter`setSince
      ensures TimeValid() && WakeUp() && Guarded()
    {
      hide Keeps;
      hide Pow2;
      hide Clocked;
      hide Counter.MatchAt;
      hide Counter.Matched;
      Ranges(Settings());
      ghost var wake := counter.since + maxDelta;
      AheadOf(counter.modulus, counter.since, maxDelta);
      counter.SetInterrupt((tickLastRead + maxDelta) % counter.modulus);
      if counter.SetAt() < wake {
        counter.MatchIs(wake);
      }
    }

    method ScheduleInterrupt()
      requires TimeValid()
      modifies this`tickLastRead, this`tickRemainder, this`presentTime, this`counted
      modifies this`moments, counter
      ensures TimeValid() && old(presentTime) <= presentTime
      ensures suspended || dispatching ==> unchanged(this, counter)
      ensures !suspended && !dispatching ==>
                && WakeUp() && moments == old(moments) + [Read(counter.since)]
                && counted == old(counted) + (counter.since - old(counter.since))
      ensures Guarded()
      ensures counter.forced != old(counter.forced) ==>
                && head != null
                && (head.timestamp <= presentTime
                    || counter.since + DeltaTicks(Settings(), head.timestamp - presentTime) <= counter.now)
    {
      hide Safe;
      hide Clocked;
      hide Counter.Matched;
      hide Counter.MatchAt;
      hide Keeps;
      hide Pow2;
      hide RawTicks;
      hide NotLate;
      if suspended || dispatching {
        return;
      }
      UpdatePresentTime();
      if head != null {
        if head.timestamp <= presentTime {
          counter.FireInterrupt();
          return;
        }
        ArmHead();
      } else {
        ArmIdle();
      }
    }

    // -------------------------------------------------------------- the linked list

    /** Walks the chain; the answer tells a client whether its event is queued. */
    method IsQueued(node: TickerEvent) returns (queued: bool)
      requires Linked()
      ensures queued == (node in spine)
    {
      var p := head;
      ghost var k := 0;
      while p != null
        invariant 0 <= k <= |spine|
        invariant p == if k < |spine| then spine[k] else null
        invariant node !in spine[..k]
        decreases |spine| - k
      {
        if p == node {
          return true;
        }
        p := p.next;
        k := k + 1;
      }
      assert spine[..k] == spine;
      return false;
    }

    /** Walks to the first event due later than `timestamp`; `prev` is the one before it. */
    method Walk(timestamp: nat) returns (prev: TickerEvent?, p: TickerEvent?, ghost k: nat)
      requires Linked()
      ensures k == Place(Contents(), timestamp)
      ensures p == if k < |spine| then spine[k] else null
      ensures prev == if k == 0 then null else spine[k - 1]
    {
      prev, p, k := null, head, 0;
      while p != null
        invariant k <= |spine|
        invariant p == if k < |spine| then spine[k] else null
        invariant prev == if k == 0 then null else spine[k - 1]
        invariant forall i :: 0 <= i < k ==> Contents()[i].timestamp <= timestamp
        decreases |spine| - k
      {
        if timestamp < p.timestamp {
          break;
        }
        prev := p;
        p := p.next;
        k := k + 1;
      }
      PlaceUnique(Contents(), timestamp, k);
    }

    /** Links `obj` between `prev` and `p`, which are neighbours. */
    method Splice(prev: TickerEvent?, p: TickerEvent?, obj: TickerEvent, ghost k: nat)
      requires Linked() && obj !in spine && k <= |spine|
      requires p == if k < |spine| then spine[k] else null
      requires prev == if k == 0 then null else spine[k - 1]
      modifies this`head, this`spine, spine, obj
      ensures Linked() && spine == old(spine)[..k] + [obj] + old(spine)[k..]
      ensures Contents() == old(Contents())[..k] + [old(Entry(obj, obj.timestamp, obj.id))] + old(Contents())[k..]
    {
      ghost var chain, was := spine, Contents();
      obj.next := p;
      spine := chain[..k] + [obj] + chain[k..];
      if prev == null {
        head := obj;
      } else {
        prev.next := obj;
      }
      ChainInsert(chain, k, obj);
      EntriesInsert(chain, k, obj);
      assert Entries(chain) == was;
    }

    /** The list part of ticker_insert_event_us; `first` when the event became the head. */
    method Link(obj: TickerEvent, timestamp: nat, id: nat) returns (first: bool)
      requires QueueValid() && obj !in spine
      modifies this`head, this`spine, this`pool, pool, obj
      ensures QueueValid() && pool == old(pool) + {obj}
      ensures Contents() == Inserted(old(Contents()), Entry(obj, timestamp, id))
      ensures first == (head == obj)
      ensures !first ==> head != null && head == old(head) && head.timestamp == old(head.timestamp)
    {
      hide Sorted;
      hide Place;
      hide Chained;
      obj.timestamp := timestamp;
      obj.id := id;
      ghost var was := Contents();
      assert was == old(Contents());
      ChainDistinct(spine);
      NotQueued(spine, obj);
      InsertedSorted(was, Entry(obj, timestamp, id));
      hide Distinct;
      hide Queued;
      var prev, p, k := Walk(timestamp);
      Splice(prev, p, obj, k);
      pool := pool + {obj};
      first := prev == null;
      if !first {
        FirstStays(was, Entry(obj, timestamp, id), obj);
        assert Contents()[0] == was[0];
      }
    }

    method InsertEventUs(obj: TickerEvent, timestamp: nat, id: nat)
      requires Valid() && obj !in spine
      modifies this`head, this`spine, this`pool, pool, obj
      modifies this`tickLastRead, this`tickRemainder, this`presentTime, this`counted
      modifies this`moments, counter
      ensures Valid() && pool == old(pool) + {obj} && old(presentTime) <= presentTime
      ensures Contents() == Inserted(old(Contents()), Entry(obj, timestamp, id))
      ensures head == obj && !suspended && !dispatching ==> WakeUp()
      ensures old(Guarded()) ==> Guarded()
      ensures MoreReads(old(moments), moments)
    {
      hide Safe;
      hide Clocked;
      hide Counter.Matched;
      hide Counter.MatchAt;
      hide Sorted;
      hide Chained;
      hide Keeps;
      hide Pow2;
      hide Inserted;
      UpdatePresentTime();
      var first := Link(obj, timestamp, id);
      if first {
        ScheduleInterrupt();
      }
    }

    /** ticker_insert_event: a 32-bit timestamp means the next time with those lower bits. */
    method InsertEvent(obj: TickerEvent, timestamp: nat, id: nat) returns (ghost ref: nat)
      requires Valid() && obj !in spine && timestamp < 0x1_0000_0000
      modifies this`head, this`spine, this`pool, pool, obj
      modifies this`tickLastRead, this`tickRemainder, this`presentTime, this`counted
      modifies this`moments, counter
      ensures Valid() && pool == old(pool) + {obj}
      ensures old(presentTime) <= ref <= presentTime
      ensures Contents() == Inserted(old(Contents()), Entry(obj, ConvertTimestamp(ref, timestamp), id))
      ensures head == obj && !suspended && !dispatching ==> WakeUp()
      ensures old(Guarded()) ==> Guarded()
      ensures MoreReads(old(moments), moments)
    {
      hide Guarded;
      hide WakeUp;
      hide Clocked;
      hide Counter.Matched;
      hide Counter.MatchAt;
      hide Sorted;
      hide Chained;
      hide Inserted;
      UpdatePresentTime();
      ref := presentTime;
      var at := ConvertTimestamp(presentTime, timestamp);
      InsertEventUs(obj, at, id);
    }

    /** Walks to the event before `obj`, looking only at successors. */
    method Predecessor(obj: TickerEvent) returns (p: TickerEvent?, ghost k: nat)
      requires Linked() && head != obj
      ensures p == null ==> obj !in spine
      ensures p != null ==> k + 1 < |spine| && spine[k] == p && spine[k + 1] == obj
    {
      p, k := head, 0;
      while p != null
        invariant k <= |spine|
        invariant p == if k < |spine| then spine[k] else null
        invariant obj !in spine[..k]
        invariant k < |spine| ==> spine[k] != obj
        decreases |spine| - k
      {
        if p.next == obj {
          return;
        }
        p := p.next;
        k := k + 1;
      }
      assert spine[..k] == spine;
    }

    /** Drops the event at place `k`; `prev` is its predecessor. */
    method Bypass(prev: TickerEvent?, obj: TickerEvent, ghost k: nat)
      requires Linked() && k < |spine| && spine[k] == obj
      requires prev == if k == 0 then null else spine[k - 1]
      modifies this`head, this`spine, spine
      ensures Linked() && spine == old(spine)[..k] + old(spine)[k + 1..]
      ensures Contents() == Removed(old(Contents()), obj)
    {
      hide Removed;
      ghost var chain := spine;
      EntriesRemove(chain, k);
      ghost var left, entries := chain[..k] + chain[k + 1..], Entries(chain[..k] + chain[k + 1..]);
      if prev == null {
        head := obj.next;
      } else {
        prev.next := obj.next;
      }
      spine := left;
      ChainRemove(chain, k);
      assert Entries(left) == entries;
    }

    /** The list part of ticker_remove_event; `first` when the event was the head. */
    method Unlink(obj: TickerEvent) returns (first: bool)
      requires QueueValid()
      modifies this`head, this`spine, spine
      ensures QueueValid() && Contents() == Removed(old(Contents()), obj)
      ensures first == (old(head) == obj)
      ensures !first ==> head == old(head) && (head != null ==> head.timestamp == old(head.timestamp))
      ensures forall e :: e in spine ==> e in old(spine)
    {
      hide Sorted;
      hide Chained;
      hide Removed;
      ghost var was := Contents();
      ChainDistinct(spine);
      RemovedExact(was, obj);
      hide Distinct;
      hide Queued;
      hide Without;
      first := head == obj;
      if first {
        Bypass(null, obj, 0);
      } else {
        var p, k := Predecessor(obj);
        if p != null {
          FirstStays(was, was[0], obj);
          Bypass(p, obj, k + 1);
          assert Contents()[0] == was[0];
        } else {
          NotQueued(spine, obj);
        }
      }
    }

    method RemoveEvent(obj: TickerEvent)
      requires Valid()
      modifies this`head, this`spine, spine
      modifies this`tickLastRead, this`tickRemainder, this`presentTime, this`counted
      modifies this`moments, counter
      ensures Valid() && Contents() == Removed(old(Contents()), obj) && old(presentTime) <= presentTime
      ensures old(head) == obj && !suspended && !dispatching ==> WakeUp()
      ensures old(Guarded()) ==> Guarded()
      ensures MoreReads(old(moments), moments)
    {
      hide Safe;
      hide Clocked;
      hide Counter.Matched;
      hide Counter.MatchAt;
      hide Sorted;
      hide Chained;
      hide Removed;
      var first := Unlink(obj);
      if first {
        ScheduleInterrupt();
      }
    }

    method SetHandler()
      modifies this`handlerSet
      ensures handlerSet
    {
      handlerSet := true;
    }

    /** The counter is not read: what it has counted since the last reading is never counted. */
    method Suspend()
      requires Valid()
      modifies this`suspended, this`moments, counter`since, counter`watched
      ensures Valid() && suspended && Contents() == old(Contents()) && presentTime == old(presentTime)
      ensures moments == old(moments) + [Suspended(counter.now)] && Guarded()
    {
      hide Safe;
      hide Sorted;
      hide Chained;
      hide Clocked;
      ClockSuspends(begun, moments, counter.since, counted, suspended, counter.now);
      moments := moments + [Suspended(counter.now)];
      suspended := true;
      counter.StartTurn(false);
    }

    /** The first reading after a suspension; the ticks before it are not counted. */
    method SkipAhead() returns (ghost resumed: nat)
      requires TimeValid()
      modifies this`suspended, this`tickLastRead, this`moments
      modifies counter`now, counter`fired, counter`since, counter`watched
      ensures TimeValid() && !suspended && old(counter.now) <= resumed == counter.since == counter.now
      ensures moments == old(moments) + [Resumed(resumed)]
    {
      hide Clocked;
      hide Keeps;
      hide Pow2;
      suspended := false;
      tickLastRead := counter.Read();
      resumed := counter.now;
      ClockResumes(begun, moments, counter.since, counted, old(suspended), resumed);
      moments := moments + [Resumed(resumed)];
      counter.StartTurn(true);
    }

    /** Ticks since the moment before are not counted, whether the ticker was suspended or not. */
    method Resume() returns (ghost resumed: nat)
      requires Valid() && !dispatching
      modifies this`suspended
      modifies this`tickLastRead, this`tickRemainder, this`presentTime, this`counted
      modifies this`moments, counter
      ensures Valid() && !suspended && Contents() == old(Contents()) && old(presentTime) <= presentTime
      ensures WakeUp() && Guarded()
      ensures old(counter.now) <= resumed && counted == old(counted) + (counter.since - resumed)
      ensures MoreReads(old(moments) + [Resumed(resumed)], moments)
    {
      hide WakeUp;
      hide Guarded;
      hide Sorted;
      hide Chained;
      hide TimeValid;
      resumed := SkipAhead();
      UpdatePresentTime();
      ScheduleInterrupt();
    }

    // -------------------------------------------------------------- the interrupt

    /** One call; `trace` is what it does to the queue. An event that is queued is not inserted again. */
    method MakeCall(call: Call) returns (ghost trace: seq<Action>)
      requires Valid() && Within([call], pool)
      modifies this`head, this`spine, this`pool, pool
      modifies this`tickLastRead, this`tickRemainder, this`presentTime, this`counted
      modifies this`moments, counter
      ensures Valid() && pool == old(pool) && old(presentTime) <= presentTime
      ensures trace == CallActions(old(Contents()), call)
      ensures Legal(old(Contents()), trace) && Contents() == Replay(old(Contents()), trace)
      ensures old(Guarded()) ==> Guarded()
      ensures MoreReads(old(moments), moments)
    {
      hide Guarded;
      hide TimeValid;
      hide Sorted;
      hide Chained;
      hide Inserted;
      hide Removed;
      hide Replay;
      hide Legal;
      assert call in [call];
      ghost var was := Contents();
      trace := [];
      ReplayNone(was);
      NoReads(moments);
      match call {
        case Insert(node, timestamp, id) =>
          var queued := IsQueued(node);
          NotQueued(spine, node);
          if !queued {
            InsertEventUs(node, timestamp, id);
            trace := [Added(Entry(node, timestamp, id))];
            ReplayOne(was, [], trace[0]);
            assert [] + [trace[0]] == trace;
          }
        case Remove(target) =>
          RemoveEvent(target);
          trace := [Dropped(target)];
          ReplayOne(was, [], trace[0]);
          assert [] + [trace[0]] == trace;
      }
    }

    /** One handler invocation: it makes the calls listed. */
    method RunHandler(calls: seq<Call>, ghost start: seq<Entry>, ghost before: seq<Action>)
      returns (ghost trace: seq<Action>)
      requires Valid() && dispatching && !suspended && Within(calls, pool)
      requires Legal(start, before) && Contents() == Replay(start, before) && DispatchedBy(before, presentTime)
      modifies this`head, this`spine, this`pool, pool
      modifies this`tickLastRead, this`tickRemainder, this`presentTime, this`counted
      modifies this`moments, counter
      ensures Valid() && pool == old(pool) && old(presentTime) <= presentTime
      ensures Legal(start, trace) && Contents() == Replay(start, trace) && DispatchedBy(trace, presentTime)
      ensures trace == before + Actions(Replay(start, before), calls)
      ensures MoreReads(old(moments), moments)
    {
      hide TimeValid;
      hide QueueValid;
      hide Legal;
      hide Replay;
      hide Actions;
      hide CallActions;
      hide Guarded;
      hide MoreReads;
      ghost var called, acts: seq<Action> := Contents(), [];
      NothingAsked(called);
      ReplayNone(called);
      NoReads(moments);
      for i := 0 to |calls|
        invariant Valid() && pool == old(pool) && old(presentTime) <= presentTime
        invariant Legal(called, acts) && Contents() == Replay(called, acts)
        invariant acts == Actions(called, calls[..i])
        invariant MoreReads(old(moments), moments)
      {
        assert calls[i] in calls;
        ghost var was := moments;
        ghost var done := MakeCall(calls[i]);
        MoreReadsThen(old(moments), was, moments);
        ReplayMore(called, acts, done);
        ActionsOne(called, calls, i);
        acts := acts + done;
      }
      assert calls[..|calls|] == calls;
      ReplayMore(start, before, acts);
      trace := before + acts;
      ActionsDispatchNothing(called, calls);
      DispatchedLater(before, old(presentTime), presentTime);
      assert forall i :: 0 <= i < |acts| ==> acts[i] in acts;
    }

    /** Takes the head off the queue. */
    method Pop() returns (p: TickerEvent)
      requires QueueValid() && head != null
      modifies this`head, this`spine
      ensures QueueValid() && p == old(head) && |old(Contents())| > 0 && |spine| == |old(spine)| - 1
      ensures old(Contents())[0] == Entry(p, p.timestamp, p.id)
      ensures Contents() == old(Contents())[1..]
    {
      p := head;
      ghost var was := Contents();
      ChainRemove(spine, 0);
      head := head.next;
      spine := spine[..0] + spine[1..];
      assert Contents() == was[1..];
    }

    lemma HeadFirst()
      requires QueueValid()
      ensures Sorted(Contents())
      ensures head == null <==> Contents() == []
      ensures head != null ==> Contents()[0].timestamp == head.timestamp
    {
    }

    /** The dispatch loop; it ends with nothing due at the present time. `times` lists when it dispatched. */
    method DispatchLoop(script: seq<seq<Call>>) returns (ghost trace: seq<Action>, ghost times: seq<nat>)
      requires Valid() && dispatching && !suspended && forall calls :: calls in script ==> Within(calls, pool)
      modifies this`head, this`spine, this`pool, pool
      modifies this`tickLastRead, this`tickRemainder, this`presentTime, this`counted
      modifies this`moments, counter
      ensures Valid() && pool == old(pool)
      ensures Legal(old(Contents()), trace) && Contents() == Replay(old(Contents()), trace)
      ensures old(presentTime) <= presentTime
      ensures AllAfter(Contents(), presentTime) && DispatchedBy(trace, presentTime)
      ensures trace == Dispatching(old(Contents()), times, if handlerSet then script else [])
      ensures MoreReads(old(moments), moments)
    {
      hide QueueValid;
      hide TimeValid;
      hide Legal;
      hide Replay;
      hide Dispatching;
      hide Actions;
      ghost var start, made := Contents(), if handlerSet then script else [];
      trace, times := [], [];
      ReplayNone(start);
      NothingDispatched(start, made);
      var n := 0;
      while true
        invariant Valid() && pool == old(pool) && n == |times|
        invariant Legal(start, trace) && Contents() == Replay(start, trace)
        invariant trace == Dispatching(start, times, made)
        invariant DispatchedBy(trace, presentTime) && MoreReads(old(moments), moments)
        invariant old(presentTime) <= presentTime
        decreases if n < |script| then |script| - n else 0, |spine|
      {
        if head == null {
          break;
        }
        ghost var before := presentTime;
        UpdatePresentTime();
        DispatchedLater(trace, before, presentTime);
        if head.timestamp <= presentTime {
          ghost var at := presentTime;
          var p := Pop();
          ReplayOne(start, trace, Dispatched(Entry(p, p.timestamp, p.id), at));
          DispatchingOne(start, times, at, made);
          trace := trace + [Dispatched(Entry(p, p.timestamp, p.id), at)];
          if handlerSet && n < |script| {
            assert script[n] in script;
            trace := RunHandler(script[n], start, trace);
          } else {
            NothingAsked(Replay(start, trace));
          }
          times, n := times + [at], n + 1;
        } else {
          break;
        }
      }
      HeadFirst();
      SortedAfter(Contents(), presentTime);
    }

    method Acknowledge()
      requires TimeValid()
      modifies counter`now, counter`fired, counter`clearedAt
      ensures TimeValid() && !counter.fired
    {
      hide Clocked;
      hide Counter.Matched;
      counter.ClearInterrupt();
    }

    /** The interrupt handler. `script` lists what each handler invocation does; `times` are those of its dispatches and
      * `exitTime` the one at which it found nothing due. */
    method IrqHandler(script: seq<seq<Call>>)
      returns (ghost trace: seq<Action>, ghost times: seq<nat>, ghost exitTime: nat)
      requires Valid() && !dispatching && forall calls :: calls in script ==> Within(calls, pool)
      modifies this`head, this`spine, this`pool, this`dispatching, pool
      modifies this`tickLastRead, this`tickRemainder, this`presentTime, this`counted
      modifies this`moments, counter
      ensures Valid() && !dispatching && Guarded() && pool == old(pool)
      ensures suspended ==> trace == [] && Contents() == old(Contents()) && presentTime == old(presentTime)
      ensures Legal(old(Contents()), trace) && Contents() == Replay(old(Contents()), trace)
      ensures !suspended ==> trace == Dispatching(old(Contents()), times, if handlerSet then script else [])
      ensures !suspended ==> WakeUp() && old(presentTime) <= exitTime <= presentTime
      ensures !suspended ==> AllAfter(Contents(), exitTime) && DispatchedBy(trace, exitTime)
      ensures MoreReads(old(moments), moments)
    {
      hide WakeUp;
      hide QueueValid;
      hide TimeValid;
      hide Legal;
      hide Replay;
      hide AllAfter;
      hide Dispatching;
      trace, times, exitTime := [], [], presentTime;
      ReplayNone(Contents());
      Acknowledge();
      if suspended {
        return;
      }
      dispatching := true;
      trace, times := DispatchLoop(script);
      exitTime := presentTime;
      dispatching := false;
      ScheduleInterrupt();
    }

    ghost function CurrentStage(): Stage
      reads this`spine, this`handlerSet, this`suspended, this`presentTime, spine
    {
      Stage(Contents(), handlerSet, suspended, presentTime)
    }

    /** An insertion with a 32-bit timestamp, unless the event is queued. */
    method InsertNext(node: TickerEvent, timestamp: nat, id: nat) returns (ghost trace: seq<Action>, ghost ref: nat)
      requires Valid() && node in pool && timestamp < 0x1_0000_0000
      modifies this`head, this`spine, this`pool, pool
      modifies this`tickLastRead, this`tickRemainder, this`presentTime, this`counted
      modifies this`moments, counter
      ensures Valid() && pool == old(pool) && old(presentTime) <= ref <= presentTime
      ensures trace == CallActions(old(Contents()), Insert(node, ConvertTimestamp(ref, timestamp), id))
      ensures Legal(old(Contents()), trace) && Contents() == Replay(old(Contents()), trace)
      ensures old(Guarded()) ==> Guarded()
      ensures MoreReads(old(moments), moments)
    {
      hide Guarded;
      hide TimeValid;
      hide Sorted;
      hide Chained;
      hide Inserted;
      hide ConvertTimestamp;
      hide Replay;
      hide Legal;
      ghost var was := Contents();
      trace, ref := [], presentTime;
      ReplayNone(was);
      NoReads(moments);
      NotQueued(spine, node);
      var queued := IsQueued(node);
      if !queued {
        ref := InsertEvent(node, timestamp, id);
        trace := [Added(Entry(node, ConvertTimestamp(ref, timestamp), id))];
        ReplayOne(was, [], trace[0]);
        assert [] + [trace[0]] == trace;
      }
    }

    /** One step. A client does not insert an event that is queued. */
    method Take(step: Step) returns (ghost o: Outcome)
      requires Valid() && Guarded() && !dispatching && StepWithin(step, pool)
      modifies this`head, this`spine, this`pool, this`dispatching, this`suspended, this`handlerSet, pool
      modifies this`tickLastRead, this`tickRemainder, this`presentTime, this`counted
      modifies this`moments, counter
      ensures Valid() && Guarded() && !dispatching && pool == old(pool)
      ensures Did(old(CurrentStage()), step, o)
      ensures CurrentStage() == NextStage(old(CurrentStage()), step, o)
      ensures old(moments) <= moments && Switches(moments) == Switches(old(moments)) + StepSwitches([step])
      ensures StepSwitches([step]) == [] ==> MoreReads(old(moments), moments)
      ensures step.Reading? && !suspended ==> moments == old(moments) + [Read(counter.now)]
    {
      hide Switches;
      hide StepSwitches;
      hide TimeValid;
      hide QueueValid;
      hide Guarded;
      hide Replay;
      hide Legal;
      hide MoreReads;
      hide AllAfter;
      hide DispatchedBy;
      hide CallActions;
      hide Dispatching;
      ghost var was, time := moments, presentTime;
      ghost var trace: seq<Action> := [];
      ReplayNone(Contents());
      NoReads(was);
      OneStepSwitches([], step);
      assert [] + [step] == [step];
      match step {
        case Waiting => Wait();
        case Interrupt(script) =>
          ghost var times, exitTime;
          trace, times, exitTime := IrqHandler(script);
          if !suspended {
            AllAfterEarlier(Contents(), time, exitTime);
            DispatchedLater(trace, exitTime, presentTime);
          }
        case Handling => SetHandler();
        case Reading =>
          UpdatePresentTime();
          OneRead(was, counter.now);
        case InsertingUs(node, timestamp, id) => trace := MakeCall(Insert(node, timestamp, id));
        case Inserting(node, timestamp, id) =>
          ghost var ref;
          trace, ref := InsertNext(node, timestamp, id);
        case Removing(target) => trace := MakeCall(Remove(target));
        case Suspending =>
          Suspend();
          NoReads(moments);
          SwitchThenReads(was, Suspended(counter.now), moments);
        case Resuming =>
          ghost var resumed := Resume();
          SwitchThenReads(was, Resumed(resumed), moments);
      }
      if !step.Suspending? && !step.Resuming? {
        ReadsOnly(was, moments);
      }
      o := Outcome(trace, presentTime);
    }

    /** A whole run: whatever happens, in whatever order, every step does to the queue exactly what was asked, the clock
      * accounts for every tick, the queue stays sorted and linked, and the first event is never late unnoticed. */
    method Run(steps: seq<Step>) returns (ghost outcomes: seq<Outcome>)
      requires Valid() && Guarded() && !dispatching && forall step :: step in steps ==> StepWithin(step, pool)
      modifies this`head, this`spine, this`pool, this`dispatching, this`suspended, this`handlerSet, pool
      modifies this`tickLastRead, this`tickRemainder, this`presentTime, this`counted
      modifies this`moments, counter
      ensures Valid() && Guarded() && !dispatching && pool == old(pool)
      ensures OnTime() && TurnKept()
      ensures |outcomes| == |steps| && Happened(old(CurrentStage()), steps, outcomes)
      ensures CurrentStage() == StageAfter(old(CurrentStage()), steps, outcomes)
      ensures old(moments) <= moments && Switches(moments) == Switches(old(moments)) + StepSwitches(steps)
      ensures StepSwitches(steps) == [] ==>
                MoreReads(old(moments), moments) && counted - old(counted) == counter.since - old(counter.since)
    {
      hide Clocked;
      hide Switches;
      hide StepSwitches;
      hide OnTime;
      hide TurnKept;
      hide Switches;
      hide QueueValid;
      hide Guarded;
      hide Happened;
      hide StageAfter;
      hide MoreReads;
      hide Did;
      hide NextStage;
      ghost var first, stage := moments, CurrentStage();
      outcomes := [];
      NothingHappened(stage);
      NoReads(first);
      NoSwitches();
      for i := 0 to |steps|
        invariant Valid() && Guarded() && !dispatching && pool == old(pool)
        invariant |outcomes| == i && Happened(stage, steps[..i], outcomes)
        invariant CurrentStage() == StageAfter(stage, steps[..i], outcomes)
        invariant first <= moments && Switches(moments) == Switches(first) + StepSwitches(steps[..i])
        invariant StepSwitches(steps[..i]) == [] ==> MoreReads(first, moments)
      {
        hide TimeValid;
        assert steps[i] in steps;
        ghost var was := moments;
        ghost var done := Take(steps[i]);
        HappenedOne(stage, steps, outcomes, i, done);
        assert steps[..i] + [steps[i]] == steps[..i + 1];
        OneStepSwitches(steps[..i], steps[i]);
        outcomes := outcomes + [done];
        if StepSwitches(steps[..i + 1]) == [] {
          MoreReadsThen(first, was, moments);
        }
      }
      assert steps[..|steps|] == steps;
      GuardedMeans();
      if StepSwitches(steps) == [] {
        ClockedReads(begun, first, old(counter.since), old(counted), old(suspended), moments, counter.since, counted,
                     suspended);
      }
    }

    /** Ticks pass. */
    method Wait()
      requires TimeValid()
      modifies counter`now, counter`fired
      ensures TimeValid() && old(counter.now) <= counter.now
      ensures old(Guarded()) ==> Guarded()
    {
      counter.Elapse();
    }
  }

  lemma TimeZero(b: Base)
    requires b.Valid()
    ensures Keeps(b, 0, 0, 0)
  {
    QuotientIs(0, b.frequency, 0, 0);
  }
}
