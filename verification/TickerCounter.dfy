/** The hardware behind a ticker: a counter that keeps moving, a compare register and an interrupt flag. */
module TickerCounter {

  import opened Division
  import opened TickerTime

  /** `now` counts ticks since power-on without wrapping; a read shows it modulo 2^bits. Before every interface call
    * takes effect an arbitrary number of ticks may pass. While `watched`, fewer than a full turn passes from the
    * moment `since`.
    *
    * The hardware may raise the interrupt flag whenever it likes, and has raised it once the counter has reached the
    * value written to the compare register, if that was at least `margin` ticks after the write and the flag has not
    * been cleared since. */
  class Counter {
    const modulus: nat
    const margin: nat
    var now: nat
    var compare: nat
    var fired: bool
    var clearedAt: nat
    var writes: seq<nat>
    ghost var forced: nat
    var since: nat
    var watched: bool
    ghost var setSince: nat

    /** When the compare register was last written. */
    function SetAt(): nat
      requires writes != []
      reads this`writes
    {
      writes[|writes| - 1]
    }

    /** When the counter first shows the value of the compare register after that. */
    function MatchAt(): (t: nat)
      requires writes != [] && compare < modulus
      reads this`writes, this`compare
      ensures SetAt() < t
    {
      SetAt() + Ahead(modulus, SetAt() % modulus, compare)
    }

    predicate Matched()
      requires compare < modulus
      reads this`writes, this`compare, this`clearedAt, this`now
    {
      writes != [] && clearedAt < MatchAt() && SetAt() + margin <= MatchAt() <= now
    }

    ghost predicate Valid()
      reads this
    {
      && compare < modulus && since <= now && (watched ==> now < since + modulus)
      && clearedAt <= now && setSince <= since
      && (writes != [] ==> setSince <= SetAt() <= now)
      && (Matched() ==> fired)
    }

    constructor (modulus: nat, margin: nat)
      requires modulus > 0
      ensures Valid() && this.modulus == modulus && this.margin == margin && watched && writes == []
    {
      this.modulus, this.margin := modulus, margin;
      now, compare, fired, clearedAt, writes := 0, 0, false, 0, [];
      since, watched, setSince, forced := 0, true, 0, 0;
    }

    /** Ticks pass; the environment chooses how many. */
    method Elapse()
      requires Valid()
      modifies this`now, this`fired
      ensures Valid() && old(now) <= now && (old(fired) ==> fired)
    {
      var later: nat :| now <= later && (watched ==> later < since + modulus);
      now := later;
      var early: bool := *;
      fired := fired || early || Matched();
    }

    method Read() returns (tick: nat)
      requires Valid()
      modifies this`now, this`fired
      ensures Valid() && old(now) <= now && (old(fired) ==> fired) && tick == now % modulus
    {
      Elapse();
      tick := now % modulus;
    }

    method SetInterrupt(tick: nat)
      requires Valid() && tick < modulus
      modifies this`now, this`fired, this`compare, this`writes, this`setSince
      ensures Valid() && old(now) <= now && (old(fired) ==> fired)
      ensures compare == tick && writes == old(writes) + [now] && setSince == since
    {
      Elapse();
      compare := tick;
      writes := writes + [now];
      setSince := since;
    }

    method FireInterrupt()
      requires Valid()
      modifies this`now, this`fired, this`forced
      ensures Valid() && old(now) <= now && fired && forced == old(forced) + 1
    {
      Elapse();
      fired := true;
      forced := forced + 1;
    }

    method ClearInterrupt()
      requires Valid()
      modifies this`now, this`fired, this`clearedAt
      ensures Valid() && old(now) <= now && !fired && clearedAt == now
    {
      Elapse();
      fired := false;
      clearedAt := now;
    }

    /** Proof bookkeeping: from here on, elapsed ticks are counted from this moment. */
    method StartTurn(isWatched: bool)
      requires Valid()
      modifies this`since, this`watched
      ensures Valid() && since == now && watched == isWatched
    {
      since, watched := now, isWatched;
    }

    /** MatchAt is the only tick after the write, up to and including itself, at which the register's value shows. */
    lemma MatchIsFirst(t: nat)
      requires Valid() && writes != [] && SetAt() < t <= MatchAt()
      ensures t % modulus == compare <==> t == MatchAt()
    {
      var m := modulus;
      AheadShows(m, SetAt(), compare);
      if t < MatchAt() {
        FirstMatch(m, SetAt(), MatchAt(), t);
      }
    }

    /** A tick that shows the register's value less than a turn after the write is the match. */
    lemma MatchIs(t: nat)
      requires Valid() && writes != [] && SetAt() < t <= SetAt() + modulus && t % modulus == compare
      ensures MatchAt() == t
    {
      AheadOf(modulus, SetAt(), t - SetAt());
    }
  }

  lemma AheadShows(m: nat, base: nat, to: nat)
    requires to < m
    ensures (base + Ahead(m, base % m, to)) % m == to
  {
    DivMod(base, m);
    TickAfter(m, base / m, base % m, Ahead(m, base % m, to));
  }
}
