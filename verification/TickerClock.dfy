/** Which ticks a ticker counts: every moment at which it looks at the counter, suspends or resumes accounts for the
  * ticks since the moment before. */
module TickerClock {

  datatype Moment = Read(at: nat) | Suspended(at: nat) | Resumed(at: nat)

  /** Up to `last`: ticks counted, ticks dropped while suspended, and ticks dropped although the ticker was running,
    * between its last reading and its suspension or a second resumption. */
  datatype Clock = Clock(last: int, counted: int, paused: int, lost: int, suspended: bool)

  function Started(begun: nat): Clock {
    Clock(begun, 0, 0, 0, false)
  }

  function NextClock(c: Clock, m: Moment): Clock {
    var span := m.at - c.last;
    match m
    case Read(at) => c.(last := at, counted := c.counted + span)
    case Suspended(at) => Dropping(c, span).(last := at, suspended := true)
    case Resumed(at) => Dropping(c, span).(last := at, suspended := false)
  }

  function Dropping(c: Clock, span: int): Clock {
    if c.suspended then c.(paused := c.paused + span) else c.(lost := c.lost + span)
  }

  function ClockAfter(c: Clock, moments: seq<Moment>): Clock {
    if moments == [] then c else NextClock(ClockAfter(c, moments[..|moments| - 1]), moments[|moments| - 1])
  }

  lemma AfterOne(c: Clock, moments: seq<Moment>, m: Moment)
    ensures ClockAfter(c, moments + [m]) == NextClock(ClockAfter(c, moments), m)
  {
    assert (moments + [m])[..|moments|] == moments;
  }

  /** The moments follow each other in time. */
  ghost predicate InOrder(c: Clock, moments: seq<Moment>) {
    forall i :: 0 <= i < |moments| ==> ClockAfter(c, moments[..i]).last <= moments[i].at
  }

  /** Every tick is counted, dropped while suspended, or lost: nothing else happens to it, and none twice. */
  lemma {:induction false} Conserved(begun: nat, moments: seq<Moment>)
    ensures var c := ClockAfter(Started(begun), moments); begun + c.counted + c.paused + c.lost == c.last
  {
    if moments != [] {
      Conserved(begun, moments[..|moments| - 1]);
    }
  }

  lemma InOrderOne(c: Clock, moments: seq<Moment>, m: Moment)
    requires InOrder(c, moments) && ClockAfter(c, moments).last <= m.at
    ensures InOrder(c, moments + [m]) && ClockAfter(c, moments + [m]) == NextClock(ClockAfter(c, moments), m)
  {
    var more := moments + [m];
    AfterOne(c, moments, m);
    forall i | 0 <= i < |more| ensures ClockAfter(c, more[..i]).last <= more[i].at {
      assert more[..i] == moments[..i];
      assert moments[..|moments|] == moments;
    }
  }

  /** A clock that has come through these moments has counted so much and last looked at the counter at `last`. */
  ghost predicate Clocked(begun: nat, moments: seq<Moment>, last: nat, counted: nat, suspended: bool) {
    var c := ClockAfter(Started(begun), moments);
    InOrder(Started(begun), moments) && c.last == last && c.counted == counted && c.suspended == suspended
  }

  lemma ClockStarts(begun: nat)
    ensures Clocked(begun, [], begun, 0, false)
  {
  }

  lemma ClockReads(begun: nat, moments: seq<Moment>, last: nat, counted: nat, at: nat)
    requires Clocked(begun, moments, last, counted, false) && last <= at
    ensures Clocked(begun, moments + [Read(at)], at, counted + (at - last), false)
  {
    InOrderOne(Started(begun), moments, Read(at));
  }

  lemma ClockSuspends(begun: nat, moments: seq<Moment>, last: nat, counted: nat, suspended: bool, at: nat)
    requires Clocked(begun, moments, last, counted, suspended) && last <= at
    ensures Clocked(begun, moments + [Suspended(at)], at, counted, true)
  {
    InOrderOne(Started(begun), moments, Suspended(at));
  }

  lemma ClockResumes(begun: nat, moments: seq<Moment>, last: nat, counted: nat, suspended: bool, at: nat)
    requires Clocked(begun, moments, last, counted, suspended) && last <= at
    ensures Clocked(begun, moments + [Resumed(at)], at, counted, false)
  {
    InOrderOne(Started(begun), moments, Resumed(at));
  }

  /** A running ticker is suspended, or resumed again, only at the very tick it last looked at. */
  ghost predicate Prompt(c: Clock, moments: seq<Moment>) {
    forall i :: 0 <= i < |moments| ==>
      moments[i].Read? || ClockAfter(c, moments[..i]).suspended || ClockAfter(c, moments[..i]).last == moments[i].at
  }

  /** The ticks a ticker does not count are those of its suspensions exactly if it is suspended promptly. */
  lemma {:induction false} LostExact(c: Clock, moments: seq<Moment>)
    requires InOrder(c, moments)
    ensures ClockAfter(c, moments).lost >= c.lost
    ensures ClockAfter(c, moments).lost == c.lost <==> Prompt(c, moments)
    decreases |moments|
  {
    if moments != [] {
      var n := |moments| - 1;
      var init, m := moments[..n], moments[n];
      assert forall i :: 0 <= i <= n ==> init[..i] == moments[..i];
      assert forall i :: 0 <= i < n ==> init[i] == moments[i];
      LostExact(c, init);
      assert Prompt(c, moments) <==>
             Prompt(c, init) && (m.Read? || ClockAfter(c, init).suspended || ClockAfter(c, init).last == m.at);
    }
  }

  /** Read at 5, suspended at 9, resumed at 20: four ticks during which the ticker ran are never counted. */
  lemma SuspendLoses()
    ensures ClockAfter(Started(0), [Read(5), Suspended(9), Resumed(20)]) == Clock(20, 5, 11, 4, false)
  {
    assert [Read(5), Suspended(9), Resumed(20)] == [] + [Read(5)] + [Suspended(9)] + [Resumed(20)];
    AfterOne(Started(0), [], Read(5));
    AfterOne(Started(0), [] + [Read(5)], Suspended(9));
    AfterOne(Started(0), [] + [Read(5)] + [Suspended(9)], Resumed(20));
  }

  /** Only readings. */
  predicate OnlyReads(moments: seq<Moment>) {
    forall i :: 0 <= i < |moments| ==> moments[i].Read?
  }

  /** Only readings have been added. */
  predicate MoreReads(before: seq<Moment>, after: seq<Moment>) {
    before <= after && OnlyReads(after[|before|..])
  }

  lemma NoReads(moments: seq<Moment>)
    ensures MoreReads(moments, moments)
  {
  }

  lemma OneRead(moments: seq<Moment>, at: nat)
    ensures MoreReads(moments, moments + [Read(at)])
  {
  }

  lemma MoreReadsThen(a: seq<Moment>, b: seq<Moment>, c: seq<Moment>)
    requires MoreReads(a, b) && MoreReads(b, c)
    ensures MoreReads(a, c)
  {
    forall i | 0 <= i < |c[|a|..]| ensures c[|a|..][i].Read? {
      assert c[|a|..][i] == if i < |b| - |a| then b[|a|..][i] else c[|b|..][i - (|b| - |a|)];
    }
  }

  /** Between suspensions the count advances exactly as the counter does, however often it is read. */
  lemma {:induction false} ReadsCountAll(c: Clock, moments: seq<Moment>)
    requires OnlyReads(moments)
    ensures var d := ClockAfter(c, moments);
      && d.counted - c.counted == d.last - c.last
      && d.paused == c.paused && d.lost == c.lost && d.suspended == c.suspended
    decreases |moments|
  {
    if moments != [] {
      ReadsCountAll(c, moments[..|moments| - 1]);
    }
  }

  lemma {:induction false} AfterMore(c: Clock, a: seq<Moment>, b: seq<Moment>)
    ensures ClockAfter(c, a + b) == ClockAfter(ClockAfter(c, a), b)
    decreases |b|
  {
    if b == [] {
      assert a + b == a;
    } else {
      var n := |b| - 1;
      assert (a + b)[..|a + b| - 1] == a + b[..n];
      AfterMore(c, a, b[..n]);
    }
  }

  /** The same for a part of a run. */
  lemma MoreReadsCountAll(c: Clock, before: seq<Moment>, after: seq<Moment>)
    requires MoreReads(before, after)
    ensures var x, y := ClockAfter(c, before), ClockAfter(c, after);
      && y.counted - x.counted == y.last - x.last
      && y.paused == x.paused && y.lost == x.lost && y.suspended == x.suspended
    ensures Switches(after) == Switches(before)
  {
    assert after == before + after[|before|..];
    AfterMore(c, before, after[|before|..]);
    ReadsCountAll(ClockAfter(c, before), after[|before|..]);
    SwitchesMore(before, after[|before|..]);
    ReadsSwitchNothing(after[|before|..]);
  }

  lemma ClockedReads(begun: nat, before: seq<Moment>, last0: nat, counted0: nat, suspended0: bool,
                     after: seq<Moment>, last: nat, counted: nat, suspended: bool)
    requires Clocked(begun, before, last0, counted0, suspended0) && Clocked(begun, after, last, counted, suspended)
    requires MoreReads(before, after)
    ensures counted - counted0 == last - last0
  {
    MoreReadsCountAll(Started(begun), before, after);
  }

  /** The suspensions (true) and resumptions (false) among the moments. */
  function Switches(moments: seq<Moment>): seq<bool> {
    if moments == [] then []
    else
      var m := moments[|moments| - 1];
      Switches(moments[..|moments| - 1]) + (if m.Read? then [] else [m.Suspended?])
  }

  lemma {:induction false} SwitchesMore(a: seq<Moment>, b: seq<Moment>)
    ensures Switches(a + b) == Switches(a) + Switches(b)
    decreases |b|
  {
    if b == [] {
      assert a + b == a;
    } else {
      assert (a + b)[..|a + b| - 1] == a + b[..|b| - 1];
      SwitchesMore(a, b[..|b| - 1]);
    }
  }

  lemma {:induction false} ReadsSwitchNothing(moments: seq<Moment>)
    requires OnlyReads(moments)
    ensures Switches(moments) == []
    decreases |moments|
  {
    if moments != [] {
      ReadsSwitchNothing(moments[..|moments| - 1]);
    }
  }

  /** One switch, and whatever is read after it. */
  lemma SwitchThenReads(before: seq<Moment>, m: Moment, after: seq<Moment>)
    requires MoreReads(before + [m], after)
    ensures before <= after
    ensures Switches(after) == Switches(before) + (if m.Read? then [] else [m.Suspended?])
  {
    MoreReadsCountAll(Started(0), before + [m], after);
    OneSwitch(before, m);
    assert before <= before + [m] <= after;
  }

  lemma ReadsOnly(before: seq<Moment>, after: seq<Moment>)
    requires MoreReads(before, after)
    ensures before <= after && Switches(after) == Switches(before)
  {
    MoreReadsCountAll(Started(0), before, after);
  }

  lemma OneSwitch(moments: seq<Moment>, m: Moment)
    ensures Switches(moments + [m]) == Switches(moments) + (if m.Read? then [] else [m.Suspended?])
  {
    assert (moments + [m])[..|moments|] == moments;
  }
}
