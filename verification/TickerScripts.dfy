/** What handlers and clients ask of a ticker, and what that does to its queue. */
module TickerScripts {

  import opened TickerTime
  import opened TickerEvents

  /** One call a handler may make; a script lists the calls made by each handler invocation in turn. */
  datatype Call =
    | Insert(node: TickerEvent, timestamp: nat, id: nat)
    | Remove(target: TickerEvent)

  /** What may happen to a ticker between two calls of its handlers: time passes, its interrupt is handled, or a client
    * calls it. */
  datatype Step =
    | Waiting
    | Interrupt(script: seq<seq<Call>>)
    | Handling
    | Reading
    | InsertingUs(node: TickerEvent, timestamp: nat, id: nat)
    | Inserting(node: TickerEvent, timestamp: nat, id: nat)
    | Removing(target: TickerEvent)
    | Suspending
    | Resuming

  ghost predicate Within(calls: seq<Call>, pool: set<TickerEvent>) {
    forall c :: c in calls ==> (if c.Insert? then c.node else c.target) in pool
  }

  ghost predicate StepWithin(step: Step, pool: set<TickerEvent>) {
    match step
    case Interrupt(script) => forall calls :: calls in script ==> Within(calls, pool)
    case InsertingUs(node, _, _) => node in pool
    case Inserting(node, timestamp, _) => node in pool && timestamp < 0x1_0000_0000
    case Removing(target) => target in pool
    case _ => true
  }

  // ---------------------------------------------------------------- calls

  /** A call does what it says; only an event that is queued already is not inserted again. */
  ghost function CallActions(s: seq<Entry>, c: Call): seq<Action> {
    match c
    case Insert(node, timestamp, id) => if Queued(s, node) then [] else [Added(Entry(node, timestamp, id))]
    case Remove(target) => [Dropped(target)]
  }

  /** All the calls of one handler invocation. */
  ghost function Actions(s: seq<Entry>, calls: seq<Call>): seq<Action>
    decreases |calls|
  {
    if calls == [] then []
    else
      var before := Actions(s, calls[..|calls| - 1]);
      before + CallActions(Replay(s, before), calls[|calls| - 1])
  }

  lemma ActionsOne(s: seq<Entry>, calls: seq<Call>, i: nat)
    requires i < |calls|
    ensures var before := Actions(s, calls[..i]);
      Actions(s, calls[..i + 1]) == before + CallActions(Replay(s, before), calls[i])
  {
    assert calls[..i + 1][..i] == calls[..i];
  }

  lemma {:induction false} ActionsDispatchNothing(s: seq<Entry>, calls: seq<Call>)
    ensures forall a :: a in Actions(s, calls) ==> !a.Dispatched?
    decreases |calls|
  {
    if calls != [] {
      hide Replay;
      ActionsDispatchNothing(s, calls[..|calls| - 1]);
    }
  }

  // ---------------------------------------------------------------- one interrupt

  /** What handler invocation `i` calls; nothing beyond the end of the script. */
  function CallsOf(script: seq<seq<Call>>, i: nat): seq<Call> {
    if i < |script| then script[i] else []
  }

  /** Dispatching at these times: each time the head goes and its handler's calls are made. */
  ghost function Dispatching(s: seq<Entry>, times: seq<nat>, script: seq<seq<Call>>): seq<Action>
    decreases |times|
  {
    if times == [] then []
    else
      var n := |times| - 1;
      var before := Dispatching(s, times[..n], script);
      var left := Replay(s, before);
      if left == [] then before
      else
        var gone := before + [Dispatched(left[0], times[n])];
        gone + Actions(Replay(s, gone), CallsOf(script, n))
  }

  lemma DispatchingOne(s: seq<Entry>, times: seq<nat>, t: nat, script: seq<seq<Call>>)
    requires Replay(s, Dispatching(s, times, script)) != []
    ensures var before := Dispatching(s, times, script);
      var gone := before + [Dispatched(Replay(s, before)[0], t)];
      Dispatching(s, times + [t], script) == gone + Actions(Replay(s, gone), CallsOf(script, |times|))
  {
    assert (times + [t])[..|times|] == times;
  }

  lemma NothingDispatched(s: seq<Entry>, script: seq<seq<Call>>)
    ensures Dispatching(s, [], script) == []
  {
  }

  lemma NothingAsked(s: seq<Entry>)
    ensures Actions(s, []) == []
  {
  }

  /** Handlers that call nothing leave only dispatches. */
  lemma {:induction false} QuietHandlers(s: seq<Entry>, times: seq<nat>, script: seq<seq<Call>>)
    requires forall calls :: calls in script ==> calls == []
    ensures OnlyDispatches(Dispatching(s, times, script))
    decreases |times|
  {
    if times != [] {
      var n := |times| - 1;
      hide Replay;
      QuietHandlers(s, times[..n], script);
      assert n < |script| ==> script[n] in script;
      assert CallsOf(script, n) == [];
    }
  }

  // ---------------------------------------------------------------- a whole run

  /** What the steps of a run depend on and change. */
  datatype Stage = Stage(queue: seq<Entry>, handler: bool, suspended: bool, time: nat)

  /** What a step did to the queue, and the time after it. */
  datatype Outcome = Outcome(actions: seq<Action>, time: nat)

  /** Dispatching, at times no later than `time`, until nothing is left that was due at the beginning. */
  ghost predicate InterruptDid(g: Stage, script: seq<seq<Call>>, o: Outcome) {
    && (exists times :: o.actions == Dispatching(g.queue, times, script))
    && DispatchedBy(o.actions, o.time) && AllAfter(Replay(g.queue, o.actions), g.time)
  }

  /** An insertion at the next time with these lower 32 bits, as seen from some time during the step. */
  ghost predicate InsertedNext(g: Stage, node: TickerEvent, timestamp: nat, id: nat, o: Outcome) {
    timestamp < 0x1_0000_0000
    && exists ref :: g.time <= ref <= o.time
                     && o.actions == CallActions(g.queue, Insert(node, ConvertTimestamp(ref, timestamp), id))
  }

  /** What a step may do: exactly what was asked for; an interrupt dispatches, unless suspended. */
  ghost predicate Did(g: Stage, step: Step, o: Outcome) {
    && Legal(g.queue, o.actions) && g.time <= o.time
    && match step
       case Interrupt(script) =>
         if g.suspended then o.actions == [] else InterruptDid(g, if g.handler then script else [], o)
       case InsertingUs(node, timestamp, id) => o.actions == CallActions(g.queue, Insert(node, timestamp, id))
       case Inserting(node, timestamp, id) => InsertedNext(g, node, timestamp, id, o)
       case Removing(target) => o.actions == CallActions(g.queue, Remove(target))
       case _ => o.actions == []
  }

  lemma DidLegal(g: Stage, step: Step, o: Outcome)
    requires Did(g, step, o)
    ensures Legal(g.queue, o.actions)
  {
  }

  function NextStage(g: Stage, step: Step, o: Outcome): Stage {
    Stage(Replay(g.queue, o.actions), g.handler || step.Handling?,
          if step.Suspending? then true else if step.Resuming? then false else g.suspended, o.time)
  }

  function StageAfter(g: Stage, steps: seq<Step>, outcomes: seq<Outcome>): Stage
    requires |steps| == |outcomes|
    decreases |steps|
  {
    if steps == [] then g
    else
      var n := |steps| - 1;
      NextStage(StageAfter(g, steps[..n], outcomes[..n]), steps[n], outcomes[n])
  }

  /** Every step did its part, one after the other. */
  ghost predicate Happened(g: Stage, steps: seq<Step>, outcomes: seq<Outcome>)
    requires |steps| == |outcomes|
    decreases |steps|
  {
    steps == [] ||
    var n := |steps| - 1;
    Happened(g, steps[..n], outcomes[..n]) && Did(StageAfter(g, steps[..n], outcomes[..n]), steps[n], outcomes[n])
  }

  lemma NothingHappened(g: Stage)
    ensures Happened(g, [], []) && StageAfter(g, [], []) == g
  {
  }

  lemma HappenedOne(g: Stage, steps: seq<Step>, outcomes: seq<Outcome>, i: nat, o: Outcome)
    requires i < |steps| && |outcomes| == i && Happened(g, steps[..i], outcomes)
    requires Did(StageAfter(g, steps[..i], outcomes), steps[i], o)
    ensures Happened(g, steps[..i + 1], outcomes + [o])
    ensures StageAfter(g, steps[..i + 1], outcomes + [o])
         == NextStage(StageAfter(g, steps[..i], outcomes), steps[i], o)
  {
    assert steps[..i + 1][..i] == steps[..i] && (outcomes + [o])[..i] == outcomes;
  }

  /** The suspensions (true) and resumptions (false) among the steps. */
  function StepSwitches(steps: seq<Step>): seq<bool>
    decreases |steps|
  {
    if steps == [] then []
    else
      var step := steps[|steps| - 1];
      StepSwitches(steps[..|steps| - 1])
      + (if step.Suspending? then [true] else if step.Resuming? then [false] else [])
  }

  lemma NoSwitches()
    ensures StepSwitches([]) == []
  {
  }

  lemma OneStepSwitches(steps: seq<Step>, step: Step)
    ensures StepSwitches(steps + [step]) == StepSwitches(steps) + StepSwitches([step])
    ensures StepSwitches([step]) == if step.Suspending? then [true] else if step.Resuming? then [false] else []
  {
    assert (steps + [step])[..|steps|] == steps && [step][..0] == [];
    assert StepSwitches([]) == [];
  }

  /** Over a whole run, every event that was queued or inserted is queued still, or was dispatched, or was removed: one
    * of these, and once for every time it was inserted. */
  lemma {:induction false} RunKeepsEvents(g: Stage, steps: seq<Step>, outcomes: seq<Outcome>)
    requires |steps| == |outcomes| && Happened(g, steps, outcomes) && Distinct(g.queue) && Sorted(g.queue)
    ensures var d := StageAfter(g, steps, outcomes);
      && Sorted(d.queue) && Distinct(d.queue)
      && multiset(g.queue) + AllAdded(outcomes)
         == multiset(d.queue) + AllDispatched(outcomes) + AllDropped(g, steps, outcomes)
    decreases |steps|
  {
    if steps != [] {
      hide Sorted;
      hide Distinct;
      hide Replay;
      hide Legal;
      hide AddedOf;
      hide DispatchedOf;
      hide DroppedOf;
      hide Did;
      var n := |steps| - 1;
      var before := StageAfter(g, steps[..n], outcomes[..n]);
      RunKeepsEvents(g, steps[..n], outcomes[..n]);
      DidLegal(before, steps[n], outcomes[n]);
      EventsKept(before.queue, outcomes[n].actions);
      ReplayKeepsOrder(before.queue, outcomes[n].actions);
      Balance(multiset(g.queue), AllAdded(outcomes[..n]), multiset(before.queue), AllDispatched(outcomes[..n]),
              AllDropped(g, steps[..n], outcomes[..n]), AddedOf(outcomes[n].actions), multiset(Replay(before.queue, outcomes[n].actions)),
              DispatchedOf(outcomes[n].actions), DroppedOf(before.queue, outcomes[n].actions));
    }
  }

  function AllAdded(outcomes: seq<Outcome>): multiset<Entry> {
    if outcomes == [] then multiset{} else AllAdded(outcomes[..|outcomes| - 1]) + AddedOf(outcomes[|outcomes| - 1].actions)
  }

  function AllDispatched(outcomes: seq<Outcome>): multiset<Entry> {
    if outcomes == [] then multiset{} else AllDispatched(outcomes[..|outcomes| - 1]) + DispatchedOf(outcomes[|outcomes| - 1].actions)
  }

  function AllDropped(g: Stage, steps: seq<Step>, outcomes: seq<Outcome>): multiset<Entry>
    requires |steps| == |outcomes|
    decreases |steps|
  {
    if steps == [] then multiset{}
    else
      var n := |steps| - 1;
      AllDropped(g, steps[..n], outcomes[..n]) + DroppedOf(StageAfter(g, steps[..n], outcomes[..n]).queue, outcomes[n].actions)
  }
}
