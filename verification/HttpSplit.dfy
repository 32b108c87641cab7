/** When the way an input is cut into calls makes no difference, and exactly when it does. */
module HttpSplit {
  import opened HttpBytes
  import opened HttpParserState
  import opened HttpTrace
  import opened HttpRun
  import opened HttpInvariants
  import opened HttpBatches

  /** The same outcome for the caller: parser state, bytes consumed and, unless the parser failed, the same
      callbacks up to merging. `nread` is not compared: it counts one byte more per cut inside a header. */
  predicate Same(a: Conn, b: Conn) {
    && a.p == b.p && a.pos == b.pos
    && (a.p.errno == Ok ==> a.trace == b.trace)
  }

  // ----- the condition, one pass over the input -----------------------------------------------

  /** The largest header count any cut can reach: every byte of a name or value counts twice. */
  function Worst(c: Conn, worst: nat, ch: byte): nat {
    if Transition(c.p, ch, c.skip).reset then 0
    else if !ParsingHeader(c.p.state) then worst
    else if LoopByte(c.p, ch) then worst + 2
    else worst + 1
  }

  /** A byte the jump to the next CR or LF passes over is a header character, the largest count is within the
      limit, and the message does not end in an upgrade. */
  predicate RobustByte(c: Conn, worst: nat, ch: byte) {
    && (c.skip && Skipping(c.p, ch) ==> IsHeaderChar(ch))
    && (ParsingHeader(c.p.state) ==> worst + 1 <= HTTP_MAX_HEADER_SIZE)
    && (LoopByte(c.p, ch) && Step(c, ch).p.errno == Ok ==> worst + 2 <= HTTP_MAX_HEADER_SIZE)
    && !Step(c, ch).exited
  }

  predicate Robust(c: Conn, worst: nat, data: seq<byte>)
    decreases |data|
  {
    data == [] || Stopped(c)
    || (RobustByte(c, worst, data[0]) && Robust(Step(c, data[0]), Worst(c, worst, data[0]), data[1..]))
  }

  // ----- two runs over the same bytes, the second one cut more often ---------------------------

  ghost predicate Rel(c1: Conn, c2: Conn, worst: nat) {
    && c1.p == c2.p && Full(c1) == Full(c2) && c1.pos == c2.pos
    && Good(c1) && Good(c2) && !Stopped(c1) && !Stopped(c2)
    && (c2.skip ==> c1.skip)
    && c1.nread <= c2.nread
    && c1.nread + (if c1.inLoop then 1 else 0) <= worst
    && c2.nread + (if c2.inLoop then 1 else 0) <= worst
    && (c1.inLoop || c2.inLoop ==> worst <= HTTP_MAX_HEADER_SIZE)
  }

  lemma SkipIrrelevant(p: Parser, ch: byte)
    requires Skipping(p, ch) ==> IsHeaderChar(ch)
    ensures Transition(p, ch, true) == Transition(p, ch, false)
  {
  }

  lemma StepRel(c1: Conn, c2: Conn, worst: nat, ch: byte)
    requires Rel(c1, c2, worst) && RobustByte(c1, worst, ch)
    ensures var d1, d2 := Step(c1, ch), Step(c2, ch);
      if d1.p.errno == Ok then Rel(d1, d2, Worst(c1, worst, ch)) else d1.p == d2.p && d1.pos == d2.pos
  {
    if c1.skip && !c2.skip {
      SkipIrrelevant(c1.p, ch);
    }
    TransitionResets(c1.p, ch, c1.skip);
    StepGood(c1, ch);
    StepGood(c2, ch);
  }

  function WorstRun(c: Conn, worst: nat, data: seq<byte>): nat
    decreases |data|
  {
    if data == [] || Stopped(c) then worst else WorstRun(Step(c, data[0]), Worst(c, worst, data[0]), data[1..])
  }

  lemma {:induction false} RunRel(c1: Conn, c2: Conn, worst: nat, a: seq<byte>, b: seq<byte>)
    requires Rel(c1, c2, worst) && Robust(c1, worst, a + b)
    ensures var d1, d2, w := Run(c1, a), Run(c2, a), WorstRun(c1, worst, a);
      if d1.p.errno == Ok then Rel(d1, d2, w) && Robust(d1, w, b) else d1.p == d2.p && d1.pos == d2.pos
    decreases |a|
  {
    if a == [] {
      assert a + b == b;
    } else {
      var ch := a[0];
      assert (a + b)[0] == ch && (a + b)[1..] == a[1..] + b;
      StepRel(c1, c2, worst, ch);
      if Step(c1, ch).p.errno == Ok {
        RunRel(Step(c1, ch), Step(c2, ch), Worst(c1, worst, ch), a[1..], b);
      }
    }
  }

  /** Ending a call and entering the next one is invisible to the run that does not stop here. */
  lemma CutRel(c1: Conn, c2: Conn, worst: nat)
    requires Rel(c1, c2, worst)
    ensures Resting(End(c2)) && End(c2).p.errno == Ok && Rel(c1, Begin(End(c2)), worst)
    ensures End(c2).nread == c2.nread + (if c2.inLoop then 1 else 0)
  {
    BeginGood(End(c2));
  }

  lemma EndSame(c1: Conn, c2: Conn, worst: nat)
    requires Resting(c2) && Rel(c1, Begin(c2), worst)
    ensures Same(End(c1), c2)
  {
    BeginGood(c2);
  }

  lemma {:induction false} CallsRel(c1: Conn, c2: Conn, worst: nat, pieces: seq<seq<byte>>)
    requires Resting(c2) && c2.p.errno == Ok && Rel(c1, Begin(c2), worst) && Robust(c1, worst, Concat(pieces))
    ensures Same(End(Run(c1, Concat(pieces))), Calls(c2, pieces))
    ensures !c2.exited && Calls(c2, pieces).p.errno == Ok ==> !Calls(c2, pieces).exited
    decreases |pieces|
  {
    if pieces == [] {
      EndSame(c1, c2, worst);
    } else {
      var a, b := pieces[0], Concat(pieces[1..]);
      RunRel(c1, Begin(c2), worst, a, b);
      RunAppend(c1, a, b);
      var d1, d2 := Run(c1, a), Run(Begin(c2), a);
      if d1.p.errno == Ok {
        CutRel(d1, d2, WorstRun(c1, worst, a));
        CallsRel(d1, End(d2), WorstRun(c1, worst, a), pieces[1..]);
      } else {
        CallsStuck(End(d2), pieces[1..]);
      }
    }
  }

  lemma BeginRel(c: Conn)
    requires Resting(c) && c.p.errno == Ok
    ensures Rel(Begin(c), Begin(c), c.nread)
  {
    BeginGood(c);
  }

  /** Feeding `data` in any pieces is the same as feeding it in one call. */
  lemma CutIndependence(c: Conn, pieces: seq<seq<byte>>)
    requires Resting(c) && c.p.errno == Ok
    requires Robust(Begin(c), c.nread, Concat(pieces))
    ensures Same(Call(c, Concat(pieces)), Calls(c, pieces))
    ensures !c.exited && Calls(c, pieces).p.errno == Ok ==> !Calls(c, pieces).exited
  {
    BeginRel(c);
    CallsRel(Begin(c), c, c.nread, pieces);
  }

  // ----- the converse: byte by byte is the worst cut ------------------------------------------

  function Singletons(data: seq<byte>): (pieces: seq<seq<byte>>)
    ensures NonEmpty(pieces) && Concat(pieces) == data
  {
    if data == [] then []
    else
      var rest := Singletons(data[1..]);
      assert ([[data[0]]] + rest)[1..] == rest;
      [[data[0]]] + rest
  }

  lemma {:induction false} RunPos(c: Conn, data: seq<byte>)
    ensures Run(c, data).pos >= c.pos
    decreases |data|
  {
    if data != [] && !Stopped(c) {
      RunPos(Step(c, data[0]), data[1..]);
    }
  }

  lemma InvalidByteStep(p: Parser, ch: byte)
    requires Skipping(p, ch) && !IsHeaderChar(ch) && p.errno == Ok
    ensures Transition(p, ch, true).p.errno == Ok
    ensures Transition(p, ch, false).p == p.(errno := InvalidHeaderToken)
  {
  }

  /** A byte that is not robust is where a parser fed byte by byte parts from one that is not: it stops there,
      while the other goes on or stops for another reason. */
  lemma FragileByte(c1: Conn, c2: Conn, worst: nat, ch: byte)
    requires Resting(c2) && Rel(c1, Begin(c2), worst) && c2.nread == worst
    requires !RobustByte(c1, worst, ch) && !Step(c1, ch).exited && Step(c1, ch).p.errno != HeaderOverflow
    ensures var d1, d2 := Step(c1, ch), Step(Begin(c2), ch);
      || d2.p.errno == HeaderOverflow
      || (d2.p.errno == Ok && !d2.exited && End(d2).p.errno == HeaderOverflow)
      || (d2.p.errno == InvalidHeaderToken && d2.pos < d1.pos)
  {
    var b2 := Begin(c2);
    var d1, d2 := Step(c1, ch), Step(b2, ch);
    if ParsingHeader(c1.p.state) && worst + 1 > HTTP_MAX_HEADER_SIZE {
    } else if c1.skip && Skipping(c1.p, ch) && !IsHeaderChar(ch) {
      InvalidByteStep(c1.p, ch);
    } else {
      assert LoopByte(c1.p, ch) && d1.p.errno == Ok && worst + 2 > HTTP_MAX_HEADER_SIZE;
      if c1.skip {
        SkipIrrelevant(c1.p, ch);
      }
      TransitionResets(c1.p, ch, c1.skip);
    }
  }

  lemma FragilePiece(c1: Conn, c2: Conn, worst: nat, data: seq<byte>)
    requires Resting(c2) && Rel(c1, Begin(c2), worst) && c2.nread == worst
    requires data != [] && !RobustByte(c1, worst, data[0])
    requires !Run(c1, data).exited && Run(c1, data).p.errno != HeaderOverflow
    ensures var r := Call(c2, [data[0]]);
      r.p.errno != Ok && (r.pos != Run(c1, data).pos || r.p.errno != Run(c1, data).p.errno)
  {
    var ch := data[0];
    assert Run(c1, data) == Run(Step(c1, ch), data[1..]);
    RunSingle(Begin(c2), ch);
    RunPos(Step(c1, ch), data[1..]);
    FragileByte(c1, c2, worst, ch);
  }

  lemma {:induction false} FragileRun(c1: Conn, c2: Conn, worst: nat, data: seq<byte>)
    requires Resting(c2) && c2.p.errno == Ok && Rel(c1, Begin(c2), worst) && c2.nread == worst
    requires !Robust(c1, worst, data)
    requires !Run(c1, data).exited && Run(c1, data).p.errno != HeaderOverflow
    ensures var r := Calls(c2, Singletons(data));
      r.p.errno != Ok && (r.pos != Run(c1, data).pos || r.p.errno != Run(c1, data).p.errno)
    decreases |data|
  {
    var ch, b2, pieces := data[0], Begin(c2), Singletons(data);
    assert pieces[0] == [ch] && pieces[1..] == Singletons(data[1..]);
    if RobustByte(c1, worst, ch) {
      StepRel(c1, b2, worst, ch);
      var d1, d2 := Step(c1, ch), Step(b2, ch);
      RunSingle(b2, ch);
      CutRel(d1, d2, Worst(c1, worst, ch));
      FragileStepCount(c1, b2, worst, ch);
      FragileRun(d1, End(d2), Worst(c1, worst, ch), data[1..]);
    } else {
      FragilePiece(c1, c2, worst, data);
      CallsStuck(Call(c2, [ch]), pieces[1..]);
    }
  }

  lemma FragileStepCount(c1: Conn, c2: Conn, worst: nat, ch: byte)
    requires Rel(c1, c2, worst) && RobustByte(c1, worst, ch) && c2.nread == worst && !c2.skip
    requires Step(c1, ch).p.errno == Ok
    ensures var d2 := Step(c2, ch); d2.nread + (if d2.inLoop then 1 else 0) == Worst(c1, worst, ch)
  {
    if c1.skip {
      SkipIrrelevant(c1.p, ch);
    }
    StepLoop(c2, ch);
    TransitionResets(c1.p, ch, c1.skip);
  }

  lemma TransitionResets(p: Parser, ch: byte, skip: bool)
    ensures Transition(p, ch, skip).reset ==> !LoopByte(p, ch)
    ensures LoopByte(p, ch) ==> ParsingHeader(p.state)
  {
  }

  /** Without an upgrade or a header over the limit, every way of cutting the input agrees with one call if and
      only if the input is robust. */
  lemma CutIndependenceExact(c: Conn, data: seq<byte>)
    requires Resting(c) && c.p.errno == Ok
    requires !Run(Begin(c), data).exited && Call(c, data).p.errno != HeaderOverflow
    ensures Robust(Begin(c), c.nread, data)
            <==> forall pieces | NonEmpty(pieces) && Concat(pieces) == data :: Same(Call(c, data), Calls(c, pieces))
  {
    if Robust(Begin(c), c.nread, data) {
      forall pieces | NonEmpty(pieces) && Concat(pieces) == data
        ensures Same(Call(c, data), Calls(c, pieces))
      {
        CutIndependence(c, pieces);
      }
    } else {
      BeginRel(c);
      FragileRun(Begin(c), c, c.nread, data);
      assert !Same(Call(c, data), Calls(c, Singletons(data)));
    }
  }

  // ----- any cut, robust or not ----------------------------------------------------------------

  /** A run over the bytes in one call and a run over the same bytes cut: the second has counted at least as many
      bytes and checks at least as many. */
  ghost predicate Below(c1: Conn, c2: Conn) {
    && c1.p == c2.p && Full(c1) == Full(c2) && c1.pos == c2.pos
    && Good(c1) && Good(c2) && !Stopped(c1) && !Stopped(c2)
    && (c2.skip ==> c1.skip)
    && c1.nread <= c2.nread
    && c1.nread + (if c1.inLoop then 1 else 0) <= c2.nread + (if c2.inLoop then 1 else 0)
  }

  lemma StepBelow(c1: Conn, c2: Conn, ch: byte)
    requires Below(c1, c2) && Step(c2, ch).p.errno == Ok && !Step(c1, ch).exited
    ensures Below(Step(c1, ch), Step(c2, ch))
  {
    if c1.skip && !c2.skip {
      CheckedByte(c1.p, ch);
    }
    TransitionResets(c1.p, ch, c1.skip);
    StepGood(c1, ch);
    StepGood(c2, ch);
  }

  /** A byte that passes the check is treated alike where the check is skipped. */
  lemma CheckedByte(p: Parser, ch: byte)
    requires p.errno == Ok && Transition(p, ch, false).p.errno == Ok
    ensures Transition(p, ch, true) == Transition(p, ch, false)
  {
  }

  lemma {:induction false} RunBelow(c1: Conn, c2: Conn, a: seq<byte>)
    requires Below(c1, c2) && Run(c2, a).p.errno == Ok && !Run(c1, a).exited
    ensures Below(Run(c1, a), Run(c2, a))
    decreases |a|
  {
    if a != [] {
      var ch := a[0];
      if Step(c2, ch).p.errno == Ok {
        StepBelow(c1, c2, ch);
        RunBelow(Step(c1, ch), Step(c2, ch), a[1..]);
      }
    }
  }

  lemma {:induction false} ExitStays(c: Conn, a: seq<byte>, b: seq<byte>)
    requires !Run(c, a + b).exited
    ensures !Run(c, a).exited
  {
    RunAppend(c, a, b);
  }

  lemma CutBelow(c1: Conn, c2: Conn)
    requires Below(c1, c2) && End(c2).p.errno == Ok
    ensures Resting(End(c2)) && Below(c1, Begin(End(c2)))
  {
    BeginGood(End(c2));
  }

  lemma EndBelow(c1: Conn, c2: Conn)
    requires Resting(c2) && Below(c1, Begin(c2)) && c2.nread <= HTTP_MAX_HEADER_SIZE
    ensures End(c1).p.errno == Ok && Same(End(c1), c2)
  {
    BeginGood(c2);
  }

  lemma {:induction false} CallsBelow(c1: Conn, c2: Conn, pieces: seq<seq<byte>>)
    requires Resting(c2) && c2.p.errno == Ok && Below(c1, Begin(c2)) && c2.nread <= HTTP_MAX_HEADER_SIZE
    requires !Run(c1, Concat(pieces)).exited && Calls(c2, pieces).p.errno == Ok
    ensures var d := End(Run(c1, Concat(pieces))); d.p.errno == Ok && Same(d, Calls(c2, pieces))
    decreases |pieces|
  {
    if pieces == [] {
      EndBelow(c1, c2);
    } else {
      var a, b := pieces[0], Concat(pieces[1..]);
      var d2 := Run(Begin(c2), a);
      if End(d2).p.errno != Ok {
        CallsStuck(End(d2), pieces[1..]);
      }
      ExitStays(c1, a, b);
      RunAppend(c1, a, b);
      RunBelow(c1, Begin(c2), a);
      RunCount(Begin(c2), a);
      CutBelow(Run(c1, a), d2);
      CallsBelow(Run(c1, a), End(d2), pieces[1..]);
    }
  }

  /** A parser without an error is within the header limit. */
  lemma {:induction false} RunCount(c: Conn, data: seq<byte>)
    requires c.nread <= HTTP_MAX_HEADER_SIZE
    ensures Run(c, data).p.errno == Ok ==> Run(c, data).nread <= HTTP_MAX_HEADER_SIZE
    decreases |data|
  {
    if data != [] && !Stopped(c) && Step(c, data[0]).p.errno == Ok {
      RunCount(Step(c, data[0]), data[1..]);
    }
  }

  /** Whatever the input, short of an upgrade: what is accepted in some pieces is accepted whole, with the same
      outcome; so what is refused whole, for whatever reason, is refused in any pieces. */
  lemma AcceptedInPieces(c: Conn, pieces: seq<seq<byte>>)
    requires Resting(c) && c.p.errno == Ok && c.nread <= HTTP_MAX_HEADER_SIZE
    requires !Run(Begin(c), Concat(pieces)).exited && Calls(c, pieces).p.errno == Ok
    ensures var d := Call(c, Concat(pieces)); d.p.errno == Ok && Same(d, Calls(c, pieces))
  {
    BeginGood(c);
    CallsBelow(Begin(c), c, pieces);
  }

  lemma {:induction false} RobustPrefix(c: Conn, worst: nat, a: seq<byte>, b: seq<byte>)
    requires Robust(c, worst, a + b)
    ensures Robust(c, worst, a)
    decreases |a|
  {
    if a != [] && !Stopped(c) {
      assert (a + b)[0] == a[0] && (a + b)[1..] == a[1..] + b;
      RobustPrefix(Step(c, a[0]), Worst(c, worst, a[0]), a[1..], b);
    }
  }

  /** A robust input does not reach the header limit. */
  lemma {:induction false} RobustNoOverflow(c: Conn, worst: nat, data: seq<byte>)
    requires Robust(c, worst, data) && c.p.errno == Ok && c.nread + (if c.inLoop then 1 else 0) <= worst
    requires c.inLoop ==> worst <= HTTP_MAX_HEADER_SIZE
    ensures End(Run(c, data)).p.errno != HeaderOverflow
    decreases |data|
  {
    if data != [] && !Stopped(c) {
      TransitionResets(c.p, data[0], c.skip);
      NoOverflowByte(c.p, data[0], c.skip);
      if Step(c, data[0]).p.errno == Ok {
        RobustNoOverflow(Step(c, data[0]), Worst(c, worst, data[0]), data[1..]);
      }
    }
  }

  lemma NoOverflowByte(p: Parser, ch: byte, skip: bool)
    requires p.errno == Ok
    ensures Transition(p, ch, skip).p.errno != HeaderOverflow
  {
    hide HeaderTransition;
    hide BodyTransition;
    hide StartLineTransition;
    if HeaderState(p.state) {
      NoOverflowHeader(p, ch, skip);
    } else if BodyState(p.state) {
      NoOverflowBody(p, ch);
    } else {
      NoOverflowLine(p, ch);
    }
  }

  lemma NoOverflowHeader(p: Parser, ch: byte, skip: bool)
    requires p.errno == Ok && HeaderState(p.state)
    ensures HeaderTransition(p, ch, skip).p.errno != HeaderOverflow
  {
  }

  lemma NoOverflowBody(p: Parser, ch: byte)
    requires p.errno == Ok && BodyState(p.state)
    ensures BodyTransition(p, ch).p.errno != HeaderOverflow
  {
  }

  lemma NoOverflowLine(p: Parser, ch: byte)
    requires p.errno == Ok && !HeaderState(p.state) && !BodyState(p.state)
    ensures StartLineTransition(p, ch).p.errno != HeaderOverflow
  {
  }

  /** A sufficient condition on the bytes alone: header characters only, and short enough that no cut can reach
      the header limit. */
  lemma {:induction false} PlainIsRobust(c: Conn, worst: nat, data: seq<byte>)
    requires forall i :: 0 <= i < |data| ==> IsHeaderChar(data[i])
    requires worst + 2 * |data| <= HTTP_MAX_HEADER_SIZE && !Run(c, data).exited
    ensures Robust(c, worst, data)
    decreases |data|
  {
    if data != [] && !Stopped(c) {
      PlainIsRobust(Step(c, data[0]), Worst(c, worst, data[0]), data[1..]);
    }
  }
}
