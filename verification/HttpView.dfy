/** What an HttpResponse holds, read off the trace event by event, and that every trace of the parser is one it holds
    faithfully. */
module HttpView {
  import opened HttpBytes
  import opened HttpParserState
  import opened HttpTrace
  import opened HttpRun
  import opened HttpInvariants
  import opened HttpBatches
  import opened HttpConservation

  // ----- the trace, without the consumer ------------------------------------------------------

  /** The bytes of every event of this kind, in order. */
  function Selected(trace: seq<Event>, kind: Kind): seq<seq<byte>> {
    if trace == [] then []
    else
      var e := trace[|trace| - 1];
      Selected(trace[..|trace| - 1], kind) + (if e.Data? && e.kind == kind then [e.bytes] else [])
  }

  function Joined(items: seq<seq<byte>>): seq<byte> {
    if items == [] then [] else Joined(items[..|items| - 1]) + items[|items| - 1]
  }

  /** The code of the last status event, 0 without one. */
  function LastStatus(trace: seq<Event>): nat {
    if trace == [] then 0
    else
      var e := trace[|trace| - 1];
      if e.Data? && e.kind.Status? then e.kind.code else LastStatus(trace[..|trace| - 1])
  }

  predicate Completed(trace: seq<Event>) {
    Notify(MessageComplete) in trace
  }

  /** The last header datum: a name, a value, or none so far. */
  function LastHeader(trace: seq<Event>): Take {
    if trace == [] then NoByte
    else
      var e := trace[|trace| - 1];
      if e.Data? && (e.kind.Field? || e.kind.Value?) then TakeByte(e.kind) else LastHeader(trace[..|trace| - 1])
  }

  /** No two names without a value between them, and no two values without a name. */
  predicate Alternates(trace: seq<Event>) {
    trace == [] ||
    var e := trace[|trace| - 1];
    Alternates(trace[..|trace| - 1])
    && (e.Data? && (e.kind.Field? || e.kind.Value?) ==> LastHeader(trace[..|trace| - 1]) != TakeByte(e.kind))
  }

  /** The response shows the trace: every body byte in order, every name and value in order, the last status. */
  predicate Shows(r: Response, trace: seq<Event>) {
    && r.body == Joined(Selected(trace, Body)) && r.bodyLength == |r.body|
    && r.fields == Selected(trace, Field) && r.values == Selected(trace, Value)
    && r.statusCode == LastStatus(trace)
    && r.complete == Completed(trace)
  }

  predicate Concatenates(r: Response, trace: seq<Event>) {
    && (r.concatField <==> LastHeader(trace) == TakeByte(Field))
    && (r.concatValue <==> LastHeader(trace) == TakeByte(Value))
  }

  lemma {:induction false} ConsumerShows(trace: seq<Event>)
    requires Alternates(trace)
    ensures var r := ConsumeAll(NO_RESPONSE, trace); Shows(r, trace) && Concatenates(r, trace)
    decreases |trace|
  {
    if trace != [] {
      var n := |trace| - 1;
      ConsumerShows(trace[..n]);
      assert trace == trace[..n] + [trace[n]];
      ShowsOne(ConsumeAll(NO_RESPONSE, trace[..n]), trace[..n], trace[n]);
    }
  }

  lemma ShowsOne(r: Response, trace: seq<Event>, e: Event)
    requires Shows(r, trace) && Concatenates(r, trace) && Alternates(trace + [e])
    ensures Shows(Consume(r, e), trace + [e]) && Concatenates(Consume(r, e), trace + [e])
  {
    hide Selected;
    hide Joined;
    hide Completed;
    assert (trace + [e])[..|trace|] == trace;
    SelectedOne(trace, e, Body);
    SelectedOne(trace, e, Field);
    SelectedOne(trace, e, Value);
    CompletedOne(trace, e);
  }

  lemma CompletedOne(trace: seq<Event>, e: Event)
    ensures Completed(trace + [e]) <==> Completed(trace) || e == Notify(MessageComplete)
  {
  }

  lemma SelectedOne(trace: seq<Event>, e: Event, kind: Kind)
    ensures Selected(trace + [e], kind)
            == if e.Data? && e.kind == kind then Selected(trace, kind) + [e.bytes] else Selected(trace, kind)
    ensures e.Data? && e.kind == kind ==> Joined(Selected(trace + [e], kind)) == Joined(Selected(trace, kind)) + e.bytes
  {
    assert (trace + [e])[..|trace|] == trace;
    var s := Selected(trace, kind);
    assert s + [] == s;
    if e.Data? && e.kind == kind {
      assert (s + [e.bytes])[..|s|] == s;
    }
  }

  // ----- the traces of the parser -------------------------------------------------------------

  predicate HeaderKind(kind: Kind) {
    kind.Field? || kind.Value?
  }

  lemma EmitAlternates(trace: seq<Event>, kind: Kind, bytes: seq<byte>)
    requires Alternates(trace)
    requires HeaderKind(kind) ==> EndsIn(trace, kind) || LastHeader(trace) != TakeByte(kind)
    ensures Alternates(Emit(trace, kind, bytes)) && EndsIn(Emit(trace, kind, bytes), kind)
    ensures LastHeader(Emit(trace, kind, bytes)) == if HeaderKind(kind) then TakeByte(kind) else LastHeader(trace)
  {
    var n, next := |trace|, Emit(trace, kind, bytes);
    if EndsIn(trace, kind) {
      assert next[..|next| - 1] == trace[..n - 1];
    } else {
      assert next[..|next| - 1] == trace;
    }
  }

  lemma {:induction false} NotesAlternate(trace: seq<Event>, notes: seq<Note>)
    requires Alternates(trace)
    ensures Alternates(trace + Notes(notes)) && LastHeader(trace + Notes(notes)) == LastHeader(trace)
    decreases |notes|
  {
    var n := |notes|;
    if n == 0 {
      assert trace + Notes(notes) == trace;
    } else {
      NotesAlternate(trace, notes[..n - 1]);
      assert (trace + Notes(notes))[..|trace| + n - 1] == trace + Notes(notes[..n - 1]);
    }
  }

  /** What a byte may add to names and values, by the state it is read in. */
  predicate HeaderFx(p: Parser, out: Out) {
    var take := out.fx.take;
    && (out.fx.emptyValue ==> p.state.HeaderValueDiscardLws? && take != TakeByte(Value))
    && (take == TakeByte(Field) ==> p.state.HeaderField? || !NameOpen(p.state) || out.fx.emptyValue)
    && (take == TakeByte(Value) ==> (NameOpen(p.state) || ValueOpen(p.state)) && out.fx.notes == [])
    && (out.p.errno == Ok && ValueOpen(out.p.state) && take != TakeByte(Value) ==>
          ValueOpen(p.state) && take == NoByte && !out.fx.emptyValue && out.fx.notes == [])
  }

  lemma FieldStartFx(p: Parser, ch: byte)
    ensures var out := HeaderFieldStartByte(p, ch);
      && !out.fx.emptyValue && out.fx.take != TakeByte(Value)
      && (out.p.errno == Ok && p.errno == Ok ==> !ValueOpen(out.p.state))
  {
  }

  lemma HeaderTransitionFx(p: Parser, nread: nat, ch: byte, skip: bool)
    requires p.errno == Ok && Inv(p, nread) && HeaderState(p.state)
    ensures HeaderFx(p, HeaderTransition(p, ch, skip))
  {
    hide HeaderFieldStartByte;
    hide HeaderValueStartByte;
    hide HeadersAlmostDoneByte;
    hide ValueCharByte;
    hide NameByte;
    match p.state {
      case HeaderFieldStart => FieldStartFx(p, ch);
      case HeaderValueDiscardWs => StartFx(p, ch);
      case HeaderValueDiscardLws =>
        FieldStartFx(p.(flags := ValueEndFlags(p.flags, p.headerState), state := HeaderFieldStart), ch);
      case HeaderValueLws =>
        StartFx(p.(state := HeaderValueStart), ch);
        FieldStartFx(p.(flags := ValueEndFlags(p.flags, p.headerState), state := HeaderFieldStart), ch);
      case HeaderValue => if ch != CR && ch != LF { ValueByteFacts(p, ch, skip); }
      case HeadersAlmostDone => HeadersAlmostDonePaired(p, ch);
      case _ =>
    }
  }

  lemma StartFx(p: Parser, ch: byte)
    ensures var out := HeaderValueStartByte(p, ch);
      && !out.fx.emptyValue && (out.fx.take == NoByte || out.fx.take == TakeByte(Value)) && out.fx.notes == []
      && (out.p.errno == Ok && p.errno == Ok ==> out.fx.take == TakeByte(Value))
  {
  }

  lemma TransitionFx(p: Parser, nread: nat, ch: byte, skip: bool)
    requires p.errno == Ok && Inv(p, nread)
    ensures Transition(p, ch, skip).p.errno == Ok ==> HeaderFx(p, Transition(p, ch, skip))
  {
    hide HeaderTransition;
    hide BodyTransition;
    hide StartLineTransition;
    if HeaderState(p.state) {
      HeaderTransitionFx(p, nread, ch, skip);
    } else if BodyState(p.state) {
      BodyUnrelated(p, ch);
    } else {
      StartLineUnrelated(p, ch);
    }
  }

  /** Between two bytes: the trace alternates, and an open value is its last event. */
  ghost predicate Shown(c: Conn) {
    Alternates(Full(c)) && (ValueOpen(c.p.state) ==> EndsIn(Full(c), Value))
  }

  lemma PerformShown(full: seq<Event>, p: Parser, out: Out, ch: byte)
    requires Alternates(full) && (ValueOpen(p.state) ==> EndsIn(full, Value))
    requires HeaderFx(p, out) && out.p.errno == Ok
    requires NameOpen(p.state) <==> LastHeader(full) == TakeByte(Field)
    requires p.state.HeaderField? ==> EndsIn(full, Field)
    ensures var t := PerformFull(full, out.fx, ch);
      Alternates(t) && (ValueOpen(out.p.state) ==> EndsIn(t, Value))
  {
    hide Emit;
    var t1 := PerformEmpty(full, out.fx);
    if out.fx.emptyValue {
      EmitAlternates(full, Value, []);
    }
    var t2 := if out.fx.take.TakeByte? then Emit(t1, out.fx.take.kind, [ch]) else t1;
    if out.fx.take.TakeByte? {
      EmitAlternates(t1, out.fx.take.kind, [ch]);
    }
    NotesAlternate(t2, out.fx.notes);
    if out.fx.notes == [] {
      assert t2 + Notes([]) == t2;
    }
  }

  lemma StepShown(c: Conn, ch: byte)
    requires Good(c) && c.p.errno == Ok && Accounted(c) && Shown(c)
    ensures Step(c, ch).p.errno == Ok ==> Shown(Step(c, ch))
  {
    StepGood(c, ch);
    TransitionFx(c.p, c.nread, ch, c.skip);
    ConsumerShows(Full(c));
    StateKept(c, ch);
    if Step(c, ch).p.errno == Ok {
      PerformShown(Full(c), c.p, Transition(c.p, ch, c.skip), ch);
    }
  }

  lemma StateKept(c: Conn, ch: byte)
    ensures Step(c, ch).p.errno == Ok ==> Step(c, ch).p == Transition(c.p, ch, c.skip).p
  {
  }

  lemma {:induction false} RunShown(c: Conn, data: seq<byte>)
    requires Good(c) && Accounted(c) && Shown(c)
    ensures Run(c, data).p.errno == Ok ==> Shown(Run(c, data))
    decreases |data|
  {
    hide Step;
    hide Shown;
    hide Accounted;
    hide Good;
    if data != [] && !Stopped(c) {
      StepGood(c, data[0]);
      StepAccounted(c, data[0]);
      StepShown(c, data[0]);
      if Step(c, data[0]).p.errno == Ok {
        RunShown(Step(c, data[0]), data[1..]);
      }
    }
  }

  lemma CallShown(c: Conn, piece: seq<byte>)
    requires Resting(c) && c.p.errno == Ok && Accounted(c) && Shown(c)
    ensures Call(c, piece).p.errno == Ok ==> Accounted(Call(c, piece)) && Shown(Call(c, piece))
  {
    hide Run;
    BeginGood(c);
    RunGood(Begin(c), piece);
    RunAccounted(Begin(c), piece);
    RunShown(Begin(c), piece);
  }

  /** However the input is cut, as long as it is accepted the response shows it event by event: all body bytes, names
      and values in order, and the last status. */
  lemma {:induction false} CallsShown(c: Conn, pieces: seq<seq<byte>>)
    requires Resting(c) && c.p.errno == Ok && Accounted(c) && Shown(c)
    ensures var d := Calls(c, pieces);
      d.p.errno == Ok ==> Shown(d) && Accounted(d) && Shows(ConsumeAll(NO_RESPONSE, Full(d)), Full(d))
    decreases |pieces|
  {
    hide Run;
    hide Step;
    hide Shows;
    hide Shown;
    hide Call;
    hide Accounted;
    hide Resting;
    if pieces == [] {
      ShownShows(c);
    } else {
      var d := Call(c, pieces[0]);
      CallShown(c, pieces[0]);
      CallRests(c, pieces[0]);
      if d.p.errno == Ok {
        CallsShown(d, pieces[1..]);
      } else {
        CallsStuck(d, pieces[1..]);
      }
    }
  }

  lemma ShownShows(c: Conn)
    requires Shown(c)
    ensures Shows(ConsumeAll(NO_RESPONSE, Full(c)), Full(c))
  {
    ConsumerShows(Full(c));
  }

  lemma CallRests(c: Conn, piece: seq<byte>)
    requires Resting(c)
    ensures Call(c, piece).p.errno == Ok ==> Resting(Call(c, piece))
  {
    CallsRest(c, [piece]);
    assert [piece][1..] == [];
    assert Calls(Call(c, piece), []) == Call(c, piece);
  }

  /** The end of the stream adds at most the completion. */
  lemma EofShows(c: Conn)
    requires Shown(c) && c.mark.NoMark?
    ensures Shows(ConsumeAll(NO_RESPONSE, Eof(c).trace), Eof(c).trace)
  {
    hide Shows;
    hide ConsumeAll;
    hide Concatenates;
    NotesAlternate(c.trace, [MessageComplete]);
    assert Notes([MessageComplete]) == [Notify(MessageComplete)];
    ConsumerShows(c.trace);
    ConsumerShows(c.trace + [Notify(MessageComplete)]);
  }

  lemma StartShown()
    ensures Shown(START)
  {
    assert Full(START) == [];
  }
}
