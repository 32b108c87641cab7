/** What the callbacks of any run add up to: body bytes against announced lengths, header values against names. */
module HttpConservation {
  import opened HttpBytes
  import opened HttpParserState
  import opened HttpTrace
  import opened HttpRun
  import opened HttpInvariants
  import opened HttpBatches

  // ----- body bytes ---------------------------------------------------------------------------

  function BodyOf(e: Event): nat {
    if e.Data? && e.kind == Body then |e.bytes| else 0
  }

  /** Body bytes delivered. */
  function BodyBytes(trace: seq<Event>): nat {
    if trace == [] then 0 else BodyBytes(trace[..|trace| - 1]) + BodyOf(trace[|trace| - 1])
  }

  function DueOf(e: Event): nat {
    if e.Notify? && e.note.HeadersComplete? then e.note.due
    else if e.Notify? && e.note.ChunkHeader? then e.note.length
    else 0
  }

  /** Body bytes announced, by Content-Length or by chunk sizes. */
  function Announced(trace: seq<Event>): nat {
    if trace == [] then 0 else Announced(trace[..|trace| - 1]) + DueOf(trace[|trace| - 1])
  }

  lemma SumsSnoc(trace: seq<Event>, e: Event)
    ensures BodyBytes(trace + [e]) == BodyBytes(trace) + BodyOf(e)
    ensures Announced(trace + [e]) == Announced(trace) + DueOf(e)
  {
    assert (trace + [e])[..|trace|] == trace;
  }

  lemma SumsEmit(trace: seq<Event>, kind: Kind, bytes: seq<byte>)
    ensures BodyBytes(Emit(trace, kind, bytes)) == BodyBytes(trace) + if kind == Body then |bytes| else 0
    ensures Announced(Emit(trace, kind, bytes)) == Announced(trace)
  {
    var n := |trace|;
    if EndsIn(trace, kind) {
      assert trace == trace[..n - 1] + [trace[n - 1]];
      SumsSnoc(trace[..n - 1], trace[n - 1]);
      SumsSnoc(trace[..n - 1], Data(kind, trace[n - 1].bytes + bytes));
    } else {
      SumsSnoc(trace, Data(kind, bytes));
    }
  }

  function DueOfNotes(notes: seq<Note>): nat {
    if notes == [] then 0 else DueOf(Notify(notes[0])) + DueOfNotes(notes[1..])
  }

  lemma {:induction false} SumsNotes(trace: seq<Event>, notes: seq<Note>)
    ensures BodyBytes(trace + Notes(notes)) == BodyBytes(trace)
    ensures Announced(trace + Notes(notes)) == Announced(trace) + DueOfNotes(notes)
    decreases |notes|
  {
    if notes == [] {
      assert trace + Notes(notes) == trace;
    } else {
      var e := Notify(notes[0]);
      SumsSnoc(trace, e);
      SumsNotes(trace + [e], notes[1..]);
      assert trace + Notes(notes) == trace + [e] + Notes(notes[1..]);
    }
  }

  /** Bytes of the announced body still to come. */
  function Remaining(p: Parser): nat {
    if p.state.BodyIdentity? || p.state.ChunkData? then p.contentLength else 0
  }

  /** The account of one byte: what it delivers and announces against what remains before and after it. */
  predicate Account(p: Parser, out: Out) {
    out.p.errno == Ok && !out.p.state.BodyIdentityEof? ==>
      (if out.fx.take == TakeByte(Body) then 1 else 0) + Remaining(out.p) == Remaining(p) + DueOfNotes(out.fx.notes)
  }

  /** The body length that headers_complete reports is what remains right after it. */
  lemma HeadersDoneRemaining(p: Parser, ch: byte)
    requires p.contentLength <= MAX_UINT64
    ensures var out := HeadersDoneByte(p, ch);
      && (out.fx.notes == [] || out.fx.notes == [MessageComplete])
      && (out.p.errno == Ok && !out.p.state.BodyIdentityEof? ==>
            Remaining(out.p) == if p.flags.chunked || p.contentLength == MAX_UINT64 then 0 else p.contentLength)
  {
  }

  lemma DueOfTwo(note: Note, notes: seq<Note>)
    requires notes == [] || notes == [MessageComplete]
    ensures DueOfNotes(notes) == 0 && DueOfNotes([note] + notes) == DueOf(Notify(note))
  {
    assert ([note] + notes)[1..] == notes;
    assert notes != [] ==> notes[1..] == [];
  }

  lemma HeadersDoneAccount(p: Parser, ch: byte)
    requires p.contentLength <= MAX_UINT64
    ensures var out := HeadersAlmostDoneByte(p, ch);
      && out.fx.take == NoByte
      && (out.p.errno == Ok && !out.p.state.BodyIdentityEof? ==> Remaining(out.p) == DueOfNotes(out.fx.notes))
  {
    var q := p.(state := HeadersDone, upgrade := p.flags.upgrade && p.flags.connUpgrade);
    HeadersDoneRemaining(q, ch);
    var due := if p.flags.chunked || p.contentLength == MAX_UINT64 then 0 else p.contentLength;
    DueOfTwo(HeadersComplete(due), HeadersDoneByte(q, ch).fx.notes);
    DueOfTwo(ChunkComplete, [MessageComplete]);
    assert [ChunkComplete] + [MessageComplete] == [ChunkComplete, MessageComplete];
  }

  lemma HeaderFieldStartAccount(p: Parser, ch: byte)
    requires p.contentLength <= MAX_UINT64
    ensures var out := HeaderFieldStartByte(p, ch);
      && out.fx.take != TakeByte(Body)
      && (out.p.errno == Ok && !out.p.state.BodyIdentityEof? ==> Remaining(out.p) == DueOfNotes(out.fx.notes))
  {
    HeadersDoneAccount(p.(state := HeadersAlmostDone), ch);
  }

  lemma ValueStartAccount(p: Parser, ch: byte)
    requires p.errno == Ok
    ensures var out := HeaderValueStartByte(p, ch);
      && out.fx.take != TakeByte(Body) && out.fx.notes == []
      && (out.p.errno == Ok ==> out.p.state.HeaderValue?)
  {
  }

  lemma HeaderAccount(p: Parser, nread: nat, ch: byte, skip: bool)
    requires p.errno == Ok && Inv(p, nread) && HeaderState(p.state)
    ensures Account(p, HeaderTransition(p, ch, skip))
  {
    hide HeadersDoneByte;
    hide HeaderFieldStartByte;
    hide HeadersAlmostDoneByte;
    hide NameByte;
    hide ValueCharByte;
    hide HeaderValueStartByte;
    match p.state
    case HeaderFieldStart => HeaderFieldStartAccount(p, ch);
    case HeaderValueDiscardWs => ValueStartAccount(p, ch);
    case HeadersAlmostDone => HeadersDoneAccount(p, ch);
    case HeaderValueDiscardLws =>
      HeaderFieldStartAccount(p.(flags := ValueEndFlags(p.flags, p.headerState), state := HeaderFieldStart), ch);
    case HeaderValueLws =>
      ValueStartAccount(p.(state := HeaderValueStart), ch);
      HeaderFieldStartAccount(p.(flags := ValueEndFlags(p.flags, p.headerState), state := HeaderFieldStart), ch);
    case HeaderValue => if ch != CR && ch != LF { ValueByteFacts(p, ch, skip); }
    case _ =>
  }

  lemma BodyAccount(p: Parser, nread: nat, ch: byte)
    requires p.errno == Ok && Inv(p, nread) && BodyState(p.state)
    ensures Account(p, BodyTransition(p, ch))
  {
    assert forall n: Note :: [n][1..] == [];
  }

  lemma StartLineAccount(p: Parser, ch: byte)
    requires p.errno == Ok && !HeaderState(p.state) && !BodyState(p.state)
    ensures Account(p, StartLineTransition(p, ch))
  {
    assert forall n: Note :: [n][1..] == [];
  }

  lemma TransitionAccount(p: Parser, nread: nat, ch: byte, skip: bool)
    requires p.errno == Ok && Inv(p, nread)
    ensures Account(p, Transition(p, ch, skip))
    ensures p.state.BodyIdentityEof? ==> Transition(p, ch, skip).p.state.BodyIdentityEof?
  {
    if HeaderState(p.state) {
      HeaderAccount(p, nread, ch, skip);
    } else if BodyState(p.state) {
      BodyAccount(p, nread, ch);
    } else {
      StartLineAccount(p, ch);
    }
  }

  /** Outside an until-EOF body: delivered + remaining = announced. */
  ghost predicate Balanced(p: Parser, full: seq<Event>) {
    !p.state.BodyIdentityEof? ==> BodyBytes(full) + Remaining(p) == Announced(full)
  }

  lemma PerformSums(full: seq<Event>, fx: Effects, ch: byte)
    ensures var t := PerformFull(full, fx, ch);
      && BodyBytes(t) == BodyBytes(full) + (if fx.take == TakeByte(Body) then 1 else 0)
      && Announced(t) == Announced(full) + DueOfNotes(fx.notes)
  {
    var t1 := PerformEmpty(full, fx);
    SumsEmit(full, Value, []);
    if fx.take.TakeByte? {
      SumsEmit(t1, fx.take.kind, [ch]);
    }
    SumsNotes(if fx.take.TakeByte? then Emit(t1, fx.take.kind, [ch]) else t1, fx.notes);
  }

  // ----- names and values ---------------------------------------------------------------------

  /** A header name has been reported and its value has not. */
  predicate NameOpen(s: State) {
    s.HeaderField? || s.HeaderValueDiscardWs? || s.HeaderValueDiscardWsAlmostDone? || s.HeaderValueDiscardLws?
  }

  predicate ValueOpen(s: State) {
    s.HeaderValue? || s.HeaderAlmostDone? || s.HeaderValueLws?
  }

  /** As many values as names, but for a name whose value is still to come; and the response appends to the entry
      that is open. */
  predicate Paired(s: State, r: Response) {
    && |r.fields| == |r.values| + (if NameOpen(s) then 1 else 0)
    && r.concatField == NameOpen(s)
    && (NameOpen(s) ==> !r.concatValue)
    && (ValueOpen(s) ==> r.concatValue && |r.values| > 0)
  }

  /** The effects of a byte on the consumer. */
  function Perceived(r: Response, fx: Effects, ch: byte): Response {
    var r1 := if fx.emptyValue then ConsumeData(r, Value, []) else r;
    var r2 := if fx.take.TakeByte? then ConsumeData(r1, fx.take.kind, [ch]) else r1;
    if MessageComplete in fx.notes then r2.(complete := true) else r2
  }

  lemma PerformPerceived(full: seq<Event>, fx: Effects, ch: byte)
    ensures ConsumeAll(NO_RESPONSE, PerformFull(full, fx, ch)) == Perceived(ConsumeAll(NO_RESPONSE, full), fx, ch)
  {
    var t1 := PerformEmpty(full, fx);
    ConsumeEmit(NO_RESPONSE, full, Value, []);
    if fx.take.TakeByte? {
      ConsumeEmit(NO_RESPONSE, t1, fx.take.kind, [ch]);
    }
    ConsumeNotes(NO_RESPONSE, if fx.take.TakeByte? then Emit(t1, fx.take.kind, [ch]) else t1, fx.notes);
  }

  lemma StartPaired(p: Parser, ch: byte, r: Response)
    requires Paired(HeaderFieldStart, r)
    ensures var out := HeaderFieldStartByte(p, ch); out.p.errno == Ok ==> Paired(out.p.state, Perceived(r, out.fx, ch))
  {
    HeadersAlmostDonePaired(p.(state := HeadersAlmostDone), ch);
  }

  lemma HeadersAlmostDonePaired(p: Parser, ch: byte)
    ensures var out := HeadersAlmostDoneByte(p, ch);
      out.fx.take == NoByte && !out.fx.emptyValue && (out.p.errno == Ok ==> !NameOpen(out.p.state) && !ValueOpen(out.p.state))
  {
  }

  lemma ValueStartTakes(p: Parser, ch: byte)
    ensures var out := HeaderValueStartByte(p, ch);
      out.p.errno == Ok && p.errno == Ok ==> out.fx == Effects(false, TakeByte(Value), false, []) && out.p.state == HeaderValue
  {
  }

  lemma NamePaired(p: Parser, ch: byte, skip: bool, r: Response)
    requires p.errno == Ok && NameOpen(p.state) && Paired(p.state, r)
    ensures var out := HeaderTransition(p, ch, skip); out.p.errno == Ok ==> Paired(out.p.state, Perceived(r, out.fx, ch))
  {
    hide HeaderValueStartByte;
    hide HeaderFieldStartByte;
    ValueStartTakes(p, ch);
    if p.state.HeaderValueDiscardLws? {
      StartPaired(p.(flags := ValueEndFlags(p.flags, p.headerState), state := HeaderFieldStart), ch, ConsumeData(r, Value, []));
    }
  }

  lemma HeaderPaired(p: Parser, nread: nat, ch: byte, skip: bool, r: Response)
    requires p.errno == Ok && Inv(p, nread) && HeaderState(p.state) && Paired(p.state, r)
    ensures var out := HeaderTransition(p, ch, skip); out.p.errno == Ok ==> Paired(out.p.state, Perceived(r, out.fx, ch))
  {
    match p.state
    case HeaderFieldStart => StartPaired(p, ch, r);
    case HeadersAlmostDone => HeadersAlmostDonePaired(p, ch);
    case HeaderValueLws =>
      ValueStartTakes(p.(state := HeaderValueStart), ch);
      StartPaired(p.(flags := ValueEndFlags(p.flags, p.headerState), state := HeaderFieldStart), ch, r);
    case HeaderValue => if ch != CR && ch != LF { ValueByteFacts(p, ch, skip); }
    case HeaderAlmostDone =>
    case _ => NamePaired(p, ch, skip, r);
  }

  /** Outside headers nothing touches names and values. */
  predicate Unrelated(out: Out) {
    out.p.errno == Ok ==>
      && !out.fx.emptyValue && out.fx.take != TakeByte(Field) && out.fx.take != TakeByte(Value)
      && !NameOpen(out.p.state) && !ValueOpen(out.p.state)
  }

  lemma StartLineUnrelated(p: Parser, ch: byte)
    requires p.errno == Ok && !HeaderState(p.state) && !BodyState(p.state)
    ensures Unrelated(StartLineTransition(p, ch))
  {
  }

  lemma BodyUnrelated(p: Parser, ch: byte)
    requires p.errno == Ok && BodyState(p.state)
    ensures Unrelated(BodyTransition(p, ch))
  {
  }

  lemma OtherPaired(p: Parser, ch: byte, skip: bool, r: Response)
    requires p.errno == Ok && !HeaderState(p.state) && Paired(p.state, r)
    ensures var out := Transition(p, ch, skip); out.p.errno == Ok ==> Paired(out.p.state, Perceived(r, out.fx, ch))
  {
    if BodyState(p.state) {
      BodyUnrelated(p, ch);
    } else {
      StartLineUnrelated(p, ch);
    }
  }

  // ----- every run ----------------------------------------------------------------------------

  ghost predicate Accounted(c: Conn) {
    Balanced(c.p, Full(c)) && Paired(c.p.state, ConsumeAll(NO_RESPONSE, Full(c)))
  }

  /** A parser that has read nothing. */
  lemma StartAccounted()
    ensures Accounted(START)
  {
    assert Full(START) == [];
    assert ConsumeAll(NO_RESPONSE, []) == NO_RESPONSE;
  }

  lemma StepAccounted(c: Conn, ch: byte)
    requires Good(c) && c.p.errno == Ok && Accounted(c)
    ensures Step(c, ch).p.errno == Ok ==> Accounted(Step(c, ch))
  {
    var out, r := Transition(c.p, ch, c.skip), ConsumeAll(NO_RESPONSE, Full(c));
    StepGood(c, ch);
    TransitionAccount(c.p, c.nread, ch, c.skip);
    PerformSums(Full(c), out.fx, ch);
    PerformPerceived(Full(c), out.fx, ch);
    if HeaderState(c.p.state) {
      HeaderPaired(c.p, c.nread, ch, c.skip, r);
    } else {
      OtherPaired(c.p, ch, c.skip, r);
    }
  }

  lemma {:induction false} RunAccounted(c: Conn, data: seq<byte>)
    requires Good(c) && Accounted(c)
    ensures Run(c, data).p.errno == Ok ==> Accounted(Run(c, data))
    decreases |data|
  {
    if data != [] && !Stopped(c) {
      StepGood(c, data[0]);
      StepAccounted(c, data[0]);
      if Step(c, data[0]).p.errno == Ok {
        RunAccounted(Step(c, data[0]), data[1..]);
      }
    }
  }

  /** However the input is cut, between any two bytes: body bytes delivered and remaining are those announced, and
      header values match header names. */
  lemma {:induction false} CallsAccounted(c: Conn, pieces: seq<seq<byte>>)
    requires Resting(c) && Accounted(c)
    ensures Calls(c, pieces).p.errno == Ok ==> Accounted(Calls(c, pieces))
    decreases |pieces|
  {
    hide Run;
    hide Step;
    if pieces != [] {
      var d := Call(c, pieces[0]);
      if c.p.errno == Ok {
        BeginGood(c);
        RunGood(Begin(c), pieces[0]);
        RunAccounted(Begin(c), pieces[0]);
      }
      if d.p.errno == Ok {
        CallsAccounted(d, pieces[1..]);
      } else {
        CallsStuck(d, pieces[1..]);
      }
    }
  }
}
