/** A whole response as it is written, in any pieces: it is read without an error and complete at its last byte and not
    before. */
module HttpDelivery {
  import opened HttpBytes
  import opened HttpParserState
  import opened HttpTrace
  import opened HttpRun
  import opened HttpBatches
  import opened HttpInvariants
  import opened HttpSplit
  import opened HttpEncoding
  import opened HttpChunks
  import opened HttpRoundTrip
  import opened HttpHead
  import opened HttpStatusLine
  import opened HttpFraming
  import opened HttpMessages
  import opened HttpView

  // ----- a message is complete only at its end ------------------------------------------------

  /** Inside a message. */
  predicate Mid(s: State) {
    !s.StartRes? && !s.Dead?
  }

  /** Which bytes begin and complete a message. */
  predicate Turns(p: Parser, out: Out) {
    && (p.state.StartRes? ==> out.fx == NOTHING.(notes := [MessageBegin]))
    && (MessageComplete in out.fx.notes ==> !Mid(out.p.state))
    && (Mid(out.p.state) ==> Mid(p.state) || p.state.StartRes?)
  }

  lemma FieldStartTurns(p: Parser, ch: byte)
    ensures var out := HeaderFieldStartByte(p, ch);
      out.p.errno == Ok && p.errno == Ok ==> (MessageComplete in out.fx.notes ==> !Mid(out.p.state))
  {
  }

  lemma HeaderTurns(p: Parser, ch: byte, skip: bool)
    requires p.errno == Ok && HeaderState(p.state)
    ensures var out := HeaderTransition(p, ch, skip);
      out.p.errno == Ok ==> (MessageComplete in out.fx.notes ==> !Mid(out.p.state))
  {
    hide HeaderFieldStartByte;
    hide ValueCharByte;
    hide NameByte;
    if p.state.HeaderValue? && ch != CR && ch != LF {
      ValueByteFacts(p, ch, skip);
    }
    FieldStartTurns(p, ch);
    FieldStartTurns(p.(flags := ValueEndFlags(p.flags, p.headerState), state := HeaderFieldStart), ch);
  }

  lemma TransitionTurns(p: Parser, ch: byte, skip: bool)
    requires p.errno == Ok
    ensures Transition(p, ch, skip).p.errno == Ok ==> Turns(p, Transition(p, ch, skip))
  {
    hide HeaderTransition;
    if HeaderState(p.state) {
      HeaderTurns(p, ch, skip);
    }
  }

  /** The later trace keeps every notification of the earlier one in its place. */
  ghost predicate Extends(t: seq<Event>, u: seq<Event>) {
    |t| <= |u| && forall i :: 0 <= i < |t| && t[i].Notify? ==> u[i] == t[i]
  }

  lemma EmitExtends(t: seq<Event>, kind: Kind, bytes: seq<byte>)
    ensures Extends(t, Emit(t, kind, bytes))
  {
  }

  lemma PerformExtends(t: seq<Event>, fx: Effects, ch: byte)
    ensures Extends(t, PerformFull(t, fx, ch))
    ensures forall note :: note in fx.notes ==>
              exists j :: |t| <= j < |PerformFull(t, fx, ch)| && PerformFull(t, fx, ch)[j] == Notify(note)
    ensures Notify(MessageComplete) in PerformFull(t, fx, ch) ==> Notify(MessageComplete) in t || MessageComplete in fx.notes
  {
    hide Emit;
    var t1 := PerformEmpty(t, fx);
    var t2 := if fx.take.TakeByte? then Emit(t1, fx.take.kind, [ch]) else t1;
    EmitExtends(t, Value, []);
    EmitKeeps(t, Value, []);
    if fx.take.TakeByte? {
      EmitExtends(t1, fx.take.kind, [ch]);
      EmitKeeps(t1, fx.take.kind, [ch]);
    }
    forall note | note in fx.notes
      ensures exists j :: |t| <= j < |PerformFull(t, fx, ch)| && PerformFull(t, fx, ch)[j] == Notify(note)
    {
      var k :| 0 <= k < |fx.notes| && fx.notes[k] == note;
      assert PerformFull(t, fx, ch)[|t2| + k] == Notify(note);
    }
  }

  lemma EmitKeeps(t: seq<Event>, kind: Kind, bytes: seq<byte>)
    ensures forall e: Event :: e.Notify? && e in Emit(t, kind, bytes) ==> e in t
  {
  }

  /** No message begins behind the end of one. */
  ghost predicate OneMessage(t: seq<Event>) {
    forall i, j :: 0 <= i < j < |t| && t[i] == Notify(MessageComplete) ==> t[j] != Notify(MessageBegin)
  }

  lemma OneMessagePrefix(t: seq<Event>, u: seq<Event>)
    requires Extends(t, u) && OneMessage(u)
    ensures OneMessage(t)
  {
    forall i, j | 0 <= i < j < |t| && t[i] == Notify(MessageComplete)
      ensures t[j] != Notify(MessageBegin)
    {
      assert u[i] == t[i];
      assert t[j].Notify? ==> u[j] == t[j];
    }
  }

  /** Inside a message that is the only one so far nothing is complete. */
  ghost predicate Incomplete(c: Conn) {
    Mid(c.p.state) && OneMessage(Full(c)) ==> !Completed(Full(c))
  }

  lemma StepIncomplete(c: Conn, ch: byte)
    requires Good(c) && c.p.errno == Ok && Incomplete(c) && Step(c, ch).p.errno == Ok
    ensures Incomplete(Step(c, ch)) && Extends(Full(c), Full(Step(c, ch)))
  {
    hide Transition;
    StepGood(c, ch);
    TransitionTurns(c.p, ch, c.skip);
    StateKept(c, ch);
    var d, fx := Step(c, ch), Transition(c.p, ch, c.skip).fx;
    hide Step;
    hide PerformFull;
    hide Full;
    PerformExtends(Full(c), fx, ch);
    if OneMessage(Full(d)) {
      OneMessagePrefix(Full(c), Full(d));
    }
    if c.p.state.StartRes? && Completed(Full(c)) {
      var i :| 0 <= i < |Full(c)| && Full(c)[i] == Notify(MessageComplete);
      assert MessageBegin in fx.notes;
      var j :| |Full(c)| <= j < |Full(d)| && Full(d)[j] == Notify(MessageBegin);
      assert Full(d)[i] == Full(c)[i];
      assert !OneMessage(Full(d));
    }
  }

  lemma {:induction false} RunIncomplete(c: Conn, data: seq<byte>)
    requires Good(c) && !Stopped(c) && Incomplete(c) && Run(c, data).p.errno == Ok
    ensures Incomplete(Run(c, data)) && Extends(Full(c), Full(Run(c, data))) && Good(Run(c, data))
    decreases |data|
  {
    hide Step;
    hide Incomplete;
    hide Full;
    hide Good;
    hide Extends;
    if data == [] {
      ExtendsSelf(Full(c));
    } else {
      var d := Step(c, data[0]);
      OkBefore(d, data[1..]);
      StepGood(c, data[0]);
      StepIncomplete(c, data[0]);
      if d.exited {
        RunStopped(d, data[1..]);
      } else {
        RunIncomplete(d, data[1..]);
        ExtendsTwice(Full(c), Full(d), Full(Run(d, data[1..])));
      }
    }
  }

  lemma OkBefore(d: Conn, rest: seq<byte>)
    requires Run(d, rest).p.errno == Ok
    ensures d.p.errno == Ok
  {
  }

  lemma ExtendsSelf(t: seq<Event>)
    ensures Extends(t, t)
  {
  }

  lemma ExtendsTwice(t: seq<Event>, u: seq<Event>, v: seq<Event>)
    requires Extends(t, u) && Extends(u, v)
    ensures Extends(t, v)
  {
    forall i | 0 <= i < |t| && t[i].Notify? ensures v[i] == t[i] {
      assert u[i] == t[i];
    }
  }

  lemma CompletedExtends(t: seq<Event>, u: seq<Event>)
    requires Extends(t, u) && Completed(t)
    ensures Completed(u)
  {
    var i :| 0 <= i < |t| && t[i] == Notify(MessageComplete);
    assert u[i] == t[i];
  }

  lemma {:induction false} CompleteExactly(trace: seq<Event>)
    ensures ConsumeAll(NO_RESPONSE, trace).complete <==> Completed(trace)
    decreases |trace|
  {
    if trace != [] {
      var n := |trace| - 1;
      CompleteExactly(trace[..n]);
      assert trace == trace[..n] + [trace[n]];
      CompletedOne(trace[..n], trace[n]);
    }
  }

  lemma StartIncomplete()
    ensures Good(START) && Incomplete(START) && Begin(START) == START
  {
  }

  lemma EndTrace(c: Conn)
    requires c.mark.Marked? || c.mark.NoMark?
    ensures End(c).trace == c.trace || End(c).trace == Full(c)
    ensures Extends(End(c).trace, Full(c))
  {
    if c.mark.Marked? {
      EmitExtends(c.trace, c.mark.kind, c.mark.bytes);
    }
  }

  /** No proper part of a single message is complete that ends before or inside these bytes. */
  lemma NotBefore(text: seq<byte>, n: nat, k: nat)
    requires k <= n <= |text| && Run(START, text[..n]).p.errno == Ok && Mid(Run(START, text[..n]).p.state)
    requires OneMessage(Full(Run(START, text[..n])))
    ensures !Completed(Call(START, text[..k]).trace)
  {
    hide Run;
    hide Incomplete;
    hide Full;
    hide End;
    hide Extends;
    StartIncomplete();
    var c, e := Run(START, text[..k]), Run(START, text[..n]);
    assert text[..n] == text[..k] + text[k..n];
    RunAppend(START, text[..k], text[k..n]);
    if Stopped(c) {
      RunStopped(c, text[k..n]);
    }
    RunIncomplete(START, text[..k]);
    if Stopped(c) {
      ExtendsSelf(Full(c));
    } else {
      RunIncomplete(c, text[k..n]);
    }
    RunIncomplete(START, text[..n]);
    EndTrace(c);
    assert Call(START, text[..k]).trace == End(c).trace;
    if Completed(End(c).trace) {
      CompletedExtends(End(c).trace, Full(c));
      CompletedExtends(Full(c), Full(e));
      assert Incomplete(e);
      Contradicts(e);
    }
  }

  lemma Contradicts(e: Conn)
    requires Incomplete(e) && Mid(e.p.state) && OneMessage(Full(e))
    ensures !Completed(Full(e))
  {
  }

  // ----- whatever the cut ---------------------------------------------------------------------

  lemma {:induction false} RobustAppend(c: Conn, w: nat, a: seq<byte>, b: seq<byte>)
    requires Robust(c, w, a) && Robust(Run(c, a), WorstRun(c, w, a), b)
    ensures Robust(c, w, a + b)
    decreases |a|
  {
    hide Step;
    hide RobustByte;
    hide Worst;
    if a == [] {
      assert a + b == b;
    } else if !Stopped(c) {
      assert (a + b)[0] == a[0] && (a + b)[1..] == a[1..] + b;
      RobustAppend(Step(c, a[0]), Worst(c, w, a[0]), a[1..], b);
    }
  }

  lemma {:induction false} WorstAppend(c: Conn, w: nat, a: seq<byte>, b: seq<byte>)
    ensures WorstRun(c, w, a + b) == WorstRun(Run(c, a), WorstRun(c, w, a), b)
    decreases |a|
  {
    hide Step;
    hide Worst;
    if a == [] {
      assert a + b == b;
    } else if !Stopped(c) {
      assert (a + b)[0] == a[0] && (a + b)[1..] == a[1..] + b;
      WorstAppend(Step(c, a[0]), Worst(c, w, a[0]), a[1..], b);
    }
  }

  lemma {:induction false} CountedRobust(d: Conn, w: nat, body: seq<byte>)
    requires !Stopped(d) && d.p.state.BodyIdentity? && |body| == d.p.contentLength > 0 && !d.p.upgrade
    ensures Robust(d, w, body)
    decreases |body|
  {
    hide Step;
    BodyWorst(d, w, body[0]);
    if |body| == 1 {
      BodyLastStep(d, body[0]);
      assert body[1..] == [];
    } else {
      BodyStep(d, body[0]);
      CountedRobust(Step(d, body[0]), w, body[1..]);
    }
  }

  lemma BodyWorst(d: Conn, w: nat, b: byte)
    requires d.p.state.BodyIdentity? || d.p.state.BodyIdentityEof?
    ensures Worst(d, w, b) == w
    ensures !Step(d, b).exited ==> RobustByte(d, w, b)
  {
  }

  lemma {:induction false} EofRobust(d: Conn, w: nat, body: seq<byte>)
    requires !Stopped(d) && d.p.state.BodyIdentityEof?
    ensures Robust(d, w, body)
    decreases |body|
  {
    hide Step;
    if body != [] {
      BodyWorst(d, w, body[0]);
      EofStep(d, body[0]);
      EofRobust(Step(d, body[0]), w, body[1..]);
    }
  }

  // ----- the end of the head ------------------------------------------------------------------

  lemma BeforeEnd(c: Conn, headers: seq<Header>, bare: bool)
    requires AtHead(c) && HeadersOk(headers) && LengthsAllowed(headers)
    requires c.nread + |Lines(headers)| + 2 <= HTTP_MAX_HEADER_SIZE
    ensures var end := Eol(bare);
      var e := Run(c, Lines(headers) + end[..|end| - 1]);
      end[|end| - 1] == LF && !Stopped(e) && HeaderState(e.p.state)
  {
    hide Run;
    hide Step;
    hide LengthsAllowed;
    hide HeadersOk;
    HeadersRun(c, headers);
    var d := Run(c, Lines(headers));
    if bare {
      assert Lines(headers) + [] == Lines(headers);
      assert Eol(bare)[..0] == [];
    } else {
      assert CRLF[..1] == [CR];
      RunAppend(c, Lines(headers), [CR]);
      SettleRun(d, [CR]);
      EndCr(Settle(d));
      RunSingle(Settle(d), CR);
    }
  }

  lemma HeadBeforeEnd(h: Head)
    requires HeadOk(h)
    ensures HeadText(h) != []
    ensures var text := HeadText(h);
      var n := |text| - 1;
      var e := Run(START, text[..n]);
      text[n] == LF && !Stopped(e) && HeaderState(e.p.state)
  {
    hide Run;
    hide Lines;
    hide LengthsAllowed;
    hide HeadersOk;
    var text := HeadText(h);
    var n := |text| - 1;
    StatusLineExact(START, h.status);
    var c := Run(START, StatusText(h.status));
    AfterStatus(c, h.status);
    BeforeEnd(c, h.headers, h.bare);
    var end := Eol(h.bare);
    var tail := Lines(h.headers) + end[..|end| - 1];
    RunAppend(START, StatusText(h.status), tail);
    assert end == end[..|end| - 1] + [LF];
    assert text[..n] == StatusText(h.status) + tail;
  }

  lemma LastResets(e: Conn, ch: byte)
    requires ParsingHeader(e.p.state) && Step(e, ch).p.errno == Ok && Step(e, ch).nread == 0
    ensures Transition(e.p, ch, e.skip).reset
  {
  }

  /** The count starts again behind the head. */
  lemma HeadWorst(h: Head)
    requires HeadOk(h) && !FramingIn(h).Conflict?
    ensures WorstRun(START, 0, HeadText(h)) == 0
  {
    hide Run;
    hide Step;
    hide HeadText;
    hide WorstRun;
    HeadRuns(h);
    HeadBeforeEnd(h);
    var text := HeadText(h);
    var n := |text| - 1;
    var e := Run(START, text[..n]);
    assert text == text[..n] + [LF];
    RunAppend(START, text[..n], [LF]);
    RunSingle(e, LF);
    LastResets(e, LF);
    WorstAppend(START, 0, text[..n], [LF]);
    WorstOne(e, WorstRun(START, 0, text[..n]), LF);
  }

  lemma WorstOne(e: Conn, w: nat, ch: byte)
    requires !Stopped(e) && Transition(e.p, ch, e.skip).reset
    ensures WorstRun(e, w, [ch]) == 0
  {
    hide Step;
    hide Transition;
    assert [ch][1..] == [];
  }

  // ----- the traces ---------------------------------------------------------------------------

  predicate NoBegin(t: seq<Event>) {
    Notify(MessageBegin) !in t
  }

  lemma {:induction false} HeadersNoBegin(headers: seq<Header>)
    ensures NoBegin(HeaderEvents(headers))
    decreases |headers|
  {
    if headers != [] {
      HeadersNoBegin(headers[..|headers| - 1]);
    }
  }

  lemma {:induction false} ChunksNoBegin(chunks: seq<seq<byte>>)
    ensures NoBegin(ChunksEvents(chunks))
    decreases |chunks|
  {
    if chunks != [] {
      ChunksNoBegin(chunks[1..]);
    }
  }

  lemma OneBegins(t: seq<Event>)
    requires NoBegin(t)
    ensures OneMessage([Notify(MessageBegin)] + t)
  {
    var u := [Notify(MessageBegin)] + t;
    forall j | 0 < j < |u| ensures u[j] != Notify(MessageBegin) {
      assert u[j] == t[j - 1];
    }
  }

  /** The head reports one message, and what may follow it does not begin another. */
  lemma HeadOne(h: Head, more: seq<Event>)
    requires NoBegin(more)
    ensures OneMessage(HeadEvents(h) + more)
  {
    hide FramingOf;
    HeadersNoBegin(h.headers);
    var r, x, z := ReasonEvents(CodeOf(h), h.status.reason), HeaderEvents(h.headers), EndEvents(FramingIn(h));
    hide HeaderEvents;
    var t := r + x + z + more;
    assert NoBegin(t);
    OneBegins(t);
    assert HeadEvents(h) + more == [Notify(MessageBegin)] + t;
  }

  // ----- whole responses ----------------------------------------------------------------------

  /** Header characters only, and at most half the header limit. */
  predicate PlainHead(h: Head) {
    HeadOk(h) && HeaderCharsOnly(HeadText(h)) && 2 * |HeadText(h)| <= HTTP_MAX_HEADER_SIZE && !Upgrades(h.headers)
  }

  predicate HeaderCharsOnly(text: seq<byte>) {
    forall i :: 0 <= i < |text| ==> IsHeaderChar(text[i])
  }

  /** The response as it stands on the wire. */
  ghost predicate Written(h: Head, body: seq<byte>, text: seq<byte>) {
    PlainHead(h) &&
    match FramingIn(h)
    case NoBody => body == [] && text == HeadText(h)
    case Counted(n) => n == |body| && text == HeadText(h) + body
    case Chunks => exists chunks :: Sizes(chunks) && Flatten(chunks) == body && text == HeadText(h) + Encode(chunks)
    case ToEof => text == HeadText(h) + body
    case _ => false
  }

  /** Read the same in any pieces, and complete nowhere before the last byte. */
  ghost predicate Single(text: seq<byte>) {
    && Robust(START, 0, text)
    && forall k :: 0 < k < |text| ==> !ConsumeAll(NO_RESPONSE, Call(START, text[..k]).trace).complete
  }

  lemma HeadRobust(h: Head)
    requires PlainHead(h) && !FramingIn(h).Conflict?
    ensures Robust(START, 0, HeadText(h)) && WorstRun(START, 0, HeadText(h)) == 0
  {
    hide Run;
    hide HeadText;
    hide WorstRun;
    HeadRuns(h);
    assert !FramingIn(h).Upgraded?;
    PlainIsRobust(START, 0, HeadText(h));
    HeadWorst(h);
  }

  /** What is left to show once the parser is known to be inside the message before its last byte. */
  lemma SingleFrom(text: seq<byte>, n: nat)
    requires n <= |text| <= n + 1 && Robust(START, 0, text)
    requires var e := Run(START, text[..n]); !Stopped(e) && Mid(e.p.state)
    requires var f := Run(START, text); f.p.errno == Ok && OneMessage(Full(f))
    ensures Single(text)
  {
    hide Run;
    hide Robust;
    hide Full;
    hide OneMessage;
    hide Incomplete;
    hide Extends;
    hide Completed;
    hide Call;
    hide ConsumeAll;
    var e := Run(START, text[..n]);
    StartIncomplete();
    assert text == text[..n] + text[n..];
    RunAppend(START, text[..n], text[n..]);
    RunIncomplete(START, text[..n]);
    RunIncomplete(e, text[n..]);
    OneMessagePrefix(Full(e), Full(Run(START, text)));
    forall k | 0 < k < |text|
      ensures !ConsumeAll(NO_RESPONSE, Call(START, text[..k]).trace).complete
    {
      NotBefore(text, n, k);
      CompleteExactly(Call(START, text[..k]).trace);
    }
  }

  lemma HeadMid(h: Head)
    requires HeadOk(h)
    ensures HeadText(h) != []
    ensures var e := Run(START, HeadText(h)[..|HeadText(h)| - 1]); !Stopped(e) && Mid(e.p.state)
  {
    hide Run;
    hide HeadText;
    HeadBeforeEnd(h);
  }

  lemma NoBodySingle(h: Head)
    requires PlainHead(h) && FramingIn(h).NoBody?
    ensures Single(HeadText(h))
  {
    hide Robust;
    hide WorstRun;
    hide HeadEvents;
    hide EndEvents;
    hide PersistsIn;
    hide Run;
    hide HeadText;
    hide Single;
    hide OneMessage;
    hide FramingOf;
    HeadRuns(h);
    HeadRobust(h);
    HeadMid(h);
    HeadOne(h, []);
    assert HeadEvents(h) + [] == HeadEvents(h);
    SingleFrom(HeadText(h), |HeadText(h)| - 1);
  }

  lemma CountedMid(d: Conn, body: seq<byte>)
    requires !Stopped(d) && d.p.state.BodyIdentity? && d.mark.NoMark? && |body| == d.p.contentLength > 0
    ensures var e := Run(d, body[..|body| - 1]); !Stopped(e) && Mid(e.p.state)
  {
    hide Step;
    if |body| > 1 {
      BodyRun(d, body[..|body| - 1]);
    }
  }

  lemma BodyOne(h: Head, body: seq<byte>)
    ensures OneMessage(Emit(HeadEvents(h), Body, body))
    ensures OneMessage(Emit(HeadEvents(h), Body, body) + Notes([MessageComplete]))
  {
    hide HeadEvents;
    hide OneMessage;
    HeadEndsPlain(h);
    HeadOne(h, [Data(Body, body)]);
    HeadOne(h, [Data(Body, body), Notify(MessageComplete)]);
    assert Notes([MessageComplete]) == [Notify(MessageComplete)];
    assert HeadEvents(h) + [Data(Body, body), Notify(MessageComplete)]
        == HeadEvents(h) + [Data(Body, body)] + [Notify(MessageComplete)];
  }

  lemma CountedSingle(h: Head, body: seq<byte>)
    requires PlainHead(h) && FramingIn(h) == Counted(|body|)
    ensures Single(HeadText(h) + body)
  {
    hide Run;
    hide HeadText;
    hide Single;
    hide OneMessage;
    hide Robust;
    hide WorstRun;
    hide HeadEvents;
    hide Emit;
    var head, n := HeadText(h), |body| - 1;
    HeadRuns(h);
    HeadRobust(h);
    var d := Run(START, head);
    FramingCounts(h);
    CountedRobust(d, 0, body);
    RobustAppend(START, 0, head, body);
    CountedMid(d, body);
    CountedRun(d, body);
    RunAppend(START, head, body[..n]);
    RunAppend(START, head, body);
    assert (head + body)[..|head| + n] == head + body[..n];
    BodyOne(h, body);
    SingleFrom(head + body, |head| + n);
  }

  lemma FramingCounts(h: Head)
    ensures FramingIn(h).Counted? ==> FramingIn(h).length > 0 && AskedLength(h.headers) == FramingIn(h).length
  {
  }

  lemma EofSingle(h: Head, body: seq<byte>)
    requires PlainHead(h) && FramingIn(h).ToEof?
    ensures Single(HeadText(h) + body)
  {
    hide Run;
    hide HeadText;
    hide Single;
    hide OneMessage;
    hide Robust;
    hide WorstRun;
    hide HeadEvents;
    hide Emit;
    var head := HeadText(h);
    HeadRuns(h);
    HeadRobust(h);
    var d := Run(START, head);
    EofRobust(d, 0, body);
    RobustAppend(START, 0, head, body);
    RunAppend(START, head, body);
    assert (head + body)[..|head + body|] == head + body;
    if body == [] {
      HeadOne(h, []);
      assert HeadEvents(h) + [] == HeadEvents(h) && head + body == head;
    } else {
      BodyOne(h, body);
      EofRun(d, body);
    }
    SingleFrom(head + body, |head + body|);
  }

  // ----- chunks -------------------------------------------------------------------------------

  lemma FinMid(c: Conn)
    requires AtSize(c)
    ensures var e := Run(c, FIN[..4]); !Stopped(e) && Mid(e.p.state)
  {
    hide Run;
    hide Robust;
    hide Passes;
    LastChunk(c);
    assert FIN[..4] == [48] + CRLF + [CR];
    RunAppend(c, [48] + CRLF, [CR]);
    var d := InTrailer(c);
    PassesRun(c, 0, [48] + CRLF, d, 0);
    TrailerCr(d);
  }

  lemma PassesRun(c: Conn, w: nat, bytes: seq<byte>, d: Conn, v: nat)
    requires Passes(c, w, bytes, d, v)
    ensures Run(c, bytes) == d
  {
  }

  lemma TrailerCr(d: Conn)
    requires !Stopped(d) && d.p.state.HeaderFieldStart? && d.nread == 0
    ensures !Stopped(Run(d, [CR])) && Mid(Run(d, [CR]).p.state)
  {
    RunSingle(d, CR);
  }

  lemma EncodedMid(c: Conn, chunks: seq<seq<byte>>)
    requires AtSize(c) && Sizes(chunks)
    ensures var text := Encode(chunks); text != [] && (var e := Run(c, text[..|text| - 1]); !Stopped(e) && Mid(e.p.state))
  {
    hide Run;
    hide Robust;
    hide Passes;
    var text, x := Encode(chunks), EncodeChunks(chunks);
    assert text[..|text| - 1] == x + FIN[..4];
    RunAppend(c, x, FIN[..4]);
    if chunks == [] {
      assert Run(c, []) == c by {
        RunNothing(c);
      }
      FinMid(c);
    } else {
      ChunksPass(c, chunks);
      var d := AfterChunks(c, ChunksEvents(chunks), |x|);
      PassesRun(c, 0, x, d, 0);
      FinMid(d);
    }
  }

  lemma ChunkedSingle(h: Head, chunks: seq<seq<byte>>)
    requires PlainHead(h) && FramingIn(h).Chunks? && Sizes(chunks)
    ensures Single(HeadText(h) + Encode(chunks))
  {
    hide Run;
    hide HeadText;
    hide Encode;
    hide Single;
    hide OneMessage;
    hide Robust;
    hide WorstRun;
    hide HeadEvents;
    hide Sizes;
    var head, text := HeadText(h), Encode(chunks);
    var n := |text| - 1;
    HeadRuns(h);
    HeadRobust(h);
    var d := Run(START, head);
    EncodedPasses(d, chunks);
    EncodedMid(d, chunks);
    RobustAppend(START, 0, head, text);
    RunAppend(START, head, text[..n]);
    RunAppend(START, head, text);
    assert (head + text)[..|head| + n] == head + text[..n];
    ChunksNoBegin(chunks);
    HeadOne(h, Events(chunks));
    SingleFrom(head + text, |head| + n);
  }

  // ----- together -----------------------------------------------------------------------------

  /** A response as it is written: read the same in any pieces, complete nowhere before its last byte, and then held by the
      consumer as it was written. Only a body without a marked end needs the end of the stream. */
  lemma WrittenIsRead(h: Head, body: seq<byte>, text: seq<byte>)
    requires Written(h, body, text)
    ensures Single(text) && Call(START, text).p.errno == Ok
    ensures Holds(Read(text), h, body, !FramingIn(h).ToEof?) && Holds(ReadToEof(text), h, body, true)
  {
    hide HeadText;
    hide Encode;
    hide Single;
    hide Run;
    hide Call;
    hide Read;
    hide ReadToEof;
    hide Holds;
    match FramingIn(h) {
      case NoBody =>
        NoBodySingle(h);
        NoBodyRead(h);
        EofAgain(h, text);
      case Counted(n) =>
        CountedSingle(h, body);
        CountedRead(h, body);
        EofAgain(h, text);
      case Chunks =>
        var chunks :| Sizes(chunks) && Flatten(chunks) == body && text == HeadText(h) + Encode(chunks);
        ChunkedSingle(h, chunks);
        ChunkedRead(h, chunks);
        EofAgain(h, text);
      case ToEof =>
        EofSingle(h, body);
        ToEofRead(h, body);
    }
  }

  lemma EofAgain(h: Head, text: seq<byte>)
    requires Ends(h, text)
    ensures ReadToEof(text) == Read(text)
  {
    hide Call;
  }
}
