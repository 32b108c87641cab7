/** What holds of a response parser between any two bytes of any input, and why its asserts never fail. */
module HttpInvariants {
  import opened HttpBytes
  import opened HttpParserState
  import opened HttpTrace
  import opened HttpRun

  /** How far each matcher may have counted: below the last byte of its word. */
  predicate IndexOk(hs: HState, index: nat) {
    match hs
    case HC => index == 0
    case HCO => index == 1
    case HCON => index == 2
    case HMatchingConnection => 3 <= index <= 8
    case HMatchingProxyConnection => index <= 14
    case HMatchingContentLength => 3 <= index <= 12
    case HMatchingTransferEncoding => index <= 15
    case HMatchingUpgrade => index <= 5
    case HMatchingTransferEncodingChunked => index <= 5
    case HMatchingConnectionTokenStart => index == 0
    case HMatchingConnectionKeepAlive => index <= 8
    case HMatchingConnectionClose => index <= 3
    case HMatchingConnectionUpgrade => index <= 5
    case _ => index <= 16
  }

  lemma MatchIndex(word: seq<byte>, index: nat, c: byte, matching: HState, matched: HState, failed: HState)
    requires matching != matched && matching != failed && index < |word|
    ensures var hs := Match(word, index, c, matching, matched, failed);
      (hs == matching || hs == matched || hs == failed) && (hs == matching ==> index <= |word| - 2)
  {
  }

  /** The states inside a header value; HConnection and HTransferEncoding trip "Shouldn't get here". */
  predicate ValueState(hs: HState) {
    hs.HGeneral? || hs.HContentLength? || hs.HMatchingTransferEncodingChunked?
    || hs.HMatchingConnectionTokenStart? || hs.HMatchingConnectionKeepAlive? || hs.HMatchingConnectionClose?
    || hs.HMatchingConnectionUpgrade? || hs.HMatchingConnectionToken? || hs.HTransferEncodingChunked?
    || hs.HConnectionKeepAlive? || hs.HConnectionClose? || hs.HConnectionUpgrade?
  }

  predicate Inv(p: Parser, nread: nat) {
    && p.contentLength <= MAX_UINT64
    && match p.state
       case HeaderField => NameState(p.headerState) && IndexOk(p.headerState, p.index)
       case HeaderValueDiscardWs => NameState(p.headerState)
       case HeaderValueDiscardWsAlmostDone => NameState(p.headerState)
       case HeaderValueDiscardLws => NameState(p.headerState)
       case HeaderValue => ValueState(p.headerState) && IndexOk(p.headerState, p.index)
       case HeaderAlmostDone => ValueState(p.headerState)
       case HeaderValueLws => ValueState(p.headerState)
       case ChunkSizeStart => p.flags.chunked && nread == 0
       case ChunkSize => p.flags.chunked && p.contentLength < MAX_UINT64
       case ChunkParameters => p.flags.chunked && p.contentLength < MAX_UINT64
       case ChunkSizeAlmostDone => p.flags.chunked && p.contentLength < MAX_UINT64
       case ChunkData => p.flags.chunked && 0 < p.contentLength < MAX_UINT64
       case ChunkDataAlmostDone => p.flags.chunked && p.contentLength == 0
       case ChunkDataDone => p.flags.chunked
       case BodyIdentity => 0 < p.contentLength < MAX_UINT64
       case HeaderValueStart => false
       case HeadersDone => false
       case MessageDone => false
       case _ => true
  }

  /** The data callback a mark may be held for in this state. */
  function OpenKind(p: Parser): Take {
    match p.state
    case HeaderField => TakeByte(Field)
    case HeaderValue => TakeByte(Value)
    case ResStatus => TakeByte(Status(p.statusCode))
    case BodyIdentity => TakeByte(Body)
    case BodyIdentityEof => TakeByte(Body)
    case ChunkData => TakeByte(Body)
    case ChunkDataAlmostDone => TakeByte(Body)
    case _ => NoByte
  }

  /** The states in which a datum is open and its mark has to be set. */
  predicate Cut(p: Parser) {
    p.state.HeaderField? || p.state.HeaderValue? || p.state.ResStatus?
  }

  /** Which mark may be set inside a call. At most one is, and callbacks find the mark they name. */
  predicate MarkOk(p: Parser, mark: Mark) {
    (mark.Marked? ==> OpenKind(p) == TakeByte(mark.kind)) && (Cut(p) ==> mark.Marked?)
  }

  /** A datum that is still open is the last event, so entering a call with an empty mark changes nothing. */
  predicate OpenDatum(p: Parser, full: seq<Event>) {
    Cut(p) ==> EndsIn(full, OpenKind(p).kind)
  }

  ghost predicate Good(c: Conn) {
    && Inv(c.p, c.nread) && MarkOk(c.p, c.mark) && OpenDatum(c.p, Full(c))
    && (c.inLoop ==> Cut(c.p))
    && (c.exited ==> c.p.state.StartRes? || c.p.state.Dead?)
  }

  /** The effect of a byte as seen on the whole trace, whatever part of it is still held by a mark. */
  function PerformFull(full: seq<Event>, fx: Effects, ch: byte): seq<Event> {
    var t1 := PerformEmpty(full, fx);
    var t2 := if fx.take.TakeByte? then Emit(t1, fx.take.kind, [ch]) else t1;
    t2 + Notes(fx.notes)
  }

  lemma PerformIsPerformFull(c: Conn, fx: Effects, ch: byte)
    requires fx.emptyValue ==> c.mark.NoMark?
    requires fx.take.TakeByte? && c.mark.Marked? ==> c.mark.kind == fx.take.kind
    requires fx.notes != [] ==> fx.flush || (c.mark.NoMark? && fx.take.NoByte?)
    ensures Full(Perform(c, fx, ch)) == PerformFull(Full(c), fx, ch)
  {
    if fx.take.TakeByte? && c.mark.Marked? {
      EmitTwice(c.trace, c.mark.kind, c.mark.bytes, [ch]);
    }
    if fx.notes == [] {
      assert Notes([]) == [];
      assert forall t: seq<Event> :: t + Notes([]) == t;
    }
  }

  /** The asserts of http_parser_execute for a byte read in this state (`nread` already counts it). */
  predicate AssertsHold(p: Parser, nread: nat) {
    && (p.state.HeaderField? ==> NameState(p.headerState))
    && (p.state.HeaderValue? ==> !p.headerState.HConnection? && !p.headerState.HTransferEncoding?)
    && (p.state.BodyIdentity? ==> p.contentLength != 0 && p.contentLength != MAX_UINT64)
    && (p.state.ChunkSizeStart? ==> nread == 1)
    && (ChunkState(p.state) ==> p.flags.chunked)
    && (p.state.ChunkData? ==> p.contentLength != 0 && p.contentLength != MAX_UINT64)
    && (p.state.ChunkDataAlmostDone? ==> p.contentLength == 0)
  }

  /** The invariant after the byte that produced `out`, with `nread` as counted before any reset. */
  predicate InvOut(out: Out, nread: nat) {
    out.p.errno == Ok ==> Inv(out.p, if out.reset then 0 else nread)
  }

  lemma HeadersDoneInv(p: Parser, nread: nat, ch: byte)
    requires p.contentLength <= MAX_UINT64
    ensures InvOut(HeadersDoneByte(p, ch), nread)
  {
  }

  lemma HeadersAlmostDoneInv(p: Parser, nread: nat, ch: byte)
    requires p.contentLength <= MAX_UINT64
    ensures InvOut(HeadersAlmostDoneByte(p, ch), nread)
  {
    HeadersDoneInv(p.(state := HeadersDone, upgrade := p.flags.upgrade && p.flags.connUpgrade), nread, ch);
  }

  lemma HeaderFieldStartInv(p: Parser, nread: nat, ch: byte)
    requires p.contentLength <= MAX_UINT64
    ensures InvOut(HeaderFieldStartByte(p, ch), nread)
  {
    HeadersAlmostDoneInv(p.(state := HeadersAlmostDone), nread, ch);
  }

  lemma NameByteInv(hs: HState, index: nat, ch: byte, c: byte)
    requires NameState(hs) && IndexOk(hs, index) && c != 0
    ensures var (hs', index') := NameByte(hs, index, ch, c); NameState(hs') && IndexOk(hs', index')
  {
  }

  lemma ValueStartInv(p: Parser, nread: nat, ch: byte)
    requires p.contentLength <= MAX_UINT64
    ensures InvOut(HeaderValueStartByte(p, ch), nread)
  {
  }

  /** One more byte of the word a value may be. */
  lemma WordByteInv(p: Parser, nread: nat, word: seq<byte>, c: byte, matching: HState, matched: HState, failed: HState)
    requires p.state.HeaderValue? && Inv(p, nread) && p.index + 1 < |word|
    requires matching != matched && matching != failed
    requires ValueState(matching) && ValueState(matched) && ValueState(failed)
    requires forall i: nat :: i + 2 <= |word| ==> IndexOk(matching, i)
    requires IndexOk(matched, p.index + 1) && IndexOk(failed, p.index + 1)
    ensures Inv(p.(index := p.index + 1, headerState := Match(word, p.index + 1, c, matching, matched, failed)), nread + 1)
  {
    MatchIndex(word, p.index + 1, c, matching, matched, failed);
    hide Match;
  }

  /** The matchers of whole words in a value. */
  predicate WordState(hs: HState) {
    hs.HMatchingTransferEncodingChunked? || hs.HMatchingConnectionKeepAlive?
    || hs.HMatchingConnectionClose? || hs.HMatchingConnectionUpgrade?
  }

  lemma ValueWordInv(p: Parser, nread: nat, ch: byte)
    requires p.state.HeaderValue? && p.errno == Ok && Inv(p, nread) && WordState(p.headerState)
    ensures InvOut(ValueCharByte(p, ch), nread + 1)
  {
    hide Match;
    var c := Lower(ch);
    match p.headerState
    case HMatchingTransferEncodingChunked =>
      WordByteInv(p, nread, CHUNKED, c, p.headerState, HTransferEncodingChunked, HGeneral);
    case HMatchingConnectionKeepAlive =>
      WordByteInv(p, nread, KEEP_ALIVE, c, p.headerState, HConnectionKeepAlive, HMatchingConnectionToken);
    case HMatchingConnectionClose =>
      WordByteInv(p, nread, CLOSE, c, p.headerState, HConnectionClose, HMatchingConnectionToken);
    case HMatchingConnectionUpgrade =>
      WordByteInv(p, nread, UPGRADE, c, p.headerState, HConnectionUpgrade, HMatchingConnectionToken);
  }

  lemma ValueCharInv(p: Parser, nread: nat, ch: byte)
    requires p.state.HeaderValue? && p.errno == Ok && Inv(p, nread) && ch != CR && ch != LF
    ensures InvOut(ValueCharByte(p, ch), nread + 1)
  {
    if WordState(p.headerState) {
      ValueWordInv(p, nread, ch);
    } else {
      var out := ValueCharByte(p, ch);
      assert !out.reset && out.p.state == HeaderValue;
    }
  }

  lemma HeaderInv(p: Parser, nread: nat, ch: byte, skip: bool)
    requires p.errno == Ok && Inv(p, nread) && HeaderState(p.state)
    ensures InvOut(HeaderTransition(p, ch, skip), nread + 1)
  {
    hide HeadersAlmostDoneByte;
    hide HeaderFieldStartByte;
    hide HeaderValueStartByte;
    hide ValueCharByte;
    match p.state
    case HeaderFieldStart => HeaderFieldStartInv(p, nread + 1, ch);
    case HeaderField =>
      if Token(ch) != 0 { NameByteInv(p.headerState, p.index, ch, Token(ch)); }
    case HeaderValueDiscardWs => ValueStartInv(p, nread + 1, ch);
    case HeaderValueDiscardLws =>
      HeaderFieldStartInv(p.(flags := ValueEndFlags(p.flags, p.headerState), state := HeaderFieldStart), nread + 1, ch);
    case HeaderValueLws =>
      ValueStartInv(p.(state := HeaderValueStart), nread + 1, ch);
      HeaderFieldStartInv(p.(flags := ValueEndFlags(p.flags, p.headerState), state := HeaderFieldStart), nread + 1, ch);
    case HeaderValue => if ch != CR && ch != LF { ValueCharInv(p, nread, ch); }
    case HeadersAlmostDone => HeadersAlmostDoneInv(p, nread + 1, ch);
    case _ =>
  }

  lemma VersionInv(p: Parser, nread: nat, ch: byte)
    requires p.errno == Ok && p.contentLength <= MAX_UINT64
    requires p.state.ResFirstHttpMajor? || p.state.ResHttpMajor? || p.state.ResFirstHttpMinor? || p.state.ResHttpMinor?
    ensures InvOut(VersionByte(p, ch), nread)
  {
  }

  lemma StatusInv(p: Parser, nread: nat, ch: byte)
    requires p.errno == Ok && p.contentLength <= MAX_UINT64
    requires p.state.ResFirstStatusCode? || p.state.ResStatusCode? || p.state.ResStatusStart? || p.state.ResStatus?
    ensures InvOut(StatusByte(p, ch), nread)
  {
  }

  lemma StartLineInv(p: Parser, nread: nat, ch: byte)
    requires p.errno == Ok && Inv(p, nread) && !HeaderState(p.state) && !BodyState(p.state)
    ensures InvOut(StartLineTransition(p, ch), nread + 1)
  {
    hide VersionByte;
    hide StatusByte;
    match p.state
    case ResFirstHttpMajor => VersionInv(p, nread + 1, ch);
    case ResHttpMajor => VersionInv(p, nread + 1, ch);
    case ResFirstHttpMinor => VersionInv(p, nread + 1, ch);
    case ResHttpMinor => VersionInv(p, nread + 1, ch);
    case ResFirstStatusCode => StatusInv(p, nread + 1, ch);
    case ResStatusCode => StatusInv(p, nread + 1, ch);
    case ResStatusStart => StatusInv(p, nread + 1, ch);
    case ResStatus => StatusInv(p, nread + 1, ch);
    case _ =>
  }

  lemma ChunkSizeInv(p: Parser, nread: nat, ch: byte)
    requires p.errno == Ok && Inv(p, nread)
    ensures p.state.ChunkSize? ==> InvOut(ChunkSizeByte(p, ch), nread + 1)
  {
  }

  lemma ChunkSizeEndInv(p: Parser, nread: nat, ch: byte)
    requires p.errno == Ok && Inv(p, nread)
    ensures p.state.ChunkSizeAlmostDone? ==> InvOut(ChunkSizeAlmostDoneByte(p, ch), nread + 1)
  {
  }

  lemma ChunkDataInv(p: Parser, nread: nat)
    requires p.errno == Ok && Inv(p, nread)
    ensures p.state.ChunkData? ==> InvOut(ChunkDataByte(p), nread)
  {
  }

  lemma BodyIdentityInv(p: Parser, nread: nat)
    requires p.errno == Ok && Inv(p, nread)
    ensures p.state.BodyIdentity? ==> InvOut(BodyIdentityByte(p), nread)
  {
  }

  lemma BodyInv(p: Parser, nread: nat, ch: byte)
    requires p.errno == Ok && Inv(p, nread) && BodyState(p.state)
    ensures InvOut(BodyTransition(p, ch), if ParsingHeader(p.state) then nread + 1 else nread)
  {
    hide ChunkSizeByte;
    hide ChunkSizeAlmostDoneByte;
    hide ChunkDataByte;
    hide BodyIdentityByte;
    ChunkSizeInv(p, nread, ch);
    ChunkSizeEndInv(p, nread, ch);
    ChunkDataInv(p, nread);
    BodyIdentityInv(p, nread);
  }

  lemma TransitionInv(p: Parser, nread: nat, ch: byte, skip: bool)
    requires p.errno == Ok && Inv(p, nread)
    ensures InvOut(Transition(p, ch, skip), if ParsingHeader(p.state) then nread + 1 else nread)
  {
    if HeaderState(p.state) {
      HeaderInv(p, nread, ch, skip);
    } else if BodyState(p.state) {
      BodyInv(p, nread, ch);
    } else {
      StartLineInv(p, nread, ch);
    }
  }

  /** How the effects of a byte fit the marks before and after it. */
  predicate Shape(p: Parser, out: Out) {
    var fx := out.fx;
    && (fx.emptyValue ==> OpenKind(p) == NoByte)
    && (fx.take.TakeByte? ==> OpenKind(p) == NoByte || OpenKind(p) == fx.take)
    && (fx.notes != [] ==> fx.flush || (OpenKind(p) == NoByte && fx.take == NoByte))
    && (out.p.errno == Ok ==>
          && (if fx.flush then !Cut(out.p)
              else if fx.take.TakeByte? then OpenKind(out.p) == fx.take
              else OpenKind(p) == NoByte && !Cut(out.p))
          && (Cut(out.p) ==> fx.notes == [])
          && (out.exit ==> out.p.state.StartRes? || out.p.state.Dead?))
  }

  lemma HeadersDoneShape(p: Parser, ch: byte)
    ensures var out := HeadersDoneByte(p, ch);
      && !out.fx.emptyValue && out.fx.take == NoByte && !out.fx.flush
      && (out.p.errno == Ok ==> !Cut(out.p) && (out.exit ==> out.p.state.StartRes? || out.p.state.Dead?))
    ensures var out := HeadersAlmostDoneByte(p, ch);
      && !out.fx.emptyValue && out.fx.take == NoByte && !out.fx.flush
      && (out.p.errno == Ok ==> !Cut(out.p) && (out.exit ==> out.p.state.StartRes? || out.p.state.Dead?))
  {
  }

  lemma HeaderFieldStartShape(p: Parser, ch: byte)
    requires !Cut(p) && OpenKind(p) == NoByte
    ensures Shape(p, HeaderFieldStartByte(p, ch)) && !HeaderFieldStartByte(p, ch).fx.emptyValue
    ensures HeaderFieldStartByte(p, ch).fx.take == NoByte || HeaderFieldStartByte(p, ch).fx.notes == []
  {
    HeadersDoneShape(p.(state := HeadersAlmostDone), ch);
  }

  lemma ValueStartShape(p: Parser, ch: byte)
    requires OpenKind(p) == NoByte
    ensures Shape(p, HeaderValueStartByte(p, ch))
  {
  }

  lemma ValueCharShape(p: Parser, ch: byte)
    requires p.state.HeaderValue? && p.errno == Ok
    ensures Shape(p, ValueCharByte(p, ch))
  {
    var out := ValueCharByte(p, ch);
    assert out.p.state == HeaderValue && !out.fx.emptyValue && !out.fx.flush && !out.exit && out.fx.notes == [];
    assert out.p.errno == Ok ==> out.fx.take == TakeByte(Value);
  }

  lemma HeaderShape(p: Parser, ch: byte, skip: bool)
    requires p.errno == Ok && HeaderState(p.state)
    ensures Shape(p, HeaderTransition(p, ch, skip))
  {
    match p.state
    case HeaderFieldStart => HeaderFieldStartShape(p, ch);
    case HeaderValueDiscardWs => ValueStartShape(p, ch);
    case HeaderValueStart => ValueStartShape(p, ch);
    case HeaderValueDiscardLws =>
      HeaderFieldStartShape(p.(flags := ValueEndFlags(p.flags, p.headerState), state := HeaderFieldStart), ch);
    case HeaderValueLws =>
      ValueStartShape(p.(state := HeaderValueStart), ch);
      HeaderFieldStartShape(p.(flags := ValueEndFlags(p.flags, p.headerState), state := HeaderFieldStart), ch);
    case HeaderValue => ValueCharShape(p, ch);
    case HeadersAlmostDone => HeadersDoneShape(p, ch);
    case HeadersDone => HeadersDoneShape(p, ch);
    case _ =>
  }

  lemma StartLineShape(p: Parser, ch: byte)
    requires p.errno == Ok && !HeaderState(p.state) && !BodyState(p.state)
    ensures Shape(p, StartLineTransition(p, ch))
  {
  }

  lemma BodyShape(p: Parser, ch: byte)
    requires p.errno == Ok && BodyState(p.state)
    ensures Shape(p, BodyTransition(p, ch))
  {
  }

  lemma TransitionShape(p: Parser, ch: byte, skip: bool)
    requires p.errno == Ok
    ensures Shape(p, Transition(p, ch, skip))
  {
    if HeaderState(p.state) {
      HeaderShape(p, ch, skip);
    } else if BodyState(p.state) {
      BodyShape(p, ch);
    } else {
      StartLineShape(p, ch);
    }
  }

  lemma PerformMarks(c: Conn, out: Out, ch: byte)
    requires MarkOk(c.p, c.mark) && OpenDatum(c.p, Full(c)) && Shape(c.p, out) && out.p.errno == Ok
    ensures MarkOk(out.p, Perform(c, out.fx, ch).mark)
    ensures Full(Perform(c, out.fx, ch)) == PerformFull(Full(c), out.fx, ch)
    ensures OpenDatum(out.p, PerformFull(Full(c), out.fx, ch))
  {
    PerformMarkOk(c, out, ch);
    PerformOpen(c, out, ch);
    PerformIsPerformFull(c, out.fx, ch);
  }

  lemma PerformMarkOk(c: Conn, out: Out, ch: byte)
    requires MarkOk(c.p, c.mark) && Shape(c.p, out) && out.p.errno == Ok
    ensures MarkOk(out.p, Perform(c, out.fx, ch).mark)
  {
  }

  lemma PerformOpen(c: Conn, out: Out, ch: byte)
    requires MarkOk(c.p, c.mark) && OpenDatum(c.p, Full(c)) && Shape(c.p, out) && out.p.errno == Ok
    ensures OpenDatum(out.p, PerformFull(Full(c), out.fx, ch))
  {
    if out.fx.notes == [] {
      assert forall t: seq<Event> :: t + Notes([]) == t;
    }
  }

  /** Every byte keeps the invariant, and its effect on the trace does not depend on what the mark still holds. */
  lemma StepGood(c: Conn, ch: byte)
    requires Good(c) && c.p.errno == Ok
    ensures Step(c, ch).p.errno == Ok ==>
      Good(Step(c, ch)) && Full(Step(c, ch)) == PerformFull(Full(c), Transition(c.p, ch, c.skip).fx, ch)
  {
    if Step(c, ch).p.errno == Ok {
      StepInv(c, ch);
      TransitionShape(c.p, ch, c.skip);
      PerformMarks(c, Transition(c.p, ch, c.skip), ch);
      StepLoop(c, ch);
    }
  }

  lemma StepInv(c: Conn, ch: byte)
    requires Inv(c.p, c.nread) && c.p.errno == Ok
    ensures Step(c, ch).p.errno == Ok ==> Inv(Step(c, ch).p, Step(c, ch).nread)
  {
    TransitionInv(c.p, c.nread, ch, c.skip);
  }

  lemma StepLoop(c: Conn, ch: byte)
    requires c.p.errno == Ok
    ensures Step(c, ch).p.errno == Ok && LoopByte(c.p, ch) ==> Step(c, ch).p.state == c.p.state
  {
  }

  /** A parser between two calls. */
  ghost predicate Resting(c: Conn) {
    Inv(c.p, c.nread) && c.mark.NoMark? && OpenDatum(c.p, c.trace)
  }

  lemma BeginGood(c: Conn)
    requires Resting(c)
    ensures Good(Begin(c)) && Full(Begin(c)) == c.trace
  {
    match c.p.state
    case HeaderField => EmitEmpty(c.trace, Field);
    case HeaderValue => EmitEmpty(c.trace, Value);
    case ResStatus => EmitEmpty(c.trace, Status(c.p.statusCode));
    case _ =>
  }

  lemma {:induction false} RunGood(c: Conn, data: seq<byte>)
    requires Good(c)
    ensures Run(c, data).p.errno == Ok ==> Good(Run(c, data))
    decreases |data|
  {
    if data != [] && !Stopped(c) {
      StepGood(c, data[0]);
      if Step(c, data[0]).p.errno == Ok {
        RunGood(Step(c, data[0]), data[1..]);
      }
    }
  }

  /** After any sequence of pieces the parser is in error or in a state of the invariant. */
  lemma {:induction false} CallsRest(c: Conn, pieces: seq<seq<byte>>)
    requires Resting(c)
    ensures Calls(c, pieces).p.errno == Ok ==> Resting(Calls(c, pieces))
    decreases |pieces|
  {
    hide Run;
    hide Step;
    if pieces != [] {
      if c.p.errno == Ok {
        BeginGood(c);
        RunGood(Begin(c), pieces[0]);
      }
      if Call(c, pieces[0]).p.errno == Ok {
        CallsRest(Call(c, pieces[0]), pieces[1..]);
      } else {
        CallsStuck(Call(c, pieces[0]), pieces[1..]);
      }
    }
  }

  lemma {:induction false} CallsStuck(c: Conn, pieces: seq<seq<byte>>)
    requires c.p.errno != Ok
    ensures Calls(c, pieces) == c
    decreases |pieces|
  {
    if pieces != [] {
      CallsStuck(c, pieces[1..]);
    }
  }

  lemma InvAsserts(p: Parser, nread: nat)
    requires Inv(p, nread)
    ensures AssertsHold(p, if ParsingHeader(p.state) then nread + 1 else nread)
    ensures p.state.HeaderField? || p.state.HeaderValue? ==> p.index + 1 < 128
  {
  }

  /** No input, however cut into pieces, leads a resting parser to a byte on which an assert fails, to two marks
      at once, or to an index its 7-bit field cannot hold. */
  lemma AssertsNeverFail(start: Conn, pieces: seq<seq<byte>>, last: seq<byte>)
    requires Resting(start)
    ensures var c := Calls(start, pieces);
      c.p.errno == Ok ==>
        var d := Run(Begin(c), last);
        d.p.errno == Ok ==>
          && AssertsHold(d.p, if ParsingHeader(d.p.state) then d.nread + 1 else d.nread)
          && MarkOk(d.p, d.mark)
          && (d.p.state.HeaderField? || d.p.state.HeaderValue? ==> d.p.index + 1 < 128)
  {
    CallsRest(start, pieces);
    var c := Calls(start, pieces);
    if c.p.errno == Ok {
      BeginGood(c);
      RunGood(Begin(c), last);
      var d := Run(Begin(c), last);
      if d.p.errno == Ok {
        InvAsserts(d.p, d.nread);
      }
    }
  }

  lemma StartRests()
    ensures Resting(START)
  {
  }
}
