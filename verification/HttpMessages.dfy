/** Whole responses, from the status line to the last byte of the body, as the consumer sees them. */
module HttpMessages {
  import opened HttpBytes
  import opened HttpParserState
  import opened HttpTrace
  import opened HttpRun
  import opened HttpBatches
  import opened HttpInvariants
  import opened HttpSplit
  import opened HttpHeaders
  import opened HttpEncoding
  import opened HttpChunks
  import opened HttpRoundTrip
  import opened HttpHead
  import opened HttpStatusLine
  import opened HttpFraming

  /** A header section of `bare` or CR LF lines, with the empty line that ends it. */
  datatype Head = Head(status: StatusLine, headers: seq<Header>, bare: bool)

  function HeadText(h: Head): seq<byte> {
    StatusText(h.status) + (Lines(h.headers) + Eol(h.bare))
  }

  predicate HeadOk(h: Head) {
    && StatusOk(h.status) && StatusFits(h.status) && HeadersOk(h.headers) && LengthsAllowed(h.headers)
    && |HeadText(h)| + 2 <= HTTP_MAX_HEADER_SIZE
  }

  function CodeOf(h: Head): nat {
    Decimal(0, h.status.code)
  }

  function FramingIn(h: Head): Framing {
    FramingOf(CodeOf(h), h.headers)
  }

  predicate PersistsIn(h: Head) {
    Persists(Decimal(0, h.status.major), Decimal(0, h.status.minor), CodeOf(h), h.headers)
  }

  /** What the parser waits for behind the response. */
  function Next(h: Head): State {
    if PersistsIn(h) then StartRes else Dead
  }

  function StatusEvents(h: Head): seq<Event> {
    [Notify(MessageBegin)] + ReasonEvents(CodeOf(h), h.status.reason)
  }

  /** Everything reported before the body. */
  function HeadEvents(h: Head): seq<Event> {
    StatusEvents(h) + HeaderEvents(h.headers) + EndEvents(FramingIn(h))
  }

  /** The parser behind a head that is no error. */
  predicate HeadRead(h: Head, d: Conn) {
    && d.p.errno == Ok && d.trace == HeadEvents(h) && d.mark.NoMark? && !d.inLoop && !d.skip && d.nread == 0
    && d.exited == FramingIn(h).Upgraded? && d.p.upgrade == Upgrades(h.headers)
    && d.p.state == EndState(FramingIn(h), PersistsIn(h))
    && d.p.flags == AskedFlags(h.headers) && d.p.contentLength == AskedLength(h.headers)
    && d.p.httpMajor == Decimal(0, h.status.major) && d.p.httpMinor == Decimal(0, h.status.minor)
    && d.p.statusCode == CodeOf(h)
  }

  lemma AfterStatus(c: Conn, s: StatusLine)
    requires StatusOk(s) && StatusTaken(START, s, c)
    ensures AtHead(c) && c.trace == [Notify(MessageBegin)] + ReasonEvents(Decimal(0, s.code), s.reason)
    ensures c.nread == |StatusText(s)|
  {
    assert [] + [Notify(MessageBegin)] == [Notify(MessageBegin)];
  }

  /** The head of a response: its framing is either an error or what follows. */
  lemma HeadRuns(h: Head)
    requires HeadOk(h)
    ensures var d := Run(START, HeadText(h));
      if FramingIn(h).Conflict? then d.p.errno == UnexpectedContentLength else HeadRead(h, d)
  {
    hide Run;
    hide Lines;
    hide FramingOf;
    hide LengthsAllowed;
    hide HeadersOk;
    hide Persists;
    hide EndState;
    var tail := Lines(h.headers) + Eol(h.bare);
    RunAppend(START, StatusText(h.status), tail);
    StatusLineExact(START, h.status);
    var c := Run(START, StatusText(h.status));
    AfterStatus(c, h.status);
    HeadSelectsFraming(c, h.headers, h.bare);
  }

  // ----- the consumer's view ------------------------------------------------------------------

  function Names(headers: seq<Header>): seq<seq<byte>> {
    seq(|headers|, i requires 0 <= i < |headers| => headers[i].name)
  }

  function Values(headers: seq<Header>): seq<seq<byte>> {
    seq(|headers|, i requires 0 <= i < |headers| => headers[i].value)
  }

  /** The response as it was written: every header in order, the body, and the code, unless the reason phrase is empty,
      in which case nothing reports the code. */
  predicate Holds(r: Response, h: Head, body: seq<byte>, complete: bool) {
    && r.fields == Names(h.headers) && r.values == Values(h.headers)
    && r.statusCode == (if h.status.reason == [] then 0 else CodeOf(h))
    && r.body == body && r.bodyLength == |body| && r.complete == complete
  }

  predicate PlainEvent(e: Event) {
    e.Notify? && !e.note.MessageComplete?
  }

  lemma ConsumePlain(r: Response, trace: seq<Event>, e: Event)
    requires PlainEvent(e)
    ensures ConsumeAll(r, trace + [e]) == ConsumeAll(r, trace)
  {
    ConsumeSnoc(r, trace, e);
  }

  predicate HoldsHeaders(r: Response, code: nat, headers: seq<Header>) {
    && r.fields == Names(headers) && r.values == Values(headers) && r.statusCode == code
    && r.body == [] && r.bodyLength == 0 && !r.complete
    && !r.concatField && (r.concatValue <==> headers != [])
  }

  lemma {:induction false} ConsumeHeaders(base: seq<Event>, code: nat, headers: seq<Header>)
    requires HoldsHeaders(ConsumeAll(NO_RESPONSE, base), code, [])
    ensures HoldsHeaders(ConsumeAll(NO_RESPONSE, base + HeaderEvents(headers)), code, headers)
    decreases |headers|
  {
    hide ConsumeAll;
    if headers == [] {
      assert base + HeaderEvents(headers) == base;
    } else {
      var n := |headers| - 1;
      var init, h := headers[..n], headers[n];
      ConsumeHeaders(base, code, init);
      var t := base + HeaderEvents(init);
      var e1, e2 := Data(Field, h.name), Data(Value, h.value);
      assert base + HeaderEvents(headers) == t + [e1] + [e2];
      ConsumeSnoc(NO_RESPONSE, t, e1);
      ConsumeSnoc(NO_RESPONSE, t + [e1], e2);
      assert Names(headers) == Names(init) + [h.name] && Values(headers) == Values(init) + [h.value];
    }
  }

  lemma ConsumeStatus(h: Head)
    ensures HoldsHeaders(ConsumeAll(NO_RESPONSE, StatusEvents(h)), if h.status.reason == [] then 0 else CodeOf(h), [])
  {
    var begin := Notify(MessageBegin);
    ConsumeSnoc(NO_RESPONSE, [], begin);
    assert [] + [begin] == [begin];
    if h.status.reason == [] {
      assert StatusEvents(h) == [begin];
    } else {
      var e := Data(Status(CodeOf(h)), h.status.reason);
      ConsumeSnoc(NO_RESPONSE, [begin], e);
      assert StatusEvents(h) == [begin] + [e];
    }
  }

  lemma ConsumeHead(h: Head)
    ensures var r := ConsumeAll(NO_RESPONSE, HeadEvents(h));
      Holds(r, h, [], FramingIn(h).Upgraded? || FramingIn(h).NoBody?)
  {
    hide ConsumeAll;
    hide FramingOf;
    ConsumeStatus(h);
    var t := StatusEvents(h) + HeaderEvents(h.headers);
    ConsumeHeaders(StatusEvents(h), if h.status.reason == [] then 0 else CodeOf(h), h.headers);
    var done := Notify(HeadersComplete(match FramingIn(h) case Counted(n) => n case _ => 0));
    ConsumePlain(NO_RESPONSE, t, done);
    if FramingIn(h).Upgraded? || FramingIn(h).NoBody? {
      ConsumeSnoc(NO_RESPONSE, t + [done], Notify(MessageComplete));
      assert HeadEvents(h) == t + [done] + [Notify(MessageComplete)];
    } else {
      assert HeadEvents(h) == t + [done];
    }
  }

  // ----- head and body ------------------------------------------------------------------------

  /** What one call on these bytes leaves the consumer with. */
  function Read(text: seq<byte>): Response {
    ConsumeAll(NO_RESPONSE, Call(START, text).trace)
  }

  /** The bytes are accepted in one call, and the parser stands behind the response. */
  predicate Ends(h: Head, text: seq<byte>) {
    Call(START, text).p.errno == Ok && Call(START, text).p.state == Next(h)
  }

  /** The connection goes on behind a body whose end is marked if and only if version and options say so. */
  lemma KeepAliveExact(p: Parser, h: Head)
    requires p.flags == AskedFlags(h.headers) && p.statusCode == CodeOf(h) && (p.flags.chunked || p.contentLength != MAX_UINT64)
    requires p.httpMajor == Decimal(0, h.status.major) && p.httpMinor == Decimal(0, h.status.minor)
    requires !FramingIn(h).Upgraded?
    ensures NewMessage(p) == Next(h)
  {
    hide Option;
    hide FramingOf;
  }

  lemma CallIsRun(text: seq<byte>)
    requires var d := Run(START, text); d.p.errno == Ok && d.mark.NoMark? && !d.inLoop
    ensures var d := Call(START, text); d.p == Run(START, text).p && d.trace == Run(START, text).trace
  {
    assert Begin(START) == START;
  }

  lemma HeadEndsPlain(h: Head)
    ensures HeadEvents(h) != [] && !HeadEvents(h)[|HeadEvents(h)| - 1].Data?
  {
    hide FramingOf;
    var e := EndEvents(FramingIn(h));
    assert HeadEvents(h)[|HeadEvents(h)| - 1] == e[|e| - 1];
  }

  /** Without a body the response is complete at the empty line. */
  lemma NoBodyRead(h: Head)
    requires HeadOk(h) && FramingIn(h).NoBody?
    ensures Ends(h, HeadText(h)) && Holds(Read(HeadText(h)), h, [], true)
  {
    hide Run;
    hide Call;
    hide NewMessage;
    hide AskedFlags;
    hide PersistsIn;
    hide ConsumeAll;
    hide HeadText;
    hide FramingOf;
    HeadRuns(h);
    ConsumeHead(h);
    CallIsRun(HeadText(h));
  }

  lemma ConsumeBody(trace: seq<Event>, body: seq<byte>)
    requires trace != [] && !trace[|trace| - 1].Data?
    ensures var r := ConsumeAll(NO_RESPONSE, trace);
      ConsumeAll(NO_RESPONSE, Emit(trace, Body, body) + Notes([MessageComplete]))
      == r.(body := r.body + body, bodyLength := r.bodyLength + |body|, complete := true)
  {
    var t := Emit(trace, Body, body);
    ConsumeSnoc(NO_RESPONSE, trace, Data(Body, body));
    ConsumeSnoc(NO_RESPONSE, t, Notify(MessageComplete));
    assert Notes([MessageComplete]) == [Notify(MessageComplete)];
  }

  lemma CountedRun(d: Conn, body: seq<byte>)
    requires !Stopped(d) && d.p.state.BodyIdentity? && d.mark.NoMark? && |body| == d.p.contentLength > 0
    ensures var e := Run(d, body);
      && e.p.errno == Ok && e.p.state == NewMessage(d.p.(contentLength := 0)) && e.trace == Emit(d.trace, Body, body) + Notes([MessageComplete]) && e.mark.NoMark? && !e.inLoop
  {
    hide Run;
    BodyRunAll(d, body);
  }

  /** A response with a length: its body is the bytes that follow, as many as the length says, and it is complete with
      the last of them. */
  lemma CountedRead(h: Head, body: seq<byte>)
    requires HeadOk(h) && FramingIn(h) == Counted(|body|)
    ensures var text := HeadText(h) + body;
      Ends(h, text) && Holds(Read(text), h, body, true)
  {
    hide Run;
    hide Call;
    hide NewMessage;
    hide AskedFlags;
    hide PersistsIn;
    hide ConsumeAll;
    hide HeadText;
    hide Emit;
    HeadRuns(h);
    ConsumeHead(h);
    HeadEndsPlain(h);
    var d := Run(START, HeadText(h));
    RunAppend(START, HeadText(h), body);
    CountedRun(d, body);
    KeepAliveExact(d.p.(contentLength := 0), h);
    ConsumeBody(HeadEvents(h), body);
    CallIsRun(HeadText(h) + body);
    assert [] + body == body;
  }

  /** A chunked response: its body is its chunks joined, and it is complete behind the last one. */
  lemma ChunkedRead(h: Head, chunks: seq<seq<byte>>)
    requires HeadOk(h) && FramingIn(h).Chunks? && !Upgrades(h.headers) && Sizes(chunks)
    ensures var text := HeadText(h) + Encode(chunks);
      Ends(h, text) && Holds(Read(text), h, Flatten(chunks), true)
  {
    hide Run;
    hide Call;
    hide NewMessage;
    hide PersistsIn;
    hide ConsumeAll;
    hide HeadText;
    hide Encode;
    hide Events;
    hide Sizes;
    HeadRuns(h);
    ConsumeHead(h);
    var d := Run(START, HeadText(h));
    RunAppend(START, HeadText(h), Encode(chunks));
    EncodedPasses(d, chunks);
    KeepAliveExact(d.p, h);
    ConsumeEvents(NO_RESPONSE, HeadEvents(h), chunks);
    CallIsRun(HeadText(h) + Encode(chunks));
    assert [] + Flatten(chunks) == Flatten(chunks);
  }

  /** What the end of the stream after these bytes leaves the consumer with. */
  function ReadToEof(text: seq<byte>): Response {
    ConsumeAll(NO_RESPONSE, Eof(Call(START, text)).trace)
  }

  /** What a body to the end of the stream adds to the trace. */
  function EofTrace(trace: seq<Event>, body: seq<byte>): seq<Event> {
    if body == [] then trace else Emit(trace, Body, body)
  }

  lemma EofBody(d: Conn, body: seq<byte>)
    requires !Stopped(d) && d.p.state.BodyIdentityEof? && d.mark.NoMark? && !d.inLoop
    ensures var e := End(Run(d, body)); e.p == d.p && e.trace == EofTrace(d.trace, body)
  {
    if body != [] {
      EofRun(d, body);
    }
  }

  lemma ConsumeToEof(trace: seq<Event>, body: seq<byte>)
    ensures var r := ConsumeAll(NO_RESPONSE, trace);
      var s := r.(body := r.body + body, bodyLength := r.bodyLength + |body|);
      && ConsumeAll(NO_RESPONSE, EofTrace(trace, body)) == s
      && ConsumeAll(NO_RESPONSE, EofTrace(trace, body) + [Notify(MessageComplete)]) == s.(complete := true)
  {
    if body == [] {
      var r := ConsumeAll(NO_RESPONSE, trace);
      assert r.body + [] == r.body;
    } else {
      ConsumeEmit(NO_RESPONSE, trace, Body, body);
    }
    ConsumeSnoc(NO_RESPONSE, EofTrace(trace, body), Notify(MessageComplete));
  }

  lemma EofCall(text: seq<byte>, trace: seq<Event>)
    requires var e := End(Run(START, text)); e.p.errno == Ok && e.p.state.BodyIdentityEof? && e.trace == trace
    ensures Call(START, text).p.errno == Ok && Call(START, text).trace == trace
    ensures Eof(Call(START, text)).trace == trace + [Notify(MessageComplete)]
  {
    hide Run;
    hide End;
    assert Begin(START) == START;
  }

  /** Without chunks, length or a code that goes without a body everything up to the end of the stream is body, and only
      that end completes the response. */
  lemma ToEofRead(h: Head, body: seq<byte>)
    requires HeadOk(h) && FramingIn(h).ToEof?
    ensures var text := HeadText(h) + body;
      && Call(START, text).p.errno == Ok && Holds(Read(text), h, body, false) && Holds(ReadToEof(text), h, body, true)
  {
    hide Run;
    hide End;
    hide Call;
    hide Eof;
    hide ConsumeAll;
    hide HeadText;
    hide EofTrace;
    HeadRuns(h);
    ConsumeHead(h);
    var d := Run(START, HeadText(h));
    RunAppend(START, HeadText(h), body);
    EofBody(d, body);
    EofCall(HeadText(h) + body, EofTrace(HeadEvents(h), body));
    ConsumeToEof(HeadEvents(h), body);
    assert [] + body == body;
  }

  /** Any of these responses in any pieces: if the pieces are accepted, the consumer holds the same. */
  lemma ReadInPieces(text: seq<byte>, pieces: seq<seq<byte>>)
    requires Concat(pieces) == text && !Run(START, text).exited && Calls(START, pieces).p.errno == Ok
    ensures ConsumeAll(NO_RESPONSE, Calls(START, pieces).trace) == Read(text)
  {
    hide Run;
    hide Calls;
    StartRests();
    assert Begin(START) == START;
    AcceptedInPieces(START, pieces);
  }
}
