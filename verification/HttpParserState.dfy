/** The http_parser struct of a response parser and what one byte does to it.

    `Transition` is the body of the big switch of http_parser_execute for one byte, with every
    `goto reexecute` followed to its end. It says nothing about marks or batching: those belong to the
    method that runs it (see HttpExecute).
 */
module HttpParserState {
  import opened HttpBytes

  datatype State =
    | Dead | StartRes | ResH | ResHT | ResHTT | ResHTTP
    | ResFirstHttpMajor | ResHttpMajor | ResFirstHttpMinor | ResHttpMinor
    | ResFirstStatusCode | ResStatusCode | ResStatusStart | ResStatus | ResLineAlmostDone
    | HeaderFieldStart | HeaderField
    | HeaderValueDiscardWs | HeaderValueDiscardWsAlmostDone | HeaderValueDiscardLws
    | HeaderValueStart | HeaderValue | HeaderValueLws | HeaderAlmostDone
    | ChunkSizeStart | ChunkSize | ChunkParameters | ChunkSizeAlmostDone
    | HeadersAlmostDone | HeadersDone
    | ChunkData | ChunkDataAlmostDone | ChunkDataDone
    | BodyIdentity | BodyIdentityEof | MessageDone

  datatype HState =
    | HGeneral | HC | HCO | HCON
    | HMatchingConnection | HMatchingProxyConnection | HMatchingContentLength
    | HMatchingTransferEncoding | HMatchingUpgrade
    | HConnection | HContentLength | HTransferEncoding | HUpgrade
    | HMatchingTransferEncodingChunked | HMatchingConnectionTokenStart
    | HMatchingConnectionKeepAlive | HMatchingConnectionClose | HMatchingConnectionUpgrade
    | HMatchingConnectionToken
    | HTransferEncodingChunked | HConnectionKeepAlive | HConnectionClose | HConnectionUpgrade

  datatype Errno =
    | Ok | InvalidEofState | HeaderOverflow | ClosedConnection | InvalidVersion | InvalidStatus
    | LfExpected | InvalidHeaderToken | InvalidContentLength | UnexpectedContentLength
    | InvalidChunkSize | InvalidConstant | InvalidInternalState | Strict

  // F_SKIPBODY is absent: it is set only when on_headers_complete returns non-zero, and HttpParser's returns 0.
  datatype Flags = Flags(chunked: bool, keepAlive: bool, close: bool, connUpgrade: bool,
                         trailing: bool, upgrade: bool, contentLength: bool)

  const NO_FLAGS := Flags(false, false, false, false, false, false, false)

  /** The fields of `struct http_parser`, except `nread`, which the callers of Transition carry beside it. */
  datatype Parser = Parser(state: State, flags: Flags, headerState: HState, index: nat, contentLength: nat,
                           httpMajor: nat, httpMinor: nat, statusCode: nat, upgrade: bool, errno: Errno)

  /** What http_parser_init leaves for HTTP_RESPONSE. */
  const INITIAL := Parser(StartRes, NO_FLAGS, HGeneral, 0, 0, 0, 0, 0, false, Ok)

  /** States up to s_headers_done count towards the header size limit. */
  predicate ParsingHeader(s: State) {
    !(s.ChunkData? || s.ChunkDataAlmostDone? || s.ChunkDataDone? || s.BodyIdentity? || s.BodyIdentityEof?
      || s.MessageDone?)
  }

  // The data callbacks, by the mark they belong to. on_status also reads parser->status_code.
  datatype Kind = Status(code: nat) | Field | Value | Body

  // `due` is the body length on_headers_complete can read off the parser, 0 if there is none or it is chunked;
  // on_chunk_header reads `length` off content_length.
  datatype Note = MessageBegin | HeadersComplete(due: nat) | ChunkHeader(length: nat) | ChunkComplete | MessageComplete

  datatype Take = NoByte | TakeByte(kind: Kind)

  /** What one byte asks of the marks and callbacks, always in this order: an empty header value,
      a mark that covers the byte, a data callback for the open mark, plain notifications. */
  datatype Effects = Effects(emptyValue: bool, take: Take, flush: bool, notes: seq<Note>)

  const NOTHING := Effects(false, NoByte, false, [])
  const FLUSH := Effects(false, NoByte, true, [])

  /** `reset` is the assignment `nread = 0`; `exit` is the early return after an upgrade. */
  datatype Out = Out(p: Parser, fx: Effects, reset: bool, exit: bool)

  function Go(p: Parser): Out {
    Out(p, NOTHING, false, false)
  }

  function Fail(p: Parser, e: Errno): Out {
    Out(p.(errno := e), NOTHING, false, false)
  }

  function Taking(p: Parser, kind: Kind): Out {
    Out(p, Effects(false, TakeByte(kind), false, []), false, false)
  }

  predicate NeedsEof(p: Parser) {
    if p.statusCode / 100 == 1 || p.statusCode == 204 || p.statusCode == 304 then false
    else !(p.flags.chunked || p.contentLength != MAX_UINT64)
  }

  predicate ShouldKeepAlive(p: Parser) {
    && (if p.httpMajor > 0 && p.httpMinor > 0 then !p.flags.close else p.flags.keepAlive)
    && !NeedsEof(p)
  }

  function NewMessage(p: Parser): State {
    if ShouldKeepAlive(p) then StartRes else Dead
  }

  // ----- start line ---------------------------------------------------------------------------

  function StartResByte(p: Parser, ch: byte): Out {
    var p1 := p.(flags := NO_FLAGS, contentLength := MAX_UINT64);
    if ch == 72 then Out(p1.(state := ResH), NOTHING.(notes := [MessageBegin]), false, false)
    else if ch == CR || ch == LF then Out(p1, NOTHING.(notes := [MessageBegin]), false, false)
    else Fail(p1, InvalidConstant)
  }

  function Expect(p: Parser, ch: byte, wanted: byte, next: State): Out {
    if ch != wanted then Fail(p, Strict) else Go(p.(state := next))
  }

  function VersionByte(p: Parser, ch: byte): Out
    requires p.state.ResFirstHttpMajor? || p.state.ResHttpMajor? || p.state.ResFirstHttpMinor? || p.state.ResHttpMinor?
  {
    match p.state
    case ResFirstHttpMajor =>
      if !IsNum(ch) then Fail(p, InvalidVersion) else Go(p.(httpMajor := ch - 48, state := ResHttpMajor))
    case ResHttpMajor =>
      if ch == DOT then Go(p.(state := ResFirstHttpMinor))
      else if !IsNum(ch) then Fail(p, InvalidVersion)
      else
        var p1 := p.(httpMajor := p.httpMajor * 10 + (ch - 48));
        if p1.httpMajor > 999 then Fail(p1, InvalidVersion) else Go(p1)
    case ResFirstHttpMinor =>
      if !IsNum(ch) then Fail(p, InvalidVersion) else Go(p.(httpMinor := ch - 48, state := ResHttpMinor))
    case ResHttpMinor =>
      if ch == SP then Go(p.(state := ResFirstStatusCode))
      else if !IsNum(ch) then Fail(p, InvalidVersion)
      else
        var p1 := p.(httpMinor := p.httpMinor * 10 + (ch - 48));
        if p1.httpMinor > 999 then Fail(p1, InvalidVersion) else Go(p1)
  }

  function StatusByte(p: Parser, ch: byte): Out
    requires p.state.ResFirstStatusCode? || p.state.ResStatusCode? || p.state.ResStatusStart? || p.state.ResStatus?
  {
    match p.state
    case ResFirstStatusCode =>
      if IsNum(ch) then Go(p.(statusCode := ch - 48, state := ResStatusCode))
      else if ch == SP then Go(p)
      else Fail(p, InvalidStatus)
    case ResStatusCode =>
      if ch == SP then Go(p.(state := ResStatusStart))
      else if ch == CR then Go(p.(state := ResLineAlmostDone))
      else if ch == LF then Go(p.(state := HeaderFieldStart))
      else if !IsNum(ch) then Fail(p, InvalidStatus)
      else
        var p1 := p.(statusCode := p.statusCode * 10 + (ch - 48));
        if p1.statusCode > 999 then Fail(p1, InvalidStatus) else Go(p1)
    case ResStatusStart =>
      if ch == CR then Go(p.(state := ResLineAlmostDone))
      else if ch == LF then Go(p.(state := HeaderFieldStart))
      else Taking(p.(state := ResStatus, index := 0), Status(p.statusCode))
    case ResStatus =>
      if ch == CR then Go(p.(state := ResLineAlmostDone)).(fx := FLUSH)
      else if ch == LF then Go(p.(state := HeaderFieldStart)).(fx := FLUSH)
      else Taking(p, Status(p.statusCode))
  }

  // ----- header names -------------------------------------------------------------------------

  /** One more byte of a name or value that has matched `word` so far. */
  function Match(word: seq<byte>, index: nat, c: byte, matching: HState, matched: HState, failed: HState): HState {
    if index > |word| || c != CharAt(word, index) then failed
    else if index == |word| - 1 then matched
    else matching
  }

  function FirstNameState(c: byte): HState {
    if c == 99 then HC
    else if c == 112 then HMatchingProxyConnection
    else if c == 116 then HMatchingTransferEncoding
    else if c == 117 then HMatchingUpgrade
    else HGeneral
  }

  /** The states the inner loop over a header name can be in; any other trips "Unknown header_state". */
  predicate NameState(hs: HState) {
    hs.HGeneral? || hs.HC? || hs.HCO? || hs.HCON? || hs.HMatchingConnection? || hs.HMatchingProxyConnection?
    || hs.HMatchingContentLength? || hs.HMatchingTransferEncoding? || hs.HMatchingUpgrade?
    || hs.HConnection? || hs.HContentLength? || hs.HTransferEncoding? || hs.HUpgrade?
  }

  /** header_state and index after one more name byte `ch`, `c` being its lower-case token. */
  function NameByte(hs: HState, index: nat, ch: byte, c: byte): (HState, nat) {
    match hs
    case HGeneral => (HGeneral, index)
    case HC => (if c == 111 then HCO else HGeneral, index + 1)
    case HCO => (if c == 110 then HCON else HGeneral, index + 1)
    case HCON =>
      (if c == 110 then HMatchingConnection else if c == 116 then HMatchingContentLength else HGeneral, index + 1)
    case HMatchingConnection => (Match(CONNECTION, index + 1, c, hs, HConnection, HGeneral), index + 1)
    case HMatchingProxyConnection => (Match(PROXY_CONNECTION, index + 1, c, hs, HConnection, HGeneral), index + 1)
    case HMatchingContentLength => (Match(CONTENT_LENGTH, index + 1, c, hs, HContentLength, HGeneral), index + 1)
    case HMatchingTransferEncoding => (Match(TRANSFER_ENCODING, index + 1, c, hs, HTransferEncoding, HGeneral), index + 1)
    case HMatchingUpgrade => (Match(UPGRADE, index + 1, c, hs, HUpgrade, HGeneral), index + 1)
    case _ => (if NameState(hs) && ch != SP then HGeneral else hs, index)
  }

  function HeaderFieldByte(p: Parser, ch: byte): Out {
    if Token(ch) != 0 then
      var (hs, index) := NameByte(p.headerState, p.index, ch, Token(ch));
      Taking(p.(headerState := hs, index := index), Field)
    else if ch == COLON then Go(p.(state := HeaderValueDiscardWs)).(fx := FLUSH)
    else Fail(p, InvalidHeaderToken)
  }

  function HeaderFieldStartByte(p: Parser, ch: byte): Out {
    if ch == CR then Go(p.(state := HeadersAlmostDone))
    else if ch == LF then HeadersAlmostDoneByte(p.(state := HeadersAlmostDone), ch)
    else if Token(ch) == 0 then Fail(p, InvalidHeaderToken)
    else Taking(p.(index := 0, state := HeaderField, headerState := FirstNameState(Token(ch))), Field)
  }

  // ----- header values ------------------------------------------------------------------------

  function ConnectionToken(c: byte, other: HState): HState {
    if c == 107 then HMatchingConnectionKeepAlive
    else if c == 99 then HMatchingConnectionClose
    else if c == 117 then HMatchingConnectionUpgrade
    else other
  }

  function HeaderValueStartByte(p: Parser, ch: byte): Out {
    var p1 := p.(state := HeaderValue, index := 0);
    var c := Lower(ch);
    match p.headerState
    case HUpgrade => Taking(p1.(flags := p.flags.(upgrade := true), headerState := HGeneral), Value)
    case HTransferEncoding =>
      Taking(p1.(headerState := if c == 99 then HMatchingTransferEncodingChunked else HGeneral), Value)
    case HContentLength =>
      if !IsNum(ch) then Fail(p1, InvalidContentLength)
      else if p.flags.contentLength then Fail(p1, UnexpectedContentLength)
      else Taking(p1.(flags := p.flags.(contentLength := true), contentLength := ch - 48), Value)
    case HConnection => Taking(p1.(headerState := ConnectionToken(c, HMatchingConnectionToken)), Value)
    case HMatchingConnectionTokenStart => Taking(p1, Value)
    case _ => Taking(p1.(headerState := HGeneral), Value)
  }

  function DiscardWsByte(p: Parser, ch: byte): Out {
    if ch == SP || ch == TAB then Go(p)
    else if ch == CR then Go(p.(state := HeaderValueDiscardWsAlmostDone))
    else if ch == LF then Go(p.(state := HeaderValueDiscardLws))
    else HeaderValueStartByte(p, ch)
  }

  /** What `flags |= F_...` does when a value ends (or a comma follows) in this state. */
  function ConnectionFlags(flags: Flags, hs: HState): Flags {
    match hs
    case HConnectionKeepAlive => flags.(keepAlive := true)
    case HConnectionClose => flags.(close := true)
    case HConnectionUpgrade => flags.(connUpgrade := true)
    case _ => flags
  }

  function ValueEndFlags(flags: Flags, hs: HState): Flags {
    if hs.HTransferEncodingChunked? then flags.(chunked := true) else ConnectionFlags(flags, hs)
  }

  function DiscardLwsByte(p: Parser, ch: byte): Out {
    if ch == SP || ch == TAB then Go(p.(state := HeaderValueDiscardWs))
    else
      var out := HeaderFieldStartByte(p.(flags := ValueEndFlags(p.flags, p.headerState), state := HeaderFieldStart), ch);
      out.(fx := out.fx.(emptyValue := true))
  }

  function ValueLwsByte(p: Parser, ch: byte): Out {
    if ch == SP || ch == TAB then HeaderValueStartByte(p.(state := HeaderValueStart), ch)
    else HeaderFieldStartByte(p.(flags := ValueEndFlags(p.flags, p.headerState), state := HeaderFieldStart), ch)
  }

  function ContentLengthDigit(p: Parser, ch: byte): Out {
    if ch == SP then Taking(p, Value)
    else if !IsNum(ch) then Fail(p, InvalidContentLength)
    else if (MAX_UINT64 - 10) / 10 < p.contentLength then Fail(p, InvalidContentLength)
    else Taking(p.(contentLength := (p.contentLength * 10 + (ch - 48)) % (MAX_UINT64 + 1)), Value)
  }

  function ConnectionListByte(p: Parser, ch: byte): Parser {
    if ch == COMMA then
      p.(flags := ConnectionFlags(p.flags, p.headerState), headerState := HMatchingConnectionTokenStart, index := 0)
    else if p.headerState.HMatchingConnectionToken? || ch == SP then p
    else p.(headerState := HMatchingConnectionToken)
  }

  /** One byte inside a header value that is neither CR nor LF. */
  function ValueCharByte(p: Parser, ch: byte): Out {
    var c := Lower(ch);
    match p.headerState
    case HGeneral => Taking(p, Value)
    case HConnection => Taking(p, Value)        // "Shouldn't get here."
    case HTransferEncoding => Taking(p, Value)  // "Shouldn't get here."
    case HContentLength => ContentLengthDigit(p, ch)
    case HMatchingTransferEncodingChunked =>
      Taking(p.(index := p.index + 1, headerState :=
        Match(CHUNKED, p.index + 1, c, p.headerState, HTransferEncodingChunked, HGeneral)), Value)
    case HMatchingConnectionTokenStart =>
      Taking(p.(headerState := ConnectionToken(c,
        if Token(c) != 0 then HMatchingConnectionToken else if c == SP || c == TAB then p.headerState else HGeneral)), Value)
    case HMatchingConnectionKeepAlive =>
      Taking(p.(index := p.index + 1, headerState :=
        Match(KEEP_ALIVE, p.index + 1, c, p.headerState, HConnectionKeepAlive, HMatchingConnectionToken)), Value)
    case HMatchingConnectionClose =>
      Taking(p.(index := p.index + 1, headerState :=
        Match(CLOSE, p.index + 1, c, p.headerState, HConnectionClose, HMatchingConnectionToken)), Value)
    case HMatchingConnectionUpgrade =>
      Taking(p.(index := p.index + 1, headerState :=
        Match(UPGRADE, p.index + 1, c, p.headerState, HConnectionUpgrade, HMatchingConnectionToken)), Value)
    case HMatchingConnectionToken => Taking(ConnectionListByte(p, ch), Value)
    case HTransferEncodingChunked => Taking(if ch == SP then p else p.(headerState := HGeneral), Value)
    case HConnectionKeepAlive => Taking(ConnectionListByte(p, ch), Value)
    case HConnectionClose => Taking(ConnectionListByte(p, ch), Value)
    case HConnectionUpgrade => Taking(ConnectionListByte(p, ch), Value)
    case _ => Taking(p.(headerState := HGeneral), Value)
  }

  /** `skip`: the byte lies inside a run of a general value whose first byte was already checked. */
  function HeaderValueByte(p: Parser, ch: byte, skip: bool): Out {
    if ch == CR then Go(p.(state := HeaderAlmostDone)).(fx := FLUSH)
    else if ch == LF then Go(p.(state := HeaderValueLws)).(fx := FLUSH)
    else if !(skip && p.headerState.HGeneral?) && !IsHeaderChar(ch) then Fail(p, InvalidHeaderToken)
    else ValueCharByte(p, ch)
  }

  // ----- end of headers and body --------------------------------------------------------------

  function MessageDoneOut(p: Parser): Out {
    Out(p.(state := NewMessage(p)), NOTHING.(notes := [MessageComplete]), false, p.upgrade)
  }

  function HeadersAlmostDoneByte(p: Parser, ch: byte): Out {
    if ch != LF then Fail(p, Strict)
    else if p.flags.trailing then
      var out := MessageDoneOut(p.(state := MessageDone));
      out.(fx := NOTHING.(notes := [ChunkComplete, MessageComplete]))
    else if p.flags.chunked && p.flags.contentLength then Fail(p, UnexpectedContentLength)
    else
      var out := HeadersDoneByte(p.(state := HeadersDone, upgrade := p.flags.upgrade && p.flags.connUpgrade), ch);
      var due := if p.flags.chunked || p.contentLength == MAX_UINT64 then 0 else p.contentLength;
      out.(fx := NOTHING.(notes := [HeadersComplete(due)] + out.fx.notes))
  }

  function HeadersDoneByte(p: Parser, ch: byte): Out {
    if ch != LF then Fail(p, Strict)
    else
      var hasBody := p.flags.chunked || (p.contentLength > 0 && p.contentLength != MAX_UINT64);
      var complete := Out(p.(state := NewMessage(p)), NOTHING.(notes := [MessageComplete]), true, false);
      if p.upgrade && !hasBody then complete.(exit := true)
      else if p.flags.chunked then Go(p.(state := ChunkSizeStart)).(reset := true)
      else if p.contentLength == 0 then complete
      else if p.contentLength != MAX_UINT64 then Go(p.(state := BodyIdentity)).(reset := true)
      else if !NeedsEof(p) then complete
      else Go(p.(state := BodyIdentityEof)).(reset := true)
  }

  function BodyIdentityByte(p: Parser): Out {
    var p1 := p.(contentLength := if p.contentLength > 0 then p.contentLength - 1 else 0);
    if p1.contentLength == 0 then
      var out := MessageDoneOut(p1.(state := MessageDone));
      out.(fx := Effects(false, TakeByte(Body), true, [MessageComplete]))
    else Taking(p1, Body)
  }

  function ChunkSizeByte(p: Parser, ch: byte): Out {
    if ch == CR then Go(p.(state := ChunkSizeAlmostDone))
    else if Unhex(ch) == -1 then
      if ch == SEMICOLON || ch == SP then Go(p.(state := ChunkParameters)) else Fail(p, InvalidChunkSize)
    else if (MAX_UINT64 - 16) / 16 < p.contentLength then Fail(p, InvalidContentLength)
    else Go(p.(contentLength := (p.contentLength * 16 + Unhex(ch)) % (MAX_UINT64 + 1)))
  }

  function ChunkSizeAlmostDoneByte(p: Parser, ch: byte): Out {
    if ch != LF then Fail(p, Strict)
    else
      var p1 := if p.contentLength == 0 then p.(flags := p.flags.(trailing := true), state := HeaderFieldStart)
                else p.(state := ChunkData);
      Out(p1, NOTHING.(notes := [ChunkHeader(p.contentLength)]), true, false)
  }

  function ChunkDataByte(p: Parser): Out {
    var p1 := p.(contentLength := if p.contentLength > 0 then p.contentLength - 1 else 0);
    Taking(if p1.contentLength == 0 then p1.(state := ChunkDataAlmostDone) else p1, Body)
  }

  // ----- the switch ---------------------------------------------------------------------------

  predicate HeaderState(s: State) {
    s.HeaderFieldStart? || s.HeaderField? || s.HeaderValueDiscardWs? || s.HeaderValueDiscardWsAlmostDone?
    || s.HeaderValueDiscardLws? || s.HeaderValueStart? || s.HeaderValue? || s.HeaderValueLws?
    || s.HeaderAlmostDone? || s.HeadersAlmostDone? || s.HeadersDone?
  }

  predicate ChunkState(s: State) {
    s.ChunkSizeStart? || s.ChunkSize? || s.ChunkParameters? || s.ChunkSizeAlmostDone?
    || s.ChunkData? || s.ChunkDataAlmostDone? || s.ChunkDataDone?
  }

  predicate BodyState(s: State) {
    ChunkState(s) || s.BodyIdentity? || s.BodyIdentityEof? || s.MessageDone?
  }

  function StartLineTransition(p: Parser, ch: byte): Out
    requires !HeaderState(p.state) && !BodyState(p.state)
  {
    match p.state
    case Dead => if ch == CR || ch == LF then Go(p) else Fail(p, ClosedConnection)
    case StartRes => StartResByte(p, ch)
    case ResH => Expect(p, ch, 84, ResHT)
    case ResHT => Expect(p, ch, 84, ResHTT)
    case ResHTT => Expect(p, ch, 80, ResHTTP)
    case ResHTTP => Expect(p, ch, SLASH, ResFirstHttpMajor)
    case ResFirstHttpMajor => VersionByte(p, ch)
    case ResHttpMajor => VersionByte(p, ch)
    case ResFirstHttpMinor => VersionByte(p, ch)
    case ResHttpMinor => VersionByte(p, ch)
    case ResFirstStatusCode => StatusByte(p, ch)
    case ResStatusCode => StatusByte(p, ch)
    case ResStatusStart => StatusByte(p, ch)
    case ResStatus => StatusByte(p, ch)
    case ResLineAlmostDone => Expect(p, ch, LF, HeaderFieldStart)
  }

  function HeaderTransition(p: Parser, ch: byte, skip: bool): Out
    requires HeaderState(p.state)
  {
    match p.state
    case HeaderFieldStart => HeaderFieldStartByte(p, ch)
    case HeaderField => HeaderFieldByte(p, ch)
    case HeaderValueDiscardWs => DiscardWsByte(p, ch)
    case HeaderValueDiscardWsAlmostDone => Expect(p, ch, LF, HeaderValueDiscardLws)
    case HeaderValueDiscardLws => DiscardLwsByte(p, ch)
    case HeaderValueStart => HeaderValueStartByte(p, ch)
    case HeaderValue => HeaderValueByte(p, ch, skip)
    case HeaderValueLws => ValueLwsByte(p, ch)
    case HeaderAlmostDone => if ch != LF then Fail(p, LfExpected) else Go(p.(state := HeaderValueLws))
    case HeadersAlmostDone => HeadersAlmostDoneByte(p, ch)
    case HeadersDone => HeadersDoneByte(p, ch)
  }

  function BodyTransition(p: Parser, ch: byte): Out
    requires BodyState(p.state)
  {
    match p.state
    case ChunkSizeStart =>
      if Unhex(ch) == -1 then Fail(p, InvalidChunkSize)
      else Go(p.(contentLength := Unhex(ch), state := ChunkSize))
    case ChunkSize => ChunkSizeByte(p, ch)
    case ChunkParameters => if ch == CR then Go(p.(state := ChunkSizeAlmostDone)) else Go(p)
    case ChunkSizeAlmostDone => ChunkSizeAlmostDoneByte(p, ch)
    case ChunkData => ChunkDataByte(p)
    case ChunkDataAlmostDone => if ch != CR then Fail(p, Strict) else Go(p.(state := ChunkDataDone)).(fx := FLUSH)
    case ChunkDataDone =>
      if ch != LF then Fail(p, Strict)
      else Out(p.(state := ChunkSizeStart), NOTHING.(notes := [ChunkComplete]), true, false)
    case BodyIdentity => BodyIdentityByte(p)
    case BodyIdentityEof => Taking(p, Body)
    case MessageDone => MessageDoneOut(p)
  }

  function Transition(p: Parser, ch: byte, skip: bool): Out {
    if HeaderState(p.state) then HeaderTransition(p, ch, skip)
    else if BodyState(p.state) then BodyTransition(p, ch)
    else StartLineTransition(p, ch)
  }
}
