/** The status line: version and status code are the numbers that are written there. */
module HttpStatusLine {
  import opened HttpBytes
  import opened HttpParserState
  import opened HttpTrace
  import opened HttpRun
  import opened HttpBatches
  import opened HttpHeaders
  import opened HttpEncoding
  import opened HttpHead

  /** "HTTP/". */
  const HTTP_SLASH: seq<byte> := [72, 84, 84, 80, SLASH]

  /** `gap`: further spaces before the code. With an empty reason phrase the line may or may not hold the space before
      it. `bare`: the line ends in LF without CR. */
  datatype StatusLine = StatusLine(major: seq<byte>, minor: seq<byte>, gap: seq<byte>, code: seq<byte>, space: bool,
                                   reason: seq<byte>, bare: bool)

  predicate Digits(bytes: seq<byte>) {
    bytes != [] && forall i :: 0 <= i < |bytes| ==> IsNum(bytes[i])
  }

  predicate StatusOk(s: StatusLine) {
    && Digits(s.major) && Digits(s.minor) && Digits(s.code) && NoBreak(s.reason)
    && (s.reason != [] ==> s.space) && forall i :: 0 <= i < |s.gap| ==> s.gap[i] == SP
  }

  function Version(s: StatusLine): seq<byte> {
    HTTP_SLASH + s.major + [DOT] + s.minor + [SP]
  }

  function Reason(s: StatusLine): seq<byte> {
    (if s.space then [SP] else []) + s.reason
  }

  function StatusText(s: StatusLine): seq<byte> {
    Version(s) + s.gap + s.code + Reason(s) + Eol(s.bare)
  }

  // ----- numbers ------------------------------------------------------------------------------

  datatype Slot = Major | Minor | Code

  function First(slot: Slot): State {
    match slot
    case Major => ResFirstHttpMajor
    case Minor => ResFirstHttpMinor
    case Code => ResFirstStatusCode
  }

  function More(slot: Slot): State {
    match slot
    case Major => ResHttpMajor
    case Minor => ResHttpMinor
    case Code => ResStatusCode
  }

  /** The parser that has read `n` for this number so far. */
  function Holding(p: Parser, slot: Slot, n: nat): Parser {
    match slot
    case Major => p.(httpMajor := n, state := ResHttpMajor)
    case Minor => p.(httpMinor := n, state := ResHttpMinor)
    case Code => p.(statusCode := n, state := ResStatusCode)
  }

  predicate Quiet(c: Conn) {
    !Stopped(c) && c.mark.NoMark? && !c.inLoop && !c.skip
  }

  lemma FirstNumeral(c: Conn, slot: Slot, d: byte)
    requires Quiet(c) && c.p.state == First(slot) && IsNum(d) && c.nread + 1 <= HTTP_MAX_HEADER_SIZE
    ensures Step(c, d) == Over(c, 1).(p := Holding(c.p, slot, d - 48))
  {
    assert c.trace + Notes([]) == c.trace;
  }

  lemma NextNumeralByte(p: Parser, slot: Slot, n: nat, d: byte, skip: bool)
    requires IsNum(d)
    ensures var m, out := 10 * n + (d - 48), Transition(Holding(p, slot, n), d, skip);
      if m <= 999 then out == Go(Holding(p, slot, m)) else out.p.errno != Ok
  {
  }

  lemma NextNumeral(c: Conn, p: Parser, slot: Slot, n: nat, d: byte)
    requires Quiet(c) && c.p == Holding(p, slot, n) && IsNum(d) && c.nread + 1 <= HTTP_MAX_HEADER_SIZE
    ensures var m := 10 * n + (d - 48);
      if m <= 999 then Step(c, d) == Over(c, 1).(p := Holding(p, slot, m)) else Step(c, d).p.errno != Ok
  {
    hide Transition;
    NextNumeralByte(p, slot, n, d, c.skip);
    assert c.trace + Notes([]) == c.trace;
  }

  lemma {:induction false} MoreNumerals(c: Conn, p: Parser, slot: Slot, n: nat, ds: seq<byte>)
    requires Quiet(c) && c.p == Holding(p, slot, n) && n <= 999 && (forall i :: 0 <= i < |ds| ==> IsNum(ds[i]))
    requires c.nread + |ds| <= HTTP_MAX_HEADER_SIZE
    ensures var m := Decimal(n, ds);
      if m <= 999 then Run(c, ds) == Over(c, |ds|).(p := Holding(p, slot, m)) else Run(c, ds).p.errno != Ok
    decreases |ds|
  {
    hide Step;
    if ds != [] {
      NextNumeral(c, p, slot, n, ds[0]);
      var m := 10 * n + (ds[0] - 48);
      DecimalGrows(m, ds[1..]);
      if m <= 999 {
        MoreNumerals(Over(c, 1).(p := Holding(p, slot, m)), p, slot, m, ds[1..]);
      }
    }
  }

  lemma DecimalFirst(ds: seq<byte>)
    requires Digits(ds)
    ensures Decimal(0, ds) == Decimal(ds[0] - 48, ds[1..])
  {
  }

  /** Digits are read as their number, and refused exactly if it is above 999. */
  lemma NumberRun(c: Conn, slot: Slot, ds: seq<byte>)
    requires Quiet(c) && c.p.state == First(slot) && Digits(ds) && c.nread + |ds| <= HTTP_MAX_HEADER_SIZE
    ensures var m := Decimal(0, ds);
      if m <= 999 then Run(c, ds) == Over(c, |ds|).(p := Holding(c.p, slot, m)) else Run(c, ds).p.errno != Ok
  {
    hide Step;
    hide Run;
    hide Decimal;
    FirstNumeral(c, slot, ds[0]);
    DecimalFirst(ds);
    var d := Over(c, 1).(p := Holding(c.p, slot, ds[0] - 48));
    MoreNumerals(d, c.p, slot, ds[0] - 48, ds[1..]);
    assert ds == [ds[0]] + ds[1..];
    RunAppend(c, [ds[0]], ds[1..]);
    RunSingle(c, ds[0]);
  }

  // ----- the version --------------------------------------------------------------------------

  predicate Passing(state: State, ch: byte, next: State) {
    (state, ch, next) in {(ResH, 84, ResHT), (ResHT, 84, ResHTT), (ResHTT, 80, ResHTTP),
      (ResHTTP, SLASH, ResFirstHttpMajor), (ResHttpMajor, DOT, ResFirstHttpMinor), (ResHttpMinor, SP, ResFirstStatusCode),
      (ResStatusCode, SP, ResStatusStart), (ResStatusCode, CR, ResLineAlmostDone), (ResStatusStart, CR, ResLineAlmostDone),
      (ResStatusCode, LF, HeaderFieldStart), (ResStatusStart, LF, HeaderFieldStart),
      (ResFirstStatusCode, SP, ResFirstStatusCode), (ResLineAlmostDone, LF, HeaderFieldStart)}
  }

  lemma PassingByte(p: Parser, ch: byte, next: State, skip: bool)
    requires Passing(p.state, ch, next)
    ensures Transition(p, ch, skip) == Go(p.(state := next)) && ParsingHeader(p.state)
  {
  }

  lemma Letter(c: Conn, ch: byte, next: State)
    requires Quiet(c) && c.nread + 1 <= HTTP_MAX_HEADER_SIZE && Passing(c.p.state, ch, next)
    ensures Run(c, [ch]) == Over(c, 1).(p := c.p.(state := next))
  {
    hide Transition;
    hide Passing;
    PassingByte(c.p, ch, next, c.skip);
    LoopPassing(c.p, ch, next);
    assert c.trace + Notes([]) == c.trace;
    RunSingle(c, ch);
  }

  lemma LoopPassing(p: Parser, ch: byte, next: State)
    requires Passing(p.state, ch, next)
    ensures !LoopByte(p, ch) && !Skipping(p, ch)
  {
  }

  /** A parser that has just begun a message. */
  function Begun(c: Conn): Conn {
    Over(c, 5).(p := c.p.(state := ResFirstHttpMajor, flags := NO_FLAGS, contentLength := MAX_UINT64),
                trace := c.trace + [Notify(MessageBegin)])
  }

  lemma LetterH(c: Conn)
    requires Quiet(c) && c.p.state.StartRes? && c.nread + 1 <= HTTP_MAX_HEADER_SIZE
    ensures Run(c, [72]) == Over(c, 1).(p := c.p.(state := ResH, flags := NO_FLAGS, contentLength := MAX_UINT64),
                                        trace := c.trace + [Notify(MessageBegin)])
  {
    assert Notes([MessageBegin]) == [Notify(MessageBegin)];
    RunSingle(c, 72);
  }

  lemma Beginning(c: Conn)
    requires Quiet(c) && c.p.state.StartRes? && c.nread + 5 <= HTTP_MAX_HEADER_SIZE
    ensures Run(c, HTTP_SLASH) == Begun(c)
  {
    hide Run;
    hide Step;
    LetterH(c);
    var c1 := Run(c, [72]);
    Letter(c1, 84, ResHT);
    var c2 := Run(c1, [84]);
    Letter(c2, 84, ResHTT);
    var c3 := Run(c2, [84]);
    Letter(c3, 80, ResHTTP);
    var c4 := Run(c3, [80]);
    Letter(c4, SLASH, ResFirstHttpMajor);
    assert HTTP_SLASH == [72] + ([84] + ([84] + ([80] + [SLASH])));
    RunAppend(c, [72], [84] + ([84] + ([80] + [SLASH])));
    RunAppend(c1, [84], [84] + ([80] + [SLASH]));
    RunAppend(c2, [84], [80] + [SLASH]);
    RunAppend(c3, [80], [SLASH]);
  }

  predicate VersionFits(s: StatusLine) {
    Decimal(0, s.major) <= 999 && Decimal(0, s.minor) <= 999
  }

  /** A number and the byte that ends it. */
  lemma NumberThen(c: Conn, slot: Slot, ds: seq<byte>, ch: byte, next: State)
    requires Quiet(c) && c.p.state == First(slot) && Digits(ds) && c.nread + |ds| + 1 <= HTTP_MAX_HEADER_SIZE
    requires (slot, ch, next) == (Major, DOT, ResFirstHttpMinor) || (slot, ch, next) == (Minor, SP, ResFirstStatusCode)
    ensures var m, d := Decimal(0, ds), Run(c, ds + [ch]);
      if m <= 999 then d == Over(c, |ds| + 1).(p := Holding(c.p, slot, m).(state := next)) else d.p.errno != Ok
  {
    hide Run;
    hide Step;
    NumberRun(c, slot, ds);
    RunAppend(c, ds, [ch]);
    if Decimal(0, ds) <= 999 {
      Letter(Run(c, ds), ch, next);
    } else {
      RunStopped(Run(c, ds), [ch]);
    }
  }

  lemma VersionRun(c: Conn, s: StatusLine)
    requires Quiet(c) && c.p.state.StartRes? && StatusOk(s) && c.nread + |Version(s)| <= HTTP_MAX_HEADER_SIZE
    ensures var d := Run(c, Version(s));
      if VersionFits(s) then
        d == Over(Begun(c), |Version(s)| - 5).(p := Begun(c).p.(state := ResFirstStatusCode,
          httpMajor := Decimal(0, s.major), httpMinor := Decimal(0, s.minor)))
      else d.p.errno != Ok
  {
    hide Run;
    hide Step;
    var x, y := s.major + [DOT], s.minor + [SP];
    Beginning(c);
    assert Version(s) == HTTP_SLASH + (x + y);
    RunAppend(c, HTTP_SLASH, x + y);
    RunAppend(Begun(c), x, y);
    NumberThen(Begun(c), Major, s.major, DOT, ResFirstHttpMinor);
    if Decimal(0, s.major) <= 999 {
      NumberThen(Run(Begun(c), x), Minor, s.minor, SP, ResFirstStatusCode);
    } else {
      RunStopped(Run(Begun(c), x), y);
    }
  }

  // ----- the reason phrase --------------------------------------------------------------------

  lemma ReasonFirst(c: Conn, ch: byte)
    requires Quiet(c) && c.p.state.ResStatusStart? && ch != CR && ch != LF && c.nread + 1 <= HTTP_MAX_HEADER_SIZE
    ensures Step(c, ch) ==
      Over(c, 1).(p := c.p.(state := ResStatus, index := 0), mark := Marked(Status(c.p.statusCode), [ch]))
  {
    assert c.trace + Notes([]) == c.trace;
  }

  lemma ReasonNextByte(p: Parser, ch: byte, skip: bool)
    requires p.state.ResStatus? && ch != CR && ch != LF
    ensures Transition(p, ch, skip) == Taking(p, Status(p.statusCode))
  {
  }

  lemma ReasonNext(c: Conn, ch: byte)
    requires !Stopped(c) && c.p.state.ResStatus? && c.mark.Marked? && !c.inLoop && !c.skip && ch != CR && ch != LF
    requires c.nread + 1 <= HTTP_MAX_HEADER_SIZE
    ensures Step(c, ch) == Over(c, 1).(mark := Marked(c.mark.kind, c.mark.bytes + [ch]))
  {
    hide Transition;
    ReasonNextByte(c.p, ch, c.skip);
    assert c.trace + Notes([]) == c.trace;
  }

  lemma {:induction false} ReasonRun(c: Conn, bytes: seq<byte>)
    requires !Stopped(c) && c.p.state.ResStatus? && c.mark.Marked? && !c.inLoop && !c.skip && NoBreak(bytes)
    requires c.nread + |bytes| <= HTTP_MAX_HEADER_SIZE
    ensures Run(c, bytes) == Over(c, |bytes|).(mark := Marked(c.mark.kind, c.mark.bytes + bytes))
    decreases |bytes|
  {
    hide Step;
    if bytes == [] {
      assert c.mark.bytes + bytes == c.mark.bytes;
    } else {
      ReasonNext(c, bytes[0]);
      ReasonRun(Step(c, bytes[0]), bytes[1..]);
      assert c.mark.bytes + [bytes[0]] + bytes[1..] == c.mark.bytes + bytes;
    }
  }

  lemma ReasonEndByte(p: Parser, ch: byte, skip: bool)
    requires p.state.ResStatus? && (ch == CR || ch == LF)
    ensures Transition(p, ch, skip)
            == Go(p.(state := if ch == CR then ResLineAlmostDone else HeaderFieldStart)).(fx := FLUSH)
  {
  }

  lemma ReasonEnds(c: Conn, ch: byte)
    requires !Stopped(c) && c.p.state.ResStatus? && c.mark.Marked? && !c.inLoop && !c.skip && (ch == CR || ch == LF)
    requires c.nread + 1 <= HTTP_MAX_HEADER_SIZE
    ensures Run(c, [ch]) == Over(c, 1).(p := c.p.(state := if ch == CR then ResLineAlmostDone else HeaderFieldStart),
                                        trace := Full(c), mark := NoMark)
  {
    hide Transition;
    ReasonEndByte(c.p, ch, c.skip);
    assert Full(c) + Notes([]) == Full(c);
    RunSingle(c, ch);
  }

  function ReasonEvents(code: nat, reason: seq<byte>): seq<Event> {
    if reason == [] then [] else [Data(Status(code), reason)]
  }

  lemma ReasonLine(c: Conn, reason: seq<byte>, bare: bool)
    requires Quiet(c) && c.p.state.ResStatusStart? && reason != [] && NoBreak(reason)
    requires c.nread + |reason| + 2 <= HTTP_MAX_HEADER_SIZE
    ensures Run(c, reason + Eol(bare)) ==
      Over(c, |reason| + |Eol(bare)|).(p := c.p.(state := HeaderFieldStart, index := 0),
                                       trace := Emit(c.trace, Status(c.p.statusCode), reason))
  {
    hide Run;
    hide Step;
    hide Emit;
    var first, rest := reason[0], reason[1..];
    ReasonFirst(c, first);
    RunSingle(c, first);
    var d := Step(c, first);
    ReasonRun(d, rest);
    assert [first] + rest == reason;
    var e := Run(d, rest);
    assert reason + Eol(bare) == [first] + (rest + Eol(bare));
    RunAppend(c, [first], rest + Eol(bare));
    RunAppend(d, rest, Eol(bare));
    if bare {
      ReasonEnds(e, LF);
    } else {
      ReasonEnds(e, CR);
      Letter(Run(e, [CR]), LF, HeaderFieldStart);
      assert CRLF == [CR] + [LF];
      RunAppend(e, [CR], [LF]);
    }
  }

  lemma NoReasonLine(c: Conn, space: bool, bare: bool)
    requires Quiet(c) && c.p.state.ResStatusCode? && c.nread + 3 <= HTTP_MAX_HEADER_SIZE
    ensures var gap := if space then [SP] else [];
      Run(c, gap + Eol(bare)) == Over(c, |gap| + |Eol(bare)|).(p := c.p.(state := HeaderFieldStart))
  {
    hide Run;
    hide Step;
    var d := c;
    if space {
      Letter(c, SP, ResStatusStart);
      RunAppend(c, [SP], Eol(bare));
      d := Run(c, [SP]);
    } else {
      assert [] + Eol(bare) == Eol(bare);
    }
    if bare {
      Letter(d, LF, HeaderFieldStart);
    } else {
      Letter(d, CR, ResLineAlmostDone);
      Letter(Run(d, [CR]), LF, HeaderFieldStart);
      assert CRLF == [CR] + [LF];
      RunAppend(d, [CR], [LF]);
    }
  }

  lemma CodeEnds(c: Conn, s: StatusLine)
    requires Quiet(c) && c.p.state.ResStatusCode? && StatusOk(s) && c.nread + |Reason(s)| + 3 <= HTTP_MAX_HEADER_SIZE
    requires c.trace != [] && !c.trace[|c.trace| - 1].Data?
    ensures var d := Run(c, Reason(s) + Eol(s.bare));
      d == Over(c, |Reason(s)| + |Eol(s.bare)|).(p := c.p.(state := HeaderFieldStart, index := d.p.index),
                                                 trace := c.trace + ReasonEvents(c.p.statusCode, s.reason))
  {
    hide Run;
    hide Step;
    if s.reason == [] {
      assert Reason(s) == if s.space then [SP] else [];
      NoReasonLine(c, s.space, s.bare);
      assert c.trace + [] == c.trace;
    } else {
      Letter(c, SP, ResStatusStart);
      assert Reason(s) + Eol(s.bare) == [SP] + (s.reason + Eol(s.bare));
      RunAppend(c, [SP], s.reason + Eol(s.bare));
      ReasonLine(Run(c, [SP]), s.reason, s.bare);
    }
  }

  lemma {:induction false} GapRun(c: Conn, gap: seq<byte>)
    requires Quiet(c) && c.p.state.ResFirstStatusCode? && (forall i :: 0 <= i < |gap| ==> gap[i] == SP)
    requires c.nread + |gap| <= HTTP_MAX_HEADER_SIZE
    ensures Run(c, gap) == Over(c, |gap|)
    decreases |gap|
  {
    hide Step;
    hide Run;
    if gap == [] {
      RunNothing(c);
    } else {
      Letter(c, SP, ResFirstStatusCode);
      GapRun(Over(c, 1), gap[1..]);
      assert gap == [SP] + gap[1..];
      RunAppend(c, [SP], gap[1..]);
    }
  }

  lemma RunNothing(c: Conn)
    ensures Run(c, []) == c
  {
  }

  // ----- the whole line -----------------------------------------------------------------------

  predicate StatusFits(s: StatusLine) {
    VersionFits(s) && Decimal(0, s.code) <= 999
  }

  /** The parser behind a status line. */
  predicate StatusTaken(c: Conn, s: StatusLine, d: Conn) {
    d == Over(c, |StatusText(s)|).(
      p := c.p.(state := HeaderFieldStart, flags := NO_FLAGS, contentLength := MAX_UINT64, index := d.p.index,
                httpMajor := Decimal(0, s.major), httpMinor := Decimal(0, s.minor), statusCode := Decimal(0, s.code)),
      trace := c.trace + [Notify(MessageBegin)] + ReasonEvents(Decimal(0, s.code), s.reason))
  }

  /** From behind the version to the end of the line. */
  function CodeText(s: StatusLine): seq<byte> {
    s.gap + (s.code + (Reason(s) + Eol(s.bare)))
  }

  lemma CodeRun(c: Conn, s: StatusLine)
    requires Quiet(c) && c.p.state.ResFirstStatusCode? && StatusOk(s) && c.nread + |CodeText(s)| + 2 <= HTTP_MAX_HEADER_SIZE
    requires c.trace != [] && !c.trace[|c.trace| - 1].Data?
    ensures var d, code := Run(c, CodeText(s)), Decimal(0, s.code);
      if code <= 999 then
        d == Over(c, |CodeText(s)|).(p := c.p.(state := HeaderFieldStart, index := d.p.index, statusCode := code),
                                     trace := c.trace + ReasonEvents(code, s.reason))
      else d.p.errno != Ok
  {
    hide Run;
    hide Step;
    hide Reason;
    var tail := Reason(s) + Eol(s.bare);
    RunAppend(c, s.gap, s.code + tail);
    GapRun(c, s.gap);
    var d := Over(c, |s.gap|);
    RunAppend(d, s.code, tail);
    NumberRun(d, Code, s.code);
    var e := Run(d, s.code);
    if Decimal(0, s.code) <= 999 {
      CodeEnds(e, s);
    } else {
      RunStopped(e, tail);
    }
  }

  lemma TextParts(s: StatusLine)
    ensures StatusText(s) == Version(s) + CodeText(s) && |Version(s)| >= 5
  {
  }

  /** A status line of digits in the right places is accepted exactly if no number is above 999. Version and status code
      are then the numbers written there, and the reason phrase is reported with the code, but only if it is not empty. */
  lemma StatusLineExact(c: Conn, s: StatusLine)
    requires Quiet(c) && c.p.state.StartRes? && StatusOk(s) && c.nread + |StatusText(s)| + 2 <= HTTP_MAX_HEADER_SIZE
    ensures var d := Run(c, StatusText(s));
      && (d.p.errno == Ok <==> StatusFits(s))
      && (d.p.errno == Ok ==> StatusTaken(c, s, d))
  {
    hide Run;
    hide Step;
    hide Emit;
    hide VersionFits;
    hide ReasonEvents;
    hide StatusText;
    hide Version;
    hide CodeText;
    hide Decimal;
    TextParts(s);
    RunAppend(c, Version(s), CodeText(s));
    VersionRun(c, s);
    if VersionFits(s) {
      CodeRun(Run(c, Version(s)), s);
    } else {
      RunStopped(Run(c, Version(s)), CodeText(s));
    }
  }
}
