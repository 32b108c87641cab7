/** Responses that the parser takes whole and refuses in pieces. */
module HttpFragile {
  import opened HttpBytes
  import opened HttpParserState
  import opened HttpTrace
  import opened HttpRun
  import opened HttpBatches
  import opened HttpInvariants
  import opened HttpSplit
  import opened HttpHeaders
  import opened HttpHead
  import opened HttpStatusLine

  /** "HTTP/1.1 200", CR, LF. */
  const STATUS_LINE: seq<byte> := [72, 84, 84, 80, SLASH, 49, DOT, 49, SP, 50, 48, 48, CR, LF]

  const PLAIN_STATUS := StatusLine([49], [49], [], [50, 48, 48], false, [], false)

  lemma StatusLineRead()
    ensures var c := Run(START, STATUS_LINE); !Stopped(c) && c.p.state.HeaderFieldStart? && c.mark.NoMark? && c.nread == 14
  {
    hide Run;
    assert StatusText(PLAIN_STATUS) == STATUS_LINE;
    PlainNumbers();
    StatusLineExact(START, PLAIN_STATUS);
  }

  lemma PlainNumbers()
    ensures StatusOk(PLAIN_STATUS) && StatusFits(PLAIN_STATUS)
  {
    assert [50, 48, 48][1..] == [48, 48];
    assert [48, 48][1..] == [48];
    assert Decimal(0, [49]) == 1;
    assert Decimal(0, [50, 48, 48]) == Decimal(2, [48, 48]) == Decimal(20, [48]);
  }

  // ----- a byte no header may hold ------------------------------------------------------------

  /** A name whose value the parser does not look into. */
  predicate Unknown(name: seq<byte>) {
    && name != [] && Tokens(name)
    && LowerName(name) !in {CONNECTION, PROXY_CONNECTION, CONTENT_LENGTH, TRANSFER_ENCODING}
  }

  predicate ValueChar(ch: byte) {
    IsHeaderChar(ch) && ch != CR && ch != LF && ch != SP && ch != TAB
  }

  /** The first two bytes of the value of such a name: behind them the parser jumps to the next CR or LF. */
  lemma ValueBegun(c: Conn, first: byte, second: byte)
    requires !Stopped(c) && c.p.state.HeaderValueDiscardWs? && c.nread + 2 <= HTTP_MAX_HEADER_SIZE
    requires c.p.headerState !in {HConnection, HContentLength, HTransferEncoding, HMatchingConnectionTokenStart}
    requires ValueChar(first) && ValueChar(second)
    ensures var d := Run(c, [first, second]);
      !Stopped(d) && d.p.state.HeaderValue? && d.p.headerState.HGeneral? && d.skip && d.nread == c.nread + 2
  {
    var d := ValueStarted(c, first);
    ValueGoesOn(d, second);
    RunSingle(d, second);
    RunCons(c, first, second);
  }

  lemma RunCons(c: Conn, first: byte, second: byte)
    requires !Stopped(c)
    ensures Run(c, [first, second]) == Run(Step(c, first), [second])
  {
    assert [first, second][1..] == [second];
  }

  lemma ValueStarted(c: Conn, ch: byte) returns (d: Conn)
    requires !Stopped(c) && c.p.state.HeaderValueDiscardWs? && c.nread + 1 <= HTTP_MAX_HEADER_SIZE
    requires c.p.headerState !in {HConnection, HContentLength, HTransferEncoding, HMatchingConnectionTokenStart}
    requires ValueChar(ch)
    ensures d == Step(c, ch)
    ensures !Stopped(d) && d.p.state.HeaderValue? && d.p.headerState.HGeneral? && d.nread == c.nread + 1
  {
    d := Step(c, ch);
  }

  lemma ValueGoesOn(c: Conn, ch: byte)
    requires !Stopped(c) && c.p.state.HeaderValue? && c.p.headerState.HGeneral? && c.nread + 1 <= HTTP_MAX_HEADER_SIZE
    requires ValueChar(ch) || (c.skip && ch != CR && ch != LF)
    ensures var d := Step(c, ch);
      !Stopped(d) && d.p.state.HeaderValue? && d.p.headerState.HGeneral? && d.skip && d.inLoop && d.nread == c.nread + 1
  {
  }

  lemma NameUnknown(c: Conn, name: seq<byte>)
    requires !Stopped(c) && c.p.state.HeaderFieldStart? && c.mark.NoMark? && Unknown(name)
    requires c.nread + |name| + 1 <= HTTP_MAX_HEADER_SIZE
    ensures var d := Run(c, name + [COLON]);
      && !Stopped(d) && d.p.state.HeaderValueDiscardWs? && d.nread == c.nread + |name| + 1
      && d.p.headerState !in {HConnection, HContentLength, HTransferEncoding, HMatchingConnectionTokenStart}
  {
    hide Run;
    NameLine(c, name);
    WordsDiffer();
  }

  /** What the parser passes over within a call it refuses at the start of the next one. */
  lemma PassedOver(d: Conn, bad: byte)
    requires Good(d) && !Stopped(d) && d.p.state.HeaderValue? && d.p.headerState.HGeneral? && d.skip
    requires !IsHeaderChar(bad) && d.nread + 2 <= HTTP_MAX_HEADER_SIZE
    ensures End(Run(d, [bad])).p.errno == Ok
    ensures Call(End(d), [bad]).p.errno == InvalidHeaderToken
  {
    ValueGoesOn(d, bad);
    RunSingle(d, bad);
    RunSingle(Begin(End(d)), bad);
    InvalidByteStep(d.p, bad);
  }

  /** A response with any header the parser does not look into and a control byte behind the first two bytes of its
      value: read in one call it is accepted, cut before that byte it is refused. */
  lemma ControlByteRefusedOnlyWhenCut(name: seq<byte>, first: byte, second: byte, bad: byte)
    requires Unknown(name) && |name| <= HTTP_MAX_HEADER_SIZE - 20
    requires ValueChar(first) && ValueChar(second) && !IsHeaderChar(bad)
    ensures var head := STATUS_LINE + (name + [COLON] + [first, second]);
      && Call(START, head + [bad]).p.errno == Ok
      && Calls(START, [head, [bad]]).p.errno == InvalidHeaderToken
      && !Robust(Begin(START), 0, head + [bad])
  {
    hide Run;
    hide Robust;
    var value := [first, second];
    var head := STATUS_LINE + (name + [COLON] + value);
    StatusLineRead();
    var c := Run(START, STATUS_LINE);
    NameUnknown(c, name);
    ValueBegun(Run(c, name + [COLON]), first, second);
    RunAppend(c, name + [COLON], value);
    RunAppend(START, STATUS_LINE, name + [COLON] + value);
    var d := Run(START, head);
    StartRests();
    BeginGood(START);
    RunGood(START, head);
    PassedOver(d, bad);
    RunAppend(START, head, [bad]);
    TwoCalls(START, head, [bad]);
    if Robust(Begin(START), 0, head + [bad]) {
      assert Concat([head, [bad]]) == head + [bad];
      CutIndependence(START, [head, [bad]]);
    }
  }

  lemma TwoCalls(c: Conn, a: seq<byte>, b: seq<byte>)
    ensures Calls(c, [a, b]) == Call(Call(c, a), b)
    ensures Concat([a, b]) == a + b
  {
    assert [a, b][1..] == [b] && [b][1..] == [];
    assert Calls(Call(c, a), [b]) == Call(Call(c, a), b);
    assert Concat([b]) == b;
  }

  // ----- the header count ---------------------------------------------------------------------

  /** Byte by byte every byte of a name counts twice. */
  lemma {:induction false} SinglesCountTwice(c: Conn, bytes: seq<byte>)
    requires c.p.errno == Ok && c.p.state.HeaderField? && Tokens(bytes) && c.nread <= HTTP_MAX_HEADER_SIZE
    ensures var d := Calls(c, Singletons(bytes));
      if c.nread + 2 * |bytes| > HTTP_MAX_HEADER_SIZE then d.p.errno == HeaderOverflow
      else d.p.errno == Ok && d.p.state.HeaderField? && d.nread == c.nread + 2 * |bytes|
    decreases |bytes|
  {
    hide Run;
    if bytes != [] {
      var ch, pieces := bytes[0], Singletons(bytes);
      assert pieces[0] == [ch] && pieces[1..] == Singletons(bytes[1..]);
      SingleCountsTwice(c, ch);
      var d := Call(c, [ch]);
      if d.p.errno == Ok {
        SinglesCountTwice(d, bytes[1..]);
      } else {
        CallsStuck(d, pieces[1..]);
      }
    }
  }

  lemma SingleCountsTwice(c: Conn, ch: byte)
    requires c.p.errno == Ok && c.p.state.HeaderField? && Token(ch) != 0
    ensures var d := Call(c, [ch]);
      if c.nread + 2 > HTTP_MAX_HEADER_SIZE then d.p.errno == HeaderOverflow
      else d.p.errno == Ok && d.p.state.HeaderField? && d.nread == c.nread + 2
  {
    RunSingle(Begin(c), ch);
    NameStep(Begin(c), ch);
  }

  /** A name of more than half the header limit: read in one call it is accepted, byte by byte it is refused. */
  lemma LongNameRefusedOnlyWhenCut(name: seq<byte>)
    requires name != [] && Tokens(name) && |name| + 20 <= HTTP_MAX_HEADER_SIZE < 2 * |name|
    ensures var head := STATUS_LINE + name[..1];
      && Call(START, head + name[1..]).p.errno == Ok
      && Calls(START, [head] + Singletons(name[1..])).p.errno == HeaderOverflow
  {
    hide Run;
    var head, rest := STATUS_LINE + name[..1], name[1..];
    StatusLineRead();
    var c := Run(START, STATUS_LINE);
    FieldStartStep(c, name[0]);
    var d := Step(c, name[0]);
    RunSingle(c, name[0]);
    assert name[..1] == [name[0]];
    RunAppend(START, STATUS_LINE, name[..1]);
    NamePart(d, rest);
    RunAppend(START, head, rest);
    SinglesCountTwice(End(d), rest);
    var pieces := [head] + Singletons(rest);
    assert pieces[0] == head && pieces[1..] == Singletons(rest);
  }
}
