/** Which body a header section announces: from the header list and the status code alone. */
module HttpFraming {
  import opened HttpBytes
  import opened HttpParserState
  import opened HttpTrace
  import opened HttpRun
  import opened HttpBatches
  import opened HttpHeaders
  import opened HttpValues
  import opened HttpEncoding
  import opened HttpHead

  // ----- what the headers ask for -------------------------------------------------------------

  predicate AsksChunked(h: Header) {
    Folded(h.name) == TRANSFER_ENCODING && Padded(h.value, CHUNKED)
  }

  predicate NamesOption(h: Header, option: seq<byte>) {
    && (Folded(h.name) == CONNECTION || Folded(h.name) == PROXY_CONNECTION) && h.value != []
    && Named(Items(h.value), option)
  }

  predicate AsksUpgrade(h: Header) {
    Folded(h.name) == UPGRADE && h.value != []
  }

  predicate GivesLength(h: Header) {
    Folded(h.name) == CONTENT_LENGTH && h.value != []
  }

  predicate Chunked(headers: seq<Header>) {
    exists h :: h in headers && AsksChunked(h)
  }

  predicate Option(headers: seq<Header>, option: seq<byte>) {
    exists h :: h in headers && NamesOption(h, option)
  }

  /** Both headers are there: one that asks for the upgrade and one that names it as a connection option. */
  predicate Upgrades(headers: seq<Header>) {
    (exists h :: h in headers && AsksUpgrade(h)) && Option(headers, UPGRADE)
  }

  predicate HasLength(headers: seq<Header>) {
    exists h :: h in headers && GivesLength(h)
  }

  /** The number the last length header gives. */
  function Length(headers: seq<Header>): nat {
    if headers == [] then 0
    else
      var h := headers[|headers| - 1];
      if GivesLength(h) then Decimal(0, h.value) else Length(headers[..|headers| - 1])
  }

  /** A length is given at most once, and as a number that fits. */
  predicate LengthsAllowed(headers: seq<Header>) {
    && (forall i :: 0 <= i < |headers| && GivesLength(headers[i]) ==>
          DigitsOrSpaces(headers[i].value) && Decimal(0, headers[i].value) <= MAX_CONTENT_LENGTH)
    && (forall i, j :: 0 <= i < j < |headers| ==> !(GivesLength(headers[i]) && GivesLength(headers[j])))
  }

  /** The status codes that go without a body. */
  predicate Bodiless(status: nat) {
    100 <= status < 200 || status == 204 || status == 304
  }

  datatype Framing = Conflict | Upgraded | Chunks | Counted(length: nat) | NoBody | ToEof

  function FramingOf(status: nat, headers: seq<Header>): Framing {
    if Chunked(headers) && HasLength(headers) then Conflict
    else if Upgrades(headers) && !Chunked(headers) && Length(headers) == 0 then Upgraded
    else if Chunked(headers) then Chunks
    else if HasLength(headers) && Length(headers) > 0 then Counted(Length(headers))
    else if HasLength(headers) || Bodiless(status) then NoBody
    else ToEof
  }

  /** Whether the parser waits for another response behind this one. An upgraded message that would have had to be read to
      the end of the stream ends the connection. */
  predicate Persists(major: nat, minor: nat, status: nat, headers: seq<Header>) {
    && (if major > 0 && minor > 0 then !Option(headers, CLOSE) else Option(headers, KEEP_ALIVE))
    && (FramingOf(status, headers).Upgraded? ==> HasLength(headers) || Bodiless(status))
  }

  // ----- header after header ------------------------------------------------------------------

  function Lines(headers: seq<Header>): seq<byte> {
    if headers == [] then [] else Lines(headers[..|headers| - 1]) + Line(headers[|headers| - 1])
  }

  function HeaderEvents(headers: seq<Header>): seq<Event> {
    if headers == [] then []
    else
      var h := headers[|headers| - 1];
      HeaderEvents(headers[..|headers| - 1]) + [Data(Field, h.name), Data(Value, h.value)]
  }

  function AskedFlags(headers: seq<Header>): Flags {
    Flags(Chunked(headers), Option(headers, KEEP_ALIVE), Option(headers, CLOSE), Option(headers, UPGRADE), false,
          exists h :: h in headers && AsksUpgrade(h), HasLength(headers))
  }

  function AskedLength(headers: seq<Header>): nat {
    if HasLength(headers) then Length(headers) else MAX_UINT64
  }

  lemma AskedOne(headers: seq<Header>, h: Header)
    ensures Chunked(headers + [h]) <==> Chunked(headers) || AsksChunked(h)
    ensures HasLength(headers + [h]) <==> HasLength(headers) || GivesLength(h)
    ensures (exists g :: g in headers + [h] && AsksUpgrade(g)) <==> (exists g :: g in headers && AsksUpgrade(g)) || AsksUpgrade(h)
  {
    hide AsksChunked;
    hide AsksUpgrade;
    hide GivesLength;
    assert h in headers + [h];
    assert forall g :: g in headers ==> g in headers + [h];
  }

  lemma OptionOne(headers: seq<Header>, h: Header, option: seq<byte>)
    ensures Option(headers + [h], option) <==> Option(headers, option) || NamesOption(h, option)
  {
    hide NamesOption;
    assert h in headers + [h];
    assert forall g :: g in headers ==> g in headers + [h];
  }

  lemma LengthOne(headers: seq<Header>, h: Header)
    ensures Length(headers + [h]) == if GivesLength(h) then Decimal(0, h.value) else Length(headers)
  {
    assert (headers + [h])[..|headers|] == headers;
  }

  /** What one more header adds is what its value says under its name. */
  lemma AskedFlagsOne(headers: seq<Header>, h: Header)
    ensures AskedFlags(headers + [h]) == HeaderFlags(AskedFlags(headers), h.name, h.value)
    ensures AskedLength(headers + [h]) == HeaderLength(AskedLength(headers), h.name, h.value)
  {
    hide Chunked;
    hide HasLength;
    hide Option;
    hide Items;
    hide Named;
    hide Length;
    AskedOne(headers, h);
    OptionOne(headers, h, KEEP_ALIVE);
    OptionOne(headers, h, CLOSE);
    OptionOne(headers, h, UPGRADE);
    LengthOne(headers, h);
    WordsDiffer();
    hide Padded;
    hide Folded;
    assert h.value == [] ==> !AsksChunked(h) by {
      EmptyNotPadded(h.value);
    }
  }

  lemma EmptyNotPadded(value: seq<byte>)
    ensures value == [] ==> !Padded(value, CHUNKED)
  {
  }

  lemma AllowedOne(headers: seq<Header>, h: Header)
    ensures LengthsAllowed(headers + [h])
            <==> LengthsAllowed(headers) && LengthAllowed(AskedFlags(headers), h.name, h.value)
  {
    hide GivesLength;
    hide Decimal;
    hide DigitsOrSpaces;
    var all, n := headers + [h], |headers|;
    assert forall i :: 0 <= i < n ==> all[i] == headers[i];
    assert all[n] == h;
    HasLengthAt(headers);
    GivesIs(h);
    if LengthsAllowed(headers) && LengthAllowed(AskedFlags(headers), h.name, h.value) {
      forall i, j | 0 <= i < j < |all| ensures !(GivesLength(all[i]) && GivesLength(all[j])) {
        if j == n && GivesLength(h) {
          assert all[i] in headers;
        }
      }
    }
  }

  lemma GivesIs(h: Header)
    ensures GivesLength(h) <==> Folded(h.name) == CONTENT_LENGTH && h.value != []
  {
  }

  lemma HasLengthAt(headers: seq<Header>)
    ensures HasLength(headers) <==> exists i :: 0 <= i < |headers| && GivesLength(headers[i])
  {
  }

  /** `d` has read these headers since `c`, which had read none. */
  predicate HeadTaken(c: Conn, headers: seq<Header>, d: Conn) {
    var t := Settle(d);
    && AtLine(d) && d.nread == c.nread + |Lines(headers)| && d.pos == c.pos + |Lines(headers)|
    && t.trace == c.trace + HeaderEvents(headers)
    && t.p == c.p.(flags := AskedFlags(headers), contentLength := AskedLength(headers),
                   headerState := t.p.headerState, index := t.p.index)
  }

  /** A parser behind the status line. */
  predicate AtHead(c: Conn) {
    AtLine(c) && c.p.state.HeaderFieldStart? && c.p.flags == NO_FLAGS && c.p.contentLength == MAX_UINT64
    && !EndsIn(c.trace, Field)
  }

  predicate HeadersOk(headers: seq<Header>) {
    forall i :: 0 <= i < |headers| ==> HeaderOk(headers[i]) && HeaderChars(headers[i].value)
  }

  lemma EventsEnd(trace: seq<Event>, headers: seq<Header>, h: Header)
    requires !EndsIn(trace, Field)
    ensures Emit(Emit(trace + HeaderEvents(headers), Field, h.name), Value, h.value) == trace + HeaderEvents(headers + [h])
  {
    assert (headers + [h])[..|headers|] == headers;
    var t := trace + HeaderEvents(headers);
    NoField(trace, headers);
    assert t + [Data(Field, h.name)] + [Data(Value, h.value)] == trace + HeaderEvents(headers + [h]);
  }

  lemma NoField(trace: seq<Event>, headers: seq<Header>)
    requires !EndsIn(trace, Field)
    ensures !EndsIn(trace + HeaderEvents(headers), Field)
  {
    if headers == [] {
      assert trace + HeaderEvents(headers) == trace;
    } else {
      var t, h := trace + HeaderEvents(headers), headers[|headers| - 1];
      assert t[|t| - 1] == Data(Value, h.value);
    }
  }

  lemma LinesOne(headers: seq<Header>, h: Header)
    ensures Lines(headers + [h]) == Lines(headers) + Line(h)
  {
    assert (headers + [h])[..|headers|] == headers;
  }

  lemma HeadStart(c: Conn)
    requires AtHead(c)
    ensures HeadTaken(c, [], c)
  {
    assert c.trace + HeaderEvents([]) == c.trace;
  }

  lemma HeadStep(c: Conn, headers: seq<Header>, h: Header, d: Conn, e: Conn)
    requires AtHead(c) && HeadTaken(c, headers, d) && LineTaken(d, h, e)
    ensures HeadTaken(c, headers + [h], e)
  {
    hide Settle;
    hide AskedFlags;
    hide AskedLength;
    hide HeaderFlags;
    hide HeaderLength;
    hide Emit;
    AskedFlagsOne(headers, h);
    EventsEnd(c.trace, headers, h);
    LinesOne(headers, h);
  }

  /** A header list is accepted exactly if its lengths are allowed, and leaves the flags and the length it asks for. */
  lemma {:induction false} HeadersRun(c: Conn, headers: seq<Header>)
    requires AtHead(c) && HeadersOk(headers) && c.nread + |Lines(headers)| + 1 <= HTTP_MAX_HEADER_SIZE
    ensures var d := Run(c, Lines(headers));
      && (d.p.errno == Ok <==> LengthsAllowed(headers))
      && (d.p.errno == Ok ==> HeadTaken(c, headers, d))
    decreases |headers|
  {
    hide Run;
    hide Line;
    hide LengthsAllowed;
    hide HeaderOk;
    hide LengthAllowed;
    if headers == [] {
      NoneAllowed();
      HeadStart(c);
      NothingRead(c);
    } else {
      var n := |headers| - 1;
      var init, h := headers[..n], headers[n];
      assert headers == init + [h];
      LinesOne(init, h);
      HeadersRun(c, init);
      AllowedOne(init, h);
      RunAppend(c, Lines(init), Line(h));
      var d := Run(c, Lines(init));
      if d.p.errno == Ok {
        HeaderLine(d, h);
        if Run(d, Line(h)).p.errno == Ok {
          HeadStep(c, init, h, d, Run(d, Line(h)));
        }
      } else {
        RunStopped(d, Line(h));
      }
    }
  }

  lemma NothingRead(c: Conn)
    ensures Run(c, []) == c
  {
  }

  lemma NoneAllowed()
    ensures LengthsAllowed([])
  {
  }

  // ----- the empty line -----------------------------------------------------------------------

  /** What the empty line reports: a length only for a body that is counted. */
  function EndEvents(framing: Framing): seq<Event> {
    match framing
    case Counted(n) => [Notify(HeadersComplete(n))]
    case Upgraded => [Notify(HeadersComplete(0)), Notify(MessageComplete)]
    case NoBody => [Notify(HeadersComplete(0)), Notify(MessageComplete)]
    case _ => [Notify(HeadersComplete(0))]
  }

  function EndState(framing: Framing, persists: bool): State {
    match framing
    case Chunks => ChunkSizeStart
    case Counted(_) => BodyIdentity
    case ToEof => BodyIdentityEof
    case _ => if persists then StartRes else Dead
  }

  /** The parser behind the empty line. */
  predicate FramedAs(c: Conn, headers: seq<Header>, d: Conn) {
    var framing := FramingOf(c.p.statusCode, headers);
    if framing.Conflict? then d.p.errno == UnexpectedContentLength
    else
      && d.p == c.p.(state := EndState(framing, Persists(c.p.httpMajor, c.p.httpMinor, c.p.statusCode, headers)),
                     flags := AskedFlags(headers), contentLength := AskedLength(headers), upgrade := Upgrades(headers),
                     headerState := d.p.headerState, index := d.p.index)
      && d.trace == c.trace + HeaderEvents(headers) + EndEvents(framing)
      && d.mark.NoMark? && !d.inLoop && !d.skip && d.nread == 0 && d.exited == framing.Upgraded?
  }

  /** What the parser makes of the LF of the empty line. */
  lemma EndByte(p: Parser, q: Parser, headers: seq<Header>)
    requires p.errno == Ok && p.flags == AskedFlags(headers) && p.contentLength == AskedLength(headers)
    requires Length(headers) <= MAX_CONTENT_LENGTH && (!HasLength(headers) ==> Length(headers) == 0)
    requires q == p.(state := HeadersAlmostDone)
    ensures var out, framing := HeadersAlmostDoneByte(q, LF), FramingOf(p.statusCode, headers);
      if framing.Conflict? then out == Fail(q, UnexpectedContentLength)
      else
        && out.p == p.(state := EndState(framing, Persists(p.httpMajor, p.httpMinor, p.statusCode, headers)),
                       upgrade := Upgrades(headers))
        && Notes(out.fx.notes) == EndEvents(framing) && out.fx == NOTHING.(notes := out.fx.notes)
        && out.reset && out.exit == framing.Upgraded?
  {
    hide Chunked;
    hide HasLength;
    hide Option;
    hide Length;
    assert Bodiless(p.statusCode) <==> p.statusCode / 100 == 1 || p.statusCode == 204 || p.statusCode == 304;
  }

  lemma NoLength(headers: seq<Header>)
    requires LengthsAllowed(headers)
    ensures Length(headers) <= MAX_CONTENT_LENGTH && (!HasLength(headers) ==> Length(headers) == 0)
    decreases |headers|
  {
    if headers != [] {
      var n := |headers| - 1;
      var init, h := headers[..n], headers[n];
      assert headers == init + [h];
      AllowedOne(init, h);
      AskedOne(init, h);
      NoLength(init);
    }
  }

  lemma EndLf(s: Conn, headers: seq<Header>, base: Conn)
    requires AtLine(s) && s.p.state.HeaderFieldStart? && s.nread + 2 <= HTTP_MAX_HEADER_SIZE
    requires s.trace == base.trace + HeaderEvents(headers)
    requires s.p == base.p.(flags := AskedFlags(headers), contentLength := AskedLength(headers),
                            headerState := s.p.headerState, index := s.p.index)
    requires Length(headers) <= MAX_CONTENT_LENGTH && (!HasLength(headers) ==> Length(headers) == 0)
    ensures FramedAs(base, headers, Step(s, LF))
  {
    hide FramingOf;
    hide Persists;
    hide AskedFlags;
    hide AskedLength;
    hide Upgrades;
    hide EndState;
    EndByte(s.p, s.p.(state := HeadersAlmostDone), headers);
    hide HeadersAlmostDoneByte;
  }

  lemma EndCr(s: Conn)
    requires AtLine(s) && s.p.state.HeaderFieldStart? && s.nread + 2 <= HTTP_MAX_HEADER_SIZE
    ensures Step(s, CR) == Over(s, 1).(p := s.p.(state := HeadersAlmostDone), inLoop := false, skip := false)
  {
    assert s.trace + Notes([]) == s.trace;
  }

  lemma EndCrLf(s: Conn, headers: seq<Header>, base: Conn)
    requires !Stopped(s) && s.p.state.HeadersAlmostDone? && s.mark.NoMark? && s.nread + 1 <= HTTP_MAX_HEADER_SIZE
    requires s.trace == base.trace + HeaderEvents(headers)
    requires s.p == base.p.(state := HeadersAlmostDone, flags := AskedFlags(headers), contentLength := AskedLength(headers),
                            headerState := s.p.headerState, index := s.p.index)
    requires Length(headers) <= MAX_CONTENT_LENGTH && (!HasLength(headers) ==> Length(headers) == 0)
    ensures FramedAs(base, headers, Step(s, LF))
  {
    hide FramingOf;
    hide Persists;
    hide AskedFlags;
    hide AskedLength;
    hide Upgrades;
    hide EndState;
    EndByte(s.p.(state := base.p.state), s.p, headers);
    hide HeadersAlmostDoneByte;
  }

  lemma EmptyLine(c: Conn, headers: seq<Header>, d: Conn, bare: bool)
    requires HeadTaken(c, headers, d) && LengthsAllowed(headers) && d.nread + 2 <= HTTP_MAX_HEADER_SIZE
    requires c.p.state.HeaderFieldStart?
    ensures FramedAs(c, headers, Run(d, Eol(bare)))
  {
    hide Step;
    hide Run;
    hide FramedAs;
    hide AskedFlags;
    hide AskedLength;
    NoLength(headers);
    var s := Settle(d);
    SettleRun(d, Eol(bare));
    if bare {
      EndLf(s, headers, c);
      RunSingle(s, LF);
    } else {
      EndCr(s);
      EndCrLf(Step(s, CR), headers, c);
      TwoSteps(s, CR, LF);
    }
  }

  /** The header list and the status code alone decide what follows the empty line: chunks exactly if a Transfer-Encoding
      says "chunked"; the length that is given; nothing for length 0 and for 1xx, 204 and 304; an upgrade that both headers
      ask for and no body precedes; else everything to the end of the stream. Chunks and a length together are an error. */
  lemma HeadSelectsFraming(c: Conn, headers: seq<Header>, bare: bool)
    requires AtHead(c) && HeadersOk(headers) && c.nread + |Lines(headers)| + 2 <= HTTP_MAX_HEADER_SIZE
    ensures var d := Run(c, Lines(headers) + Eol(bare));
      if LengthsAllowed(headers) then FramedAs(c, headers, d) else d.p.errno != Ok
  {
    hide Run;
    hide LengthsAllowed;
    hide FramedAs;
    HeadersRun(c, headers);
    var d := Run(c, Lines(headers));
    RunAppend(c, Lines(headers), Eol(bare));
    if LengthsAllowed(headers) {
      EmptyLine(c, headers, d, bare);
    } else {
      RunStopped(d, Eol(bare));
    }
  }
}
