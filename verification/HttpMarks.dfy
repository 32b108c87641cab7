/** Mark pointers into one buffer, and the steps of the batched parser on values, apart from any object. */
module HttpMarks {
  import opened HttpBytes
  import opened HttpParserState
  import opened HttpTrace
  import opened HttpRun
  import opened HttpInvariants
  import opened HttpBatches

  const NULL: int := -1

  /** header_field_mark, header_value_mark, body_mark and status_mark, as offsets into the buffer. */
  datatype Marks = Marks(field: int, value: int, body: int, status: int)

  const NO_MARKS := Marks(NULL, NULL, NULL, NULL)

  function Count(m: Marks): nat {
    (if m.field != NULL then 1 else 0) + (if m.value != NULL then 1 else 0)
    + (if m.body != NULL then 1 else 0) + (if m.status != NULL then 1 else 0)
  }

  /** Marks point into the part of the buffer that has been read. */
  predicate MarksIn(m: Marks, p: nat) {
    NULL <= m.field <= p && NULL <= m.value <= p && NULL <= m.body <= p && NULL <= m.status <= p
  }

  function MarkOf(m: Marks, code: nat, data: seq<byte>, p: nat): Mark
    requires p <= |data| && MarksIn(m, p)
  {
    if m.field != NULL then Marked(Field, data[m.field..p])
    else if m.value != NULL then Marked(Value, data[m.value..p])
    else if m.body != NULL then Marked(Body, data[m.body..p])
    else if m.status != NULL then Marked(Status(code), data[m.status..p])
    else NoMark
  }

  /** The MARK macro. */
  function SetMark(m: Marks, kind: Kind, p: nat): Marks {
    match kind
    case Field => if m.field == NULL then m.(field := p) else m
    case Value => if m.value == NULL then m.(value := p) else m
    case Body => if m.body == NULL then m.(body := p) else m
    case Status(_) => if m.status == NULL then m.(status := p) else m
  }

  function InitialMarks(s: State): Marks {
    if s.HeaderField? then NO_MARKS.(field := 0)
    else if s.HeaderValue? then NO_MARKS.(value := 0)
    else if s.ResStatus? then NO_MARKS.(status := 0)
    else NO_MARKS
  }

  /** Setting the mark for a byte and moving on extends the bytes it covers by that byte. */
  lemma ExtendMark(m: Marks, kind: Kind, code: nat, data: seq<byte>, p: nat)
    requires p < |data| && MarksIn(m, p) && Count(m) <= 1
    requires var mark := MarkOf(m, code, data, p); mark.Marked? ==> mark.kind == kind
    requires kind.Status? ==> kind.code == code
    ensures var m' := SetMark(m, kind, p);
      && MarksIn(m', p) && Count(m') <= 1
      && MarkOf(m', code, data, p + 1) == Extend(MarkOf(m, code, data, p), kind, [data[p]])
  {
    assert data[p..p + 1] == [data[p]];
  }

  /** The reference connection of a parser at offset `p` of its buffer, before the byte at `p` is counted; `begun`
      is its position when the call began. After an inner loop that ran to the end of the buffer (`tail`) the
      parser's nread is one ahead. */
  function AtOffset(parser: Parser, nread: nat, trace: seq<Event>, begun: nat,
                    data: seq<byte>, p: nat, m: Marks, tail: bool, skip: bool): Conn
    requires p <= |data| && MarksIn(m, p)
  {
    Conn(parser, if tail && nread > 0 then nread - 1 else nread, trace, MarkOf(m, parser.statusCode, data, p),
         tail, skip, false, begun + p)
  }

  /** header_field's effect on the parser. */
  function NameParser(p: Parser, bytes: seq<byte>): Parser {
    var (hs, index) := NameRun(p.headerState, p.index, bytes);
    p.(headerState := hs, index := index)
  }

  // ----- the steps of a call ------------------------------------------------------------------

  lemma NameGood(c: Conn, bytes: seq<byte>)
    requires Good(c) && !Stopped(c) && c.p.state.HeaderField? && !c.inLoop && !c.skip && Tokens(bytes)
    requires c.nread + |bytes| <= HTTP_MAX_HEADER_SIZE
    ensures Good(AfterName(c, bytes))
  {
    NamePart(c, bytes);
    RunGood(c, bytes);
  }

  lemma ColonGood(d: Conn)
    requires Good(d) && !Stopped(d) && d.p.state.HeaderField? && d.nread + 1 <= HTTP_MAX_HEADER_SIZE
    ensures Good(AfterColon(d))
  {
    NameEndStep(d, COLON);
    StepGood(d, COLON);
  }

  lemma ValueGood(c: Conn, bytes: seq<byte>)
    requires Good(c) && !Stopped(c) && c.p.state.HeaderValue? && !c.inLoop && !c.skip && NoBreak(bytes)
    requires ValueRun(c.p, false, bytes).p.errno == Ok && c.nread + |bytes| <= HTTP_MAX_HEADER_SIZE
    ensures Good(AfterValue(c, bytes))
  {
    ValuePart(c, bytes);
    RunGood(c, bytes);
  }

  lemma LineEndGood(d: Conn, ch: byte)
    requires Good(d) && !Stopped(d) && d.p.state.HeaderValue? && d.nread + 1 <= HTTP_MAX_HEADER_SIZE
    requires ch == CR || ch == LF
    ensures Good(AfterLine(d, ch))
  {
    ValueEndStep(d, ch);
    StepGood(d, ch);
  }

  /** The mark of a datum of this kind covers the run of bytes up to `q` as well. */
  lemma MarkCovers(m: Marks, code: nat, data: seq<byte>, p: nat, q: nat, kind: Kind)
    requires p <= q <= |data| && MarksIn(m, p) && Count(m) <= 1
    requires MarkOf(m, code, data, p).Marked? && MarkOf(m, code, data, p).kind == kind
    ensures MarkOf(m, code, data, q) == Marked(kind, MarkOf(m, code, data, p).bytes + data[p..q])
  {
    if m.field != NULL { assert data[m.field..p] + data[p..q] == data[m.field..q]; }
    if m.value != NULL { assert data[m.value..p] + data[p..q] == data[m.value..q]; }
    if m.body != NULL { assert data[m.body..p] + data[p..q] == data[m.body..q]; }
    if m.status != NULL { assert data[m.status..p] + data[p..q] == data[m.status..q]; }
  }

  /** A call between two bytes, at offset `p`: `d` is the reference. */
  ghost predicate OnTrack(parser: Parser, nread: nat, trace: seq<Event>, begun: nat,
                          data: seq<byte>, p: nat, m: Marks, d: Conn)
  {
    && p <= |data| && MarksIn(m, p) && Count(m) <= 1
    && nread <= HTTP_MAX_HEADER_SIZE && Good(d) && !Stopped(d)
    && d == AtOffset(parser, nread, trace, begun, data, p, m, d.inLoop, d.skip)
    && (d.inLoop || d.skip ==> p == |data|) && (d.inLoop ==> nread > 0)
  }

  /** The byte at `p` has been counted and not yet looked at; `c` is the reference before it. */
  ghost predicate Counted(parser: Parser, nread: nat, trace: seq<Event>, begun: nat,
                          data: seq<byte>, p: nat, m: Marks, c: Conn)
  {
    && p < |data| && MarksIn(m, p) && Count(m) <= 1
    && Good(c) && !Stopped(c)
    && c == AtOffset(parser, c.nread, trace, begun, data, p, m, false, false)
    && nread == (if ParsingHeader(parser.state) then c.nread + 1 else c.nread) <= HTTP_MAX_HEADER_SIZE
  }

  /** The call has been left by an upgrade. */
  ghost predicate Left(parser: Parser, nread: nat, trace: seq<Event>, at: nat, d: Conn) {
    && d.exited && Good(d) && nread <= HTTP_MAX_HEADER_SIZE && parser.errno == Ok
    && d.p == parser && d.nread == nread && d.trace == trace && d.pos == at
  }

  lemma ByteToNext(parser: Parser, nread: nat, trace: seq<Event>, begun: nat, data: seq<byte>, p: nat, m: Marks, c: Conn,
                   parser': Parser, nread': nat, trace': seq<Event>, m': Marks, exit: bool) returns (d: Conn)
    requires Counted(parser, nread, trace, begun, data, p, m, c) && !LoopByte(parser, data[p])
    requires MarksIn(m', p + 1) && Count(m') <= 1
    requires var out := Transition(parser, data[p], false);
      && parser' == out.p && exit == out.exit && nread' == (if out.reset then 0 else nread)
      && trace' == Perform(c, out.fx, data[p]).trace
      && (out.p.errno == Ok ==> MarkOf(m', out.p.statusCode, data, p + 1) == Perform(c, out.fx, data[p]).mark)
    ensures Takes(c, data[p..p + 1], d) && (exit ==> d.exited)
    ensures parser'.errno == Ok && !exit ==> OnTrack(parser', nread', trace', begun, data, p + 1, m', d)
    ensures parser'.errno == Ok && exit ==> Left(parser', nread', trace', begun + p + 1, d)
    ensures parser'.errno != Ok ==> Fails(c, data[p..p + 1], parser', trace', begun + p)
  {
    var ch := data[p];
    d := Step(c, ch);
    assert data[p..p + 1] == [ch];
    TakesStep(c, ch);
    if parser'.errno == Ok {
      StepGood(c, ch);
    } else {
      StepFails(c, ch, parser');
    }
  }

  lemma NameToEnd(parser: Parser, nread: nat, trace: seq<Event>, begun: nat, data: seq<byte>, p: nat, m: Marks, c: Conn)
    requires Counted(parser, nread, trace, begun, data, p, m, c) && parser.state.HeaderField?
    requires Tokens(data[p..]) && nread + (|data| - p) <= HTTP_MAX_HEADER_SIZE
    ensures var d := AfterName(c, data[p..]);
      && OnTrack(NameParser(parser, data[p..]), nread + (|data| - p), trace, begun, data, |data|, m, d)
      && Takes(c, data[p..], d)
  {
    var bytes := data[p..];
    MarkCovers(m, c.p.statusCode, data, p, |data|, Field);
    assert data[p..|data|] == bytes;
    NameGood(c, bytes);
    NamePart(c, bytes);
    TakesRun(c, bytes);
  }

  lemma NameToColon(parser: Parser, nread: nat, trace: seq<Event>, begun: nat, data: seq<byte>, p: nat, m: Marks, c: Conn,
                    q: nat)
    requires Counted(parser, nread, trace, begun, data, p, m, c) && parser.state.HeaderField?
    requires p <= q < |data| && Tokens(data[p..q]) && data[q] == COLON && nread + (q - p) <= HTTP_MAX_HEADER_SIZE
    ensures var d, after := AfterColon(AfterName(c, data[p..q])), NameParser(parser, data[p..q]);
      && OnTrack(after.(state := HeaderValueDiscardWs), nread + (q - p),
                 Delivered(trace, MarkOf(m, after.statusCode, data, q)), begun, data, q + 1, NO_MARKS, d)
      && Takes(c, data[p..q + 1], d)
  {
    var bytes := data[p..q];
    MarkCovers(m, c.p.statusCode, data, p, q, Field);
    NameGood(c, bytes);
    ColonGood(AfterName(c, bytes));
    NameColon(c, bytes);
    assert data[p..q + 1] == bytes + [COLON];
  }

  lemma NameToNext(parser: Parser, nread: nat, trace: seq<Event>, begun: nat, data: seq<byte>, p: nat, m: Marks, c: Conn,
                   q: nat, parser': Parser, nread': nat, trace': seq<Event>, p': nat, m': Marks) returns (d: Conn)
    requires Counted(parser, nread, trace, begun, data, p, m, c) && parser.state.HeaderField?
    requires p <= q <= |data| && Tokens(data[p..q]) && nread' == nread + (q - p) <= HTTP_MAX_HEADER_SIZE
    requires q < |data| ==> data[q] == COLON
    requires
      var after := NameParser(parser, data[p..q]);
      if q == |data| then parser' == after && trace' == trace && p' == q && m' == m
      else
        && parser' == after.(state := HeaderValueDiscardWs) && p' == q + 1 && m' == NO_MARKS
        && trace' == Delivered(trace, MarkOf(m, after.statusCode, data, q))
    ensures OnTrack(parser', nread', trace', begun, data, p', m', d)
    ensures Takes(c, data[p..p'], d)
  {
    hide Run;
    hide Step;
    if q == |data| {
      assert data[p..q] == data[p..];
      NameToEnd(parser, nread, trace, begun, data, p, m, c);
      d := AfterName(c, data[p..]);
    } else {
      NameToColon(parser, nread, trace, begun, data, p, m, c, q);
      d := AfterColon(AfterName(c, data[p..q]));
    }
  }

  lemma NameToError(parser: Parser, nread: nat, trace: seq<Event>, begun: nat, data: seq<byte>, p: nat, m: Marks, c: Conn,
                    q: nat, parser': Parser, trace': seq<Event>) returns (e: nat)
    requires Counted(parser, nread, trace, begun, data, p, m, c) && parser.state.HeaderField?
    requires p <= q <= |data| && Tokens(data[p..q]) && (q < |data| ==> Token(data[q]) == 0)
    requires if nread + (q - p) > HTTP_MAX_HEADER_SIZE then parser'.errno == HeaderOverflow
             else
               && q < |data| && data[q] != COLON
               && parser' == NameParser(parser, data[p..q]).(errno := InvalidHeaderToken) && trace' == trace
    ensures q <= e <= |data| && Fails(c, data[p..e], parser', trace', begun + q)
  {
    hide Fails;
    hide Run;
    hide Step;
    var bytes := data[p..q];
    e := q;
    if nread + (q - p) > HTTP_MAX_HEADER_SIZE {
      NameOverflows(c, bytes, parser', trace', begun + q);
    } else {
      NameRefused(c, bytes, data[q]);
      assert data[p..q + 1] == bytes + [data[q]];
      e := q + 1;
    }
  }

  /** Where the reference is after a value that ends at `q`, and after the CR or LF there if there is one. */
  function ValueReached(c: Conn, data: seq<byte>, p: nat, q: nat): Conn
    requires p <= q <= |data| && c.mark.Marked? && NoBreak(data[p..q])
  {
    var d := AfterValue(c, data[p..q]);
    if q == |data| then d else AfterLine(d, data[q])
  }

  lemma ValueReach(c: Conn, data: seq<byte>, p: nat, q: nat, p': nat)
    requires p <= q <= |data| && p' == (if q == |data| then q else q + 1) && NoBreak(data[p..q])
    requires Good(c) && !Stopped(c) && c.p.state.HeaderValue? && !c.inLoop && !c.skip
    requires ValueRun(c.p, false, data[p..q]).p.errno == Ok && c.nread + 1 + (q - p) <= HTTP_MAX_HEADER_SIZE
    requires q < |data| ==> data[q] == CR || data[q] == LF
    ensures Good(ValueReached(c, data, p, q)) && Takes(c, data[p..p'], ValueReached(c, data, p, q))
  {
    var bytes := data[p..q];
    ValueGood(c, bytes);
    if q == |data| {
      ValuePart(c, bytes);
      TakesRun(c, bytes);
    } else {
      LineEndGood(AfterValue(c, bytes), data[q]);
      ValueLineEnd(c, bytes, data[q]);
      assert data[p..p'] == bytes + [data[q]];
    }
  }

  lemma ValueToNext(parser: Parser, nread: nat, trace: seq<Event>, begun: nat, data: seq<byte>, p: nat, m: Marks, c: Conn,
                    q: nat, after: Parser, skip: bool,
                    parser': Parser, nread': nat, trace': seq<Event>, p': nat, m': Marks) returns (d: Conn)
    requires Counted(parser, nread, trace, begun, data, p, m, c) && parser.state.HeaderValue?
    requires p <= q <= |data| && NoBreak(data[p..q]) && nread' == nread + (q - p) <= HTTP_MAX_HEADER_SIZE
    requires q < |data| ==> data[q] == CR || data[q] == LF
    requires ValueRun(parser, false, data[p..q]) == ValueRunOut(after, q - p, skip) && after.errno == Ok
    requires if q == |data| then parser' == after && m' == m && trace' == trace && p' == q
      else
        && parser' == after.(state := if data[q] == CR then HeaderAlmostDone else HeaderValueLws)
        && trace' == Delivered(trace, MarkOf(m, after.statusCode, data, q)) && m' == NO_MARKS && p' == q + 1
    ensures OnTrack(parser', nread', trace', begun, data, p', m', d)
    ensures Takes(c, data[p..p'], d)
  {
    hide Run;
    hide Step;
    hide Takes;
    hide ValueRun;
    ValueCode(parser, data[p..q]);
    MarkCovers(m, c.p.statusCode, data, p, q, Value);
    ValueReach(c, data, p, q, p');
    d := ValueReached(c, data, p, q);
  }

  lemma {:induction false} ValueCode(p: Parser, bytes: seq<byte>)
    requires p.state.HeaderValue? && p.errno == Ok && NoBreak(bytes)
    ensures ValueRun(p, false, bytes).p.statusCode == p.statusCode
  {
    ValueCodeSkip(p, false, bytes);
  }

  lemma {:induction false} ValueCodeSkip(p: Parser, skip: bool, bytes: seq<byte>)
    requires p.state.HeaderValue? && p.errno == Ok && NoBreak(bytes)
    ensures ValueRun(p, skip, bytes).p.statusCode == p.statusCode
    decreases |bytes|
  {
    if bytes != [] {
      ValueByteFacts(p, bytes[0], skip);
      ValueCodeByte(p, bytes[0], skip);
      if HeaderValueByte(p, bytes[0], skip).p.errno == Ok {
        ValueCodeSkip(HeaderValueByte(p, bytes[0], skip).p, p.headerState.HGeneral?, bytes[1..]);
      }
    }
  }

  lemma ValueCodeByte(p: Parser, ch: byte, skip: bool)
    ensures HeaderValueByte(p, ch, skip).p.statusCode == p.statusCode
  {
  }

  lemma ValueToOverflow(parser: Parser, nread: nat, trace: seq<Event>, begun: nat, data: seq<byte>, p: nat, m: Marks,
                        c: Conn, far: nat, parser': Parser, trace': seq<Event>, at: nat)
    requires Counted(parser, nread, trace, begun, data, p, m, c) && parser.state.HeaderValue?
    requires p < far <= |data| && NoBreak(data[p..far]) && nread + (far - p) > HTTP_MAX_HEADER_SIZE
    requires ValueRun(parser, false, data[p..far]).p.errno == Ok && parser'.errno == HeaderOverflow
    ensures Fails(c, data[p..far], parser', trace', at)
  {
    ValueOverflows(c, data[p..far], parser', trace', at);
  }

  lemma ValueToRefused(parser: Parser, nread: nat, trace: seq<Event>, begun: nat, data: seq<byte>, p: nat, m: Marks,
                       c: Conn, q: nat, parser': Parser)
    requires Counted(parser, nread, trace, begun, data, p, m, c) && parser.state.HeaderValue?
    requires p <= q < |data| && NoBreak(data[p..q + 1])
    requires var r := ValueRun(parser, false, data[p..q + 1]);
      r.taken == q - p && r.p.errno != Ok && parser' == r.p.(headerState := parser'.headerState)
    ensures Fails(c, data[p..q + 1], parser', trace, begun + q)
  {
    ValueRefused(c, data[p..q + 1], parser');
  }

  lemma BodyToNext(parser: Parser, nread: nat, trace: seq<Event>, begun: nat, data: seq<byte>, p: nat, m: Marks, c: Conn,
                   q: nat, parser': Parser, trace': seq<Event>, m': Marks, exit: bool) returns (d: Conn)
    requires Counted(parser, nread, trace, begun, data, p, m, c) && CountedBody(parser)
    requires p < q <= |data| && q - p <= parser.contentLength
    requires
      var m1, after := SetMark(m, Body, p), parser.(contentLength := parser.contentLength - (q - p));
      && MarksIn(m1, q)
      && if after.contentLength > 0 then parser' == after && trace' == trace && m' == m1 && !exit
         else if parser.state.ChunkData? then
           parser' == after.(state := ChunkDataAlmostDone) && trace' == trace && m' == m1 && !exit
         else
           && parser' == after.(state := NewMessage(after)) && m' == NO_MARKS && exit == after.upgrade
           && trace' == Delivered(trace, MarkOf(m1, after.statusCode, data, q)) + [Notify(MessageComplete)]
    ensures Takes(c, data[p..q], d)
    ensures if exit then Left(parser', nread, trace', begun + q, d)
            else OnTrack(parser', nread, trace', begun, data, q, m', d)
  {
    hide Run;
    hide Step;
    hide Takes;
    var bytes := data[p..q];
    SetBodyMark(m, c.p.statusCode, data, p, q);
    d := Run(c, bytes);
    if |bytes| < c.p.contentLength {
      BodyRun(c, bytes);
    } else {
      BodyRunAll(c, bytes);
      assert Notes([MessageComplete]) == [Notify(MessageComplete)];
    }
    TakesRun(c, bytes);
    RunGood(c, bytes);
  }

  lemma SetBodyMark(m: Marks, code: nat, data: seq<byte>, p: nat, q: nat)
    requires p < q <= |data| && MarksIn(m, p) && Count(m) <= 1
    requires MarkOf(m, code, data, p).Marked? ==> MarkOf(m, code, data, p).kind == Body
    ensures var m' := SetMark(m, Body, p);
      && MarksIn(m', q) && Count(m') <= 1
      && MarkOf(m', code, data, q) == Extend(MarkOf(m, code, data, p), Body, data[p..q])
  {
    if m.body != NULL {
      assert data[m.body..p] + data[p..q] == data[m.body..q];
    }
  }

  lemma EofToNext(parser: Parser, nread: nat, trace: seq<Event>, begun: nat, data: seq<byte>, p: nat, m: Marks, c: Conn)
    returns (d: Conn)
    requires Counted(parser, nread, trace, begun, data, p, m, c) && parser.state.BodyIdentityEof?
    ensures OnTrack(parser, nread, trace, begun, data, |data|, SetMark(m, Body, p), d) && Takes(c, data[p..], d)
  {
    assert data[p..|data|] == data[p..];
    SetBodyMark(m, c.p.statusCode, data, p, |data|);
    d := Run(c, data[p..]);
    EofRun(c, data[p..]);
    TakesRun(c, data[p..]);
    RunGood(c, data[p..]);
  }

  /** The end of the buffer: what the marks still hold is delivered. */
  lemma TrackToEnd(parser: Parser, nread: nat, trace: seq<Event>, begun: nat, data: seq<byte>, m: Marks, d: Conn)
    requires OnTrack(parser, nread, trace, begun, data, |data|, m, d)
    ensures var e := End(d);
      && Resting(e) && e.p == parser && e.nread == nread && e.pos == begun + |data|
      && e.trace == Delivered(trace, MarkOf(m, parser.statusCode, data, |data|))
  {
  }

  lemma BeginTrack(c: Conn, data: seq<byte>)
    requires Resting(c) && c.p.errno == Ok && c.nread <= HTTP_MAX_HEADER_SIZE
    ensures OnTrack(c.p, c.nread, c.trace, c.pos, data, 0, InitialMarks(c.p.state), Begin(c))
    ensures Takes(Begin(c), data[..0], Begin(c))
  {
    BeginGood(c);
    assert data[..0] == [];
    assert data[0..0] == [];
    TakesNothing(Begin(c));
  }

  /** Counting the next byte: either it is counted, or the header limit is exceeded. */
  lemma CountByte(parser: Parser, nread: nat, trace: seq<Event>, begun: nat, data: seq<byte>, p: nat, m: Marks, d: Conn)
    requires OnTrack(parser, nread, trace, begun, data, p, m, d) && p < |data|
    ensures var counted := if ParsingHeader(parser.state) then nread + 1 else nread;
      if counted > HTTP_MAX_HEADER_SIZE then
        Fails(d, data[p..p + 1], parser.(errno := HeaderOverflow), trace, begun + p)
      else Counted(parser, counted, trace, begun, data, p, m, d)
  {
    if ParsingHeader(parser.state) && nread + 1 > HTTP_MAX_HEADER_SIZE {
      assert data[p..p + 1] == [data[p]];
      StepFails(d, data[p], parser.(errno := HeaderOverflow));
    }
  }

  lemma ValueByteInv(p: Parser, ch: byte)
    requires p.state.HeaderValue? && p.errno == Ok && Inv(p, 1) && ch != CR && ch != LF
    ensures var out := ValueCharByte(p, ch);
      out.p.state == HeaderValue && (out.p.errno == Ok ==> Inv(out.p, 1))
  {
    ValueCharInv(p, 0, ch);
    ValueByteFacts(p, ch, true);
  }

  /** Appending the next byte to the run of value bytes taken so far. */
  lemma OneValueByte(begun: Parser, data: seq<byte>, start: nat, p: nat, q: Parser, skip: bool)
    requires start <= p < |data| && NoBreak(data[start..p]) && data[p] != CR && data[p] != LF
    requires q.errno == Ok && ValueRun(begun, false, data[start..p]) == ValueRunOut(q, p - start, skip)
    ensures NoBreak(data[start..p + 1])
    ensures var r, out := ValueRun(begun, false, data[start..p + 1]), HeaderValueByte(q, data[p], skip);
      if out.p.errno != Ok then r.p == out.p && r.taken == p - start
      else r == ValueRunOut(out.p, p + 1 - start, q.headerState.HGeneral?)
  {
    assert data[start..p + 1] == data[start..p] + [data[p]];
    ValueRunAppend(begun, false, data[start..p], [data[p]]);
    var out := HeaderValueByte(q, data[p], skip);
    assert [data[p]][1..] == [];
    assert ValueRun(q, skip, [data[p]]) == if out.p.errno != Ok then ValueRunOut(out.p, 0, skip)
                                           else ValueRunOut(out.p, 1, q.headerState.HGeneral?);
  }

  /** The jump of a general value from `p`, whose byte is a header character, to `stop`. */
  lemma JumpRun(begun: Parser, data: seq<byte>, start: nat, p: nat, stop: nat, q: Parser, skip: bool)
    requires start <= p < stop <= |data| && NoBreak(data[start..p])
    requires forall k :: p <= k < stop ==> data[k] != CR && data[k] != LF
    requires q.errno == Ok && q.headerState.HGeneral? && IsHeaderChar(data[p])
    requires ValueRun(begun, false, data[start..p]) == ValueRunOut(q, p - start, skip)
    ensures NoBreak(data[start..stop])
    ensures ValueRun(begun, false, data[start..stop]) == ValueRunOut(q, stop - start, true)
  {
    OneValueByte(begun, data, start, p, q, skip);
    assert HeaderValueByte(q, data[p], skip).p == q;
    hide HeaderValueByte;
    hide ValueRun;
    var a, b := data[start..p + 1], data[p + 1..stop];
    assert data[start..stop] == a + b;
    assert forall i :: 0 <= i < |b| ==> b[i] == data[p + 1 + i];
    ValueRunAppend(begun, false, a, b);
    GeneralRun(q, b);
  }

  /** The status code is fixed by the time its text is marked. */
  lemma TransitionStatusCode(p: Parser, ch: byte, skip: bool)
    ensures var out := Transition(p, ch, skip);
      && (OpenKind(p) != NoByte ==> out.p.statusCode == p.statusCode)
      && (out.fx.take.TakeByte? && out.fx.take.kind.Status? ==> out.fx.take.kind.code == out.p.statusCode)
  {
    TransitionStatusCodeHeaders(p, ch, skip);
  }

  lemma TransitionStatusCodeHeaders(p: Parser, ch: byte, skip: bool)
    ensures HeaderState(p.state) ==> var out := HeaderTransition(p, ch, skip);
      && out.p.statusCode == p.statusCode
      && (out.fx.take.TakeByte? ==> !out.fx.take.kind.Status?)
  {
    if HeaderState(p.state) && p.state != HeaderValue {
      HeaderShapeCode(p, ch);
    }
  }

  lemma HeaderShapeCode(p: Parser, ch: byte)
    requires HeaderState(p.state) && p.state != HeaderValue
    ensures var out := HeaderTransition(p, ch, false);
      && out.p.statusCode == p.statusCode
      && (out.fx.take.TakeByte? ==> !out.fx.take.kind.Status?)
  {
  }
}
