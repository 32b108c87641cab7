/** http_parser_execute as the source runs it: a pointer `p` over one buffer, mark pointers into it, inner loops
    that take a whole name, value or body stretch at once. Proved equal to the byte-at-a-time reference. */
module HttpExecute {
  import opened HttpBytes
  import opened HttpParserState
  import opened HttpTrace
  import opened HttpRun
  import opened HttpInvariants
  import opened HttpBatches
  import opened HttpMarks
  import opened HttpResponses

  /** Two connections that differ at most in the flags every call resets. */
  predicate Settled(a: Conn, b: Conn) {
    a.p == b.p && a.nread == b.nread && a.trace == b.trace && a.mark == b.mark && a.pos == b.pos
  }

  /** What the batched parser promises of its reference: the same outcome; after an error the same error at the
      same byte, header_state and nread apart; and an error, at some byte, when the header limit is exceeded. */
  predicate Agrees(actual: Conn, reference: Conn) {
    if reference.p.errno == HeaderOverflow then actual.p.errno != Ok
    else if reference.p.errno != Ok then
      && actual.p == reference.p.(headerState := actual.p.headerState)
      && actual.pos == reference.pos && actual.trace == reference.trace
    else Settled(actual, reference)
  }

  /** memchr over at most `limit` bytes: the offset of the first occurrence, or the end of the range. */
  method Memchr(data: seq<byte>, p: nat, wanted: byte, limit: nat) returns (at: nat)
    requires p + limit <= |data|
    ensures p <= at <= p + limit
    ensures at < p + limit ==> data[at] == wanted
    ensures forall k :: p <= k < at ==> data[k] != wanted
  {
    at := p;
    while at < p + limit && data[at] != wanted
      invariant p <= at <= p + limit
      invariant forall k :: p <= k < at ==> data[k] != wanted
    {
      at := at + 1;
    }
  }

  class HttpParser {
    const response: HttpResponse
    var parser: Parser
    var nread: nat
    ghost var trace: seq<Event>
    ghost var pos: nat

    ghost function Conn(): Conn
      reads this
    {
      HttpRun.Conn(parser, nread, trace, NoMark, false, false, false, pos)
    }

    ghost predicate Consistent()
      reads this, response
    {
      response.View() == ConsumeAll(NO_RESPONSE, trace)
    }

    ghost predicate Valid()
      reads this, response
    {
      Consistent() && (parser.errno == Ok ==> Resting(Conn()) && nread <= HTTP_MAX_HEADER_SIZE)
    }

    constructor (response: HttpResponse)
      requires response.View() == NO_RESPONSE
      ensures Valid() && Conn() == START && this.response == response
    {
      this.response := response;
      parser, nread := INITIAL, 0;
      trace, pos := [], 0;
    }

    // ----- callbacks (http_request_parser.h) --------------------------------------------------

    method DataCallback(kind: Kind, at: seq<byte>)
      requires Consistent()
      modifies this`trace, response
      ensures Consistent() && trace == Emit(old(trace), kind, at)
    {
      ConsumeEmit(NO_RESPONSE, trace, kind, at);
      trace := Emit(trace, kind, at);
      match kind
      case Status(code) => response.SetStatus(code, at);
      case Field => response.SetHeaderField(at);
      case Value => response.SetHeaderValue(at);
      case Body => response.SetBody(at);
    }

    method NotifyCallback(note: Note)
      requires Consistent()
      modifies this`trace, response
      ensures Consistent() && trace == old(trace) + [Notify(note)]
    {
      assert (trace + [Notify(note)])[..|trace|] == trace;
      trace := trace + [Notify(note)];
      if note.MessageComplete? {
        response.SetMessageComplete();
      }
    }

    method NotifyCallbacks(notes: seq<Note>)
      requires Consistent()
      modifies this`trace, response
      ensures Consistent() && trace == old(trace) + Notes(notes)
    {
      var i := 0;
      assert trace + Notes([]) == trace;
      while i < |notes|
        invariant i <= |notes| && Consistent() && trace == old(trace) + Notes(notes[..i])
      {
        NotifyCallback(notes[i]);
        assert Notes(notes[..i + 1]) == Notes(notes[..i]) + [Notify(notes[i])];
        i := i + 1;
      }
      assert notes[..i] == notes;
    }

    /** CALLBACK_DATA for every mark that is set: the bytes from the mark up to `p`. */
    method FlushMarks(m: Marks, data: seq<byte>, p: nat)
      requires Consistent() && p <= |data| && MarksIn(m, p) && Count(m) <= 1
      modifies this`trace, response
      ensures Consistent() && trace == Delivered(old(trace), MarkOf(m, parser.statusCode, data, p))
    {
      if m.field != NULL { DataCallback(Field, data[m.field..p]); }
      if m.value != NULL { DataCallback(Value, data[m.value..p]); }
      if m.body != NULL { DataCallback(Body, data[m.body..p]); }
      if m.status != NULL { DataCallback(Status(parser.statusCode), data[m.status..p]); }
    }

    // ----- one call ---------------------------------------------------------------------------

    /** The reference connection this object stands for at offset `p` of the buffer. */
    ghost function At(data: seq<byte>, p: nat, m: Marks, tail: bool, skip: bool): Conn
      reads this
      requires p <= |data| && MarksIn(m, p)
    {
      AtOffset(parser, nread, trace, pos, data, p, m, tail, skip)
    }

    /** Marks and callbacks of one byte, in the order of Effects. */
    method RunEffects(data: seq<byte>, p: nat, m: Marks, fx: Effects, ghost c: Conn) returns (m': Marks)
      requires Consistent() && p < |data| && MarksIn(m, p) && Count(m) <= 1
      requires c.trace == trace && c.mark == MarkOf(m, parser.statusCode, data, p)
      requires fx.take.TakeByte? ==> fx.take.kind.Status? ==> fx.take.kind.code == parser.statusCode
      requires fx.take.TakeByte? && c.mark.Marked? ==> c.mark.kind == fx.take.kind
      modifies this`trace, response
      ensures Consistent() && MarksIn(m', p + 1) && Count(m') <= 1
      ensures trace == Perform(c, fx, data[p]).trace
      ensures fx.flush || fx.take.TakeByte? || c.mark.NoMark? ==>
                MarkOf(m', parser.statusCode, data, p + 1) == Perform(c, fx, data[p]).mark
    {
      m' := m;
      if fx.emptyValue {
        DataCallback(Value, []);
      }
      if fx.take.TakeByte? {
        ExtendMark(m, fx.take.kind, parser.statusCode, data, p);
        m' := SetMark(m, fx.take.kind, p);
      }
      if fx.flush {
        FlushMarks(m', data, if fx.take.TakeByte? then p + 1 else p);
        m' := NO_MARKS;
      }
      NotifyCallbacks(fx.notes);
    }

    // ----- inner loops ------------------------------------------------------------------------

    /** The loop of case s_header_field, up to the first byte that is not a token. */
    method NameLoop(data: seq<byte>, start: nat) returns (p: nat)
      requires start <= |data| && NameState(parser.headerState) && IndexOk(parser.headerState, parser.index)
      modifies this`parser
      ensures start <= p <= |data| && Tokens(data[start..p]) && (p < |data| ==> Token(data[p]) == 0)
      ensures var (hs, index) := NameRun(old(parser.headerState), old(parser.index), data[start..p]);
        parser == old(parser).(headerState := hs, index := index)
    {
      p := start;
      while p < |data| && Token(data[p]) != 0
        invariant start <= p <= |data| && Tokens(data[start..p])
        invariant NameState(parser.headerState) && IndexOk(parser.headerState, parser.index)
        invariant var (hs, index) := NameRun(old(parser.headerState), old(parser.index), data[start..p]);
          parser == old(parser).(headerState := hs, index := index)
      {
        var ch := data[p];
        assert NameState(parser.headerState);  // "Unknown header_state"
        NameRunSnoc(old(parser.headerState), old(parser.index), data[start..p], ch);
        assert data[start..p + 1] == data[start..p] + [ch];
        NameByteInv(parser.headerState, parser.index, ch, Token(ch));
        var (hs, index) := NameByte(parser.headerState, parser.index, ch, Token(ch));
        parser := parser.(headerState := hs, index := index);
        p := p + 1;
      }
    }

    /** The jump of a general value: to the first CR or LF, or to the end of the buffer if there is none within the
        header limit. `stop` is how far the bytes have been looked at. */
    method NextBreak(data: seq<byte>, p: nat) returns (next: nat, ghost stop: nat)
      requires p < |data| && data[p] != CR && data[p] != LF
      ensures p < stop <= |data| && p < next <= |data|
      ensures forall k :: p <= k < stop ==> data[k] != CR && data[k] != LF
      ensures stop == next ==> next < |data| ==> data[next] == CR || data[next] == LF
      ensures stop != next ==> next == |data| && p + HTTP_MAX_HEADER_SIZE <= stop
    {
      var limit := if |data| - p <= HTTP_MAX_HEADER_SIZE then |data| - p else HTTP_MAX_HEADER_SIZE;
      var pCr := Memchr(data, p, CR, limit);
      var pLf := Memchr(data, p, LF, limit);
      stop := if pCr < pLf then pCr else pLf;
      if pCr < p + limit {
        next := if pLf < p + limit && pCr >= pLf then pLf else pCr;
      } else if pLf < p + limit {
        next := pLf;
      } else {
        next := |data|;
      }
    }

    /** The switch on h_state inside that loop. */
    method ValueChar(ch: byte, hState: HState) returns (hState': HState)
      requires ch != CR && ch != LF && parser.errno == Ok && parser.state.HeaderValue?
      requires !hState.HGeneral? && Inv(parser.(headerState := hState), 1)
      modifies this`parser
      ensures parser.state.HeaderValue?
      ensures var out := ValueCharByte(old(parser).(headerState := hState), ch);
        && parser.errno == out.p.errno
        && if out.p.errno == Ok then
             && parser.(headerState := hState') == out.p && parser.headerState == old(parser.headerState)
             && Inv(parser.(headerState := hState'), 1)
           else parser == out.p
    {
      assert !hState.HConnection? && !hState.HTransferEncoding?;  // "Shouldn't get here."
      var q := parser.(headerState := hState);
      ValueByteInv(q, ch);
      var out := ValueCharByte(q, ch);
      hState' := out.p.headerState;
      parser := if out.p.errno == Ok then out.p.(headerState := parser.headerState) else out.p;
    }

    /** The loop of case s_header_value, up to the first CR or LF, a refused byte, or the end. A general value is
        skipped with memchr, which looks no further than the header limit; `far` is where it gave up. */
    method ValueLoop(data: seq<byte>, start: nat) returns (p: nat, ghost skip: bool, ghost far: nat)
      requires start < |data| && parser.errno == Ok && parser.state.HeaderValue? && Inv(parser, 1)
      modifies this`parser
      ensures start <= p <= |data| && start <= far <= |data|
      ensures parser.errno != Ok ==>
        && p < |data| && NoBreak(data[start..p + 1])
        && var r := ValueRun(old(parser), false, data[start..p + 1]);
           r.taken == p - start && parser == r.p.(headerState := parser.headerState)
      ensures parser.errno == Ok && far == p ==>
        && NoBreak(data[start..p]) && (p < |data| ==> data[p] == CR || data[p] == LF)
        && ValueRun(old(parser), false, data[start..p]) == ValueRunOut(parser, p - start, skip)
      ensures parser.errno == Ok && far != p ==>
        && p == |data| && start + HTTP_MAX_HEADER_SIZE <= far < |data| && NoBreak(data[start..far])
        && ValueRun(old(parser), false, data[start..far]).p.errno == Ok
    {
      p, skip, far := start, false, start;
      var hState := parser.headerState;
      ghost var begun := parser;
      assert data[start..p] == [];
      while p < |data| && data[p] != CR && data[p] != LF
        invariant start <= p <= |data| && start <= far <= |data| && NoBreak(data[start..far])
        invariant p != far ==> p == |data| && start + HTTP_MAX_HEADER_SIZE <= far
        invariant parser.errno == Ok && parser.state.HeaderValue? && parser.headerState == begun.headerState
        invariant Inv(parser.(headerState := hState), 1)
        invariant skip ==> p == |data| || data[p] == CR || data[p] == LF
        invariant ValueRun(begun, false, data[start..far]) == ValueRunOut(parser.(headerState := hState), far - start, skip)
        decreases |data| - p
      {
        var ch := data[p];
        ghost var q := parser.(headerState := hState);
        OneValueByte(begun, data, start, p, q, skip);
        if !IsHeaderChar(ch) {
          parser := parser.(errno := InvalidHeaderToken);
          return;
        }
        if hState.HGeneral? {
          ghost var stop;
          var next;
          next, stop := NextBreak(data, p);
          JumpRun(begun, data, start, p, stop, q, skip);
          p, skip, far := next, true, stop;
        } else {
          hState := ValueChar(ch, hState);
          if parser.errno != Ok {
            return;
          }
          p, skip := p + 1, false;
          far := p;
        }
      }
      parser := parser.(headerState := hState);
    }

    // ----- the cases of the switch ------------------------------------------------------------

    /** Between two bytes of the call; `d` is the reference. */
    ghost predicate InCall(data: seq<byte>, p: nat, m: Marks, d: Conn)
      reads this, response
    {
      Consistent() && OnTrack(parser, nread, trace, pos, data, p, m, d)
    }

    /** The byte at `p` has been counted and not yet looked at; `c` is the reference before it. */
    ghost predicate AtByte(data: seq<byte>, p: nat, m: Marks, c: Conn)
      reads this, response
    {
      Consistent() && Counted(parser, nread, trace, pos, data, p, m, c)
    }

    /** A state of a single-byte case: take the byte, run what it asks for. */
    method OneByte(data: seq<byte>, p: nat, m: Marks, ghost c: Conn) returns (m': Marks, exit: bool)
      requires AtByte(data, p, m, c) && !LoopByte(parser, data[p])
      modifies this`parser, this`nread, this`trace, response
      ensures Consistent() && MarksIn(m', p + 1) && Count(m') <= 1
      ensures var out := Transition(c.p, data[p], false);
        && parser == out.p && exit == out.exit && nread == (if out.reset then 0 else old(nread))
        && trace == Perform(c, out.fx, data[p]).trace
        && (out.p.errno == Ok ==> MarkOf(m', out.p.statusCode, data, p + 1) == Perform(c, out.fx, data[p]).mark)
    {
      var out := Transition(parser, data[p], false);
      TransitionShape(parser, data[p], false);
      TransitionStatusCode(parser, data[p], false);
      parser, exit := out.p, out.exit;
      m' := RunEffects(data, p, m, out.fx, c);
      if out.reset {
        nread := 0;
      }
    }

    method ByteCase(data: seq<byte>, p: nat, m: Marks, ghost c: Conn)
      returns (p': nat, m': Marks, exit: bool, ghost d: Conn)
      requires AtByte(data, p, m, c) && !LoopByte(parser, data[p])
      modifies this`parser, this`nread, this`trace, response
      ensures Consistent() && p <= p' <= p + 1
      ensures parser.errno == Ok ==> p < p' && Takes(c, data[p..p'], d)
      ensures parser.errno == Ok ==> if exit then Left(parser, nread, trace, pos + p', d) else InCall(data, p', m', d)
      ensures parser.errno != Ok ==> Fails(c, data[p..p + 1], parser, trace, pos + p')
    {
      ghost var parser0, nread0, trace0 := parser, nread, trace;
      m', exit := OneByte(data, p, m, c);
      d := ByteToNext(parser0, nread0, trace0, pos, data, p, m, c, parser, nread, trace, m', exit);
      p' := if parser.errno == Ok then p + 1 else p;
    }

    /** Case s_header_field. `q` is the offset of the byte that ends the name. */
    method NameBytes(data: seq<byte>, p: nat, m: Marks) returns (p': nat, m': Marks, ghost q: nat)
      requires p < |data| && MarksIn(m, p) && Count(m) <= 1 && Consistent()
      requires NameState(parser.headerState) && IndexOk(parser.headerState, parser.index) && parser.errno == Ok
      modifies this`parser, this`nread, this`trace, response
      ensures Consistent() && p <= q <= |data| && Tokens(data[p..q]) && (q < |data| ==> Token(data[q]) == 0)
      ensures nread == old(nread) + (q - p) && p <= p' <= |data|
      ensures var after := NameParser(old(parser), data[p..q]);
        if nread > HTTP_MAX_HEADER_SIZE then
          parser == after.(errno := HeaderOverflow) && p' == q
        else if q == |data| then
          parser == after && p' == q && m' == m && trace == old(trace)
        else if data[q] == COLON then
          && parser == after.(state := HeaderValueDiscardWs) && p' == q + 1 && m' == NO_MARKS
          && trace == Delivered(old(trace), MarkOf(m, after.statusCode, data, q))
        else
          parser == after.(errno := InvalidHeaderToken) && p' == q && trace == old(trace)
    {
      p' := NameLoop(data, p);
      m', q := m, p';
      nread := nread + (p' - p);
      if nread > HTTP_MAX_HEADER_SIZE {
        parser := parser.(errno := HeaderOverflow);
      } else if p' < |data| {
        if data[p'] == COLON {
          parser := parser.(state := HeaderValueDiscardWs);
          FlushMarks(m, data, p');
          m', p' := NO_MARKS, p' + 1;
        } else {
          parser := parser.(errno := InvalidHeaderToken);
        }
      }
    }

    method HeaderFieldCase(data: seq<byte>, p: nat, m: Marks, ghost c: Conn)
      returns (p': nat, m': Marks, ghost d: Conn, ghost e: nat)
      requires AtByte(data, p, m, c) && parser.state.HeaderField?
      modifies this`parser, this`nread, this`trace, response
      ensures Consistent() && p <= p' <= |data| && p <= e <= |data|
      ensures parser.errno == Ok ==> p < p' && InCall(data, p', m', d) && Takes(c, data[p..p'], d)
      ensures parser.errno != Ok ==> Fails(c, data[p..e], parser, trace, pos + p')
    {
      ghost var parser0, nread0, trace0 := parser, nread, trace;
      d, e := c, p;
      ghost var q;
      p', m', q := NameBytes(data, p, m);
      if parser.errno != Ok {
        e := NameToError(parser0, nread0, trace0, pos, data, p, m, c, q, parser, trace);
        return;
      }
      d := NameToNext(parser0, nread0, trace0, pos, data, p, m, c, q, parser, nread, trace, p', m');
    }

    /** Case s_header_value. `q` is the offset of the byte that ends the value or is refused. */
    method ValueBytes(data: seq<byte>, p: nat, m: Marks)
      returns (p': nat, m': Marks, refused: bool, ghost q: nat, ghost far: nat, ghost after: Parser, ghost skip: bool)
      requires p < |data| && MarksIn(m, p) && Count(m) <= 1 && Consistent()
      requires parser.errno == Ok && parser.state.HeaderValue? && Inv(parser, 1) && 0 < nread <= HTTP_MAX_HEADER_SIZE
      modifies this`parser, this`nread, this`trace, response
      ensures Consistent() && p <= q <= |data| && p <= p' <= |data|
      ensures refused ==>
        && q < |data| && NoBreak(data[p..q + 1]) && p' == q && trace == old(trace) && parser.errno != Ok
        && var r := ValueRun(old(parser), false, data[p..q + 1]);
           r.taken == q - p && parser == r.p.(headerState := parser.headerState)
      ensures !refused ==> nread == old(nread) + (q - p)
      ensures !refused && nread > HTTP_MAX_HEADER_SIZE ==>
        && parser.errno == HeaderOverflow
        && p < far <= |data| && NoBreak(data[p..far]) && ValueRun(old(parser), false, data[p..far]).p.errno == Ok
        && old(nread) + (far - p) > HTTP_MAX_HEADER_SIZE
      ensures !refused && nread <= HTTP_MAX_HEADER_SIZE ==>
        && NoBreak(data[p..q]) && (q < |data| ==> data[q] == CR || data[q] == LF)
        && ValueRun(old(parser), false, data[p..q]) == ValueRunOut(after, q - p, skip) && after.errno == Ok
        && if q == |data| then parser == after && m' == m && trace == old(trace) && p' == q
           else
             && parser == after.(state := if data[q] == CR then HeaderAlmostDone else HeaderValueLws)
             && trace == Delivered(old(trace), MarkOf(m, after.statusCode, data, q)) && m' == NO_MARKS && p' == q + 1
    {
      p', skip, far := ValueLoop(data, p);
      m', refused, q, after := m, parser.errno != Ok, p', parser;
      if refused {
        return;
      }
      nread := nread + (p' - p);
      if nread > HTTP_MAX_HEADER_SIZE {
        parser := parser.(errno := HeaderOverflow);
      } else if p' < |data| {
        parser := parser.(state := if data[p'] == CR then HeaderAlmostDone else HeaderValueLws);
        FlushMarks(m, data, p');
        m', p' := NO_MARKS, p' + 1;
      }
    }

    method HeaderValueCase(data: seq<byte>, p: nat, m: Marks, ghost c: Conn)
      returns (p': nat, m': Marks, ghost d: Conn, ghost e: nat)
      requires AtByte(data, p, m, c) && parser.state.HeaderValue?
      modifies this`parser, this`nread, this`trace, response
      ensures Consistent() && p <= p' <= |data| && p <= e <= |data|
      ensures parser.errno == Ok ==> p < p' && InCall(data, p', m', d) && Takes(c, data[p..p'], d)
      ensures parser.errno != Ok ==> Fails(c, data[p..e], parser, trace, pos + p')
    {
      hide Takes;
      hide Fails;
      hide Run;
      hide Step;
      ghost var parser0, nread0, trace0 := parser, nread, trace;
      d, e := c, p;
      ghost var q, far, after, skip;
      var refused;
      p', m', refused, q, far, after, skip := ValueBytes(data, p, m);
      if refused {
        ValueToRefused(parser0, nread0, trace0, pos, data, p, m, c, q, parser);
        e := q + 1;
        return;
      }
      if parser.errno != Ok {
        ValueToOverflow(parser0, nread0, trace0, pos, data, p, m, c, far, parser, trace, pos + p');
        e := far;
        return;
      }
      d := ValueToNext(parser0, nread0, trace0, pos, data, p, m, c, q, after, skip, parser, nread, trace, p', m');
    }

    /** Cases s_body_identity and s_chunk_data. */
    method BodyBytes(data: seq<byte>, p: nat, m: Marks) returns (p': nat, m': Marks, exit: bool)
      requires p < |data| && MarksIn(m, p) && Count(m) <= 1 && Consistent()
      requires m.field == NULL && m.value == NULL && m.status == NULL
      requires CountedBody(parser) && Inv(parser, nread)
      modifies this`parser, this`trace, response
      ensures Consistent() && p < p' <= |data| && p' - p <= old(parser.contentLength)
      ensures
        var m1, after := SetMark(m, Body, p), old(parser).(contentLength := old(parser).contentLength - (p' - p));
        && MarksIn(m1, p')
        && if after.contentLength > 0 then parser == after && trace == old(trace) && m' == m1 && !exit
           else if after.state.ChunkData? then
             parser == after.(state := ChunkDataAlmostDone) && trace == old(trace) && m' == m1 && !exit
           else
             && parser == after.(state := NewMessage(after)) && m' == NO_MARKS && exit == after.upgrade
             && trace == Delivered(old(trace), MarkOf(m1, after.statusCode, data, p')) + [Notify(MessageComplete)]
    {
      assert parser.contentLength != 0 && parser.contentLength != MAX_UINT64;
      assert parser.state.ChunkData? ==> parser.flags.chunked;
      var toRead := if parser.contentLength < |data| - p then parser.contentLength else |data| - p;
      m', exit := SetMark(m, Body, p), false;
      parser, p' := parser.(contentLength := parser.contentLength - toRead), p + toRead;
      if parser.contentLength == 0 {
        if parser.state.ChunkData? {
          parser := parser.(state := ChunkDataAlmostDone);
        } else {
          FlushMarks(m', data, p');
          m' := NO_MARKS;
          parser := parser.(state := NewMessage(parser));
          NotifyCallback(MessageComplete);
          exit := parser.upgrade;
        }
      }
    }

    method BodyCase(data: seq<byte>, p: nat, m: Marks, ghost c: Conn) returns (p': nat, m': Marks, exit: bool, ghost d: Conn)
      requires AtByte(data, p, m, c) && CountedBody(parser)
      modifies this`parser, this`trace, response
      ensures Consistent() && p < p' <= |data| && parser.errno == Ok && Takes(c, data[p..p'], d)
      ensures if exit then Left(parser, nread, trace, pos + p', d) else InCall(data, p', m', d)
    {
      ghost var parser0, trace0 := parser, trace;
      p', m', exit := BodyBytes(data, p, m);
      d := BodyToNext(parser0, nread, trace0, pos, data, p, m, c, p', parser, trace, m', exit);
    }

    /** Case s_body_identity_eof. */
    method EofCase(data: seq<byte>, p: nat, m: Marks, ghost c: Conn) returns (p': nat, m': Marks, ghost d: Conn)
      requires AtByte(data, p, m, c) && parser.state.BodyIdentityEof?
      ensures p' == |data| && parser.errno == Ok && InCall(data, p', m', d) && Takes(c, data[p..p'], d)
    {
      d := EofToNext(parser, nread, trace, pos, data, p, m, c);
      m', p' := SetMark(m, Body, p), |data|;
      assert data[p..p'] == data[p..];
    }

    /** The cases other than header names and values. */
    method OtherCase(data: seq<byte>, p: nat, m: Marks, ghost c: Conn)
      returns (p': nat, m': Marks, exit: bool, ghost d: Conn, ghost e: nat)
      requires AtByte(data, p, m, c) && !LoopByte(parser, data[p])
      modifies this`parser, this`nread, this`trace, response
      ensures Consistent() && p <= p' <= |data| && p <= e <= |data|
      ensures parser.errno == Ok ==> p < p' && Takes(c, data[p..p'], d)
      ensures parser.errno == Ok ==> if exit then Left(parser, nread, trace, pos + p', d) else InCall(data, p', m', d)
      ensures parser.errno != Ok ==> Fails(c, data[p..e], parser, trace, pos + p')
    {
      exit, e := false, p + 1;
      if CountedBody(parser) {
        p', m', exit, d := BodyCase(data, p, m, c);
      } else if parser.state.BodyIdentityEof? {
        p', m', d := EofCase(data, p, m, c);
      } else {
        p', m', exit, d := ByteCase(data, p, m, c);
      }
    }

    /** The switch, for one byte or one run of bytes. */
    method Switch(data: seq<byte>, p: nat, m: Marks, ghost c: Conn)
      returns (p': nat, m': Marks, exit: bool, ghost d: Conn, ghost e: nat)
      requires AtByte(data, p, m, c)
      modifies this`parser, this`nread, this`trace, response
      ensures Consistent() && p <= p' <= |data| && p <= e <= |data|
      ensures parser.errno == Ok ==> p < p' && Takes(c, data[p..p'], d)
      ensures parser.errno == Ok ==> if exit then Left(parser, nread, trace, pos + p', d) else InCall(data, p', m', d)
      ensures parser.errno != Ok ==> Fails(c, data[p..e], parser, trace, pos + p')
    {
      exit := false;
      if parser.state.HeaderField? {
        p', m', d, e := HeaderFieldCase(data, p, m, c);
      } else if parser.state.HeaderValue? {
        p', m', d, e := HeaderValueCase(data, p, m, c);
      } else {
        p', m', exit, d, e := OtherCase(data, p, m, c);
      }
    }

    /** One iteration: count the byte, then the switch. */
    method Next(data: seq<byte>, p: nat, m: Marks, ghost start: Conn, ghost c: Conn)
      returns (p': nat, m': Marks, exit: bool, ghost d: Conn)
      requires InCall(data, p, m, c) && p < |data| && start.p.errno == Ok && Takes(Begin(start), data[..p], c)
      modifies this`parser, this`nread, this`trace, response
      ensures Consistent() && p <= p' <= |data|
      ensures parser.errno == Ok ==> p < p' && Takes(Begin(start), data[..p'], d)
      ensures parser.errno == Ok ==> if exit then Left(parser, nread, trace, pos + p', d) else InCall(data, p', m', d)
      ensures parser.errno != Ok ==> FailsAs(Run(Begin(start), data), parser, trace, pos + p')
    {
      ghost var e := p + 1;
      CountByte(parser, nread, trace, pos, data, p, m, c);
      p', m', exit, d := p, m, false, c;
      if ParsingHeader(parser.state) {
        nread := nread + 1;
        assert nread < 0x1_0000_0000;
      }
      if nread > HTTP_MAX_HEADER_SIZE {
        parser := parser.(errno := HeaderOverflow);
      } else {
        p', m', exit, d, e := Switch(data, p, m, c);
      }
      if parser.errno == Ok {
        TakesThen(Begin(start), data[..p], c, data[p..p'], d);
        assert data[..p'] == data[..p] + data[p..p'];
      } else {
        CallFails(start, data, p, e, c, parser, trace, pos + p');
      }
    }

    /** The loop over the buffer: to its end, to an error, or to an upgrade. */
    method Loop(data: seq<byte>, ghost start: Conn) returns (p: nat, m: Marks, exit: bool, ghost d: Conn)
      requires Valid() && start == Conn() && parser.errno == Ok
      modifies this`parser, this`nread, this`trace, response
      ensures Consistent() && p <= |data|
      ensures parser.errno != Ok ==> FailsAs(Run(Begin(start), data), parser, trace, pos + p)
      ensures parser.errno == Ok ==> Takes(Begin(start), data[..p], d)
      ensures parser.errno == Ok ==>
        if exit then Left(parser, nread, trace, pos + p, d) else p == |data| && InCall(data, p, m, d)
    {
      p, m, exit, d := 0, InitialMarks(parser.state), false, Begin(start);
      BeginTrack(start, data);
      while p < |data| && !exit && parser.errno == Ok
        invariant p <= |data| && Consistent()
        invariant parser.errno == Ok ==> Takes(Begin(start), data[..p], d)
        invariant parser.errno == Ok ==> if exit then Left(parser, nread, trace, pos + p, d) else InCall(data, p, m, d)
        invariant parser.errno != Ok ==> FailsAs(Run(Begin(start), data), parser, trace, pos + p)
        decreases parser.errno == Ok, |data| - p
      {
        p, m, exit, d := Next(data, p, m, start, d);
      }
    }

    /** http_parser_execute on a non-empty buffer, small enough that the count of header bytes, which the inner loops
        take a whole name or value at a time, stays within its 32-bit field. */
    method Execute(data: seq<byte>) returns (consumed: nat)
      requires Valid() && 0 < |data| <= 0xFFFF_FFFF - HTTP_MAX_HEADER_SIZE
      modifies this, response
      ensures Valid() && consumed == pos - old(pos)
      ensures Agrees(Conn(), Call(old(Conn()), data))
    {
      if parser.errno != Ok {
        return 0;
      }
      ghost var start := Conn();
      var m, exit;
      ghost var d;
      consumed, m, exit, d := Loop(data, start);
      if parser.errno == Ok {
        if exit {
          CallLeaves(start, data, consumed, d);
        } else {
          CallEnds(start, data, d);
          TrackToEnd(parser, nread, trace, pos, data, m, d);
          assert Count(m) <= 1;  // at most one mark is set
          FlushMarks(m, data, consumed);
        }
      }
      pos := pos + consumed;
    }

    /** http_parser_execute with length 0. */
    method Finish() returns (r: nat)
      requires Valid()
      modifies this`parser, this`trace, response
      ensures Consistent() && Settled(Conn(), Eof(old(Conn())))
      ensures r == if old(parser.errno) == Ok && parser.errno != Ok then 1 else 0
    {
      hide Inv;
      hide OpenDatum;
      hide ConsumeAll;
      r := 0;
      if parser.errno == Ok {
        match parser.state {
          case BodyIdentityEof => NotifyCallback(MessageComplete);
          case Dead =>
          case StartRes =>
          case _ =>
            parser := parser.(errno := InvalidEofState);
            r := 1;
        }
      }
    }
  }

  lemma CallSettled(a: Conn, b: Conn, data: seq<byte>)
    requires Settled(a, b) && a.p.errno == Ok
    ensures Call(a, data) == Call(b, data)
  {
    assert Begin(a) == Begin(b);
  }

  lemma CallFails(c: Conn, data: seq<byte>, p: nat, e: nat, d: Conn, parser: Parser, trace: seq<Event>, at: nat)
    requires c.p.errno == Ok && p <= e <= |data|
    requires Takes(Begin(c), data[..p], d) && Fails(d, data[p..e], parser, trace, at)
    ensures FailsAs(Run(Begin(c), data), parser, trace, at)
  {
    TakesThenFails(Begin(c), data[..p], d, data[p..e], parser, trace, at);
    assert data[..p] + data[p..e] == data[..e];
    assert data[..e] + data[e..] == data;
  }

  lemma CallEnds(c: Conn, data: seq<byte>, d: Conn)
    requires c.p.errno == Ok && Takes(Begin(c), data[..|data|], d)
    ensures Call(c, data) == End(d)
  {
    assert data[..|data|] == data;
    TakesAll(Begin(c), data, d);
  }

  lemma CallLeaves(c: Conn, data: seq<byte>, p: nat, d: Conn)
    requires c.p.errno == Ok && p <= |data| && Takes(Begin(c), data[..p], d) && d.exited
    ensures Call(c, data) == End(d)
  {
    assert data[..p] + data[p..] == data;
    RunStopped(d, data[p..]);
  }
}
