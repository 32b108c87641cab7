/** What the parser does to a whole run of bytes at a time, and that this is what it would do byte by byte. */
module HttpBatches {
  import opened HttpBytes
  import opened HttpParserState
  import opened HttpTrace
  import opened HttpRun

  // ----- several bytes at once ----------------------------------------------------------------

  /** The bytes lead from `c` to `d`, whatever follows them. */
  ghost predicate Takes(c: Conn, bytes: seq<byte>, d: Conn) {
    forall rest {:trigger Run(d, rest)} :: Run(c, bytes + rest) == Run(d, rest)
  }

  /** An error with this parser and trace at this position, where the reference run `t` ends in the same one. Only
      header_state may differ; and when the header limit is exceeded the error may be another one. */
  predicate FailsAs(t: Conn, parser: Parser, trace: seq<Event>, at: nat) {
    && parser.errno != Ok
    && (End(t).p.errno == HeaderOverflow
        || (t.p.errno != Ok && parser == t.p.(headerState := parser.headerState) && t.trace == trace && t.pos == at))
  }

  /** The bytes lead from `c` to that error, whatever follows them. */
  ghost predicate Fails(c: Conn, bytes: seq<byte>, parser: Parser, trace: seq<Event>, at: nat) {
    forall rest {:trigger Run(c, bytes + rest)} :: FailsAs(Run(c, bytes + rest), parser, trace, at)
  }

  lemma TakesRun(c: Conn, bytes: seq<byte>)
    ensures Takes(c, bytes, Run(c, bytes))
  {
    forall rest {
      RunAppend(c, bytes, rest);
    }
  }

  lemma TakesNothing(c: Conn)
    ensures Takes(c, [], c)
  {
    TakesRun(c, []);
  }

  lemma TakesThen(a: Conn, x: seq<byte>, b: Conn, y: seq<byte>, c: Conn)
    requires Takes(a, x, b) && Takes(b, y, c)
    ensures Takes(a, x + y, c)
  {
    forall rest
      ensures Run(a, x + y + rest) == Run(c, rest)
    {
      assert x + y + rest == x + (y + rest);
      assert Run(b, y + rest) == Run(c, rest);
    }
  }

  lemma TakesThenFails(a: Conn, x: seq<byte>, b: Conn, y: seq<byte>, parser: Parser, trace: seq<Event>, at: nat)
    requires Takes(a, x, b) && Fails(b, y, parser, trace, at)
    ensures Fails(a, x + y, parser, trace, at)
  {
    forall rest
      ensures FailsAs(Run(a, x + y + rest), parser, trace, at)
    {
      assert x + y + rest == x + (y + rest);
      assert Run(a, x + (y + rest)) == Run(b, y + rest);
    }
  }

  lemma TakesAll(c: Conn, bytes: seq<byte>, d: Conn)
    requires Takes(c, bytes, d)
    ensures Run(c, bytes) == d
  {
    assert bytes + [] == bytes;
    assert Run(d, []) == d;
  }

  // ----- header names -------------------------------------------------------------------------

  /** header_state and index after a run of name bytes. */
  function NameRun(hs: HState, index: nat, bytes: seq<byte>): (HState, nat)
    decreases |bytes|
  {
    if bytes == [] then (hs, index)
    else
      var (hs1, index1) := NameByte(hs, index, bytes[0], Token(bytes[0]));
      NameRun(hs1, index1, bytes[1..])
  }

  predicate Tokens(bytes: seq<byte>) {
    forall i :: 0 <= i < |bytes| ==> Token(bytes[i]) != 0
  }

  lemma {:induction false} NameRunSnoc(hs: HState, index: nat, bytes: seq<byte>, ch: byte)
    ensures NameRun(hs, index, bytes + [ch])
            == (var (hs1, index1) := NameRun(hs, index, bytes); NameByte(hs1, index1, ch, Token(ch)))
    decreases |bytes|
  {
    if bytes != [] {
      var (hs1, index1) := NameByte(hs, index, bytes[0], Token(bytes[0]));
      assert (bytes + [ch])[1..] == bytes[1..] + [ch];
      NameRunSnoc(hs1, index1, bytes[1..], ch);
    }
  }

  lemma NameStep(c: Conn, ch: byte)
    requires !Stopped(c) && c.p.state.HeaderField? && c.mark.Marked? && Token(ch) != 0
    ensures Step(c, ch) == if c.nread + 1 > HTTP_MAX_HEADER_SIZE
      then c.(p := c.p.(errno := HeaderOverflow), nread := c.nread + 1)
      else var (hs, index) := NameByte(c.p.headerState, c.p.index, ch, Token(ch));
        c.(p := c.p.(headerState := hs, index := index), nread := c.nread + 1,
           mark := Marked(c.mark.kind, c.mark.bytes + [ch]), inLoop := true, skip := false, pos := c.pos + 1)
  {
    assert c.trace + Notes([]) == c.trace;
  }

  /** A run of name bytes inside a call: either all of it is taken, or the header limit stops it. */
  lemma {:induction false} NameRunIsRun(c: Conn, bytes: seq<byte>)
    requires !Stopped(c) && c.p.state.HeaderField? && c.mark.Marked? && Tokens(bytes) && bytes != []
    ensures if c.nread + |bytes| > HTTP_MAX_HEADER_SIZE then Run(c, bytes).p.errno == HeaderOverflow
      else var (hs, index) := NameRun(c.p.headerState, c.p.index, bytes);
        Run(c, bytes) ==
          c.(p := c.p.(headerState := hs, index := index), nread := c.nread + |bytes|,
             mark := Marked(c.mark.kind, c.mark.bytes + bytes), inLoop := true, skip := false, pos := c.pos + |bytes|)
    decreases |bytes|
  {
    NameStep(c, bytes[0]);
    var d, rest := Step(c, bytes[0]), bytes[1..];
    assert bytes == [bytes[0]] + rest;
    assert Run(c, bytes) == Run(d, rest);
    if d.p.errno == Ok && rest != [] {
      NameRunIsRun(d, rest);
      assert c.mark.bytes + [bytes[0]] + rest == c.mark.bytes + bytes;
    } else if rest == [] {
      assert bytes == [bytes[0]];
    }
  }

  /** The connection after a run of name bytes that the header limit admits. */
  function AfterName(c: Conn, bytes: seq<byte>): Conn
    requires c.mark.Marked?
  {
    var (hs, index) := NameRun(c.p.headerState, c.p.index, bytes);
    c.(p := c.p.(headerState := hs, index := index), nread := c.nread + |bytes|,
       mark := Marked(c.mark.kind, c.mark.bytes + bytes), inLoop := bytes != [], skip := false, pos := c.pos + |bytes|)
  }

  lemma NameEndStep(c: Conn, ch: byte)
    requires !Stopped(c) && c.p.state.HeaderField? && Token(ch) == 0
    ensures var d := Step(c, ch);
      if c.nread + 1 > HTTP_MAX_HEADER_SIZE then d.p.errno == HeaderOverflow
      else if ch == COLON then
        d == c.(p := c.p.(state := HeaderValueDiscardWs), nread := c.nread + 1, trace := Full(c), mark := NoMark,
                inLoop := false, skip := false, pos := c.pos + 1)
      else d.p == c.p.(errno := InvalidHeaderToken) && d.trace == c.trace && d.pos == c.pos
  {
    assert c.trace + Notes([]) == c.trace;
    assert Full(c) + Notes([]) == Full(c);
  }

  lemma NamePart(c: Conn, bytes: seq<byte>)
    requires !Stopped(c) && c.p.state.HeaderField? && c.mark.Marked? && !c.inLoop && !c.skip && Tokens(bytes)
    ensures Run(c, bytes).p.errno == HeaderOverflow || Run(c, bytes) == AfterName(c, bytes)
    ensures c.nread + |bytes| > HTTP_MAX_HEADER_SIZE && bytes != [] ==> Run(c, bytes).p.errno == HeaderOverflow
    ensures c.nread + |bytes| <= HTTP_MAX_HEADER_SIZE ==> Run(c, bytes) == AfterName(c, bytes)
  {
    if bytes != [] {
      NameRunIsRun(c, bytes);
    } else {
      assert c.mark.bytes + bytes == c.mark.bytes;
    }
  }

  /** The header limit is exceeded at the byte after the name, or at the end of the piece. */
  lemma NameOverflows(c: Conn, bytes: seq<byte>, parser: Parser, trace: seq<Event>, at: nat)
    requires !Stopped(c) && c.p.state.HeaderField? && c.mark.Marked? && !c.inLoop && !c.skip && Tokens(bytes)
    requires bytes != [] && c.nread + |bytes| + 1 > HTTP_MAX_HEADER_SIZE && parser.errno == HeaderOverflow
    ensures Fails(c, bytes, parser, trace, at)
  {
    NamePart(c, bytes);
    forall rest
      ensures FailsAs(Run(c, bytes + rest), parser, trace, at)
    {
      RunAppend(c, bytes, rest);
      CountOverflows(Run(c, bytes), rest);
    }
  }

  /** A parser at the header limit that has just left an inner loop stops with the next byte or with the piece. */
  lemma CountOverflows(d: Conn, rest: seq<byte>)
    requires d.p.errno == HeaderOverflow
             || (!Stopped(d) && ParsingHeader(d.p.state) && d.inLoop && d.nread + 1 > HTTP_MAX_HEADER_SIZE)
    ensures End(Run(d, rest)).p.errno == HeaderOverflow
  {
  }

  lemma NameColon(c: Conn, bytes: seq<byte>)
    requires !Stopped(c) && c.p.state.HeaderField? && c.mark.Marked? && !c.inLoop && !c.skip && Tokens(bytes)
    requires c.nread + |bytes| + 1 <= HTTP_MAX_HEADER_SIZE
    ensures Takes(c, bytes + [COLON], AfterColon(AfterName(c, bytes)))
  {
    NamePart(c, bytes);
    var d := AfterName(c, bytes);
    NameEndStep(d, COLON);
    TakesStep(d, COLON);
    TakesRun(c, bytes);
    TakesThen(c, bytes, d, [COLON], Step(d, COLON));
  }

  function AfterColon(d: Conn): Conn {
    d.(p := d.p.(state := HeaderValueDiscardWs), nread := d.nread + 1, trace := Full(d), mark := NoMark,
       inLoop := false, skip := false, pos := d.pos + 1)
  }

  lemma TakesStep(c: Conn, ch: byte)
    requires !Stopped(c)
    ensures Takes(c, [ch], Step(c, ch))
  {
    RunSingle(c, ch);
    TakesRun(c, [ch]);
  }

  lemma NameRefused(c: Conn, bytes: seq<byte>, ch: byte)
    requires !Stopped(c) && c.p.state.HeaderField? && c.mark.Marked? && !c.inLoop && !c.skip && Tokens(bytes)
    requires Token(ch) == 0 && ch != COLON && c.nread + |bytes| + 1 <= HTTP_MAX_HEADER_SIZE
    ensures Fails(c, bytes + [ch], AfterName(c, bytes).p.(errno := InvalidHeaderToken), c.trace, c.pos + |bytes|)
  {
    NamePart(c, bytes);
    var d := AfterName(c, bytes);
    NameEndStep(d, ch);
    StepFails(d, ch, d.p.(errno := InvalidHeaderToken));
    TakesRun(c, bytes);
    TakesThenFails(c, bytes, d, [ch], d.p.(errno := InvalidHeaderToken), c.trace, d.pos);
  }

  /** An error at one byte, possibly with another header_state or exceeding the header limit. */
  lemma StepFails(c: Conn, ch: byte, parser: Parser)
    requires !Stopped(c) && parser.errno != Ok
    requires var d := Step(c, ch); d.p.errno == HeaderOverflow || d.p == parser
    ensures Fails(c, [ch], parser, Step(c, ch).trace, Step(c, ch).pos)
  {
    var d := Step(c, ch);
    RunSingle(c, ch);
    forall rest
      ensures FailsAs(Run(c, [ch] + rest), parser, d.trace, d.pos)
    {
      RunAppend(c, [ch], rest);
      RunStopped(d, rest);
    }
  }

  lemma RunStopped(c: Conn, data: seq<byte>)
    requires Stopped(c)
    ensures Run(c, data) == c
  {
  }

  // ----- header values ------------------------------------------------------------------------

  predicate NoBreak(bytes: seq<byte>) {
    forall i :: 0 <= i < |bytes| ==> bytes[i] != CR && bytes[i] != LF
  }

  /** The parser after a run of value bytes, with the number of bytes taken before a possible error. */
  datatype ValueRunOut = ValueRunOut(p: Parser, taken: nat, skip: bool)

  function ValueRun(p: Parser, skip: bool, bytes: seq<byte>): ValueRunOut
    requires NoBreak(bytes)
    decreases |bytes|
  {
    if bytes == [] then ValueRunOut(p, 0, skip)
    else
      var out := HeaderValueByte(p, bytes[0], skip);
      if out.p.errno != Ok then ValueRunOut(out.p, 0, skip)
      else
        var rest := ValueRun(out.p, p.headerState.HGeneral?, bytes[1..]);
        rest.(taken := rest.taken + 1)
  }

  lemma {:induction false} ValueRunAppend(p: Parser, skip: bool, a: seq<byte>, b: seq<byte>)
    requires NoBreak(a + b)
    ensures NoBreak(a) && NoBreak(b)
    ensures var r := ValueRun(p, skip, a);
      ValueRun(p, skip, a + b)
      == if r.p.errno != Ok && a != [] then r
         else var s := ValueRun(r.p, r.skip, b); s.(taken := r.taken + s.taken)
    decreases |a|
  {
    hide HeaderValueByte;
    assert forall i :: 0 <= i < |a| ==> a[i] == (a + b)[i];
    assert forall i :: 0 <= i < |b| ==> b[i] == (a + b)[|a| + i];
    if a == [] {
      assert a + b == b;
    } else {
      assert (a + b)[1..] == a[1..] + b;
      var out := HeaderValueByte(p, a[0], skip);
      if out.p.errno == Ok {
        ValueRunAppend(out.p, p.headerState.HGeneral?, a[1..], b);
        assert a[1..] == [] ==> ValueRun(out.p, p.headerState.HGeneral?, a[1..]).p == out.p;
      }
    }
  }

  /** Behind the first byte of a general value nothing happens until the next CR or LF. */
  lemma {:induction false} GeneralRun(p: Parser, bytes: seq<byte>)
    requires p.headerState.HGeneral? && p.errno == Ok && NoBreak(bytes)
    ensures ValueRun(p, true, bytes) == ValueRunOut(p, |bytes|, true)
    decreases |bytes|
  {
    if bytes != [] {
      GeneralRun(p, bytes[1..]);
    }
  }

  lemma ValueByteFacts(p: Parser, ch: byte, skip: bool)
    requires p.state.HeaderValue? && p.errno == Ok && ch != CR && ch != LF
    ensures var out := HeaderValueByte(p, ch, skip);
      && out.p.state == HeaderValue && !out.reset && !out.exit && !out.fx.emptyValue && !out.fx.flush && out.fx.notes == []
      && (out.p.errno == Ok ==> out.fx.take == TakeByte(Value))
      && out.p.errno != HeaderOverflow
  {
  }

  lemma ValueStep(c: Conn, ch: byte)
    requires !Stopped(c) && c.p.state.HeaderValue? && c.mark.Marked? && ch != CR && ch != LF
    ensures var out, d := HeaderValueByte(c.p, ch, c.skip), Step(c, ch);
      if c.nread + 1 > HTTP_MAX_HEADER_SIZE then
        d == c.(p := c.p.(errno := HeaderOverflow), nread := c.nread + 1)
      else if out.p.errno != Ok then
        d.p == out.p && d.pos == c.pos && d.trace == c.trace && !d.exited
      else
        d == c.(p := out.p, nread := c.nread + 1, mark := Marked(c.mark.kind, c.mark.bytes + [ch]), inLoop := true,
                skip := c.p.headerState.HGeneral?, pos := c.pos + 1)
  {
    ValueByteFacts(c.p, ch, c.skip);
    assert c.trace + Notes([]) == c.trace;
  }

  /** A run of value bytes inside a call: all of it is taken, or a byte of it is refused, or the header limit
      stops it. */
  ghost predicate ValueAgrees(c: Conn, bytes: seq<byte>)
    requires c.mark.Marked? && NoBreak(bytes)
  {
    var r, d := ValueRun(c.p, c.skip, bytes), Run(c, bytes);
    && r.taken <= |bytes|
    && (r.p.errno == Ok ==> r.taken == |bytes|)
    && r.p.state == HeaderValue && r.p.errno != HeaderOverflow
    && if d.p.errno == HeaderOverflow then c.nread + |bytes| > HTTP_MAX_HEADER_SIZE
       else if r.p.errno != Ok then
         d.p == r.p && d.pos == c.pos + r.taken && d.trace == c.trace
       else
         && c.nread + |bytes| <= HTTP_MAX_HEADER_SIZE
         && d == c.(p := r.p, nread := c.nread + |bytes|, mark := Marked(c.mark.kind, c.mark.bytes + bytes),
                    inLoop := true, skip := r.skip, pos := c.pos + |bytes|)
  }

  lemma ValueAgreesOne(c: Conn, ch: byte)
    requires !Stopped(c) && c.p.state.HeaderValue? && c.mark.Marked? && ch != CR && ch != LF
    ensures ValueAgrees(c, [ch])
  {
    hide Step;
    ValueByteFacts(c.p, ch, c.skip);
    ValueStep(c, ch);
    RunSingle(c, ch);
    hide HeaderValueByte;
    hide Run;
    assert [ch][1..] == [];
    assert ValueRun(HeaderValueByte(c.p, ch, c.skip).p, c.p.headerState.HGeneral?, []).taken == 0;
  }

  lemma ValueAgreesMore(c: Conn, bytes: seq<byte>)
    requires !Stopped(c) && c.p.state.HeaderValue? && c.mark.Marked? && NoBreak(bytes) && |bytes| > 1
    requires Step(c, bytes[0]).p.errno == Ok ==>
      Step(c, bytes[0]).mark.Marked? && ValueAgrees(Step(c, bytes[0]), bytes[1..])
    ensures ValueAgrees(c, bytes)
  {
    hide Step;
    var ch, rest := bytes[0], bytes[1..];
    ValueByteFacts(c.p, ch, c.skip);
    ValueStep(c, ch);
    assert bytes == [ch] + rest;
    assert Run(c, bytes) == Run(Step(c, ch), rest);
    if Step(c, ch).p.errno == Ok {
      assert c.mark.bytes + [ch] + rest == c.mark.bytes + bytes;
    } else if HeaderValueByte(c.p, ch, c.skip).p.errno == Ok {
      ValueRunState(HeaderValueByte(c.p, ch, c.skip).p, c.p.headerState.HGeneral?, rest);
    }
  }

  lemma {:induction false} ValueRunIsRun(c: Conn, bytes: seq<byte>)
    requires !Stopped(c) && c.p.state.HeaderValue? && c.mark.Marked? && NoBreak(bytes) && bytes != []
    ensures ValueAgrees(c, bytes)
    decreases |bytes|
  {
    hide Step;
    hide Run;
    hide ValueAgrees;
    if |bytes| == 1 {
      assert bytes == [bytes[0]];
      ValueAgreesOne(c, bytes[0]);
    } else {
      ValueByteFacts(c.p, bytes[0], c.skip);
      ValueStep(c, bytes[0]);
      hide HeaderValueByte;
      if Step(c, bytes[0]).p.errno == Ok {
        ValueRunIsRun(Step(c, bytes[0]), bytes[1..]);
      }
      ValueAgreesMore(c, bytes);
    }
  }

  lemma {:induction false} ValueRunState(p: Parser, skip: bool, bytes: seq<byte>)
    requires p.state.HeaderValue? && p.errno == Ok && NoBreak(bytes)
    ensures var r := ValueRun(p, skip, bytes);
      r.taken <= |bytes| && (r.p.errno == Ok ==> r.taken == |bytes|) && r.p.state == HeaderValue && r.p.errno != HeaderOverflow
    decreases |bytes|
  {
    if bytes != [] {
      ValueByteFacts(p, bytes[0], skip);
      if HeaderValueByte(p, bytes[0], skip).p.errno == Ok {
        ValueRunState(HeaderValueByte(p, bytes[0], skip).p, p.headerState.HGeneral?, bytes[1..]);
      }
    }
  }

  function AfterValue(c: Conn, bytes: seq<byte>): Conn
    requires c.mark.Marked? && NoBreak(bytes)
  {
    var r := ValueRun(c.p, c.skip, bytes);
    c.(p := r.p, nread := c.nread + |bytes|, mark := Marked(c.mark.kind, c.mark.bytes + bytes),
       inLoop := bytes != [], skip := r.skip, pos := c.pos + |bytes|)
  }

  lemma ValueEndStep(c: Conn, ch: byte)
    requires !Stopped(c) && c.p.state.HeaderValue? && (ch == CR || ch == LF)
    ensures var d := Step(c, ch);
      if c.nread + 1 > HTTP_MAX_HEADER_SIZE then d.p.errno == HeaderOverflow
      else
        d == c.(p := c.p.(state := if ch == CR then HeaderAlmostDone else HeaderValueLws), nread := c.nread + 1,
                trace := Full(c), mark := NoMark, inLoop := false, skip := false, pos := c.pos + 1)
  {
    assert Full(c) + Notes([]) == Full(c);
  }

  lemma ValuePart(c: Conn, bytes: seq<byte>)
    requires !Stopped(c) && c.p.state.HeaderValue? && c.mark.Marked? && !c.inLoop && !c.skip && NoBreak(bytes)
    requires ValueRun(c.p, false, bytes).p.errno == Ok
    ensures Run(c, bytes).p.errno == HeaderOverflow || Run(c, bytes) == AfterValue(c, bytes)
    ensures c.nread + |bytes| > HTTP_MAX_HEADER_SIZE && bytes != [] ==> Run(c, bytes).p.errno == HeaderOverflow
    ensures c.nread + |bytes| <= HTTP_MAX_HEADER_SIZE ==> Run(c, bytes) == AfterValue(c, bytes)
    ensures AfterValue(c, bytes).p.state == HeaderValue
  {
    if bytes != [] {
      ValueRunIsRun(c, bytes);
    } else {
      assert c.mark.bytes + bytes == c.mark.bytes;
    }
  }

  lemma ValueOverflows(c: Conn, bytes: seq<byte>, parser: Parser, trace: seq<Event>, at: nat)
    requires !Stopped(c) && c.p.state.HeaderValue? && c.mark.Marked? && !c.inLoop && !c.skip && NoBreak(bytes)
    requires bytes != [] && c.nread + |bytes| + 1 > HTTP_MAX_HEADER_SIZE && parser.errno == HeaderOverflow
    requires ValueRun(c.p, false, bytes).p.errno == Ok
    ensures Fails(c, bytes, parser, trace, at)
  {
    hide Run;
    hide Step;
    hide ValueRun;
    ValuePart(c, bytes);
    forall rest
      ensures FailsAs(Run(c, bytes + rest), parser, trace, at)
    {
      RunAppend(c, bytes, rest);
      CountOverflows(Run(c, bytes), rest);
    }
  }

  function AfterLine(d: Conn, ch: byte): Conn {
    d.(p := d.p.(state := if ch == CR then HeaderAlmostDone else HeaderValueLws), nread := d.nread + 1,
       trace := Full(d), mark := NoMark, inLoop := false, skip := false, pos := d.pos + 1)
  }

  lemma ValueLineEnd(c: Conn, bytes: seq<byte>, ch: byte)
    requires !Stopped(c) && c.p.state.HeaderValue? && c.mark.Marked? && !c.inLoop && !c.skip && NoBreak(bytes)
    requires ValueRun(c.p, false, bytes).p.errno == Ok && (ch == CR || ch == LF)
    requires c.nread + |bytes| + 1 <= HTTP_MAX_HEADER_SIZE
    ensures Takes(c, bytes + [ch], AfterLine(AfterValue(c, bytes), ch))
  {
    ValuePart(c, bytes);
    var d := AfterValue(c, bytes);
    ValueEndStep(d, ch);
    TakesStep(d, ch);
    TakesRun(c, bytes);
    TakesThen(c, bytes, d, [ch], Step(d, ch));
  }

  /** A refused byte, the last of `bytes`. */
  lemma ValueRefused(c: Conn, bytes: seq<byte>, parser: Parser)
    requires !Stopped(c) && c.p.state.HeaderValue? && c.mark.Marked? && !c.skip && NoBreak(bytes)
    requires var r := ValueRun(c.p, false, bytes); r.p.errno != Ok && parser == r.p.(headerState := parser.headerState)
    ensures Fails(c, bytes, parser, c.trace, c.pos + ValueRun(c.p, false, bytes).taken)
  {
    ValueRunIsRun(c, bytes);
    var d := Run(c, bytes);
    forall rest
      ensures FailsAs(Run(c, bytes + rest), parser, c.trace, c.pos + ValueRun(c.p, false, bytes).taken)
    {
      RunAppend(c, bytes, rest);
      RunStopped(d, rest);
    }
  }

  // ----- body ---------------------------------------------------------------------------------

  predicate CountedBody(p: Parser) {
    p.state.BodyIdentity? || p.state.ChunkData?
  }

  /** Fewer body bytes than are still due: they are delivered and counted down, and nothing else happens. */
  lemma {:induction false} BodyRun(c: Conn, bytes: seq<byte>)
    requires !Stopped(c) && CountedBody(c.p) && |bytes| < c.p.contentLength && bytes != []
    requires c.mark.Marked? ==> c.mark.kind == Body
    ensures Run(c, bytes) ==
      c.(p := c.p.(contentLength := c.p.contentLength - |bytes|), mark := Extend(c.mark, Body, bytes),
         inLoop := false, skip := false, pos := c.pos + |bytes|)
    decreases |bytes|
  {
    var n := |bytes| - 1;
    var init, last := bytes[..n], bytes[n];
    assert bytes == init + [last];
    if n == 0 {
      assert bytes == [last];
      RunSingle(c, last);
      BodyStep(c, last);
    } else {
      BodyRun(c, init);
      BodyLink(c, Run(c, init), init, last);
      if c.mark.Marked? {
        assert c.mark.bytes + init + [last] == c.mark.bytes + bytes;
      }
    }
  }

  lemma BodyLink(c: Conn, d: Conn, init: seq<byte>, last: byte)
    requires d == Run(c, init) && !Stopped(d) && CountedBody(d.p) && d.p.contentLength > 1
    ensures Run(c, init + [last]) ==
      d.(p := d.p.(contentLength := d.p.contentLength - 1), mark := Extend(d.mark, Body, [last]),
         inLoop := false, skip := false, pos := d.pos + 1)
  {
    RunAppend(c, init, [last]);
    BodyStep(d, last);
    RunSingle(d, last);
  }

  lemma BodyStep(c: Conn, ch: byte)
    requires !Stopped(c) && CountedBody(c.p) && c.p.contentLength > 1
    ensures Step(c, ch) ==
      c.(p := c.p.(contentLength := c.p.contentLength - 1), mark := Extend(c.mark, Body, [ch]),
         inLoop := false, skip := false, pos := c.pos + 1)
  {
    assert c.trace + Notes([]) == c.trace;
  }

  /** The last of the body bytes that are due. */
  lemma BodyLastStep(c: Conn, ch: byte)
    requires !Stopped(c) && CountedBody(c.p) && c.p.contentLength == 1
    ensures var d, p1, mark := Step(c, ch), c.p.(contentLength := 0), Extend(c.mark, Body, [ch]);
      if c.p.state.BodyIdentity? then
        d == c.(p := p1.(state := NewMessage(p1)), trace := Delivered(c.trace, mark) + Notes([MessageComplete]),
                mark := NoMark, inLoop := false, skip := false, exited := c.p.upgrade, pos := c.pos + 1)
      else
        d == c.(p := p1.(state := ChunkDataAlmostDone), mark := mark, inLoop := false, skip := false, pos := c.pos + 1)
  {
    assert c.trace + Notes([]) == c.trace;
  }

  /** All body bytes that are due: a counted body ends the message, chunk data waits for its CRLF. */
  lemma BodyRunAll(c: Conn, bytes: seq<byte>)
    requires !Stopped(c) && CountedBody(c.p) && |bytes| == c.p.contentLength > 0
    requires c.mark.Marked? ==> c.mark.kind == Body
    ensures var d, p1, mark := Run(c, bytes), c.p.(contentLength := 0), Extend(c.mark, Body, bytes);
      if c.p.state.BodyIdentity? then
        d == c.(p := p1.(state := NewMessage(p1)), trace := Delivered(c.trace, mark) + Notes([MessageComplete]),
                mark := NoMark, inLoop := false, skip := false, exited := c.p.upgrade, pos := c.pos + |bytes|)
      else
        d == c.(p := p1.(state := ChunkDataAlmostDone), mark := mark, inLoop := false, skip := false,
                pos := c.pos + |bytes|)
  {
    hide Step;
    var n := |bytes| - 1;
    var init, last := bytes[..n], bytes[n];
    assert bytes == init + [last];
    RunAppend(c, init, [last]);
    if n > 0 {
      BodyRun(c, init);
    } else {
      assert init == [] && Run(c, init) == c;
    }
    var d := Run(c, init);
    BodyLastStep(d, last);
    RunSingle(d, last);
    if c.mark.Marked? {
      assert c.mark.bytes + init + [last] == c.mark.bytes + bytes;
    }
  }

  lemma RunSingle(c: Conn, ch: byte)
    requires !Stopped(c)
    ensures Run(c, [ch]) == Step(c, ch)
  {
    assert Run(Step(c, ch), []) == Step(c, ch);
  }

  lemma EofStep(c: Conn, ch: byte)
    requires !Stopped(c) && c.p.state.BodyIdentityEof?
    ensures Step(c, ch) ==
      c.(mark := Extend(c.mark, Body, [ch]), inLoop := false, skip := false, pos := c.pos + 1)
  {
    assert c.trace + Notes([]) == c.trace;
  }

  /** Without a length everything is body. */
  lemma {:induction false} EofRun(c: Conn, bytes: seq<byte>)
    requires !Stopped(c) && c.p.state.BodyIdentityEof? && bytes != []
    requires c.mark.Marked? ==> c.mark.kind == Body
    ensures Run(c, bytes) ==
      c.(mark := Extend(c.mark, Body, bytes), inLoop := false, skip := false, pos := c.pos + |bytes|)
    decreases |bytes|
  {
    var n := |bytes| - 1;
    var init, last := bytes[..n], bytes[n];
    assert bytes == init + [last];
    if n == 0 {
      assert bytes == [last];
      RunSingle(c, last);
      EofStep(c, last);
    } else {
      EofRun(c, init);
      EofLink(c, Run(c, init), init, last);
      if c.mark.Marked? {
        assert c.mark.bytes + init + [last] == c.mark.bytes + bytes;
      }
    }
  }

  lemma EofLink(c: Conn, d: Conn, init: seq<byte>, last: byte)
    requires d == Run(c, init) && !Stopped(d) && d.p.state.BodyIdentityEof?
    ensures Run(c, init + [last]) ==
      d.(mark := Extend(d.mark, Body, [last]), inLoop := false, skip := false, pos := d.pos + 1)
  {
    RunAppend(c, init, [last]);
    EofStep(d, last);
    RunSingle(d, last);
  }
}
