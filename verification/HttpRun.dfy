/** The parser one byte at a time, one call at a time, and over a sequence of calls.

    This is the reference the batched method is proved against (HttpExecute) and the object of the theorem on
    how the input is cut (HttpSplit). */
module HttpRun {
  import opened HttpBytes
  import opened HttpParserState
  import opened HttpTrace

  /** The mark pointer that is set, with the bytes between it and the current position. */
  datatype Mark = NoMark | Marked(kind: Kind, bytes: seq<byte>)

  /** A parser between two bytes. `inLoop` and `skip` remember, within one call, that the last byte was taken
      by the inner loop of a header name or value, and that it belongs to a run of a general value. `pos`
      counts the bytes consumed by all calls. */
  datatype Conn = Conn(p: Parser, nread: nat, trace: seq<Event>, mark: Mark, inLoop: bool, skip: bool,
                       exited: bool, pos: nat)

  const START := Conn(INITIAL, 0, [], NoMark, false, false, false, 0)

  /** The trace as it will be once the open mark is delivered. */
  function Delivered(trace: seq<Event>, mark: Mark): seq<Event> {
    if mark.Marked? then Emit(trace, mark.kind, mark.bytes) else trace
  }

  function Full(c: Conn): seq<Event> {
    Delivered(c.trace, c.mark)
  }

  /** MARK is non-destructive: a mark that is set stays where it is. */
  function Extend(mark: Mark, kind: Kind, bytes: seq<byte>): Mark {
    if mark.Marked? then Marked(mark.kind, mark.bytes + bytes) else Marked(kind, bytes)
  }

  function PerformEmpty(trace: seq<Event>, fx: Effects): seq<Event> {
    if fx.emptyValue then Emit(trace, Value, []) else trace
  }

  function PerformTake(mark: Mark, fx: Effects, ch: byte): Mark {
    if fx.take.TakeByte? then Extend(mark, fx.take.kind, [ch]) else mark
  }

  function Perform(c: Conn, fx: Effects, ch: byte): Conn {
    var t1 := PerformEmpty(c.trace, fx);
    var m1 := PerformTake(c.mark, fx, ch);
    if fx.flush then c.(trace := Delivered(t1, m1) + Notes(fx.notes), mark := NoMark)
    else c.(trace := t1 + Notes(fx.notes), mark := m1)
  }

  /** The bytes the inner loops of s_header_field and s_header_value take. */
  predicate LoopByte(p: Parser, ch: byte) {
    || (p.state.HeaderField? && Token(ch) != 0)
    || (p.state.HeaderValue? && ch != CR && ch != LF)
  }

  predicate Skipping(p: Parser, ch: byte) {
    p.state.HeaderValue? && p.headerState.HGeneral? && ch != CR && ch != LF
  }

  function Step(c: Conn, ch: byte): Conn {
    var nread := if ParsingHeader(c.p.state) then c.nread + 1 else c.nread;
    if ParsingHeader(c.p.state) && nread > HTTP_MAX_HEADER_SIZE then
      c.(p := c.p.(errno := HeaderOverflow), nread := nread)
    else
      var out := Transition(c.p, ch, c.skip);
      var d := Perform(c, out.fx, ch);
      d.(p := out.p, nread := if out.reset then 0 else nread, inLoop := LoopByte(c.p, ch), skip := Skipping(c.p, ch),
         exited := out.exit, pos := if out.p.errno == Ok then c.pos + 1 else c.pos)
  }

  predicate Stopped(c: Conn) {
    c.p.errno != Ok || c.exited
  }

  function Run(c: Conn, data: seq<byte>): Conn
    decreases |data|
  {
    if data == [] || Stopped(c) then c else Run(Step(c, data[0]), data[1..])
  }

  /** Entering http_parser_execute: a datum that was cut continues at the first byte. */
  function Begin(c: Conn): Conn {
    var mark := match c.p.state
      case HeaderField => Marked(Field, [])
      case HeaderValue => Marked(Value, [])
      case ResStatus => Marked(Status(c.p.statusCode), [])
      case _ => NoMark;
    c.(mark := mark, inLoop := false, skip := false, exited := false)
  }

  /** Leaving it: the inner loops count a byte too many when the piece ends in them; open marks are delivered,
      but not after an error or an upgrade. */
  function End(c: Conn): Conn {
    if Stopped(c) then c.(mark := NoMark)
    else
      var nread := if c.inLoop then c.nread + 1 else c.nread;
      if c.inLoop && nread > HTTP_MAX_HEADER_SIZE then
        c.(p := c.p.(errno := HeaderOverflow), nread := nread, mark := NoMark)
      else c.(nread := nread, trace := Full(c), mark := NoMark)
  }

  /** One call on a piece. The empty piece stands for no call at all: a call of length 0 means the end of the stream and
      is `Eof`. */
  function Call(c: Conn, data: seq<byte>): Conn {
    if c.p.errno != Ok then c else End(Run(Begin(c), data))
  }

  /** A call with length 0: the end of the stream. */
  function Eof(c: Conn): Conn {
    if c.p.errno != Ok then c
    else match c.p.state
      case BodyIdentityEof => c.(trace := c.trace + [Notify(MessageComplete)])
      case Dead => c
      case StartRes => c
      case _ => c.(p := c.p.(errno := InvalidEofState))
  }

  function Calls(c: Conn, pieces: seq<seq<byte>>): Conn
    decreases |pieces|
  {
    if pieces == [] then c else Calls(Call(c, pieces[0]), pieces[1..])
  }

  function Concat(pieces: seq<seq<byte>>): seq<byte> {
    if pieces == [] then [] else pieces[0] + Concat(pieces[1..])
  }

  predicate NonEmpty(pieces: seq<seq<byte>>) {
    forall piece :: piece in pieces ==> piece != []
  }

  lemma {:induction false} RunAppend(c: Conn, a: seq<byte>, b: seq<byte>)
    ensures Run(c, a + b) == Run(Run(c, a), b)
    decreases |a|
  {
    if a == [] {
      assert a + b == b;
    } else if !Stopped(c) {
      assert (a + b)[0] == a[0] && (a + b)[1..] == a[1..] + b;
      RunAppend(Step(c, a[0]), a[1..], b);
    }
  }

  lemma {:induction false} CallsAppend(c: Conn, a: seq<seq<byte>>, b: seq<seq<byte>>)
    ensures Calls(c, a + b) == Calls(Calls(c, a), b)
    decreases |a|
  {
    if a == [] {
      assert a + b == b;
    } else {
      assert (a + b)[0] == a[0] && (a + b)[1..] == a[1..] + b;
      CallsAppend(Call(c, a[0]), a[1..], b);
    }
  }

  lemma {:induction false} ConcatAppend(a: seq<seq<byte>>, b: seq<seq<byte>>)
    ensures Concat(a + b) == Concat(a) + Concat(b)
    decreases |a|
  {
    if a == [] {
      assert a + b == b;
    } else {
      assert (a + b)[0] == a[0] && (a + b)[1..] == a[1..] + b;
      ConcatAppend(a[1..], b);
    }
  }
}
