/** One header line after another: names and values reported as they stand, flags and length as the values say. */
module HttpHead {
  import opened HttpBytes
  import opened HttpParserState
  import opened HttpTrace
  import opened HttpRun
  import opened HttpBatches
  import opened HttpInvariants
  import opened HttpHeaders
  import opened HttpValues
  import opened HttpEncoding

  /** `bare`: the line ends in LF without CR, which the parser takes as well. */
  datatype Header = Header(name: seq<byte>, blanks: seq<byte>, value: seq<byte>, bare: bool)

  function Eol(bare: bool): seq<byte> {
    if bare then [LF] else CRLF
  }

  predicate Blanks(bytes: seq<byte>) {
    forall i :: 0 <= i < |bytes| ==> Blank(bytes[i])
  }

  predicate HeaderOk(h: Header) {
    h.name != [] && Tokens(h.name) && Blanks(h.blanks) && Trimmed(h.value)
  }

  function Line(h: Header): seq<byte> {
    h.name + [COLON] + h.blanks + h.value + Eol(h.bare)
  }

  // ----- between two lines --------------------------------------------------------------------

  /** A parser that has read whole header lines. The flags of the last one are set only when the next byte shows that
      its value does not go on, and an empty value is reported only then. */
  predicate AtLine(c: Conn) {
    && !Stopped(c) && c.mark.NoMark?
    && (c.p.state.HeaderFieldStart? || c.p.state.HeaderValueLws? || c.p.state.HeaderValueDiscardLws?)
  }

  /** What it is once the next byte has shown that. */
  function Settle(c: Conn): Conn {
    if c.p.state.HeaderFieldStart? then c
    else
      var p := c.p.(flags := ValueEndFlags(c.p.flags, c.p.headerState), state := HeaderFieldStart);
      c.(p := p, trace := if c.p.state.HeaderValueDiscardLws? then Emit(c.trace, Value, []) else c.trace)
  }

  lemma FieldStartFacts(p: Parser, ch: byte)
    ensures !HeaderFieldStartByte(p, ch).fx.emptyValue && !HeaderFieldStartByte(p, ch).fx.flush
  {
  }

  lemma SettleStep(c: Conn, ch: byte)
    requires AtLine(c) && !Blank(ch) && c.nread + 1 <= HTTP_MAX_HEADER_SIZE
    ensures Step(Settle(c), ch) == Step(c, ch)
  {
    hide HeaderFieldStartByte;
    hide Emit;
    FieldStartFacts(Settle(c).p, ch);
  }

  lemma SettleRun(c: Conn, data: seq<byte>)
    requires AtLine(c) && data != [] && !Blank(data[0]) && c.nread + 1 <= HTTP_MAX_HEADER_SIZE
    ensures Run(Settle(c), data) == Run(c, data)
  {
    SettleStep(c, data[0]);
  }

  // ----- the name -----------------------------------------------------------------------------

  function NameRead(c: Conn, name: seq<byte>, p: Parser): Conn {
    c.(p := p, nread := c.nread + |name| + 1, trace := Emit(c.trace, Field, name), inLoop := false, skip := false,
       pos := c.pos + |name| + 1)
  }

  lemma NameLine(c: Conn, name: seq<byte>)
    requires AtLine(c) && c.p.state.HeaderFieldStart?
    requires name != [] && Tokens(name) && c.nread + |name| + 1 <= HTTP_MAX_HEADER_SIZE
    ensures var d := Run(c, name + [COLON]);
      && d == NameRead(c, name, d.p) && !Stopped(d)
      && d.p == c.p.(state := HeaderValueDiscardWs, headerState := d.p.headerState, index := d.p.index)
      && NameState(d.p.headerState) && Recognised(d.p.headerState, LowerName(name))
  {
    hide Run;
    NameReached(c, name);
    FieldStartWhole(c, name[0]);
    NameRunClass(name);
    ClassRecognised(LowerName(name));
    ClassNameState(LowerName(name));
    assert [name[0]] + name[1..] == name;
  }

  lemma FieldStartWhole(c: Conn, ch: byte)
    requires AtLine(c) && c.p.state.HeaderFieldStart? && Token(ch) != 0 && c.nread + 1 <= HTTP_MAX_HEADER_SIZE
    ensures Step(c, ch) ==
      c.(p := c.p.(index := 0, state := HeaderField, headerState := FirstNameState(Token(ch))), nread := c.nread + 1,
         mark := Marked(Field, [ch]), inLoop := false, skip := false, pos := c.pos + 1)
  {
    assert c.trace + Notes([]) == c.trace;
  }

  lemma ClassNameState(low: seq<byte>)
    ensures NameState(NameClass(low))
  {
  }

  // ----- blanks -------------------------------------------------------------------------------

  function Over(c: Conn, n: nat): Conn {
    c.(nread := c.nread + n, pos := c.pos + n)
  }

  lemma BlankStep(c: Conn, b: byte)
    requires !Stopped(c) && c.p.state.HeaderValueDiscardWs? && c.mark.NoMark? && !c.inLoop && !c.skip && Blank(b)
    requires c.nread + 1 <= HTTP_MAX_HEADER_SIZE
    ensures Step(c, b) == Over(c, 1)
  {
    assert c.trace + Notes([]) == c.trace;
  }

  lemma {:induction false} BlanksRun(c: Conn, blanks: seq<byte>)
    requires !Stopped(c) && c.p.state.HeaderValueDiscardWs? && c.mark.NoMark? && !c.inLoop && !c.skip
    requires Blanks(blanks) && c.nread + |blanks| <= HTTP_MAX_HEADER_SIZE
    ensures Run(c, blanks) == Over(c, |blanks|)
    decreases |blanks|
  {
    hide Step;
    if blanks != [] {
      BlankStep(c, blanks[0]);
      BlanksRun(Over(c, 1), blanks[1..]);
    }
  }

  // ----- the value ----------------------------------------------------------------------------

  /** A parser behind the colon and the blanks. */
  predicate AtValue(c: Conn) {
    && !Stopped(c) && c.mark.NoMark? && !c.inLoop && !c.skip
    && c.p.state.HeaderValueDiscardWs? && NameState(c.p.headerState)
  }

  function EmptyRead(c: Conn, bare: bool): Conn {
    Over(c, |Eol(bare)|).(p := c.p.(state := HeaderValueDiscardLws))
  }

  lemma EmptyStep(c: Conn)
    requires AtValue(c) && c.nread + 2 <= HTTP_MAX_HEADER_SIZE
    ensures var d := Over(c, 1).(p := c.p.(state := HeaderValueDiscardWsAlmostDone));
      Step(c, CR) == d && Step(d, LF) == EmptyRead(c, false)
    ensures Step(c, LF) == EmptyRead(c, true)
  {
    assert c.trace + Notes([]) == c.trace;
  }

  lemma EmptyValue(c: Conn, bare: bool)
    requires AtValue(c) && c.nread + 2 <= HTTP_MAX_HEADER_SIZE
    ensures Run(c, Eol(bare)) == EmptyRead(c, bare)
  {
    hide Step;
    EmptyStep(c);
    if bare {
      RunSingle(c, LF);
    } else {
      TwoSteps(c, CR, LF);
    }
  }

  lemma TwoSteps(c: Conn, a: byte, b: byte)
    requires !Stopped(c) && !Stopped(Step(c, a))
    ensures Run(c, [a, b]) == Step(Step(c, a), b)
  {
    assert [a, b] == [a] + [b];
    RunAppend(c, [a], [b]);
    RunSingle(c, a);
    RunSingle(Step(c, a), b);
  }

  lemma ValueBegins(c: Conn, ch: byte)
    requires AtValue(c) && ch != CR && ch != LF && !Blank(ch) && c.nread + 1 <= HTTP_MAX_HEADER_SIZE
    ensures var d, q := Step(c, ch), Transition(c.p, ch, false).p;
      && d.p == q
      && (q.errno == Ok ==> q.state.HeaderValue? && d == Over(c, 1).(p := q, mark := Marked(Value, [ch])))
  {
    assert c.trace + Notes([]) == c.trace;
  }

  function FullRead(c: Conn, value: seq<byte>, q: Parser, bare: bool): Conn {
    Over(c, |value| + |Eol(bare)|).(p := q.(state := HeaderValueLws), trace := Emit(c.trace, Value, value))
  }

  lemma LineFeed(c: Conn)
    requires !Stopped(c) && c.p.state.HeaderAlmostDone? && c.mark.NoMark? && !c.inLoop && !c.skip
    requires c.nread + 1 <= HTTP_MAX_HEADER_SIZE
    ensures Step(c, LF) == Over(c, 1).(p := c.p.(state := HeaderValueLws))
  {
    assert c.trace + Notes([]) == c.trace;
  }

  lemma ValueTail(c: Conn, d: Conn, value: seq<byte>, bare: bool)
    requires AtValue(c) && value != [] && NoBreak(value) && c.nread + |value| + 2 <= HTTP_MAX_HEADER_SIZE
    requires d == Over(c, 1).(p := d.p, mark := Marked(Value, value[..1])) && d.p.errno == Ok && d.p.state.HeaderValue?
    ensures var q := ValueRun(d.p, false, value[1..]).p;
      if q.errno == Ok then Run(d, value[1..] + Eol(bare)) == FullRead(c, value, q, bare)
      else Run(d, value[1..] + Eol(bare)).p.errno != Ok
  {
    hide Run;
    hide Step;
    hide ValueRun;
    var rest := value[1..];
    RunAppend(d, rest, Eol(bare));
    var q := ValueRun(d.p, false, rest).p;
    if q.errno == Ok {
      var ch := if bare then LF else CR;
      ValueLineEnd(d, rest, ch);
      TakesAll(d, rest + [ch], AfterLine(AfterValue(d, rest), ch));
      ValuePart(d, rest);
      assert value[..1] + rest == value;
      if !bare {
        assert rest + CRLF == rest + [CR] + [LF];
        RunAppend(d, rest + [CR], [LF]);
        var e := AfterLine(AfterValue(d, rest), CR);
        LineFeed(e);
        RunSingle(e, LF);
      }
    } else {
      RestRefused(d, rest);
      RunStopped(Run(d, rest), Eol(bare));
    }
  }

  lemma RestRefused(d: Conn, rest: seq<byte>)
    requires !Stopped(d) && d.p.state.HeaderValue? && d.mark.Marked? && !d.skip && NoBreak(rest)
    requires ValueRun(d.p, false, rest).p.errno != Ok
    ensures Run(d, rest).p.errno != Ok
  {
    hide HeaderValueByte;
    hide Step;
    hide Run;
    ValueRunIsRun(d, rest);
  }

  lemma WholeValue(c: Conn, value: seq<byte>, bare: bool)
    requires AtValue(c) && value != [] && Trimmed(value) && c.nread + |value| + 2 <= HTTP_MAX_HEADER_SIZE
    ensures var q, d := ValueRead(c.p, value), Run(c, value + Eol(bare));
      if q.errno == Ok then d == FullRead(c, value, q, bare) else d.p.errno != Ok
  {
    hide Step;
    hide Run;
    hide Transition;
    hide HeaderValueByte;
    var first := value[0];
    ValueBegins(c, first);
    var d := Step(c, first);
    assert value[..1] == [first] && value + Eol(bare) == [first] + (value[1..] + Eol(bare));
    RunAppend(c, [first], value[1..] + Eol(bare));
    RunSingle(c, first);
    if d.p.errno == Ok {
      ValueTail(c, d, value, bare);
    } else {
      RunStopped(d, value[1..] + Eol(bare));
    }
  }

  // ----- a whole line -------------------------------------------------------------------------

  /** `d` has read one more header line than `c`: the name and the value are reported, and flags and length are what
      they say. */
  predicate LineTaken(c: Conn, h: Header, d: Conn) {
    var s, t := Settle(c), Settle(d);
    && AtLine(d) && d.nread == c.nread + |Line(h)| && d.pos == c.pos + |Line(h)|
    && t.trace == Emit(Emit(s.trace, Field, h.name), Value, h.value)
    && t.p == s.p.(flags := HeaderFlags(s.p.flags, h.name, h.value),
                   contentLength := HeaderLength(s.p.contentLength, h.name, h.value),
                   headerState := t.p.headerState, index := t.p.index)
  }

  lemma LineParts(c: Conn, h: Header)
    requires AtLine(c) && HeaderOk(h) && c.nread + |Line(h)| + 1 <= HTTP_MAX_HEADER_SIZE
    ensures var d1 := Run(Settle(c), h.name + [COLON]);
      var d2 := Over(d1, |h.blanks|);
      && AtValue(d2) && Recognised(d2.p.headerState, LowerName(h.name))
      && d1 == NameRead(Settle(c), h.name, d1.p)
      && d1.p == Settle(c).p.(state := HeaderValueDiscardWs, headerState := d1.p.headerState, index := d1.p.index)
      && Run(c, Line(h)) == Run(d2, h.value + Eol(h.bare))
  {
    hide Run;
    hide Step;
    var s := Settle(c);
    SettleRun(c, Line(h));
    NameLine(s, h.name);
    var d1 := Run(s, h.name + [COLON]);
    BlanksRun(d1, h.blanks);
    assert Line(h) == h.name + [COLON] + (h.blanks + (h.value + Eol(h.bare)));
    RunAppend(s, h.name + [COLON], h.blanks + (h.value + Eol(h.bare)));
    RunAppend(d1, h.blanks, h.value + Eol(h.bare));
  }

  /** A header line between two lines: whatever name and value, if it is accepted both are reported as they stand, and
      the flags and the length are exactly what the value says under that name. Of a value made of header characters
      nothing is refused but a length that is not allowed. */
  lemma HeaderLine(c: Conn, h: Header)
    requires AtLine(c) && HeaderOk(h) && c.nread + |Line(h)| + 1 <= HTTP_MAX_HEADER_SIZE
    ensures var d, flags := Run(c, Line(h)), Settle(c).p.flags;
      && (d.p.errno == Ok ==> LineTaken(c, h, d) && LengthAllowed(flags, h.name, h.value))
      && (HeaderChars(h.value) ==> (d.p.errno == Ok <==> LengthAllowed(flags, h.name, h.value)))
  {
    hide Run;
    hide Step;
    hide Emit;
    hide HeaderFlags;
    hide ValueRead;
    LineParts(c, h);
    var d2 := Over(Run(Settle(c), h.name + [COLON]), |h.blanks|);
    if h.value == [] {
      assert [] + Eol(h.bare) == Eol(h.bare);
      EmptyValue(d2, h.bare);
      EmptyTaken(c, h, d2);
    } else {
      WholeValue(d2, h.value, h.bare);
      ValueSetsFlags(d2.p, h.name, h.value);
      if HeaderChars(h.value) {
        ValueAccepted(d2.p, h.name, h.value);
      }
      if ValueRead(d2.p, h.value).errno == Ok {
        FullTaken(c, h, d2, ValueRead(d2.p, h.value));
      }
    }
  }

  lemma EmptyTaken(c: Conn, h: Header, d2: Conn)
    requires AtLine(c) && h.value == [] && AtValue(d2)
    requires d2 == Over(NameRead(Settle(c), h.name, d2.p), |h.blanks|)
    requires d2.p == Settle(c).p.(state := HeaderValueDiscardWs, headerState := d2.p.headerState, index := d2.p.index)
    ensures LineTaken(c, h, EmptyRead(d2, h.bare))
  {
    hide Emit;
  }

  lemma FullTaken(c: Conn, h: Header, d2: Conn, q: Parser)
    requires AtLine(c) && AtValue(d2) && q.errno == Ok && ValueSets(d2.p, q, h.name, h.value)
    requires d2 == Over(NameRead(Settle(c), h.name, d2.p), |h.blanks|)
    requires d2.p == Settle(c).p.(state := HeaderValueDiscardWs, headerState := d2.p.headerState, index := d2.p.index)
    ensures LineTaken(c, h, FullRead(d2, h.value, q, h.bare))
  {
    hide Emit;
    hide HeaderFlags;
    hide HeaderLength;
  }
}
