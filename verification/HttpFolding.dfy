/** Header values that go on in the next line (obs-fold, section 3.2.4 of RFC 7230). */
module HttpFolding {
  import opened HttpBytes
  import opened HttpParserState
  import opened HttpTrace
  import opened HttpRun
  import opened HttpBatches
  import opened HttpInvariants
  import opened HttpHeaders
  import opened HttpEncoding
  import opened HttpValues
  import opened HttpHead

  /** A parser behind the line end of a value that was not empty. */
  predicate BehindValue(c: Conn) {
    AtLine(c) && c.p.state.HeaderValueLws? && ValueState(c.p.headerState)
  }

  /** The parser that takes the blank for the first byte of a further value. */
  function FoldTaken(p: Parser): Parser {
    p.(state := HeaderValue, index := 0, headerState :=
      if p.headerState.HMatchingConnectionTokenStart? then p.headerState else HGeneral)
  }

  lemma FoldTransition(p: Parser, blank: byte, skip: bool)
    requires p.errno == Ok && p.state.HeaderValueLws? && ValueState(p.headerState) && Blank(blank)
    ensures var out := Transition(p, blank, skip);
      if p.headerState.HContentLength? then out.p.errno == InvalidContentLength else out == Taking(FoldTaken(p), Value)
  {
  }

  lemma FoldByte(c: Conn, blank: byte)
    requires BehindValue(c) && Blank(blank) && c.nread + 1 <= HTTP_MAX_HEADER_SIZE
    ensures var d := Step(c, blank);
      if c.p.headerState.HContentLength? then d.p.errno == InvalidContentLength
      else d == Over(c, 1).(p := FoldTaken(c.p), mark := Marked(Value, [blank]), inLoop := false, skip := false)
  {
    hide Transition;
    FoldTransition(c.p, blank, c.skip);
    assert c.trace + Notes([]) == c.trace;
  }

  /** What the further line sets: a connection list that stopped behind a comma goes on, and everything else the value had
      been recognised as is forgotten. */
  function FoldFlags(p: Parser, rest: seq<byte>): Flags {
    if p.headerState.HMatchingConnectionTokenStart? then OptionFlags(p.flags, LaterItems(rest)) else p.flags
  }

  lemma FoldRun(p: Parser, rest: seq<byte>)
    requires p.errno == Ok && ValueState(p.headerState) && !p.headerState.HContentLength? && NoBreak(rest)
    ensures var q := ValueRun(FoldTaken(p), false, rest).p;
      && (HeaderChars(rest) ==> q.errno == Ok)
      && (q.errno == Ok ==> ValueEndFlags(q.flags, q.headerState) == FoldFlags(p, rest)
                            && q == FoldTaken(p).(flags := q.flags, headerState := q.headerState, index := q.index))
  {
    hide HeaderValueByte;
    if HeaderChars(rest) {
      PlainRun(FoldTaken(p), false, rest);
    }
    if p.headerState.HMatchingConnectionTokenStart? {
      LaterRun(FoldTaken(p), false, rest);
    } else {
      GeneralKept(FoldTaken(p), false, rest);
    }
  }

  /** A value that goes on behind its line end: the blank and the rest are reported as part of it. A length is refused;
      of the other values only an open connection list still sets anything, so that "chunked" with a further line behind it
      does not announce chunks. */
  lemma FoldedLine(c: Conn, blank: byte, rest: seq<byte>, bare: bool)
    requires BehindValue(c) && Blank(blank) && NoBreak(rest) && HeaderChars(rest)
    requires c.nread + |rest| + 3 <= HTTP_MAX_HEADER_SIZE
    ensures var d := Run(c, [blank] + rest + Eol(bare));
      if c.p.headerState.HContentLength? then d.p.errno == InvalidContentLength
      else
        && BehindValue(d) && d.trace == Emit(c.trace, Value, [blank] + rest)
        && Settle(d).p == c.p.(state := HeaderFieldStart, flags := FoldFlags(c.p, rest),
                               headerState := d.p.headerState, index := d.p.index)
  {
    hide Run;
    hide Step;
    hide ValueRun;
    hide Emit;
    hide FoldFlags;
    var tail := rest + Eol(bare);
    assert [blank] + rest + Eol(bare) == [blank] + tail;
    RunAppend(c, [blank], tail);
    RunSingle(c, blank);
    FoldByte(c, blank);
    var d := Step(c, blank);
    if c.p.headerState.HContentLength? {
      RunStopped(d, tail);
    } else {
      FoldRun(c.p, rest);
      FoldTail(c, d, blank, rest, bare);
      KeepsValueState(FoldTaken(c.p), false, rest);
    }
  }

  lemma {:induction false} KeepsValueState(p: Parser, skip: bool, rest: seq<byte>)
    requires p.errno == Ok && p.state.HeaderValue? && ValueState(p.headerState) && !p.headerState.HContentLength?
    requires NoBreak(rest) && HeaderChars(rest)
    ensures ValueState(ValueRun(p, skip, rest).p.headerState)
    decreases |rest|
  {
    hide HeaderValueByte;
    hide ValueState;
    if rest != [] {
      PlainByte(p, rest[0], skip);
      KeepsValueState(HeaderValueByte(p, rest[0], skip).p, p.headerState.HGeneral?, rest[1..]);
    }
  }

  lemma FoldTail(c: Conn, d: Conn, blank: byte, rest: seq<byte>, bare: bool)
    requires BehindValue(c) && NoBreak(rest) && c.nread + |rest| + 3 <= HTTP_MAX_HEADER_SIZE && d.p.state.HeaderValue?
    requires d == Over(c, 1).(p := d.p, mark := Marked(Value, [blank]), inLoop := false, skip := false) && d.p.errno == Ok
    requires ValueRun(d.p, false, rest).p.errno == Ok
    ensures var e := Run(d, rest + Eol(bare));
      && AtLine(e) && e.p == ValueRun(d.p, false, rest).p.(state := HeaderValueLws)
      && e.trace == Emit(c.trace, Value, [blank] + rest)
  {
    hide Run;
    hide Step;
    hide ValueRun;
    var ch := if bare then LF else CR;
    ValueLineEnd(d, rest, ch);
    TakesAll(d, rest + [ch], AfterLine(AfterValue(d, rest), ch));
    ValuePart(d, rest);
    if !bare {
      assert rest + CRLF == rest + [CR] + [LF];
      RunAppend(d, rest + [CR], [LF]);
      var e := AfterLine(AfterValue(d, rest), CR);
      LineFeed(e);
      RunSingle(e, LF);
    }
  }

  /** A value that begins only in the next line is read as if it began on the first. */
  lemma FoldedStart(c: Conn, blank: byte)
    requires AtLine(c) && c.p.state.HeaderValueDiscardLws? && NameState(c.p.headerState) && Blank(blank)
    requires c.nread + 1 <= HTTP_MAX_HEADER_SIZE
    ensures var d := Run(c, [blank]);
      AtValue(d) && d.p == c.p.(state := HeaderValueDiscardWs) && d.trace == c.trace && d.nread == c.nread + 1
  {
    assert c.trace + Notes([]) == c.trace;
    RunSingle(c, blank);
  }
}
