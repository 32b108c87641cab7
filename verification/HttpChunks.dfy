/** That the parser's chunked decoder undoes the chunked encoding, byte by byte. */
module HttpChunks {
  import opened HttpBytes
  import opened HttpParserState
  import opened HttpTrace
  import opened HttpRun
  import opened HttpBatches
  import opened HttpInvariants
  import opened HttpSplit
  import opened HttpHeaders
  import opened HttpEncoding

  // ----- sizes --------------------------------------------------------------------------------

  lemma {:induction false} HexadecimalSnoc(n: nat, bytes: seq<byte>, b: byte)
    requires Unhex(b) != -1
    ensures Hexadecimal(n, bytes + [b]) == 16 * Hexadecimal(n, bytes) + Unhex(b)
    decreases |bytes|
  {
    if bytes == [] {
      assert Hexadecimal(16 * n + Unhex(b), []) == 16 * n + Unhex(b);
    } else {
      assert (bytes + [b])[1..] == bytes[1..] + [b];
      HexadecimalSnoc(if Unhex(bytes[0]) != -1 then 16 * n + Unhex(bytes[0]) else n, bytes[1..], b);
    }
  }

  /** The decoder's reading of a size is the size. */
  lemma {:induction false} HexRoundTrip(n: nat)
    ensures Hex(n) != [] && HexDigits(Hex(n)) && Hexadecimal(0, Hex(n)) == n
  {
    if n >= 16 {
      HexRoundTrip(n / 16);
      HexadecimalSnoc(0, Hex(n / 16), HexDigit(n % 16));
    }
  }

  lemma HexLength(n: nat)
    requires n < 0x1000_0000
    ensures |Hex(n)| <= 7
  {
    HexShort(n, 7);
  }

  function Power16(k: nat): nat {
    if k == 0 then 1 else 16 * Power16(k - 1)
  }

  lemma {:induction false} HexShort(n: nat, k: nat)
    requires 0 < k && n < Power16(k)
    ensures |Hex(n)| <= k
    decreases k
  {
    if n >= 16 {
      HexShort(n / 16, k - 1);
    }
  }

  // ----- decoding -----------------------------------------------------------------------------

  /** From `c` the bytes lead to `d`, robustly: cutting them differently cannot matter unless it matters later. */
  ghost predicate Passes(c: Conn, w: nat, bytes: seq<byte>, d: Conn, w': nat) {
    && Run(c, bytes) == d
    && forall rest {:trigger Robust(d, w', rest)} :: Robust(d, w', rest) ==> Robust(c, w, bytes + rest)
  }

  lemma PassesThen(a: Conn, u: nat, x: seq<byte>, b: Conn, v: nat, y: seq<byte>, c: Conn, w: nat)
    requires Passes(a, u, x, b, v) && Passes(b, v, y, c, w)
    ensures Passes(a, u, x + y, c, w)
  {
    hide Step;
    hide Robust;
    hide Run;
    RunAppend(a, x, y);
    forall rest | Robust(c, w, rest)
      ensures Robust(a, u, x + y + rest)
    {
      assert Robust(b, v, y + rest);
      assert x + y + rest == x + (y + rest);
    }
  }

  lemma RobustCons(c: Conn, w: nat, ch: byte, rest: seq<byte>)
    requires !Stopped(c) && RobustByte(c, w, ch) && Robust(Step(c, ch), Worst(c, w, ch), rest)
    ensures Robust(c, w, [ch] + rest)
  {
    assert ([ch] + rest)[0] == ch && ([ch] + rest)[1..] == rest;
  }

  lemma PassesByte(c: Conn, w: nat, ch: byte)
    requires !Stopped(c) && RobustByte(c, w, ch)
    ensures Passes(c, w, [ch], Step(c, ch), Worst(c, w, ch))
  {
    RunSingle(c, ch);
    forall rest | Robust(Step(c, ch), Worst(c, w, ch), rest)
      ensures Robust(c, w, [ch] + rest)
    {
      RobustCons(c, w, ch, rest);
    }
  }

  /** A decoder at rest before a chunk size. */
  predicate AtSize(c: Conn) {
    && !Stopped(c) && c.p.state.ChunkSizeStart? && c.p.flags.chunked && c.nread == 0 && c.mark.NoMark?
    && !c.inLoop && !c.skip && !c.p.upgrade
  }

  function Moved(c: Conn, p: Parser, nread: nat, n: nat): Conn {
    c.(p := p, nread := nread, pos := c.pos + n)
  }

  lemma FirstDigit(c: Conn, ch: byte)
    requires AtSize(c) && Unhex(ch) != -1
    ensures Passes(c, 0, [ch], Moved(c, c.p.(contentLength := Unhex(ch), state := ChunkSize), 1, 1), 1)
  {
    assert c.trace + Notes([]) == c.trace;
    PassesByte(c, 0, ch);
  }

  function SizeRead(c: Conn, bytes: seq<byte>): Conn {
    Moved(c, c.p.(contentLength := Hexadecimal(c.p.contentLength, bytes)), c.nread + |bytes|, |bytes|)
  }

  lemma DigitPasses(c: Conn, ch: byte)
    requires !Stopped(c) && c.p.state.ChunkSize? && Unhex(ch) != -1 && c.nread + 1 <= HTTP_MAX_HEADER_SIZE
    requires 16 * c.p.contentLength + Unhex(ch) <= MAX_CHUNK_SIZE && !c.inLoop && !c.skip
    ensures var d := Moved(c, c.p.(contentLength := 16 * c.p.contentLength + Unhex(ch)), c.nread + 1, 1);
      Step(c, ch) == d && Passes(c, c.nread, [ch], d, c.nread + 1)
  {
    ChunkSizeStep(c, ch);
    PassesByte(c, c.nread, ch);
  }

  lemma SizeReadCons(c: Conn, ch: byte, rest: seq<byte>)
    requires Unhex(ch) != -1
    ensures SizeRead(Moved(c, c.p.(contentLength := 16 * c.p.contentLength + Unhex(ch)), c.nread + 1, 1), rest)
            == SizeRead(c, [ch] + rest)
  {
    assert ([ch] + rest)[1..] == rest;
  }

  lemma {:induction false} MoreDigits(c: Conn, bytes: seq<byte>)
    requires !Stopped(c) && c.p.state.ChunkSize? && HexDigits(bytes) && !c.inLoop && !c.skip
    requires c.nread + |bytes| <= HTTP_MAX_HEADER_SIZE && Hexadecimal(c.p.contentLength, bytes) <= MAX_CHUNK_SIZE
    ensures Passes(c, c.nread, bytes, SizeRead(c, bytes), c.nread + |bytes|)
    decreases |bytes|
  {
    hide Passes;
    hide Run;
    hide Robust;
    hide Step;
    if bytes == [] {
      PassesNothing(c, c.nread);
    } else {
      var ch, rest := bytes[0], bytes[1..];
      assert bytes == [ch] + rest;
      HexadecimalGrows(16 * c.p.contentLength + Unhex(ch), rest);
      DigitPasses(c, ch);
      var d := Moved(c, c.p.(contentLength := 16 * c.p.contentLength + Unhex(ch)), c.nread + 1, 1);
      MoreDigits(d, rest);
      SizeReadCons(c, ch, rest);
      PassesThen(c, c.nread, [ch], d, c.nread + 1, rest, SizeRead(d, rest), c.nread + |bytes|);
    }
  }

  lemma PassesNothing(c: Conn, w: nat)
    ensures Passes(c, w, [], c, w)
  {
    forall rest | Robust(c, w, rest)
      ensures Robust(c, w, [] + rest)
    {
      assert [] + rest == rest;
    }
  }

  lemma SizeCr(c: Conn)
    requires !Stopped(c) && c.p.state.ChunkSize? && !c.inLoop && !c.skip && c.nread <= 10
    ensures Step(c, CR) == Moved(c, c.p.(state := ChunkSizeAlmostDone), c.nread + 1, 1)
    ensures RobustByte(c, c.nread, CR) && Worst(c, c.nread, CR) == c.nread + 1
  {
    assert c.trace + Notes([]) == c.trace;
  }

  /** A decoder that has read a size line. */
  function SizeTaken(c: Conn): Conn {
    var n := c.p.contentLength;
    var p := if n == 0 then c.p.(flags := c.p.flags.(trailing := true), state := HeaderFieldStart)
             else c.p.(state := ChunkData);
    Moved(c, p, 0, 1).(trace := c.trace + [Notify(ChunkHeader(n))])
  }

  lemma SizeLf(c: Conn)
    requires !Stopped(c) && c.p.state.ChunkSizeAlmostDone? && c.mark.NoMark? && !c.inLoop && !c.skip && c.nread <= 11
    ensures Step(c, LF) == SizeTaken(c)
    ensures RobustByte(c, c.nread, LF) && Worst(c, c.nread, LF) == 0
  {
    assert Notes([ChunkHeader(c.p.contentLength)]) == [Notify(ChunkHeader(c.p.contentLength))];
  }

  /** CR LF after a size. */
  lemma SizeLine(c: Conn)
    requires !Stopped(c) && c.p.state.ChunkSize? && c.mark.NoMark? && !c.inLoop && !c.skip && c.nread <= 10
    ensures var n := c.p.contentLength;
      var p := if n == 0 then c.p.(flags := c.p.flags.(trailing := true), state := HeaderFieldStart)
               else c.p.(state := ChunkData);
      Passes(c, c.nread, CRLF, Moved(c, p, 0, 2).(trace := c.trace + [Notify(ChunkHeader(n))]), 0)
  {
    hide Passes;
    hide Robust;
    hide Run;
    hide Step;
    hide RobustByte;
    hide Worst;
    SizeCr(c);
    PassesByte(c, c.nread, CR);
    var d := Moved(c, c.p.(state := ChunkSizeAlmostDone), c.nread + 1, 1);
    SizeLf(d);
    PassesByte(d, d.nread, LF);
    PassesThen(c, c.nread, [CR], d, d.nread, [LF], SizeTaken(d), 0);
    assert CRLF == [CR] + [LF];
  }

  lemma {:induction false} RobustBody(c: Conn, bytes: seq<byte>, rest: seq<byte>, d: Conn)
    requires !Stopped(c) && c.p.state.ChunkData? && |bytes| == c.p.contentLength > 0
    requires d == Run(c, bytes) && Robust(d, 0, rest)
    ensures Robust(c, 0, bytes + rest)
    decreases |bytes|
  {
    var ch, tail := bytes[0], bytes[1..];
    assert (bytes + rest)[0] == ch && (bytes + rest)[1..] == tail + rest;
    if tail == [] {
      BodyLastStep(c, ch);
      RunSingle(c, ch);
      assert bytes == [ch] && tail + rest == rest;
    } else {
      BodyStep(c, ch);
      RunCons(c, bytes);
      RobustBody(Step(c, ch), tail, rest, d);
    }
  }

  lemma RunCons(c: Conn, data: seq<byte>)
    requires !Stopped(c) && data != []
    ensures Run(c, data) == Run(Step(c, data[0]), data[1..])
  {
  }

  lemma ChunkBody(c: Conn, chunk: seq<byte>)
    requires !Stopped(c) && c.p.state.ChunkData? && |chunk| == c.p.contentLength > 0 && c.mark.NoMark?
    requires !c.inLoop && !c.skip
    ensures Passes(c, 0, chunk, Moved(c, c.p.(contentLength := 0, state := ChunkDataAlmostDone), c.nread, |chunk|)
                                  .(mark := Marked(Body, chunk)), 0)
  {
    BodyRunAll(c, chunk);
    forall rest | Robust(Run(c, chunk), 0, rest)
      ensures Robust(c, 0, chunk + rest)
    {
      RobustBody(c, chunk, rest, Run(c, chunk));
    }
  }

  lemma DataCr(c: Conn, chunk: seq<byte>)
    requires !Stopped(c) && c.p.state.ChunkDataAlmostDone? && c.mark == Marked(Body, chunk) && !c.inLoop && !c.skip
    ensures Step(c, CR) == Moved(c, c.p.(state := ChunkDataDone), c.nread, 1)
                             .(trace := Emit(c.trace, Body, chunk), mark := NoMark)
    ensures RobustByte(c, 0, CR) && Worst(c, 0, CR) == 0
  {
    assert Emit(c.trace, Body, chunk) + Notes([]) == Emit(c.trace, Body, chunk);
  }

  lemma DataLf(c: Conn)
    requires !Stopped(c) && c.p.state.ChunkDataDone? && c.mark.NoMark? && !c.inLoop && !c.skip
    ensures Step(c, LF) == Moved(c, c.p.(state := ChunkSizeStart), 0, 1).(trace := c.trace + [Notify(ChunkComplete)])
    ensures RobustByte(c, 0, LF) && Worst(c, 0, LF) == 0
  {
    assert Notes([ChunkComplete]) == [Notify(ChunkComplete)];
  }

  /** CR LF after the data. */
  lemma DataLine(c: Conn, chunk: seq<byte>)
    requires !Stopped(c) && c.p.state.ChunkDataAlmostDone? && c.mark == Marked(Body, chunk) && !c.inLoop && !c.skip
    ensures Passes(c, 0, CRLF, Moved(c, c.p.(state := ChunkSizeStart), 0, 2)
                                 .(trace := Emit(c.trace, Body, chunk) + [Notify(ChunkComplete)], mark := NoMark), 0)
  {
    hide Passes;
    hide Robust;
    hide Run;
    hide Step;
    hide RobustByte;
    hide Worst;
    hide Emit;
    DataCr(c, chunk);
    PassesByte(c, 0, CR);
    var d := Step(c, CR);
    DataLf(d);
    PassesByte(d, 0, LF);
    PassesThen(c, 0, [CR], d, 0, [LF], Step(d, LF), 0);
    assert CRLF == [CR] + [LF];
  }

  function ChunkEvents(chunk: seq<byte>): seq<Event> {
    [Notify(ChunkHeader(|chunk|)), Data(Body, chunk), Notify(ChunkComplete)]
  }

  function ChunksEvents(chunks: seq<seq<byte>>): seq<Event> {
    if chunks == [] then [] else ChunkEvents(chunks[0]) + ChunksEvents(chunks[1..])
  }

  const FIN_EVENTS: seq<Event> := [Notify(ChunkHeader(0)), Notify(ChunkComplete), Notify(MessageComplete)]

  function AfterChunks(c: Conn, events: seq<Event>, n: nat): Conn {
    Moved(c, c.p.(contentLength := 0), 0, n).(trace := c.trace + events)
  }

  lemma SizePasses(c: Conn, n: nat)
    requires AtSize(c) && n < 0x1000_0000
    ensures Passes(c, 0, Hex(n), Moved(c, c.p.(contentLength := n, state := ChunkSize), |Hex(n)|, |Hex(n)|), |Hex(n)|)
    ensures |Hex(n)| <= 7
  {
    hide Passes;
    hide Run;
    hide Robust;
    hide Step;
    HexRoundTrip(n);
    HexLength(n);
    var first, rest := Hex(n)[0], Hex(n)[1..];
    assert Hex(n) == [first] + rest;
    FirstDigit(c, first);
    var d := Moved(c, c.p.(contentLength := Unhex(first), state := ChunkSize), 1, 1);
    assert Hexadecimal(0, Hex(n)) == Hexadecimal(Unhex(first), rest);
    MoreDigits(d, rest);
    PassesThen(c, 0, [first], d, 1, rest,
               Moved(d, d.p.(contentLength := n), 1 + |rest|, |rest|), 1 + |rest|);
  }

  /** A decoder that has read a chunk header. */
  function InChunk(c: Conn, n: nat): Conn {
    Moved(c, c.p.(contentLength := n, state := ChunkData), 0, |Hex(n)| + 2).(trace := c.trace + [Notify(ChunkHeader(n))])
  }

  lemma ChunkHead(c: Conn, n: nat)
    requires AtSize(c) && 0 < n < 0x1000_0000
    ensures Passes(c, 0, Hex(n) + CRLF, InChunk(c, n), 0)
  {
    SizePasses(c, n);
    var d := Moved(c, c.p.(contentLength := n, state := ChunkSize), |Hex(n)|, |Hex(n)|);
    SizeLine(d);
    PassesThen(c, 0, Hex(n), d, |Hex(n)|, CRLF, InChunk(c, n), 0);
  }

  lemma ChunkTail(c: Conn, chunk: seq<byte>)
    requires !Stopped(c) && c.p.state.ChunkData? && |chunk| == c.p.contentLength > 0 && c.mark.NoMark?
    requires !c.inLoop && !c.skip
    ensures Passes(c, 0, chunk + CRLF, Moved(c, c.p.(contentLength := 0, state := ChunkSizeStart), 0, |chunk| + 2)
                                         .(trace := Emit(c.trace, Body, chunk) + [Notify(ChunkComplete)]), 0)
  {
    ChunkBody(c, chunk);
    var d := Moved(c, c.p.(contentLength := 0, state := ChunkDataAlmostDone), c.nread, |chunk|).(mark := Marked(Body, chunk));
    DataLine(d, chunk);
    PassesThen(c, 0, chunk, d, 0, CRLF, Moved(d, d.p.(state := ChunkSizeStart), 0, 2)
                                          .(trace := Emit(c.trace, Body, chunk) + [Notify(ChunkComplete)], mark := NoMark), 0);
  }

  lemma ChunkTrace(trace: seq<Event>, chunk: seq<byte>)
    ensures Emit(trace + [Notify(ChunkHeader(|chunk|))], Body, chunk) + [Notify(ChunkComplete)] == trace + ChunkEvents(chunk)
  {
  }

  /** One chunk. */
  lemma ChunkPasses(c: Conn, chunk: seq<byte>)
    requires AtSize(c) && 0 < |chunk| < 0x1000_0000
    ensures var d := AfterChunks(c, ChunkEvents(chunk), |EncodeChunk(chunk)|);
      AtSize(d) && Passes(c, 0, EncodeChunk(chunk), d, 0)
  {
    hide Passes;
    hide Run;
    hide Robust;
    var b, d := InChunk(c, |chunk|), AfterChunks(c, ChunkEvents(chunk), |EncodeChunk(chunk)|);
    ChunkHead(c, |chunk|);
    ChunkTail(b, chunk);
    ChunkTrace(c.trace, chunk);
    PassesThen(c, 0, Hex(|chunk|) + CRLF, b, 0, chunk + CRLF, d, 0);
    assert Hex(|chunk|) + CRLF + (chunk + CRLF) == EncodeChunk(chunk);
  }

  lemma {:induction false} ChunksPass(c: Conn, chunks: seq<seq<byte>>)
    requires AtSize(c) && Sizes(chunks) && chunks != []
    ensures var d := AfterChunks(c, ChunksEvents(chunks), |EncodeChunks(chunks)|);
      AtSize(d) && Passes(c, 0, EncodeChunks(chunks), d, 0)
    decreases |chunks|
  {
    var chunk, rest := chunks[0], chunks[1..];
    ChunkPasses(c, chunk);
    var d := AfterChunks(c, ChunkEvents(chunk), |EncodeChunk(chunk)|);
    if rest == [] {
      assert EncodeChunks(rest) == [] && ChunksEvents(rest) == [];
      assert EncodeChunks(chunks) == EncodeChunk(chunk);
      assert ChunksEvents(chunks) == ChunkEvents(chunk);
    } else {
      ChunksPass(d, rest);
      PassesThen(c, 0, EncodeChunk(chunk), d, 0, EncodeChunks(rest),
                 AfterChunks(d, ChunksEvents(rest), |EncodeChunks(rest)|), 0);
      AfterTwice(c, ChunkEvents(chunk), |EncodeChunk(chunk)|, ChunksEvents(rest), |EncodeChunks(rest)|);
    }
  }

  lemma AfterTwice(c: Conn, x: seq<Event>, m: nat, y: seq<Event>, n: nat)
    ensures AfterChunks(AfterChunks(c, x, m), y, n) == AfterChunks(c, x + y, m + n)
  {
    assert c.trace + x + y == c.trace + (x + y);
  }

  function InTrailer(c: Conn): Conn {
    Moved(c, c.p.(contentLength := 0, flags := c.p.flags.(trailing := true), state := HeaderFieldStart), 0, 3)
      .(trace := c.trace + [Notify(ChunkHeader(0))])
  }

  lemma LastChunk(c: Conn)
    requires AtSize(c)
    ensures Passes(c, 0, [48] + CRLF, InTrailer(c), 0)
  {
    SizePasses(c, 0);
    assert Hex(0) == [48];
    var d := Moved(c, c.p.(contentLength := 0, state := ChunkSize), 1, 1);
    SizeLine(d);
    PassesThen(c, 0, [48], d, 1, CRLF, InTrailer(c), 0);
  }

  /** Nothing that happens in a chunked body changes whether the connection goes on. */
  lemma NewMessageChunked(p: Parser, q: Parser)
    requires p.flags.chunked && q == p.(contentLength := q.contentLength, state := q.state,
                                         flags := p.flags.(trailing := q.flags.trailing))
    ensures NewMessage(q) == NewMessage(p)
  {
  }

  /** The last chunk, of size 0, and the empty trailer. */
  lemma FinPasses(c: Conn)
    requires AtSize(c)
    ensures var d := Run(c, FIN);
      && !Stopped(d) && d.p.state == NewMessage(c.p) && !d.inLoop && d.mark.NoMark?
      && d.trace == c.trace + FIN_EVENTS
    ensures Robust(c, 0, FIN)
  {
    hide Run;
    hide Robust;
    hide Step;
    hide NewMessage;
    LastChunk(c);
    NewMessageChunked(c.p, InTrailer(c).p);
    TrailerPasses(InTrailer(c));
    assert FIN == [48] + CRLF + CRLF;
    RunAppend(c, [48] + CRLF, CRLF);
    assert c.trace + [Notify(ChunkHeader(0))] + [Notify(ChunkComplete), Notify(MessageComplete)] == c.trace + FIN_EVENTS;
  }

  lemma TrailerEnd(c: Conn)
    requires !Stopped(c) && c.p.state.HeadersAlmostDone? && c.p.flags.trailing && c.mark.NoMark? && c.nread == 1
    requires !c.inLoop && !c.skip && !c.p.upgrade
    ensures var d := Step(c, LF);
      && !Stopped(d) && d.p == c.p.(state := NewMessage(c.p)) && !d.inLoop && d.mark.NoMark?
      && d.trace == c.trace + [Notify(ChunkComplete), Notify(MessageComplete)]
    ensures RobustByte(c, 1, LF)
  {
    assert Notes([ChunkComplete, MessageComplete]) == [Notify(ChunkComplete), Notify(MessageComplete)];
  }

  lemma TrailerPasses(c: Conn)
    requires !Stopped(c) && c.p.state.HeaderFieldStart? && c.p.flags.trailing && c.mark.NoMark? && c.nread == 0
    requires !c.inLoop && !c.skip && !c.p.upgrade
    ensures var d := Run(c, CRLF);
      && !Stopped(d) && d.p == c.p.(state := NewMessage(c.p)) && !d.inLoop && d.mark.NoMark?
      && d.trace == c.trace + [Notify(ChunkComplete), Notify(MessageComplete)]
      && Robust(c, 0, CRLF)
  {
    hide Run;
    assert c.trace + Notes([]) == c.trace;
    var d := Moved(c, c.p.(state := HeadersAlmostDone), 1, 1);
    assert Step(c, CR) == d;
    TrailerEnd(d);
    RunPair(c, CR, LF);
    RobustPair(c, 0, CR, LF);
  }

  lemma RunPair(c: Conn, first: byte, second: byte)
    requires !Stopped(c) && !Stopped(Step(c, first))
    ensures Run(c, [first, second]) == Step(Step(c, first), second)
  {
    RunSingle(Step(c, first), second);
    assert [first, second][1..] == [second];
  }

  lemma RobustPair(c: Conn, w: nat, first: byte, second: byte)
    requires !Stopped(c) && RobustByte(c, w, first) && RobustByte(Step(c, first), Worst(c, w, first), second)
    ensures Robust(c, w, [first, second])
  {
    hide Step;
    hide RobustByte;
    hide Worst;
    var d, v := Step(c, first), Worst(c, w, first);
    assert Robust(Step(d, second), Worst(d, v, second), []);
    assert [first, second][1..] == [second] && [second][1..] == [];
  }
}
