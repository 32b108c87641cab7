/** The chunked round trip, through the parser and into the response. */
module HttpRoundTrip {
  import opened HttpBytes
  import opened HttpParserState
  import opened HttpTrace
  import opened HttpRun
  import opened HttpInvariants
  import opened HttpSplit
  import opened HttpEncoding
  import opened HttpChunks
  import opened HttpSend

  // ----- the consumer's side ------------------------------------------------------------------

  function Flatten(chunks: seq<seq<byte>>): seq<byte> {
    if chunks == [] then [] else chunks[0] + Flatten(chunks[1..])
  }

  lemma ConsumeChunk(r: Response, trace: seq<Event>, chunk: seq<byte>)
    ensures ConsumeAll(r, trace + ChunkEvents(chunk)) == ConsumeData(ConsumeAll(r, trace), Body, chunk)
  {
    var e1, e2, e3 := Notify(ChunkHeader(|chunk|)), Data(Body, chunk), Notify(ChunkComplete);
    ConsumeSnoc(r, trace, e1);
    ConsumeSnoc(r, trace + [e1], e2);
    ConsumeSnoc(r, trace + [e1] + [e2], e3);
    assert trace + ChunkEvents(chunk) == trace + [e1] + [e2] + [e3];
  }

  lemma FirstChunk(trace: seq<Event>, chunks: seq<seq<byte>>)
    requires chunks != []
    ensures trace + ChunksEvents(chunks) == trace + ChunkEvents(chunks[0]) + ChunksEvents(chunks[1..])
    ensures Flatten(chunks) == chunks[0] + Flatten(chunks[1..])
  {
  }

  lemma {:induction false} ConsumeChunks(r: Response, trace: seq<Event>, chunks: seq<seq<byte>>)
    ensures ConsumeAll(r, trace + ChunksEvents(chunks)) == ConsumeData(ConsumeAll(r, trace), Body, Flatten(chunks))
    decreases |chunks|
  {
    if chunks == [] {
      assert trace + ChunksEvents(chunks) == trace;
      var s := ConsumeAll(r, trace);
      assert s.body + Flatten(chunks) == s.body;
    } else {
      ConsumeChunk(r, trace, chunks[0]);
      ConsumeChunks(r, trace + ChunkEvents(chunks[0]), chunks[1..]);
      FirstChunk(trace, chunks);
      ConsumeTwice(ConsumeAll(r, trace), Body, chunks[0], Flatten(chunks[1..]));
    }
  }

  function Events(chunks: seq<seq<byte>>): seq<Event> {
    ChunksEvents(chunks) + FIN_EVENTS
  }

  lemma ConsumeEvents(r: Response, trace: seq<Event>, chunks: seq<seq<byte>>)
    ensures ConsumeAll(r, trace + Events(chunks))
            == ConsumeData(ConsumeAll(r, trace), Body, Flatten(chunks)).(complete := true)
  {
    hide ConsumeAll;
    hide ConsumeData;
    var t := trace + ChunksEvents(chunks);
    ConsumeChunks(r, trace, chunks);
    var e1, e2, e3 := Notify(ChunkHeader(0)), Notify(ChunkComplete), Notify(MessageComplete);
    ConsumeSnoc(r, t, e1);
    ConsumeSnoc(r, t + [e1], e2);
    ConsumeSnoc(r, t + [e1] + [e2], e3);
    assert trace + Events(chunks) == t + [e1] + [e2] + [e3];
  }

  // ----- the parser's side --------------------------------------------------------------------

  /** The whole message has been read, and the next state is `next`. */
  predicate AtEnd(d: Conn, next: State) {
    !Stopped(d) && d.p.state == next && !d.inLoop && d.mark.NoMark?
  }

  lemma FinAfter(c: Conn, bytes: seq<byte>, d: Conn)
    requires Passes(c, 0, bytes, d, 0) && AtSize(d)
    ensures Run(c, bytes + FIN) == Run(d, FIN) && AtEnd(Run(d, FIN), NewMessage(d.p)) && Run(d, FIN).trace == d.trace + FIN_EVENTS
    ensures Robust(c, 0, bytes + FIN)
  {
    FinPasses(d);
    RunAppend(c, bytes, FIN);
  }

  lemma EventsAfter(trace: seq<Event>, chunks: seq<seq<byte>>)
    ensures trace + ChunksEvents(chunks) + FIN_EVENTS == trace + Events(chunks)
  {
  }

  lemma EncodedPasses(c: Conn, chunks: seq<seq<byte>>)
    requires AtSize(c) && Sizes(chunks)
    ensures AtEnd(Run(c, Encode(chunks)), NewMessage(c.p)) && Run(c, Encode(chunks)).trace == c.trace + Events(chunks)
    ensures Robust(c, 0, Encode(chunks))
  {
    hide NewMessage;
    EventsAfter(c.trace, chunks);
    if chunks == [] {
      NoChunkPasses(c);
    } else {
      ChunksPass(c, chunks);
      var d := AfterChunks(c, ChunksEvents(chunks), |EncodeChunks(chunks)|);
      NewMessageChunked(c.p, d.p);
      FinAfter(c, EncodeChunks(chunks), d);
    }
  }

  lemma NoChunkPasses(c: Conn)
    requires AtSize(c)
    ensures AtEnd(Run(c, Encode([])), NewMessage(c.p)) && Run(c, Encode([])).trace == c.trace + Events([])
    ensures Robust(c, 0, Encode([]))
  {
    FinPasses(c);
    assert Encode([]) == FIN && Events([]) == FIN_EVENTS;
  }

  /** A resting parser that waits for the first chunk of a body and has not agreed to an upgrade. */
  ghost predicate WaitsForChunks(c: Conn) {
    Resting(c) && c.p.errno == Ok && c.p.state.ChunkSizeStart? && !c.p.upgrade
  }

  lemma CallAtEnd(c: Conn, data: seq<byte>, next: State)
    requires c.p.errno == Ok && AtEnd(Run(Begin(c), data), next)
    ensures var d := Call(c, data);
      d.p.errno == Ok && d.p.state == next && d.trace == Run(Begin(c), data).trace
  {
  }

  /** The chunked encoding of any list of non-empty chunks, cut in any way, makes the parser report each chunk's
      size and data in order, then size 0, and complete the message once; the connection goes on as its headers say. */
  lemma RoundTrip(c: Conn, chunks: seq<seq<byte>>, pieces: seq<seq<byte>>)
    requires WaitsForChunks(c) && Sizes(chunks) && Concat(pieces) == Encode(chunks)
    ensures var d := Calls(c, pieces);
      && d.p.errno == Ok && d.p.state == NewMessage(c.p) && d.trace == c.trace + Events(chunks)
  {
    EncodedPasses(Begin(c), chunks);
    CallAtEnd(c, Encode(chunks), NewMessage(c.p));
    CutIndependence(c, pieces);
  }

  /** `after` is `before` with these bytes at the end of its body, complete, and otherwise the same. */
  predicate BodyGrown(before: Response, bytes: seq<byte>, after: Response) {
    && after.body == before.body + bytes && after.bodyLength == before.bodyLength + |bytes| && after.complete
    && after.fields == before.fields && after.values == before.values && after.statusCode == before.statusCode
  }

  /** For the consumer: the body grows by exactly the concatenated chunks, and the response is complete. */
  lemma RoundTripBody(c: Conn, chunks: seq<seq<byte>>, pieces: seq<seq<byte>>)
    requires WaitsForChunks(c) && Sizes(chunks) && Concat(pieces) == Encode(chunks)
    ensures ConsumeAll(NO_RESPONSE, Calls(c, pieces).trace)
            == ConsumeData(ConsumeAll(NO_RESPONSE, c.trace), Body, Flatten(chunks)).(complete := true)
    ensures BodyGrown(ConsumeAll(NO_RESPONSE, c.trace), Flatten(chunks), ConsumeAll(NO_RESPONSE, Calls(c, pieces).trace))
  {
    hide Run;
    hide Step;
    hide Calls;
    hide WaitsForChunks;
    hide Encode;
    RoundTrip(c, chunks, pieces);
    ConsumeEvents(NO_RESPONSE, c.trace, chunks);
  }

  /** From the callback to the receiver's consumer: when a request is sent without an error and without a stalled send,
      what follows its head on the wire, read in any pieces, adds exactly the callback's chunks to the body and completes
      the message. */
  lemma SentIsReceived(l: Link, request: seq<byte>, chunks: seq<seq<byte>>, c: Conn, pieces: seq<seq<byte>>)
    requires forall chunk :: chunk in chunks ==> |chunk| < 0x1000_0000
    requires DeliverRequest(l, request, chunks).result >= 0
    requires DeliverRequest(l, request, chunks).link.stalls == l.stalls
    requires WaitsForChunks(c) && l.wire + request + Concat(pieces) == DeliverRequest(l, request, chunks).link.wire
    ensures ConsumeAll(NO_RESPONSE, Calls(c, pieces).trace)
            == ConsumeData(ConsumeAll(NO_RESPONSE, c.trace), Body, Flatten(SentChunks(chunks))).(complete := true)
    ensures BodyGrown(ConsumeAll(NO_RESPONSE, c.trace), Flatten(SentChunks(chunks)),
                      ConsumeAll(NO_RESPONSE, Calls(c, pieces).trace))
  {
    hide Encode;
    hide Deliver;
    hide Calls;
    hide ConsumeAll;
    hide WaitsForChunks;
    hide DeliverRequest;
    var head, body := l.wire + request, Encode(SentChunks(chunks));
    RequestCarries(l, request, chunks);
    SentSizes(chunks);
    SameEnd(l, DeliverRequest(l, request, chunks), request, body);
    assert head + Concat(pieces) == head + body;
    assert Concat(pieces) == (head + Concat(pieces))[|head|..] && body == (head + body)[|head|..];
    RoundTripBody(c, SentChunks(chunks), pieces);
  }

  lemma SameEnd(l: Link, s: Sent, request: seq<byte>, body: seq<byte>)
    requires Carried(l, s, request + body) && s.result >= 0 && s.link.stalls == l.stalls
    ensures s.link.wire == l.wire + request + body
  {
    var full := request + body;
    assert full[..|full|] == full && l.wire + full == l.wire + request + body;
  }
}
