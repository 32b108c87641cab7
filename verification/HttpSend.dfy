/** Writing a request to the socket: a buffer at a time, and a body chunk by chunk. */
module HttpSend {
  import opened HttpBytes
  import opened HttpEncoding

  /** A connection: what the peer has accepted, what its next sends will return (negative for an error, 0 for
      nothing taken, after the last of them everything is taken), and how often a send took nothing. */
  datatype Link = Link(wire: seq<byte>, answers: seq<int>, stalls: nat)

  datatype Sent = Sent(link: Link, result: int)

  // ----- what a send does ---------------------------------------------------------------------

  /** One send of a buffer that is not empty. */
  function Offer(l: Link, buffer: seq<byte>): (s: Sent)
    ensures s.result <= |buffer|
  {
    var r := if l.answers == [] || l.answers[0] > |buffer| then |buffer| else l.answers[0];
    Sent(Link(l.wire + (if r > 0 then buffer[..r] else []),
              if l.answers == [] then [] else l.answers[1..],
              if r == 0 then l.stalls + 1 else l.stalls), r)
  }

  /** send_buffer: sends until all is taken, a send fails, or one takes nothing. */
  function Deliver(l: Link, buffer: seq<byte>): Sent
    decreases |buffer|
  {
    if buffer == [] then Sent(l, 0)
    else
      var s := Offer(l, buffer);
      if s.result <= 0 then s
      else
        var t := Deliver(s.link, buffer[s.result..]);
        if t.result < 0 then t else Sent(t.link, s.result + t.result)
  }

  /** Only an error is passed on. */
  function Error(s: Sent): Sent {
    if s.result < 0 then s else Sent(s.link, 0)
  }

  function DeliverChunk(l: Link, chunk: seq<byte>): Sent {
    var size := Deliver(l, Hex(|chunk|) + CRLF);
    if size.result < 0 then size
    else
      var data := Deliver(size.link, chunk);
      if data.result < 0 then data else Error(Deliver(data.link, CRLF))
  }

  function DeliverChunks(l: Link, chunks: seq<seq<byte>>): Sent
    decreases |chunks|
  {
    if chunks == [] || chunks[0] == [] then Sent(l, 0)
    else
      var s := DeliverChunk(l, chunks[0]);
      if s.result < 0 then s else DeliverChunks(s.link, chunks[1..])
  }

  function DeliverRequest(l: Link, request: seq<byte>, chunks: seq<seq<byte>>): Sent {
    var head := Deliver(l, request);
    if head.result < 0 then head
    else
      var body := DeliverChunks(head.link, chunks);
      if body.result < 0 then body else Error(Deliver(body.link, FIN))
  }

  // ----- what is on the wire ------------------------------------------------------------------

  /** Of `full`, the part taken since `l`. Without a stall it is a prefix, and all of it unless there was an error;
      with one something is missing, error or not. */
  ghost predicate Carried(l: Link, s: Sent, full: seq<byte>) {
    && l.stalls <= s.link.stalls
    && |l.wire| <= |s.link.wire| <= |l.wire| + |full|
    && (s.link.stalls == l.stalls ==> s.link.wire == l.wire + full[..|s.link.wire| - |l.wire|])
    && (|s.link.wire| == |l.wire| + |full| <==> s.result >= 0 && s.link.stalls == l.stalls)
  }

  lemma {:induction false} DeliverCarries(l: Link, buffer: seq<byte>)
    ensures Carried(l, Deliver(l, buffer), buffer) && Deliver(l, buffer).result <= |buffer|
    decreases |buffer|
  {
    if buffer != [] {
      var s := Offer(l, buffer);
      if s.result > 0 {
        var a, b := buffer[..s.result], buffer[s.result..];
        DeliverCarries(s.link, b);
        assert buffer == a + b;
        CarriedThen(l, Sent(s.link, 0), a, Deliver(s.link, b), b);
      }
    }
  }

  lemma CarriedThen(l: Link, s: Sent, a: seq<byte>, t: Sent, b: seq<byte>)
    requires Carried(l, s, a) && s.result >= 0 && Carried(s.link, t, b)
    ensures Carried(l, t, a + b)
  {
    if t.link.stalls == l.stalls {
      var n := |t.link.wire| - |s.link.wire|;
      assert (a + b)[..|a| + n] == a + b[..n];
      assert a[..|a|] == a;
    }
  }

  /** Nothing more is sent after an error. */
  lemma CarriedStop(l: Link, s: Sent, a: seq<byte>, b: seq<byte>)
    requires Carried(l, s, a) && s.result < 0
    ensures Carried(l, s, a + b)
  {
    if s.link.stalls == l.stalls {
      var n := |s.link.wire| - |l.wire|;
      assert (a + b)[..n] == a[..n];
    }
  }

  lemma ChunkCarries(l: Link, chunk: seq<byte>)
    ensures Carried(l, DeliverChunk(l, chunk), EncodeChunk(chunk))
  {
    hide Deliver;
    hide Hex;
    hide Carried;
    var size := Hex(|chunk|) + CRLF;
    var s := Deliver(l, size);
    DeliverCarries(l, size);
    assert EncodeChunk(chunk) == size + chunk + CRLF;
    if s.result < 0 {
      CarriedStop(l, s, size, chunk);
      CarriedStop(l, s, size + chunk, CRLF);
    } else {
      var t := Deliver(s.link, chunk);
      DeliverCarries(s.link, chunk);
      CarriedThen(l, s, size, t, chunk);
      if t.result < 0 {
        CarriedStop(l, t, size + chunk, CRLF);
      } else {
        DeliverCarries(t.link, CRLF);
        CarriedThen(l, t, size + chunk, Deliver(t.link, CRLF), CRLF);
        ErrorCarries(l, Deliver(t.link, CRLF), size + chunk + CRLF);
      }
    }
  }

  lemma ErrorCarries(l: Link, s: Sent, full: seq<byte>)
    requires Carried(l, s, full)
    ensures Carried(l, Error(s), full)
  {
  }

  lemma {:induction false} ChunksCarry(l: Link, chunks: seq<seq<byte>>)
    ensures Carried(l, DeliverChunks(l, chunks), EncodeChunks(SentChunks(chunks)))
    decreases |chunks|
  {
    hide DeliverChunk;
    hide EncodeChunk;
    if chunks != [] && chunks[0] != [] {
      var s, rest := DeliverChunk(l, chunks[0]), EncodeChunks(SentChunks(chunks[1..]));
      SentCons(chunks);
      ChunkCarries(l, chunks[0]);
      if s.result < 0 {
        CarriedStop(l, s, EncodeChunk(chunks[0]), rest);
      } else {
        ChunksCarry(s.link, chunks[1..]);
        CarriedThen(l, s, EncodeChunk(chunks[0]), DeliverChunks(s.link, chunks[1..]), rest);
      }
    }
  }

  lemma SentCons(chunks: seq<seq<byte>>)
    requires chunks != [] && chunks[0] != []
    ensures EncodeChunks(SentChunks(chunks)) == EncodeChunk(chunks[0]) + EncodeChunks(SentChunks(chunks[1..]))
  {
    hide EncodeChunk;
    var sent := SentChunks(chunks);
    assert sent[0] == chunks[0] && sent[1..] == SentChunks(chunks[1..]);
  }

  /** The whole request. When no error is returned, the wire holds the head and the chunked encoding if and only if
      no send stalled; after an error without a stall it holds a proper prefix of them. */
  lemma RequestCarries(l: Link, request: seq<byte>, chunks: seq<seq<byte>>)
    ensures Carried(l, DeliverRequest(l, request, chunks), request + Encode(SentChunks(chunks)))
  {
    hide Deliver;
    hide DeliverChunks;
    hide Carried;
    var body := EncodeChunks(SentChunks(chunks));
    var s := Deliver(l, request);
    DeliverCarries(l, request);
    assert request + Encode(SentChunks(chunks)) == request + body + FIN;
    if s.result < 0 {
      CarriedStop(l, s, request, body);
      CarriedStop(l, s, request + body, FIN);
    } else {
      var t := DeliverChunks(s.link, chunks);
      ChunksCarry(s.link, chunks);
      CarriedThen(l, s, request, t, body);
      if t.result < 0 {
        CarriedStop(l, t, request + body, FIN);
      } else {
        EndOfBody(s.link, chunks);
        DeliverCarries(t.link, FIN);
        CarriedThen(l, t, request + body, Deliver(t.link, FIN), FIN);
        ErrorCarries(l, Deliver(t.link, FIN), request + body + FIN);
      }
    }
  }

  lemma {:induction false} EndOfBody(l: Link, chunks: seq<seq<byte>>)
    ensures DeliverChunks(l, chunks).result <= 0
    decreases |chunks|
  {
    hide DeliverChunk;
    if chunks != [] && chunks[0] != [] {
      EndOfBody(DeliverChunk(l, chunks[0]).link, chunks[1..]);
    }
  }

  /** An error returned is one the socket gave. */
  lemma {:induction false} DeliverError(l: Link, buffer: seq<byte>)
    ensures var s := Deliver(l, buffer);
      && (s.result < 0 ==> s.result in l.answers)
      && forall a :: a in s.link.answers ==> a in l.answers
    decreases |buffer|
  {
    if buffer != [] {
      var s := Offer(l, buffer);
      if s.result > 0 {
        DeliverError(s.link, buffer[s.result..]);
      }
    }
  }

  lemma ChunkErrors(l: Link, chunk: seq<byte>)
    ensures var s := DeliverChunk(l, chunk);
      && (s.result < 0 ==> s.result in l.answers)
      && forall a :: a in s.link.answers ==> a in l.answers
  {
    hide Deliver;
    var size := Deliver(l, Hex(|chunk|) + CRLF);
    var data := Deliver(size.link, chunk);
    DeliverError(l, Hex(|chunk|) + CRLF);
    DeliverError(size.link, chunk);
    DeliverError(data.link, CRLF);
  }

  lemma {:induction false} ChunksErrors(l: Link, chunks: seq<seq<byte>>)
    ensures var s := DeliverChunks(l, chunks);
      && (s.result < 0 ==> s.result in l.answers)
      && forall a :: a in s.link.answers ==> a in l.answers
    decreases |chunks|
  {
    hide DeliverChunk;
    if chunks != [] && chunks[0] != [] {
      ChunkErrors(l, chunks[0]);
      if DeliverChunk(l, chunks[0]).result >= 0 {
        ChunksErrors(DeliverChunk(l, chunks[0]).link, chunks[1..]);
      }
    }
  }

  /** The result is 0 or an error the socket gave. */
  lemma RequestError(l: Link, request: seq<byte>, chunks: seq<seq<byte>>)
    ensures var s := DeliverRequest(l, request, chunks);
      s.result <= 0 && (s.result < 0 ==> s.result in l.answers)
  {
    hide Deliver;
    hide DeliverChunks;
    var head := Deliver(l, request);
    var body := DeliverChunks(head.link, chunks);
    DeliverError(l, request);
    ChunksErrors(head.link, chunks);
    EndOfBody(head.link, chunks);
    DeliverError(body.link, FIN);
  }

  /** One send that takes nothing goes unnoticed: no error is returned, and the request head is missing. */
  lemma StalledSend(request: seq<byte>)
    requires request != []
    ensures var s := DeliverRequest(Link([], [0], 0), request, []);
      s.result == 0 && s.link.wire == FIN != request + Encode(SentChunks([]))
  {
    var answers: seq<int> := [0];
    assert answers[1..] == [];
    var l, quiet := Link([], answers, 0), Link([], [], 1);
    assert Deliver(l, request) == Sent(quiet, 0);
    assert DeliverChunks(quiet, []) == Sent(quiet, 0);
    assert FIN[..|FIN|] == FIN && FIN[|FIN|..] == [] && [] + FIN == FIN;
    assert Deliver(Link(FIN, [], 1), FIN[|FIN|..]) == Sent(Link(FIN, [], 1), 0);
    assert Deliver(quiet, FIN) == Sent(Link(FIN, [], 1), |FIN|);
    assert |request + Encode(SentChunks([]))| > |FIN|;
  }

  // ----- the loops ----------------------------------------------------------------------------

  class Socket {
    var wire: seq<byte>
    var answers: seq<int>
    var stalls: nat

    function State(): Link
      reads this
    {
      Link(wire, answers, stalls)
    }

    constructor (answers: seq<int>)
      ensures State() == Link([], answers, 0)
    {
      wire, stalls := [], 0;
      this.answers := answers;
    }

    method Send(buffer: seq<byte>) returns (r: int)
      modifies this
      ensures Sent(State(), r) == Offer(old(State()), buffer)
    {
      r := if answers == [] || answers[0] > |buffer| then |buffer| else answers[0];
      answers := if answers == [] then [] else answers[1..];
      if r > 0 {
        wire := wire + buffer[..r];
      } else if r == 0 {
        stalls := stalls + 1;
      }
    }
  }

  /** HttpRequestBase::send_buffer. */
  method SendBuffer(socket: Socket, buffer: seq<byte>) returns (total: int)
    modifies socket
    ensures Sent(socket.State(), total) == Deliver(old(socket.State()), buffer)
  {
    total := 0;
    ghost var start := socket.State();
    assert buffer[0..] == buffer;
    while total < |buffer|
      invariant 0 <= total <= |buffer|
      invariant var rest := Deliver(socket.State(), buffer[total..]);
        Deliver(start, buffer) == if rest.result < 0 then rest else Sent(rest.link, total + rest.result)
    {
      var slice := buffer[total..];
      var sent := socket.Send(slice);
      if sent < 0 {
        return sent;
      }
      if sent == 0 {
        return total;
      }
      assert slice[sent..] == buffer[total + sent..];
      total := total + sent;
    }
  }

  /** Size, data and CR LF of one chunk. */
  method SendChunk(socket: Socket, chunk: seq<byte>) returns (error: int)
    modifies socket
    ensures Sent(socket.State(), error) == DeliverChunk(old(socket.State()), chunk)
  {
    hide Deliver;
    var total := SendBuffer(socket, Hex(|chunk|) + CRLF);
    if total < 0 {
      return total;
    }
    total := SendBuffer(socket, chunk);
    if total < 0 {
      return total;
    }
    total := SendBuffer(socket, CRLF);
    error := if total < 0 then total else 0;
  }

  /** The loop over the callback's chunks, up to its first empty one. */
  method SendBody(socket: Socket, chunks: seq<seq<byte>>) returns (error: int)
    modifies socket
    ensures Sent(socket.State(), error) == DeliverChunks(old(socket.State()), chunks)
  {
    hide DeliverChunk;
    error := 0;
    var i := 0;
    ghost var start := socket.State();
    assert chunks[0..] == chunks;
    while i < |chunks| && |chunks[i]| != 0
      invariant i <= |chunks| && error == 0
      invariant DeliverChunks(start, chunks) == DeliverChunks(socket.State(), chunks[i..])
    {
      assert chunks[i..][1..] == chunks[i + 1..];
      ChunkError(socket.State(), chunks[i]);
      error := SendChunk(socket, chunks[i]);
      if error < 0 {
        return;
      }
      i := i + 1;
    }
  }

  lemma ChunkError(l: Link, chunk: seq<byte>)
    ensures DeliverChunk(l, chunk).result <= 0
  {
    hide Deliver;
  }

  /** HttpRequestBase::send with a body callback: `request` is the built request head, `chunks` what the callback
      returns. */
  method SendChunked(socket: Socket, request: seq<byte>, chunks: seq<seq<byte>>) returns (error: int)
    requires forall chunk :: chunk in chunks ==> |chunk| < 0x1000_0000
    modifies socket
    ensures Sent(socket.State(), error) == DeliverRequest(old(socket.State()), request, chunks)
    ensures Carried(old(socket.State()), Sent(socket.State(), error), request + Encode(SentChunks(chunks)))
    ensures error <= 0 && (error < 0 ==> error in old(socket.answers))
  {
    hide Deliver;
    hide DeliverChunks;
    RequestCarries(socket.State(), request, chunks);
    RequestError(socket.State(), request, chunks);
    hide Carried;
    var total := SendBuffer(socket, request);
    if total < 0 {
      return total;
    }
    EndOfBody(socket.State(), chunks);
    error := SendBody(socket, chunks);
    if error < 0 {
      return;
    }
    total := SendBuffer(socket, FIN);
    error := if total < 0 then total else 0;
  }
}
