/** The receive loop of an HTTP request: read pieces from the socket, parse them, stop when the response is complete. */
module HttpReceive {
  import opened HttpBytes
  import opened HttpParserState
  import opened HttpTrace
  import opened HttpRun
  import opened HttpInvariants
  import opened HttpSplit
  import opened HttpResponses
  import opened HttpExecute
  import opened HttpConservation
  import opened HttpView
  import opened HttpMessages
  import opened HttpFraming
  import opened HttpDelivery

  const HTTP_RECEIVE_BUFFER_SIZE: nat := 8 * 1024
  const PARSE_ERROR: int := -2101

  /** What the consumer holds after one call on the bytes of a whole response. */
  function Parsed(start: Conn, bytes: seq<byte>): Response {
    ConsumeAll(NO_RESPONSE, Call(start, bytes).trace)
  }

  /** The same once the end of the stream has been signalled. */
  function ParsedToEof(start: Conn, bytes: seq<byte>): Response {
    ConsumeAll(NO_RESPONSE, Eof(Call(start, bytes)).trace)
  }

  /** The bytes of one response: parsed without error and in a way no cut can change, and not complete before the
      last byte. */
  ghost predicate OneResponse(start: Conn, bytes: seq<byte>) {
    && Resting(start) && start.p.errno == Ok && !start.exited
    && Call(start, bytes).p.errno == Ok && Robust(Begin(start), start.nread, bytes)
    && forall k | 0 < k < |bytes| :: !Parsed(start, bytes[..k]).complete
  }

  /** The bytes of a stream the parser refuses at a byte no cut can move, and in which no response is complete before. */
  ghost predicate Refused(start: Conn, bytes: seq<byte>) {
    && Resting(start) && start.p.errno == Ok && !start.exited
    && Call(start, bytes).p.errno != Ok && Robust(Begin(start), start.nread, bytes)
    && forall k | 0 < k < |bytes| && Call(start, bytes[..k]).p.errno == Ok :: !Parsed(start, bytes[..k]).complete
  }

  /** No call exceeds the header limit. */
  ghost predicate NoOverflow(start: Conn, pieces: seq<seq<byte>>) {
    forall i | 0 <= i <= |pieces| :: Calls(start, pieces[..i]).p.errno != HeaderOverflow
  }

  datatype Received = Received(c: Conn, result: int)

  /** The receive loop on the reference: where the parser stands after it, and its result, which is PARSE_ERROR at the
      first piece not consumed whole, the size of the piece that completes a message, or what the socket said last. */
  ghost function Receive(c: Conn, pieces: seq<seq<byte>>, last: int): (r: Received)
    ensures c.p.errno == Ok && r.result >= 0 ==> r.c.p.errno == Ok
    decreases |pieces|
  {
    if pieces == [] then Received(c, last)
    else
      var d := Call(c, pieces[0]);
      if d.p.errno != Ok || d.pos != c.pos + |pieces[0]| then Received(d, PARSE_ERROR)
      else if ConsumeAll(NO_RESPONSE, d.trace).complete then Received(d, |pieces[0]|)
      else Receive(d, pieces[1..], last)
  }

  /** Wherever the loop stops without an error, the response shows everything the parser reported, in order. */
  lemma {:induction false} ReceiveShown(c: Conn, pieces: seq<seq<byte>>, last: int)
    requires Resting(c) && c.p.errno == Ok && Accounted(c) && Shown(c)
    ensures var d := Receive(c, pieces, last).c;
      d.p.errno == Ok ==> Shows(ConsumeAll(NO_RESPONSE, Eof(d).trace), Eof(d).trace)
    decreases |pieces|
  {
    hide Call;
    hide ConsumeAll;
    hide Accounted;
    hide Shown;
    hide Shows;
    hide Eof;
    if pieces == [] {
      EofShows(c);
    } else {
      var d := Call(c, pieces[0]);
      CallShown(c, pieces[0]);
      CallRests(c, pieces[0]);
      if d.p.errno == Ok {
        EofShows(d);
        ReceiveShown(d, pieces[1..], last);
      }
    }
  }

  /** The parser stands where the calls on these pieces leave it. */
  ghost predicate Reached(start: Conn, pieces: seq<seq<byte>>, c: Conn) {
    Settled(c, Calls(start, pieces)) && c.p.errno == Ok
  }

  /** The pieces the socket returns, and the value it returns after them: 0 at the end of the stream or an error. */
  method CreateHttpResponse(pieces: seq<seq<byte>>, last: int) returns (ok: bool, response: HttpResponse, error: int)
    requires NonEmpty(pieces) && (forall piece :: piece in pieces ==> |piece| <= HTTP_RECEIVE_BUFFER_SIZE) && last <= 0
    ensures fresh(response)
    ensures NoOverflow(START, pieces) ==>
      var r := Receive(START, pieces, last);
      if r.result < 0 then !ok && error == r.result
      else
        && ok && response.View() == ConsumeAll(NO_RESPONSE, Eof(r.c).trace)
        && Shows(response.View(), Eof(r.c).trace)
    ensures OneResponse(START, Concat(pieces)) ==>
      if last < 0 && !Parsed(START, Concat(pieces)).complete then !ok && error == last
      else ok && response.View() == ParsedToEof(START, Concat(pieces))
    ensures Refused(START, Concat(pieces)) ==> !ok && error == PARSE_ERROR
    ensures forall h, body :: Written(h, body, Concat(pieces)) && (FramingIn(h).ToEof? ==> last == 0) ==>
      ok && Holds(response.View(), h, body, true)
  {
    hide Written;
    hide Holds;
    hide FramingIn;
    hide Concat;
    WrittenResponses(Concat(pieces));
    hide OneResponse;
    hide Refused;
    hide NoOverflow;
    hide Receive;
    hide Calls;
    hide Call;
    hide ConsumeAll;
    hide Resting;
    hide Accounted;
    hide Shown;
    hide Shows;
    hide Eof;
    response := new HttpResponse();
    var parser := new HttpParser(response);
    ok, error := true, 0;
    var received := ReceiveLoop(parser, pieces, last, START);
    if OneResponse(START, Concat(pieces)) {
      ReachedToEof(START, pieces, parser.Conn());
    }
    if received < 0 {
      return false, response, received;
    }
    if NoOverflow(START, pieces) {
      EofSame(parser.Conn(), Receive(START, pieces, last).c);
      StartRests();
      StartAccounted();
      StartShown();
      ReceiveShown(START, pieces, last);
    }
    var r := parser.Finish();
  }

  lemma WrittenResponses(text: seq<byte>)
    ensures forall h, body :: Written(h, body, text) ==>
      && OneResponse(START, text) && Holds(ParsedToEof(START, text), h, body, true)
      && Parsed(START, text).complete == !FramingIn(h).ToEof?
  {
    forall h, body | Written(h, body, text)
      ensures OneResponse(START, text) && Holds(ParsedToEof(START, text), h, body, true)
      ensures Parsed(START, text).complete == !FramingIn(h).ToEof?
    {
      WrittenIsOne(h, body, text);
    }
  }

  /** A response as it is written is one response, and the consumer ends up holding it. */
  lemma WrittenIsOne(h: Head, body: seq<byte>, text: seq<byte>)
    requires Written(h, body, text)
    ensures OneResponse(START, text) && Holds(ParsedToEof(START, text), h, body, true)
    ensures Parsed(START, text).complete == !FramingIn(h).ToEof?
  {
    hide Run;
    hide Robust;
    hide Written;
    hide Call;
    hide ConsumeAll;
    WrittenIsRead(h, body, text);
    StartRests();
    StartIncomplete();
  }

  method ReceiveLoop(parser: HttpParser, pieces: seq<seq<byte>>, last: int, ghost start: Conn) returns (received: int)
    requires NonEmpty(pieces) && (forall piece :: piece in pieces ==> |piece| <= HTTP_RECEIVE_BUFFER_SIZE) && last <= 0
    requires parser.Valid() && parser.Conn() == start && !parser.response.View().complete
    modifies parser, parser.response
    ensures parser.Valid()
    ensures start.p.errno == Ok && NoOverflow(start, pieces) ==>
      var r := Receive(start, pieces, last);
      received == r.result && (r.c.p.errno == Ok ==> Settled(parser.Conn(), r.c))
    ensures OneResponse(start, Concat(pieces)) ==>
      && Reached(start, pieces, parser.Conn())
      && (received < 0 <==> last < 0 && !parser.response.View().complete)
      && (received < 0 ==> received == last)
    ensures Refused(start, Concat(pieces)) ==> received == PARSE_ERROR
  {
    hide OneResponse;
    hide Refused;
    hide NoOverflow;
    hide Robust;
    hide Run;
    hide Call;
    OneOrRefused(start, pieces, last);
    received := last;
    var i := 0;
    ghost var exact, ref := start.p.errno == Ok && NoOverflow(start, pieces), start;
    assert pieces[0..] == pieces && pieces[..0] == [];
    while i < |pieces|
      invariant i <= |pieces| && parser.Valid() && received == last
      invariant exact ==> ref.p.errno == Ok && ref == Calls(start, pieces[..i]) && Settled(parser.Conn(), ref)
      invariant exact ==> Receive(start, pieces, last) == Receive(ref, pieces[i..], last)
    {
      ghost var before := parser.Conn();
      assert pieces[i] in pieces;
      var parsed := parser.Execute(pieces[i]);
      if exact {
        PieceExact(start, pieces, i, before, ref, parser.Conn(), last);
        ref := Call(ref, pieces[i]);
      }
      if parsed != |pieces[i]| {
        return PARSE_ERROR;
      }
      i := i + 1;
      if parser.response.isMessageCompleted {
        return parsed;
      }
    }
  }

  lemma {:induction false} RunPosExact(c: Conn, data: seq<byte>)
    requires !Stopped(Run(c, data))
    ensures Run(c, data).pos == c.pos + |data|
    decreases |data|
  {
    if data != [] {
      RunPosExact(Step(c, data[0]), data[1..]);
    }
  }

  /** Any number of the pieces: no error, and the trace of one call on their bytes. */
  lemma PrefixOk(start: Conn, pieces: seq<seq<byte>>, i: nat)
    requires i <= |pieces| && OneResponse(start, Concat(pieces))
    ensures var d := Calls(start, pieces[..i]);
      d.p.errno == Ok && !d.exited && Same(Call(start, Concat(pieces[..i])), d)
  {
    var a, b := pieces[..i], pieces[i..];
    assert pieces == a + b;
    ConcatAppend(a, b);
    RobustPrefix(Begin(start), start.nread, Concat(a), Concat(b));
    CutIndependence(start, a);
    CutIndependence(start, pieces);
    CallsAppend(start, a, b);
    if Calls(start, a).p.errno != Ok {
      CallsStuck(Calls(start, a), b);
    }
  }

  lemma CallsNext(start: Conn, pieces: seq<seq<byte>>, i: nat)
    requires i < |pieces|
    ensures Calls(start, pieces[..i + 1]) == Call(Calls(start, pieces[..i]), pieces[i])
  {
    var one := [pieces[i]];
    assert pieces[..i + 1] == pieces[..i] + one;
    CallsAppend(start, pieces[..i], one);
    CallsOne(Calls(start, pieces[..i]), pieces[i]);
  }

  lemma CallsOne(c: Conn, piece: seq<byte>)
    ensures Calls(c, [piece]) == Call(c, piece)
  {
    var one := [piece];
    assert one[1..] == [];
    assert Calls(Call(c, piece), []) == Call(c, piece);
  }

  /** Any number of the pieces of such a stream: at the header limit never, and if not refused yet then incomplete and
      not all of them. */
  lemma PrefixRefused(start: Conn, pieces: seq<seq<byte>>, i: nat)
    requires NonEmpty(pieces) && i <= |pieces| && Refused(start, Concat(pieces))
    ensures var d := Calls(start, pieces[..i]);
      && d.p.errno != HeaderOverflow
      && (d.p.errno == Ok ==> i < |pieces| && (i > 0 ==> !ConsumeAll(NO_RESPONSE, d.trace).complete))
  {
    var a, b := pieces[..i], pieces[i..];
    assert pieces == a + b;
    ConcatAppend(a, b);
    RobustPrefix(Begin(start), start.nread, Concat(a), Concat(b));
    RobustNoOverflow(Begin(start), start.nread, Concat(a));
    CutIndependence(start, a);
    if i == |pieces| {
      assert a == pieces;
    } else if 0 < i {
      ProperPrefix(pieces, i);
    }
  }

  /** An error other than at the header limit is at a byte of the piece. */
  lemma {:induction false} ErrorInside(c: Conn, data: seq<byte>)
    requires !Stopped(c) && Run(c, data).p.errno != Ok && Run(c, data).p.errno != HeaderOverflow
    ensures Run(c, data).pos < c.pos + |data|
    decreases |data|
  {
    if data != [] && Step(c, data[0]).p.errno == Ok && !Step(c, data[0]).exited {
      ErrorInside(Step(c, data[0]), data[1..]);
    }
  }

  lemma CallErrorInside(c: Conn, piece: seq<byte>)
    requires c.p.errno == Ok && Call(c, piece).p.errno != Ok && Call(c, piece).p.errno != HeaderOverflow
    ensures Call(c, piece).pos < c.pos + |piece|
  {
    ErrorInside(Begin(c), piece);
  }

  /** One more piece of any stream that stays below the header limit. */
  lemma PieceExact(start: Conn, pieces: seq<seq<byte>>, i: nat, before: Conn, ref: Conn, after: Conn, last: int)
    requires i < |pieces| && NoOverflow(start, pieces) && ref == Calls(start, pieces[..i]) && ref.p.errno == Ok
    requires Settled(before, ref) && Agrees(after, Call(before, pieces[i]))
    ensures var d, rest := Call(ref, pieces[i]), pieces[i..];
      && d == Calls(start, pieces[..i + 1])
      && (after.pos == before.pos + |pieces[i]| <==> d.p.errno == Ok && d.pos == ref.pos + |pieces[i]|)
      && (d.p.errno == Ok ==> Settled(after, d))
      && Receive(ref, rest, last) ==
         if after.pos != before.pos + |pieces[i]| then Received(d, PARSE_ERROR)
         else if ConsumeAll(NO_RESPONSE, after.trace).complete then Received(d, |pieces[i]|)
         else Receive(d, pieces[i + 1..], last)
  {
    hide Run;
    CallsNext(start, pieces, i);
    CallSettled(before, ref, pieces[i]);
    assert pieces[i..][0] == pieces[i] && pieces[i..][1..] == pieces[i + 1..];
    if Call(ref, pieces[i]).p.errno != Ok {
      CallErrorInside(ref, pieces[i]);
    }
  }

  lemma CallPos(c: Conn, piece: seq<byte>)
    requires c.p.errno == Ok && Call(c, piece).p.errno == Ok && !Call(c, piece).exited
    ensures Call(c, piece).pos == c.pos + |piece|
  {
    RunPosExact(Begin(c), piece);
  }

  /** The bytes of one response, from piece `i` on: the loop reads to their end. */
  lemma {:induction false} OneReceived(start: Conn, pieces: seq<seq<byte>>, i: nat, last: int)
    requires NonEmpty(pieces) && i <= |pieces| && OneResponse(start, Concat(pieces))
    requires !ConsumeAll(NO_RESPONSE, Calls(start, pieces[..i]).trace).complete
    ensures var r := Receive(Calls(start, pieces[..i]), pieces[i..], last);
      && r.c == Calls(start, pieces)
      && (if ConsumeAll(NO_RESPONSE, r.c.trace).complete then r.result > 0 else r.result == last)
    decreases |pieces| - i
  {
    hide Run;
    hide Robust;
    hide Call;
    hide ConsumeAll;
    PrefixOk(start, pieces, i);
    if i == |pieces| {
      assert pieces[..i] == pieces && pieces[i..] == [];
    } else {
      var c := Calls(start, pieces[..i]);
      assert pieces[i..][0] == pieces[i] && pieces[i..][1..] == pieces[i + 1..] && pieces[i] in pieces;
      PrefixOk(start, pieces, i + 1);
      CallsNext(start, pieces, i);
      CallPos(c, pieces[i]);
      var d := Call(c, pieces[i]);
      if ConsumeAll(NO_RESPONSE, d.trace).complete {
        OnlyAtEnd(start, pieces, i + 1);
        assert pieces[..i + 1] == pieces;
      } else {
        OneReceived(start, pieces, i + 1, last);
      }
    }
  }

  lemma OnlyAtEnd(start: Conn, pieces: seq<seq<byte>>, i: nat)
    requires NonEmpty(pieces) && 0 < i <= |pieces| && OneResponse(start, Concat(pieces))
    requires ConsumeAll(NO_RESPONSE, Calls(start, pieces[..i]).trace).complete
    ensures i == |pieces|
  {
    if i < |pieces| {
      PrefixOk(start, pieces, i);
      ProperPrefix(pieces, i);
    }
  }

  /** A refused stream, from piece `i` on: the loop ends at the piece that is refused. */
  lemma {:induction false} RefusedReceived(start: Conn, pieces: seq<seq<byte>>, i: nat, last: int)
    requires NonEmpty(pieces) && i <= |pieces| && Refused(start, Concat(pieces))
    requires Calls(start, pieces[..i]).p.errno == Ok
    ensures Receive(Calls(start, pieces[..i]), pieces[i..], last).result == PARSE_ERROR
    decreases |pieces| - i
  {
    hide Run;
    hide Robust;
    hide Refused;
    PrefixRefused(start, pieces, i);
    assert pieces[i..][0] == pieces[i] && pieces[i..][1..] == pieces[i + 1..];
    PrefixRefused(start, pieces, i + 1);
    CallsNext(start, pieces, i);
    if Calls(start, pieces[..i + 1]).p.errno == Ok {
      RefusedReceived(start, pieces, i + 1, last);
    }
  }

  lemma {:induction false} RunCounts(c: Conn, data: seq<byte>)
    requires c.p.errno != HeaderOverflow && c.nread + |data| <= HTTP_MAX_HEADER_SIZE
    ensures Run(c, data).p.errno != HeaderOverflow && Run(c, data).nread <= c.nread + |data|
    decreases |data|
  {
    if data != [] && !Stopped(c) {
      NoOverflowByte(c.p, data[0], c.skip);
      RunCounts(Step(c, data[0]), data[1..]);
    }
  }

  lemma CallCounts(c: Conn, piece: seq<byte>)
    requires c.p.errno != HeaderOverflow && piece != [] && c.nread + 2 * |piece| <= HTTP_MAX_HEADER_SIZE
    ensures Call(c, piece).p.errno != HeaderOverflow && Call(c, piece).nread <= c.nread + 2 * |piece|
  {
    RunCounts(Begin(c), piece);
  }

  lemma {:induction false} CallsCount(c: Conn, pieces: seq<seq<byte>>)
    requires NonEmpty(pieces) && c.p.errno != HeaderOverflow
    requires c.nread + 2 * |Concat(pieces)| <= HTTP_MAX_HEADER_SIZE
    ensures Calls(c, pieces).p.errno != HeaderOverflow
    decreases |pieces|
  {
    if pieces != [] {
      assert pieces[0] in pieces && forall p :: p in pieces[1..] ==> p in pieces;
      CallCounts(c, pieces[0]);
      CallsCount(Call(c, pieces[0]), pieces[1..]);
    }
  }

  /** A stream of at most half the header limit cannot exceed it, however it is cut. */
  lemma ShortNoOverflow(start: Conn, pieces: seq<seq<byte>>)
    requires NonEmpty(pieces) && start.p.errno != HeaderOverflow
    requires start.nread + 2 * |Concat(pieces)| <= HTTP_MAX_HEADER_SIZE
    ensures NoOverflow(start, pieces)
  {
    forall i | 0 <= i <= |pieces| ensures Calls(start, pieces[..i]).p.errno != HeaderOverflow {
      assert pieces == pieces[..i] + pieces[i..];
      ConcatAppend(pieces[..i], pieces[i..]);
      assert forall p :: p in pieces[..i] ==> p in pieces;
      CallsCount(start, pieces[..i]);
    }
  }

  /** What the exact description of the loop says of those two kinds of streams. */
  lemma OneOrRefused(start: Conn, pieces: seq<seq<byte>>, last: int)
    requires NonEmpty(pieces) && !ConsumeAll(NO_RESPONSE, start.trace).complete
    ensures OneResponse(start, Concat(pieces)) ==>
      var r := Receive(start, pieces, last);
      && start.p.errno == Ok && NoOverflow(start, pieces) && r.c == Calls(start, pieces) && r.c.p.errno == Ok
      && (if ConsumeAll(NO_RESPONSE, r.c.trace).complete then r.result > 0 else r.result == last)
    ensures Refused(start, Concat(pieces)) ==>
      start.p.errno == Ok && NoOverflow(start, pieces) && Receive(start, pieces, last).result == PARSE_ERROR
  {
    hide Run;
    hide Robust;
    hide Call;
    hide ConsumeAll;
    assert pieces[..0] == [] && pieces[0..] == pieces && pieces[..|pieces|] == pieces;
    if OneResponse(start, Concat(pieces)) {
      OneReceived(start, pieces, 0, last);
      forall i | 0 <= i <= |pieces| ensures Calls(start, pieces[..i]).p.errno == Ok {
        PrefixOk(start, pieces, i);
      }
    }
    if Refused(start, Concat(pieces)) {
      RefusedReceived(start, pieces, 0, last);
      forall i | 0 <= i <= |pieces| ensures Calls(start, pieces[..i]).p.errno != HeaderOverflow {
        PrefixRefused(start, pieces, i);
      }
    }
  }

  lemma ProperPrefix(pieces: seq<seq<byte>>, i: nat)
    requires NonEmpty(pieces) && 0 < i < |pieces|
    ensures var k := |Concat(pieces[..i])|; 0 < k < |Concat(pieces)| && Concat(pieces)[..k] == Concat(pieces[..i])
  {
    var a, b := pieces[..i], pieces[i..];
    assert pieces == a + b && pieces[0] in pieces && pieces[i] in pieces;
    ConcatAppend(a, b);
    assert Concat(a) == a[0] + Concat(a[1..]) && Concat(b) == b[0] + Concat(b[1..]);
  }

  lemma ReachedToEof(start: Conn, pieces: seq<seq<byte>>, c: Conn)
    requires OneResponse(start, Concat(pieces)) && Reached(start, pieces, c)
    ensures Eof(c).trace == Eof(Call(start, Concat(pieces))).trace
    ensures c.trace == Call(start, Concat(pieces)).trace
  {
    assert pieces[..|pieces|] == pieces;
    PrefixOk(start, pieces, |pieces|);
    EofSame(c, Call(start, Concat(pieces)));
  }

  lemma EofSame(a: Conn, b: Conn)
    requires a.p == b.p && a.trace == b.trace
    ensures Eof(a).trace == Eof(b).trace
  {
  }
}
