/** The callbacks a parser makes, and what an HttpResponse keeps of them. */
module HttpTrace {
  import opened HttpBytes
  import opened HttpParserState

  datatype Event = Data(kind: Kind, bytes: seq<byte>) | Notify(note: Note)

  function Notes(notes: seq<Note>): seq<Event> {
    seq(|notes|, i requires 0 <= i < |notes| => Notify(notes[i]))
  }

  /** One more data callback. Pieces of the same datum that follow each other are one event, so a trace does
      not show how a datum was cut into callbacks. */
  function Emit(trace: seq<Event>, kind: Kind, bytes: seq<byte>): seq<Event> {
    var n := |trace|;
    if n > 0 && trace[n - 1].Data? && trace[n - 1].kind == kind then
      trace[..n - 1] + [Data(kind, trace[n - 1].bytes + bytes)]
    else trace + [Data(kind, bytes)]
  }

  lemma EmitTwice(trace: seq<Event>, kind: Kind, a: seq<byte>, b: seq<byte>)
    ensures Emit(Emit(trace, kind, a), kind, b) == Emit(trace, kind, a + b)
  {
    var n := |trace|;
    var once := Emit(trace, kind, a);
    assert once[|once| - 1].Data? && once[|once| - 1].kind == kind;
    if n > 0 && trace[n - 1].Data? && trace[n - 1].kind == kind {
      assert trace[n - 1].bytes + a + b == trace[n - 1].bytes + (a + b);
    }
  }

  /** Whether the trace ends in a datum of this kind, so that an empty callback changes nothing. */
  predicate EndsIn(trace: seq<Event>, kind: Kind) {
    |trace| > 0 && trace[|trace| - 1].Data? && trace[|trace| - 1].kind == kind
  }

  lemma EmitEmpty(trace: seq<Event>, kind: Kind)
    requires EndsIn(trace, kind)
    ensures Emit(trace, kind, []) == trace
  {
    var last := trace[|trace| - 1];
    assert last.bytes + [] == last.bytes;
  }

  // ----- the consumer -------------------------------------------------------------------------

  /** The observable state of an HttpResponse, status text apart. */
  datatype Response = Response(statusCode: nat, fields: seq<seq<byte>>, values: seq<seq<byte>>,
                               concatField: bool, concatValue: bool, body: seq<byte>, bodyLength: nat,
                               complete: bool)

  const NO_RESPONSE := Response(0, [], [], false, false, [], 0, false)

  function Append(items: seq<seq<byte>>, concat: bool, s: seq<byte>): seq<seq<byte>> {
    var n := |items|;
    if concat && n > 0 then items[..n - 1] + [items[n - 1] + s] else items + [s]
  }

  function ConsumeData(r: Response, kind: Kind, bytes: seq<byte>): Response {
    match kind
    case Status(code) => r.(statusCode := code)
    case Field => r.(fields := Append(r.fields, r.concatField, bytes), concatField := true, concatValue := false)
    case Value => r.(values := Append(r.values, r.concatValue, bytes), concatValue := true, concatField := false)
    case Body => r.(body := r.body + bytes, bodyLength := r.bodyLength + |bytes|)
  }

  function Consume(r: Response, e: Event): Response {
    match e
    case Data(kind, bytes) => ConsumeData(r, kind, bytes)
    case Notify(note) => if note.MessageComplete? then r.(complete := true) else r
  }

  function ConsumeAll(r: Response, trace: seq<Event>): Response {
    if trace == [] then r else Consume(ConsumeAll(r, trace[..|trace| - 1]), trace[|trace| - 1])
  }

  lemma ConsumeSnoc(r: Response, trace: seq<Event>, e: Event)
    ensures ConsumeAll(r, trace + [e]) == Consume(ConsumeAll(r, trace), e)
  {
    assert (trace + [e])[..|trace|] == trace;
  }

  lemma ConsumeTwice(r: Response, kind: Kind, a: seq<byte>, b: seq<byte>)
    ensures ConsumeData(ConsumeData(r, kind, a), kind, b) == ConsumeData(r, kind, a + b)
  {
    match kind
    case Status(_) =>
    case Field => AppendTwice(r.fields, r.concatField, a, b);
    case Value => AppendTwice(r.values, r.concatValue, a, b);
    case Body => assert r.body + a + b == r.body + (a + b);
  }

  lemma AppendTwice(items: seq<seq<byte>>, concat: bool, a: seq<byte>, b: seq<byte>)
    ensures Append(Append(items, concat, a), true, b) == Append(items, concat, a + b)
  {
    var n := |items|;
    if concat && n > 0 {
      assert items[n - 1] + a + b == items[n - 1] + (a + b);
    }
  }

  /** The consumer cannot tell a merged datum from its pieces: what it holds depends only on the trace. */
  lemma ConsumeEmit(r: Response, trace: seq<Event>, kind: Kind, bytes: seq<byte>)
    ensures ConsumeAll(r, Emit(trace, kind, bytes)) == ConsumeData(ConsumeAll(r, trace), kind, bytes)
  {
    var n := |trace|;
    var next := Emit(trace, kind, bytes);
    if EndsIn(trace, kind) {
      assert next[..|next| - 1] == trace[..n - 1];
      ConsumeTwice(ConsumeAll(r, trace[..n - 1]), kind, trace[n - 1].bytes, bytes);
    } else {
      assert next[..|next| - 1] == trace;
    }
  }

  lemma {:induction false} ConsumeNotes(r: Response, trace: seq<Event>, notes: seq<Note>)
    ensures ConsumeAll(r, trace + Notes(notes))
            == (var t := ConsumeAll(r, trace); if MessageComplete in notes then t.(complete := true) else t)
  {
    hide ConsumeAll;
    var n := |notes|;
    if n == 0 {
      assert trace + Notes(notes) == trace;
    } else {
      var init, last := notes[..n - 1], notes[n - 1];
      ConsumeNotes(r, trace, init);
      assert notes == init + [last];
      assert trace + Notes(notes) == trace + Notes(init) + [Notify(last)];
      ConsumeSnoc(r, trace + Notes(init), Notify(last));
    }
  }
}
