/** What a chunked body may hold besides its data: extensions behind a chunk size, and headers behind the last chunk. */
module HttpTrailers {
  import opened HttpBytes
  import opened HttpParserState
  import opened HttpTrace
  import opened HttpRun
  import opened HttpBatches
  import opened HttpHeaders
  import opened HttpEncoding
  import opened HttpChunks
  import opened HttpValues
  import opened HttpHead
  import opened HttpFraming

  // ----- chunk extensions ---------------------------------------------------------------------

  /** Anything up to the CR, from a ';' or a space on. */
  predicate Extension(ext: seq<byte>) {
    CR !in ext && (ext != [] ==> ext[0] == SEMICOLON || ext[0] == SP)
  }

  lemma ExtensionByte(c: Conn, b: byte)
    requires !Stopped(c) && !c.inLoop && !c.skip && c.nread + 1 <= HTTP_MAX_HEADER_SIZE && b != CR
    requires c.p.state.ChunkParameters? || (c.p.state.ChunkSize? && (b == SEMICOLON || b == SP))
    ensures Step(c, b) == Over(c, 1).(p := c.p.(state := ChunkParameters))
  {
    assert c.trace + Notes([]) == c.trace;
  }

  lemma {:induction false} ExtensionRun(c: Conn, ext: seq<byte>)
    requires !Stopped(c) && !c.inLoop && !c.skip && c.nread + |ext| <= HTTP_MAX_HEADER_SIZE && CR !in ext
    requires c.p.state.ChunkParameters?
    ensures Run(c, ext) == Over(c, |ext|)
    decreases |ext|
  {
    hide Step;
    if ext != [] {
      ExtensionByte(c, ext[0]);
      ExtensionRun(Over(c, 1), ext[1..]);
    }
  }

  lemma SizeEnd(c: Conn)
    requires !Stopped(c) && !c.inLoop && !c.skip && c.mark.NoMark? && c.nread + 2 <= HTTP_MAX_HEADER_SIZE
    requires c.p.state.ChunkParameters? || c.p.state.ChunkSize?
    ensures var d := Over(c, 1).(p := c.p.(state := ChunkSizeAlmostDone));
      Step(c, CR) == d && Step(d, LF) == SizeTaken(d)
  {
    var n := c.p.contentLength;
    assert c.trace + Notes([]) == c.trace && Notes([ChunkHeader(n)]) == [Notify(ChunkHeader(n))];
  }

  /** The decoder behind a size line of `k` bytes: in the data of the chunk, or behind the last one. */
  function SizeLineTaken(c: Conn, n: nat, k: nat): Conn {
    var p := if n == 0 then c.p.(contentLength := n, flags := c.p.flags.(trailing := true), state := HeaderFieldStart)
             else c.p.(contentLength := n, state := ChunkData);
    Moved(c, p, 0, k).(trace := c.trace + [Notify(ChunkHeader(n))])
  }

  /** A size line, with leading zeros and an extension if it likes: its number is the size, and the rest is ignored. */
  lemma SizeLineExact(c: Conn, digits: seq<byte>, ext: seq<byte>)
    requires AtSize(c) && digits != [] && HexDigits(digits) && Extension(ext)
    requires |digits| + |ext| + 2 <= HTTP_MAX_HEADER_SIZE
    ensures var d, n := Run(c, digits + ext + CRLF), Hexadecimal(0, digits);
      if n <= MAX_CHUNK_SIZE then d == SizeLineTaken(c, n, |digits| + |ext| + 2) else d.p.errno == InvalidContentLength
  {
    hide Step;
    hide Run;
    var first, rest, n := digits[0], digits[1..], Hexadecimal(0, digits);
    assert digits + ext + CRLF == [first] + (rest + (ext + CRLF));
    RunAppend(c, [first], rest + (ext + CRLF));
    ChunkSizeFirst(c, first);
    RunSingle(c, first);
    var d := Step(c, first);
    RunAppend(d, rest, ext + CRLF);
    ChunkSizeExact(d, rest);
    assert Hexadecimal(0, digits) == Hexadecimal(Unhex(first), rest);
    var e := Run(d, rest);
    if n <= MAX_CHUNK_SIZE {
      SizeRest(d, rest, e);
      SizeTail(e, ext);
    } else {
      SizeTooLong(d, rest);
      RunStopped(e, ext + CRLF);
    }
  }

  lemma SizeRest(d: Conn, rest: seq<byte>, e: Conn)
    requires e == Run(d, rest) && !Stopped(d) && d.p.state.ChunkSize? && !d.inLoop && !d.skip && HexDigits(rest)
    requires d.nread + |rest| <= HTTP_MAX_HEADER_SIZE && d.p.contentLength <= MAX_CHUNK_SIZE
    requires Hexadecimal(d.p.contentLength, rest) <= MAX_CHUNK_SIZE
    ensures e == Over(d, |rest|).(p := d.p.(contentLength := Hexadecimal(d.p.contentLength, rest)))
  {
    hide Step;
    ChunkSizeExact(d, rest);
  }

  lemma {:induction false} SizeTooLong(c: Conn, bytes: seq<byte>)
    requires !Stopped(c) && c.p.state.ChunkSize? && HexDigits(bytes) && c.nread + |bytes| <= HTTP_MAX_HEADER_SIZE
    requires c.p.contentLength <= MAX_CHUNK_SIZE && Hexadecimal(c.p.contentLength, bytes) > MAX_CHUNK_SIZE
    ensures Run(c, bytes).p.errno == InvalidContentLength
    decreases |bytes|
  {
    hide Step;
    var ch := bytes[0];
    ChunkSizeStep(c, ch);
    if 16 * c.p.contentLength + Unhex(ch) <= MAX_CHUNK_SIZE {
      SizeTooLong(Step(c, ch), bytes[1..]);
    } else {
      RunStopped(Step(c, ch), bytes[1..]);
    }
  }

  /** Behind the extension, if there is one. */
  function AfterExtension(e: Conn, ext: seq<byte>): Conn {
    Over(e, |ext|).(p := if ext == [] then e.p else e.p.(state := ChunkParameters))
  }

  lemma ExtensionTaken(e: Conn, ext: seq<byte>)
    requires !Stopped(e) && e.p.state.ChunkSize? && !e.inLoop && !e.skip && e.mark.NoMark? && Extension(ext)
    requires e.nread + |ext| <= HTTP_MAX_HEADER_SIZE
    ensures Run(e, ext) == AfterExtension(e, ext)
  {
    hide Step;
    if ext != [] {
      ExtensionByte(e, ext[0]);
      ExtensionRun(Over(e, 1).(p := e.p.(state := ChunkParameters)), ext[1..]);
    }
  }

  lemma SizeTail(e: Conn, ext: seq<byte>)
    requires !Stopped(e) && e.p.state.ChunkSize? && !e.inLoop && !e.skip && e.mark.NoMark? && Extension(ext)
    requires e.nread + |ext| + 2 <= HTTP_MAX_HEADER_SIZE
    ensures Run(e, ext + CRLF) == SizeLineTaken(e, e.p.contentLength, |ext| + 2)
  {
    hide Step;
    hide Run;
    var f := AfterExtension(e, ext);
    ExtensionTaken(e, ext);
    RunAppend(e, ext, CRLF);
    SizeEnd(f);
    TwoSteps(f, CR, LF);
  }

  // ----- trailers -----------------------------------------------------------------------------

  /** A decoder behind the last chunk. */
  predicate AtTrailer(c: Conn) {
    AtLine(c) && c.p.state.HeaderFieldStart? && c.p.flags.trailing && !c.p.flags.contentLength && !EndsIn(c.trace, Field)
  }

  predicate TrailersTaken(c: Conn, headers: seq<Header>, d: Conn) {
    var t := Settle(d);
    && AtLine(d) && d.nread == c.nread + |Lines(headers)|
    && t.trace == c.trace + HeaderEvents(headers)
    && t.p.flags.trailing && t.p.flags.contentLength == HasLength(headers) && t.p.upgrade == c.p.upgrade
  }

  lemma TrailerFlags(flags: Flags, h: Header)
    ensures HeaderFlags(flags, h.name, h.value).trailing == flags.trailing
    ensures HeaderFlags(flags, h.name, h.value).contentLength == (flags.contentLength || GivesLength(h))
  {
    hide Padded;
    hide Items;
    WordsDiffer();
    hide Folded;
  }

  lemma {:induction false} TrailersRun(c: Conn, headers: seq<Header>)
    requires AtTrailer(c) && HeadersOk(headers) && c.nread + |Lines(headers)| + 1 <= HTTP_MAX_HEADER_SIZE
    ensures var d := Run(c, Lines(headers));
      && (d.p.errno == Ok <==> LengthsAllowed(headers))
      && (d.p.errno == Ok ==> TrailersTaken(c, headers, d))
    decreases |headers|
  {
    hide Run;
    hide Line;
    hide LengthsAllowed;
    hide HeaderOk;
    hide LengthAllowed;
    if headers == [] {
      NoneAllowed();
      NothingRead(c);
      assert c.trace + HeaderEvents([]) == c.trace;
    } else {
      var n := |headers| - 1;
      var init, h := headers[..n], headers[n];
      assert headers == init + [h];
      LinesOne(init, h);
      TrailersRun(c, init);
      AllowedOne(init, h);
      RunAppend(c, Lines(init), Line(h));
      var d := Run(c, Lines(init));
      if d.p.errno == Ok {
        HeaderLine(d, h);
        SameAllowed(Settle(d).p.flags, AskedFlags(init), h);
        if Run(d, Line(h)).p.errno == Ok {
          TrailerStep(c, init, h, d, Run(d, Line(h)));
        }
      } else {
        RunStopped(d, Line(h));
      }
    }
  }

  lemma SameAllowed(a: Flags, b: Flags, h: Header)
    requires a.contentLength == b.contentLength
    ensures LengthAllowed(a, h.name, h.value) <==> LengthAllowed(b, h.name, h.value)
  {
  }

  lemma TrailerStep(c: Conn, headers: seq<Header>, h: Header, d: Conn, e: Conn)
    requires AtTrailer(c) && TrailersTaken(c, headers, d) && LineTaken(d, h, e)
    ensures TrailersTaken(c, headers + [h], e)
  {
    hide Settle;
    hide HeaderFlags;
    hide HeaderLength;
    hide Emit;
    hide HasLength;
    hide GivesLength;
    TrailerFlags(Settle(d).p.flags, h);
    AskedOne(headers, h);
    EventsEnd(c.trace, headers, h);
    LinesOne(headers, h);
  }

  lemma TrailerLf(s: Conn)
    requires !Stopped(s) && s.mark.NoMark? && s.p.flags.trailing && s.nread + 1 <= HTTP_MAX_HEADER_SIZE
    requires s.p.state.HeaderFieldStart? || s.p.state.HeadersAlmostDone?
    ensures var d := Step(s, LF);
      && d.p.errno == Ok && d.trace == s.trace + [Notify(ChunkComplete), Notify(MessageComplete)]
      && (d.p.state.StartRes? || d.p.state.Dead?) && d.exited == s.p.upgrade && d.mark.NoMark?
  {
    assert Notes([ChunkComplete, MessageComplete]) == [Notify(ChunkComplete), Notify(MessageComplete)];
  }

  /** Headers behind the last chunk are reported like any others, whatever they ask for, and the empty line completes the
      message; they are refused exactly for a length that is not allowed. */
  lemma TrailersComplete(c: Conn, headers: seq<Header>, bare: bool)
    requires AtTrailer(c) && HeadersOk(headers)
    requires c.nread + |Lines(headers)| + 2 <= HTTP_MAX_HEADER_SIZE
    ensures var d := Run(c, Lines(headers) + Eol(bare));
      if LengthsAllowed(headers) then
        && d.p.errno == Ok && (d.p.state.StartRes? || d.p.state.Dead?) && d.exited == c.p.upgrade && d.mark.NoMark?
        && d.trace == c.trace + HeaderEvents(headers) + [Notify(ChunkComplete), Notify(MessageComplete)]
      else d.p.errno != Ok
  {
    hide Run;
    hide Step;
    hide LengthsAllowed;
    hide HeadersOk;
    TrailersRun(c, headers);
    var d := Run(c, Lines(headers));
    RunAppend(c, Lines(headers), Eol(bare));
    var s := Settle(d);
    if d.p.errno != Ok {
      RunStopped(d, Eol(bare));
    } else if bare {
      SettleRun(d, Eol(bare));
      TrailerLf(s);
      RunSingle(s, LF);
    } else {
      SettleRun(d, Eol(bare));
      EndCr(s);
      TrailerLf(Step(s, CR));
      TwoSteps(s, CR, LF);
    }
  }
}
