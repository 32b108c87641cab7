/** What the parser makes of header names, Content-Length values and chunk sizes, whatever their length. */
module HttpHeaders {
  import opened HttpBytes
  import opened HttpParserState
  import opened HttpTrace
  import opened HttpRun
  import opened HttpBatches
  import opened HttpInvariants
  import opened HttpSplit

  // ----- names --------------------------------------------------------------------------------

  /** The name as the parser compares it: every byte in lower case. */
  function LowerName(name: seq<byte>): (low: seq<byte>)
    ensures |low| == |name|
  {
    seq(|name|, i requires 0 <= i < |name| => Token(name[i]))
  }

  predicate PrefixOf(low: seq<byte>, word: seq<byte>) {
    |low| <= |word| && low == word[..|low|]
  }

  /** The header state a lower-case name stands for once read. */
  function NameClass(low: seq<byte>): HState {
    if low == CONNECTION || low == PROXY_CONNECTION then HConnection
    else if low == CONTENT_LENGTH then HContentLength
    else if low == TRANSFER_ENCODING then HTransferEncoding
    else if low == UPGRADE then HUpgrade
    else if PrefixOf(low, CONNECTION) && |low| == 1 then HC
    else if PrefixOf(low, CONNECTION) && |low| == 2 then HCO
    else if PrefixOf(low, CONNECTION) && |low| == 3 then HCON
    else if PrefixOf(low, CONNECTION) then HMatchingConnection
    else if PrefixOf(low, PROXY_CONNECTION) then HMatchingProxyConnection
    else if PrefixOf(low, CONTENT_LENGTH) then HMatchingContentLength
    else if PrefixOf(low, TRANSFER_ENCODING) then HMatchingTransferEncoding
    else if PrefixOf(low, UPGRADE) then HMatchingUpgrade
    else HGeneral
  }

  lemma PrefixSnoc(low: seq<byte>, c: byte, word: seq<byte>)
    ensures PrefixOf(low + [c], word) <==> PrefixOf(low, word) && |low| < |word| && c == word[|low|]
  {
    if |low| < |word| {
      assert word[..|low| + 1] == word[..|low|] + [word[|low|]];
    }
    if PrefixOf(low + [c], word) {
      assert low == (low + [c])[..|low|] == word[..|low|];
      assert (low + [c])[|low|] == word[..|low| + 1][|low|];
    }
  }

  /** The words differ early on. */
  lemma WordFacts()
    ensures |CONNECTION| == 10 && |PROXY_CONNECTION| == 16 && |CONTENT_LENGTH| == 14 && |TRANSFER_ENCODING| == 17 && |UPGRADE| == 7
    ensures CONNECTION[0] == 99 && CONNECTION[1] == 111 && CONNECTION[2] == 110 && CONNECTION[3] == 110
    ensures CONTENT_LENGTH[0] == 99 && CONTENT_LENGTH[1] == 111 && CONTENT_LENGTH[2] == 110 && CONTENT_LENGTH[3] == 116
    ensures PROXY_CONNECTION[0] == 112 && TRANSFER_ENCODING[0] == 116 && UPGRADE[0] == 117
  {
  }

  lemma PrefixFull(low: seq<byte>, word: seq<byte>)
    ensures low == word <==> PrefixOf(low, word) && |low| == |word|
  {
    assert word[..|word|] == word;
  }

  /** What a name begins with tells the words apart. */
  lemma FirstByte(low: seq<byte>, word: seq<byte>)
    requires PrefixOf(low, word) && low != []
    ensures low[0] == word[0]
  {
    assert low[0] == word[..|low|][0];
  }

  /** NameClass of a name that begins like one word and no other. */
  lemma OneWordSnoc(low: seq<byte>, c: byte, word: seq<byte>, matching: HState, matched: HState)
    requires low != [] && c != 0 && |word| >= 2 && PrefixOf(low, word) && |low| < |word|
    ensures var next := low + [c];
      Match(word, |low|, c, matching, matched, HGeneral)
      == (if next == word then matched else if PrefixOf(next, word) then matching else HGeneral)
  {
    PrefixSnoc(low, c, word);
    PrefixFull(low + [c], word);
  }

  /** The class of a name by its first byte. */
  function ClassByFirst(low: seq<byte>): HState
    requires low != []
  {
    if low[0] == 112 then ClassIn(low, PROXY_CONNECTION, HMatchingProxyConnection, HConnection)
    else if low[0] == 116 then ClassIn(low, TRANSFER_ENCODING, HMatchingTransferEncoding, HTransferEncoding)
    else if low[0] == 117 then ClassIn(low, UPGRADE, HMatchingUpgrade, HUpgrade)
    else if low[0] == 99 then ClassOfC(low)
    else HGeneral
  }

  function ClassIn(low: seq<byte>, word: seq<byte>, matching: HState, matched: HState): HState {
    if low == word then matched else if PrefixOf(low, word) then matching else HGeneral
  }

  function ClassOfC(low: seq<byte>): HState {
    if low == CONNECTION then HConnection
    else if low == CONTENT_LENGTH then HContentLength
    else if PrefixOf(low, CONNECTION) then
      if |low| == 1 then HC else if |low| == 2 then HCO else if |low| == 3 then HCON else HMatchingConnection
    else if PrefixOf(low, CONTENT_LENGTH) then HMatchingContentLength
    else HGeneral
  }

  lemma NotWord(low: seq<byte>, word: seq<byte>)
    requires low != [] && word != [] && low[0] != word[0]
    ensures !PrefixOf(low, word) && low != word
  {
    if PrefixOf(low, word) {
      FirstByte(low, word);
    }
  }

  lemma ClassFirst(low: seq<byte>)
    requires low != []
    ensures NameClass(low) == ClassByFirst(low)
  {
    WordFacts();
    if low[0] != 99 { NotWord(low, CONNECTION); NotWord(low, CONTENT_LENGTH); }
    if low[0] != 112 { NotWord(low, PROXY_CONNECTION); }
    if low[0] != 116 { NotWord(low, TRANSFER_ENCODING); }
    if low[0] != 117 { NotWord(low, UPGRADE); }
  }

  lemma OneWordStep(low: seq<byte>, ch: byte, c: byte)
    requires low != [] && c != 0 && ch != SP && (low[0] == 112 || low[0] == 116 || low[0] == 117)
    ensures NameByte(ClassByFirst(low), |low| - 1, ch, c).0 == ClassByFirst(low + [c])
  {
    WordFacts();
    var word := if low[0] == 112 then PROXY_CONNECTION else if low[0] == 116 then TRANSFER_ENCODING else UPGRADE;
    var matching := if low[0] == 112 then HMatchingProxyConnection
      else if low[0] == 116 then HMatchingTransferEncoding else HMatchingUpgrade;
    var matched := if low[0] == 112 then HConnection else if low[0] == 116 then HTransferEncoding else HUpgrade;
    assert (low + [c])[0] == low[0];
    PrefixSnoc(low, c, word);
    PrefixFull(low, word);
    PrefixFull(low + [c], word);
    if PrefixOf(low, word) && |low| < |word| {
      OneWordSnoc(low, c, word, matching, matched);
    }
  }

  lemma PrefixAt(low: seq<byte>, word: seq<byte>, i: nat)
    requires PrefixOf(low, word) && i < |low|
    ensures low[i] == word[i]
  {
    assert low[i] == word[..|low|][i];
  }

  /** Up to three bytes a name can begin both "connection" and "content-length", after that only one of them. */
  lemma CommonPrefix(low: seq<byte>)
    requires low != []
    ensures |low| <= 3 ==> (PrefixOf(low, CONNECTION) <==> PrefixOf(low, CONTENT_LENGTH))
    ensures |low| > 3 ==> !(PrefixOf(low, CONNECTION) && PrefixOf(low, CONTENT_LENGTH))
  {
    WordFacts();
    if |low| <= 3 {
      assert CONNECTION[..|low|] == CONTENT_LENGTH[..|low|];
    } else if PrefixOf(low, CONNECTION) && PrefixOf(low, CONTENT_LENGTH) {
      PrefixAt(low, CONNECTION, 3);
      PrefixAt(low, CONTENT_LENGTH, 3);
    }
  }

  lemma ShortStep(low: seq<byte>, ch: byte, c: byte)
    requires low != [] && |low| <= 3 && PrefixOf(low, CONNECTION) && c != 0
    ensures NameByte(ClassOfC(low), |low| - 1, ch, c).0 == ClassOfC(low + [c])
  {
    WordFacts();
    PrefixSnoc(low, c, CONNECTION);
    PrefixSnoc(low, c, CONTENT_LENGTH);
    CommonPrefix(low);
  }

  lemma LongStep(low: seq<byte>, ch: byte, c: byte)
    requires |low| > 3 && c != 0 && ch != SP
    ensures NameByte(ClassOfC(low), |low| - 1, ch, c).0 == ClassOfC(low + [c])
  {
    WordFacts();
    CommonPrefix(low);
    PrefixSnoc(low, c, CONNECTION);
    PrefixSnoc(low, c, CONTENT_LENGTH);
    PrefixFull(low, CONNECTION);
    PrefixFull(low, CONTENT_LENGTH);
    PrefixFull(low + [c], CONNECTION);
    PrefixFull(low + [c], CONTENT_LENGTH);
    CommonPrefix(low + [c]);
    if PrefixOf(low, CONNECTION) && |low| < 10 {
      OneWordSnoc(low, c, CONNECTION, HMatchingConnection, HConnection);
    } else if PrefixOf(low, CONTENT_LENGTH) && |low| < 14 {
      OneWordSnoc(low, c, CONTENT_LENGTH, HMatchingContentLength, HContentLength);
    }
  }

  /** One more byte of a name, whatever its length. */
  lemma NameClassSnoc(low: seq<byte>, ch: byte, c: byte)
    requires low != [] && c != 0 && ch != SP
    ensures NameByte(NameClass(low), |low| - 1, ch, c).0 == NameClass(low + [c])
  {
    ClassFirst(low);
    ClassFirst(low + [c]);
    assert (low + [c])[0] == low[0];
    if low[0] == 112 || low[0] == 116 || low[0] == 117 {
      OneWordStep(low, ch, c);
    } else if low[0] == 99 {
      WordFacts();
      if |low| <= 3 && PrefixOf(low, CONNECTION) {
        ShortStep(low, ch, c);
      } else if |low| > 3 {
        LongStep(low, ch, c);
      } else {
        CommonPrefix(low);
        PrefixSnoc(low, c, CONNECTION);
        PrefixSnoc(low, c, CONTENT_LENGTH);
        OffWords(low, ch, c);
      }
    }
  }

  lemma OffWords(low: seq<byte>, ch: byte, c: byte)
    requires low != [] && !PrefixOf(low, CONNECTION) && !PrefixOf(low, CONTENT_LENGTH)
    ensures NameByte(ClassOfC(low), |low| - 1, ch, c).0 == ClassOfC(low + [c])
  {
    PrefixSnoc(low, c, CONNECTION);
    PrefixSnoc(low, c, CONTENT_LENGTH);
    PrefixFull(low, CONNECTION);
    PrefixFull(low, CONTENT_LENGTH);
    PrefixFull(low + [c], CONNECTION);
    PrefixFull(low + [c], CONTENT_LENGTH);
  }

  /** The matchers that count: their index is one behind the length of the name. */
  predicate Counting(hs: HState) {
    hs.HC? || hs.HCO? || hs.HCON? || hs.HMatchingConnection? || hs.HMatchingProxyConnection?
    || hs.HMatchingContentLength? || hs.HMatchingTransferEncoding? || hs.HMatchingUpgrade?
  }

  lemma IndexIrrelevant(hs: HState, i: nat, j: nat, ch: byte, c: byte)
    requires Counting(hs) ==> i == j
    ensures NameByte(hs, i, ch, c).0 == NameByte(hs, j, ch, c).0
    ensures Counting(NameByte(hs, i, ch, c).0) ==> Counting(hs) && NameByte(hs, i, ch, c).1 == i + 1
  {
  }

  /** What the parser knows after the bytes of a name. */
  lemma {:induction false} NameRunClass(name: seq<byte>)
    requires name != [] && Tokens(name)
    ensures var (hs, index) := NameRun(FirstNameState(Token(name[0])), 0, name[1..]);
      hs == NameClass(LowerName(name)) && (Counting(hs) ==> index == |name| - 1)
    decreases |name|
  {
    hide NameClass;
    hide NameByte;
    var n := |name| - 1;
    if n == 0 {
      WordFacts();
      ClassFirst(LowerName(name));
      FirstClass(Token(name[0]));
      assert LowerName(name) == [Token(name[0])];
    } else {
      var init, last := name[..n], name[n];
      NameRunClass(init);
      assert name[1..] == init[1..] + [last];
      var (hs, index) := NameRun(FirstNameState(Token(name[0])), 0, init[1..]);
      NameRunSnoc(FirstNameState(Token(name[0])), 0, init[1..], last);
      assert LowerName(name) == LowerName(init) + [Token(last)];
      NameClassSnoc(LowerName(init), last, Token(last));
      IndexIrrelevant(hs, index, |init| - 1, last, Token(last));
    }
  }

  lemma FirstClass(c: byte)
    ensures NameClass([c]) == FirstNameState(c)
  {
    WordFacts();
    ClassFirst([c]);
    PrefixFull([c], CONNECTION);
    assert CONNECTION[..1] == [CONNECTION[0]];
    assert PROXY_CONNECTION[..1] == [PROXY_CONNECTION[0]];
    assert TRANSFER_ENCODING[..1] == [TRANSFER_ENCODING[0]];
    assert UPGRADE[..1] == [UPGRADE[0]];
  }

  /** The headers that matter to the parser, and no others. */
  predicate Recognised(hs: HState, low: seq<byte>) {
    && (hs.HConnection? <==> low == CONNECTION || low == PROXY_CONNECTION)
    && (hs.HContentLength? <==> low == CONTENT_LENGTH)
    && (hs.HTransferEncoding? <==> low == TRANSFER_ENCODING)
    && (hs.HUpgrade? <==> low == UPGRADE)
  }

  lemma WordsDiffer()
    ensures CONNECTION != CONTENT_LENGTH && CONNECTION != TRANSFER_ENCODING && CONNECTION != UPGRADE
    ensures PROXY_CONNECTION != CONTENT_LENGTH && PROXY_CONNECTION != TRANSFER_ENCODING && PROXY_CONNECTION != UPGRADE
    ensures CONTENT_LENGTH != TRANSFER_ENCODING && CONTENT_LENGTH != UPGRADE && TRANSFER_ENCODING != UPGRADE
  {
    WordFacts();
  }

  lemma FieldStartStep(c: Conn, ch: byte)
    requires !Stopped(c) && c.p.state.HeaderFieldStart? && Token(ch) != 0 && c.nread + 1 <= HTTP_MAX_HEADER_SIZE
    ensures var d := Step(c, ch);
      && !Stopped(d) && !d.inLoop && !d.skip && d.nread == c.nread + 1
      && d.p == c.p.(index := 0, state := HeaderField, headerState := FirstNameState(Token(ch)))
      && (c.mark.NoMark? ==> d.mark == Marked(Field, [ch]))
  {
  }

  lemma NameReached(c: Conn, name: seq<byte>)
    requires !Stopped(c) && c.p.state.HeaderFieldStart? && c.mark.NoMark?
    requires name != [] && Tokens(name) && c.nread + |name| + 1 <= HTTP_MAX_HEADER_SIZE
    ensures Step(c, name[0]).mark == Marked(Field, [name[0]])
    ensures Run(c, name + [COLON]) == AfterColon(AfterName(Step(c, name[0]), name[1..]))
  {
    var first, rest := name[0], name[1..];
    FieldStartStep(c, first);
    var d := Step(c, first);
    NameColon(d, rest);
    TakesStep(c, first);
    TakesThen(c, [first], d, rest + [COLON], AfterColon(AfterName(d, rest)));
    assert name + [COLON] == [first] + (rest + [COLON]);
    TakesAll(c, name + [COLON], AfterColon(AfterName(d, rest)));
  }

  /** At the colon, header_state names a header exactly when the lower-cased name is that word. */
  lemma NameRecognised(c: Conn, name: seq<byte>)
    requires !Stopped(c) && c.p.state.HeaderFieldStart? && c.mark.NoMark?
    requires name != [] && Tokens(name) && c.nread + |name| + 1 <= HTTP_MAX_HEADER_SIZE
    ensures var d := Run(c, name + [COLON]);
      !Stopped(d) && d.p.state == HeaderValueDiscardWs && Recognised(d.p.headerState, LowerName(name))
  {
    NameReached(c, name);
    FieldStartStep(c, name[0]);
    NameRunClass(name);
    ClassRecognised(LowerName(name));
  }

  lemma ClassRecognised(low: seq<byte>)
    ensures Recognised(NameClass(low), low)
  {
    WordsDiffer();
  }

  lemma TokensAreHeaderChars(name: seq<byte>)
    requires Tokens(name)
    ensures forall i :: 0 <= i < |name| ==> IsHeaderChar(name[i])
  {
  }

  /** The same however the name is cut into calls. */
  lemma NameRecognisedInPieces(c: Conn, name: seq<byte>, pieces: seq<seq<byte>>)
    requires Resting(c) && c.p.errno == Ok && !c.exited && c.p.state.HeaderFieldStart?
    requires name != [] && Tokens(name) && c.nread + 2 * |name| + 2 <= HTTP_MAX_HEADER_SIZE
    requires Concat(pieces) == name + [COLON]
    ensures var d := Calls(c, pieces);
      d.p.errno == Ok && d.p.state == HeaderValueDiscardWs && Recognised(d.p.headerState, LowerName(name))
  {
    var data := name + [COLON];
    NameRecognised(Begin(c), name);
    TokensAreHeaderChars(name);
    PlainIsRobust(Begin(c), c.nread, data);
    CutIndependence(c, pieces);
    EndNotInLoop(c, name);
  }

  lemma EndNotInLoop(c: Conn, name: seq<byte>)
    requires !Stopped(Run(Begin(c), name + [COLON])) && c.p.errno == Ok && name != []
    requires Run(Begin(c), name + [COLON]).p.state == HeaderValueDiscardWs
    ensures Call(c, name + [COLON]).p == Run(Begin(c), name + [COLON]).p
  {
    RunAppend(Begin(c), name, [COLON]);
    var d := Run(Begin(c), name);
    RunSingle(d, COLON);
    if LoopByte(d.p, COLON) {
      StepLoop(d, COLON);
    }
  }

  // ----- lengths ------------------------------------------------------------------------------

  /** The decimal digits of a Content-Length value, spaces ignored as the parser does, appended to `n`. */
  function Decimal(n: nat, bytes: seq<byte>): nat
    decreases |bytes|
  {
    if bytes == [] then n
    else Decimal(if IsNum(bytes[0]) then 10 * n + (bytes[0] - 48) else n, bytes[1..])
  }

  predicate DigitsOrSpaces(bytes: seq<byte>) {
    forall i :: 0 <= i < |bytes| ==> IsNum(bytes[i]) || bytes[i] == SP
  }

  /** The largest length the overflow test lets through. */
  const MAX_CONTENT_LENGTH: nat := 18446744073709551609
  const MAX_CHUNK_SIZE: nat := 18446744073709551599

  lemma {:induction false} DecimalGrows(n: nat, bytes: seq<byte>)
    ensures Decimal(n, bytes) >= n
    decreases |bytes|
  {
    if bytes != [] {
      DecimalGrows(if IsNum(bytes[0]) then 10 * n + (bytes[0] - 48) else n, bytes[1..]);
    }
  }

  /** A Content-Length value is accepted exactly if it is made of digits and spaces and its number is at most
      18446744073709551609; content_length is then that number: it has not wrapped, and is not the sentinel. */
  lemma {:induction false} ContentLengthExact(p: Parser, skip: bool, bytes: seq<byte>)
    requires p.errno == Ok && p.state.HeaderValue? && p.headerState.HContentLength?
    requires p.contentLength <= MAX_CONTENT_LENGTH && NoBreak(bytes)
    ensures var r, n := ValueRun(p, skip, bytes), Decimal(p.contentLength, bytes);
      && (r.p.errno == Ok <==> DigitsOrSpaces(bytes) && n <= MAX_CONTENT_LENGTH)
      && (r.p.errno == Ok ==> r.p == p.(contentLength := n) && n < MAX_UINT64)
    decreases |bytes|
  {
    if bytes != [] {
      var ch, rest := bytes[0], bytes[1..];
      var n := if IsNum(ch) then 10 * p.contentLength + (ch - 48) else p.contentLength;
      DecimalGrows(n, rest);
      assert DigitsOrSpaces(bytes) <==> (IsNum(ch) || ch == SP) && DigitsOrSpaces(rest);
      ContentLengthByte(p, ch, skip);
      if (IsNum(ch) || ch == SP) && n <= MAX_CONTENT_LENGTH {
        ContentLengthExact(p.(contentLength := n), false, rest);
      }
    }
  }

  /** The first byte of the value. */
  lemma ContentLengthStart(p: Parser, ch: byte)
    requires p.errno == Ok && p.state.HeaderValueDiscardWs? && p.headerState.HContentLength?
    requires ch != SP && ch != TAB && ch != CR && ch != LF
    ensures var out := Transition(p, ch, false);
      if IsNum(ch) && !p.flags.contentLength then
        out.p == p.(state := HeaderValue, index := 0, flags := p.flags.(contentLength := true), contentLength := ch - 48)
      else out.p.errno == (if IsNum(ch) then UnexpectedContentLength else InvalidContentLength)
  {
  }

  /** The parser after a header value, from behind the colon. */
  function ValueRead(p: Parser, value: seq<byte>): Parser
    requires value != [] && NoBreak(value)
  {
    var out := Transition(p, value[0], false);
    if out.p.errno != Ok then out.p else ValueRun(out.p, false, value[1..]).p
  }

  /** A whole Content-Length value is accepted exactly if there was none before, it starts with a digit, is made of
      digits and spaces, and its number is at most 18446744073709551609; content_length is then that number. */
  lemma ContentLengthValue(p: Parser, value: seq<byte>)
    requires p.errno == Ok && p.state.HeaderValueDiscardWs? && p.headerState.HContentLength?
    requires value != [] && NoBreak(value) && value[0] != SP && value[0] != TAB
    ensures var d, n := ValueRead(p, value), Decimal(0, value);
      && (d.errno == Ok <==> !p.flags.contentLength && DigitsOrSpaces(value) && n <= MAX_CONTENT_LENGTH)
      && (d.errno == Ok ==> d.state.HeaderValue? && d.flags.contentLength && d.contentLength == n < MAX_UINT64)
  {
    hide Transition;
    var first, rest := value[0], value[1..];
    ContentLengthStart(p, first);
    assert DigitsOrSpaces(value) <==> (IsNum(first) || first == SP) && DigitsOrSpaces(rest);
    if IsNum(first) && !p.flags.contentLength {
      ContentLengthExact(Transition(p, first, false).p, false, rest);
    }
  }

  lemma ContentLengthByte(p: Parser, ch: byte, skip: bool)
    requires p.errno == Ok && p.state.HeaderValue? && p.headerState.HContentLength? && ch != CR && ch != LF
    requires p.contentLength <= MAX_CONTENT_LENGTH
    ensures var out := HeaderValueByte(p, ch, skip);
      var n := if IsNum(ch) then 10 * p.contentLength + (ch - 48) else p.contentLength;
      if (IsNum(ch) || ch == SP) && n <= MAX_CONTENT_LENGTH then out.p == p.(contentLength := n) else out.p.errno != Ok
  {
  }

  /** The hexadecimal digits of a chunk size appended to `n`, as `unhex` reads them. */
  function Hexadecimal(n: nat, bytes: seq<byte>): nat
    decreases |bytes|
  {
    if bytes == [] then n
    else Hexadecimal(if Unhex(bytes[0]) != -1 then 16 * n + Unhex(bytes[0]) else n, bytes[1..])
  }

  predicate HexDigits(bytes: seq<byte>) {
    forall i :: 0 <= i < |bytes| ==> Unhex(bytes[i]) != -1
  }

  lemma {:induction false} HexadecimalGrows(n: nat, bytes: seq<byte>)
    ensures Hexadecimal(n, bytes) >= n
    decreases |bytes|
  {
    if bytes != [] {
      HexadecimalGrows(if Unhex(bytes[0]) != -1 then 16 * n + Unhex(bytes[0]) else n, bytes[1..]);
    }
  }

  lemma ChunkSizeStep(c: Conn, ch: byte)
    requires !Stopped(c) && c.p.state.ChunkSize? && Unhex(ch) != -1 && c.nread + 1 <= HTTP_MAX_HEADER_SIZE
    requires c.p.contentLength <= MAX_CHUNK_SIZE
    ensures var d, n := Step(c, ch), 16 * c.p.contentLength + Unhex(ch);
      if n <= MAX_CHUNK_SIZE then
        d == c.(p := c.p.(contentLength := n), nread := c.nread + 1, inLoop := false, skip := false, pos := c.pos + 1)
      else d.p.errno == InvalidContentLength
  {
    assert c.trace + Notes([]) == c.trace;
  }

  /** A run of chunk size digits is accepted exactly if its number is at most 18446744073709551599, and then
      content_length is that number. */
  lemma {:induction false} ChunkSizeExact(c: Conn, bytes: seq<byte>)
    requires !Stopped(c) && c.p.state.ChunkSize? && HexDigits(bytes) && c.nread + |bytes| <= HTTP_MAX_HEADER_SIZE
    requires c.p.contentLength <= MAX_CHUNK_SIZE
    ensures var d, n := Run(c, bytes), Hexadecimal(c.p.contentLength, bytes);
      && (d.p.errno == Ok <==> n <= MAX_CHUNK_SIZE)
      && (d.p.errno == Ok ==>
            && !d.exited && d.p == c.p.(contentLength := n) && d.nread == c.nread + |bytes|
            && d.trace == c.trace && d.mark == c.mark && d.pos == c.pos + |bytes| && n < MAX_UINT64
            && (bytes == [] || (!d.inLoop && !d.skip)))
    decreases |bytes|
  {
    if bytes != [] {
      var ch, rest := bytes[0], bytes[1..];
      ChunkSizeStep(c, ch);
      HexadecimalGrows(16 * c.p.contentLength + Unhex(ch), rest);
      if 16 * c.p.contentLength + Unhex(ch) <= MAX_CHUNK_SIZE {
        ChunkSizeExact(Step(c, ch), rest);
      }
    }
  }

  lemma ChunkSizeFirst(c: Conn, ch: byte)
    requires !Stopped(c) && c.p.state.ChunkSizeStart? && c.nread + 1 <= HTTP_MAX_HEADER_SIZE
    ensures var d := Step(c, ch);
      if Unhex(ch) != -1 then
        d == c.(p := c.p.(contentLength := Unhex(ch), state := ChunkSize), nread := c.nread + 1, inLoop := false,
                skip := false, pos := c.pos + 1)
      else d.p.errno == InvalidChunkSize
  {
    assert c.trace + Notes([]) == c.trace;
  }

  /** A whole chunk size: a byte that is no digit is refused at its start; digits are accepted exactly if their number
      is at most 18446744073709551599, and content_length is then that number. */
  lemma ChunkSizeLine(c: Conn, bytes: seq<byte>)
    requires !Stopped(c) && c.p.state.ChunkSizeStart? && bytes != [] && c.nread + |bytes| <= HTTP_MAX_HEADER_SIZE
    ensures Unhex(bytes[0]) == -1 ==> Run(c, bytes).p.errno == InvalidChunkSize
    ensures HexDigits(bytes) ==>
      var d, n := Run(c, bytes), Hexadecimal(0, bytes);
      && (d.p.errno == Ok <==> n <= MAX_CHUNK_SIZE)
      && (d.p.errno == Ok ==> d.p == c.p.(state := ChunkSize, contentLength := n) && d.trace == c.trace && n < MAX_UINT64)
  {
    hide Step;
    var first, rest := bytes[0], bytes[1..];
    ChunkSizeFirst(c, first);
    assert Run(c, bytes) == Run(Step(c, first), rest);
    if HexDigits(bytes) {
      ChunkSizeExact(Step(c, first), rest);
    } else if Unhex(first) == -1 {
      assert Run(Step(c, first), rest) == Step(c, first);
    }
  }

  /** The unhex table reads a byte as its hexadecimal digit exactly for ASCII; bytes above 127 read as 0. */
  lemma UnhexExact(b: byte)
    ensures Unhex(b) == (if 48 <= b <= 57 then b - 48 else if 65 <= b <= 70 then b - 55 else if 97 <= b <= 102 then b - 87 else -1)
            <==> b < 128
  {
  }
}
