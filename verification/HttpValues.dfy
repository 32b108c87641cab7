/** What the values of the headers the parser looks into set: transfer coding, connection options, upgrade. */
module HttpValues {
  import opened HttpBytes
  import opened HttpParserState
  import opened HttpBatches
  import opened HttpInvariants
  import opened HttpHeaders

  // ----- words, in any case -------------------------------------------------------------------

  function AsciiLower(b: byte): byte {
    if 65 <= b <= 90 then b + 32 else b
  }

  function Folded(s: seq<byte>): (low: seq<byte>)
    ensures |low| == |s|
  {
    seq(|s|, i requires 0 <= i < |s| => AsciiLower(s[i]))
  }

  /** The word in upper or lower case, with any number of spaces behind it. */
  predicate Padded(s: seq<byte>, word: seq<byte>) {
    && |word| <= |s| && Folded(s[..|word|]) == word
    && forall i :: |word| <= i < |s| ==> s[i] == SP
  }

  /** A beginning of the word that is not all of it, in upper or lower case. */
  predicate Begins(s: seq<byte>, word: seq<byte>) {
    |s| < |word| && Folded(s) == word[..|s|]
  }

  datatype Stage = Reading | Matched | Off

  function Progress(s: seq<byte>, word: seq<byte>): Stage {
    if Padded(s, word) then Matched else if Begins(s, word) then Reading else Off
  }

  lemma FoldedSnoc(s: seq<byte>, b: byte)
    ensures Folded(s + [b]) == Folded(s) + [AsciiLower(b)]
  {
  }

  lemma BeginsSnoc(s: seq<byte>, b: byte, word: seq<byte>)
    requires |s| < |word|
    ensures Folded(s + [b]) == word[..|s| + 1] <==> Begins(s, word) && AsciiLower(b) == word[|s|]
  {
    FoldedSnoc(s, b);
    assert word[..|s| + 1] == word[..|s|] + [word[|s|]];
    if Folded(s + [b]) == word[..|s| + 1] {
      assert Folded(s) == (Folded(s) + [AsciiLower(b)])[..|s|] == word[..|s|];
      assert AsciiLower(b) == (Folded(s) + [AsciiLower(b)])[|s|] == word[|s|];
    }
  }

  lemma PaddedSnoc(s: seq<byte>, b: byte, word: seq<byte>)
    requires |word| <= |s|
    ensures Padded(s + [b], word) <==> Padded(s, word) && b == SP
  {
    assert (s + [b])[..|word|] == s[..|word|];
    if Padded(s + [b], word) {
      assert (s + [b])[|s|] == SP;
      assert forall i :: |word| <= i < |s| ==> s[i] == (s + [b])[i];
    }
  }

  /** One more byte of a value compared with a word. */
  lemma ProgressSnoc(s: seq<byte>, b: byte, word: seq<byte>)
    ensures Progress(s + [b], word) == match Progress(s, word)
      case Reading => if AsciiLower(b) != word[|s|] then Off else if |s| + 1 == |word| then Matched else Reading
      case Matched => if b == SP then Matched else Off
      case Off => Off
  {
    if |s| < |word| {
      BeginsSnoc(s, b, word);
      assert word[..|word|] == word && (s + [b])[..|s| + 1] == s + [b];
    } else {
      PaddedSnoc(s, b, word);
    }
  }

  /** `c | 0x20` against a lower-case letter or a hyphen. */
  lemma LowerIsAscii(b: byte, w: byte)
    requires 97 <= w <= 122 || w == 45
    requires b != CR
    ensures Lower(b) == w <==> AsciiLower(b) == w
  {
  }

  lemma WordLetters(word: seq<byte>, i: nat)
    requires word == CHUNKED || word == KEEP_ALIVE || word == CLOSE || word == UPGRADE
    requires i < |word|
    ensures 97 <= word[i] <= 122 || word[i] == 45
  {
  }

  /** What the word matchers make of one more byte. */
  lemma MatchProgress(s: seq<byte>, b: byte, word: seq<byte>, matching: HState, matched: HState, failed: HState)
    requires word == CHUNKED || word == KEEP_ALIVE || word == CLOSE || word == UPGRADE
    requires s != [] && Progress(s, word) == Reading && b != CR
    ensures Match(word, |s|, Lower(b), matching, matched, failed) == match Progress(s + [b], word)
      case Reading => matching
      case Matched => matched
      case Off => failed
  {
    ProgressSnoc(s, b, word);
    WordLetters(word, |s|);
    LowerIsAscii(b, word[|s|]);
  }

  // ----- transfer codings ---------------------------------------------------------------------

  /** header_state after these bytes of a Transfer-Encoding value. */
  function CodingState(s: seq<byte>): HState {
    match Progress(s, CHUNKED)
    case Reading => HMatchingTransferEncodingChunked
    case Matched => HTransferEncodingChunked
    case Off => HGeneral
  }

  lemma CodingFirst(b: byte)
    requires b != CR
    ensures CodingState([b]) == if Lower(b) == 99 then HMatchingTransferEncodingChunked else HGeneral
  {
    LowerIsAscii(b, 99);
    assert [b] == [] + [b];
    ProgressSnoc([], b, CHUNKED);
    assert Progress([], CHUNKED) == Reading;
  }

  lemma CodingByte(p: Parser, b: byte, skip: bool, s: seq<byte>)
    requires p.errno == Ok && p.state.HeaderValue? && b != CR && b != LF
    requires s != [] && p.headerState == CodingState(s) && (Progress(s, CHUNKED) == Reading ==> p.index == |s| - 1)
    ensures var q := HeaderValueByte(p, b, skip).p;
      q.errno == Ok ==>
        && q == p.(headerState := CodingState(s + [b]), index := q.index)
        && (Progress(s + [b], CHUNKED) == Reading ==> q.index == |s|)
  {
    ProgressSnoc(s, b, CHUNKED);
    if Progress(s, CHUNKED) == Reading {
      MatchProgress(s, b, CHUNKED, HMatchingTransferEncodingChunked, HTransferEncodingChunked, HGeneral);
    }
  }

  lemma {:induction false} CodingRun(p: Parser, skip: bool, s: seq<byte>, rest: seq<byte>)
    requires p.errno == Ok && p.state.HeaderValue? && NoBreak(rest)
    requires s != [] && p.headerState == CodingState(s) && (Progress(s, CHUNKED) == Reading ==> p.index == |s| - 1)
    ensures var q := ValueRun(p, skip, rest).p;
      q.errno == Ok ==> q == p.(headerState := CodingState(s + rest), index := q.index)
    decreases |rest|
  {
    hide HeaderValueByte;
    hide CodingState;
    hide Progress;
    if rest == [] {
      assert s + rest == s;
    } else {
      CodingByte(p, rest[0], skip, s);
      var q := HeaderValueByte(p, rest[0], skip).p;
      assert s + rest == s + [rest[0]] + rest[1..];
      if q.errno == Ok {
        CodingRun(q, p.headerState.HGeneral?, s + [rest[0]], rest[1..]);
      }
    }
  }

  // ----- connection options -------------------------------------------------------------------

  const OPTIONS: seq<seq<byte>> := [KEEP_ALIVE, CLOSE, UPGRADE]

  /** The beginning of one of the three options, but not all of it. */
  predicate Abbreviates(s: seq<byte>) {
    s != [] && (Begins(s, KEEP_ALIVE) || Begins(s, CLOSE) || Begins(s, UPGRADE))
  }

  /** A comma ends an item, but not at its very beginning and not right behind an abbreviated option. */
  predicate EndsItem(s: seq<byte>, i: nat)
    requires i < |s|
  {
    s[i] == COMMA && 0 < i && !Abbreviates(s[..i])
  }

  /** Where the item that begins `s` ends, looking from `i` on. */
  function ItemEnd(s: seq<byte>, i: nat): (n: nat)
    requires i <= |s|
    ensures i <= n <= |s|
    ensures n < |s| ==> EndsItem(s, n)
    ensures forall k :: i <= k < n ==> !EndsItem(s, k)
    decreases |s| - i
  {
    if i == |s| || EndsItem(s, i) then i else ItemEnd(s, i + 1)
  }

  /** The bytes that may begin an item other than the first: digits, letters, and these signs. */
  predicate StartsItem(b: byte) {
    IsNum(b) || 65 <= b <= 90 || 97 <= b <= 122
    || b in {33, 35, 36, 37, 38, 39, 42, 43, 45, 46, 64, 92, 94, 96, 124, 126}
  }

  /** The items of a connection value as the parser separates them. */
  function Items(s: seq<byte>): seq<seq<byte>>
    requires s != []
    decreases |s|, 0
  {
    var n := ItemEnd(s, 0);
    [s[..n]] + (if n < |s| then LaterItems(s[n + 1..]) else [])
  }

  /** The items behind a comma: at anything but spaces and the beginning of an item the parser gives up. */
  function LaterItems(s: seq<byte>): seq<seq<byte>>
    decreases |s|, 1
  {
    if s == [] then []
    else if s[0] == SP then LaterItems(s[1..])
    else if !StartsItem(s[0]) then []
    else Items(s)
  }

  predicate Named(items: seq<seq<byte>>, word: seq<byte>) {
    items != [] && (Padded(items[0], word) || Named(items[1..], word))
  }

  function OptionFlags(flags: Flags, items: seq<seq<byte>>): Flags {
    flags.(keepAlive := flags.keepAlive || Named(items, KEEP_ALIVE),
           close := flags.close || Named(items, CLOSE),
           connUpgrade := flags.connUpgrade || Named(items, UPGRADE))
  }

  /** header_state after these bytes of an item. */
  function ItemState(s: seq<byte>): HState
    requires s != []
  {
    if Progress(s, KEEP_ALIVE) == Reading then HMatchingConnectionKeepAlive
    else if Progress(s, KEEP_ALIVE) == Matched then HConnectionKeepAlive
    else if Progress(s, CLOSE) == Reading then HMatchingConnectionClose
    else if Progress(s, CLOSE) == Matched then HConnectionClose
    else if Progress(s, UPGRADE) == Reading then HMatchingConnectionUpgrade
    else if Progress(s, UPGRADE) == Matched then HConnectionUpgrade
    else HMatchingConnectionToken
  }

  lemma ProgressFirst(b: byte, word: seq<byte>)
    requires |word| > 1
    ensures Progress([b], word) == if AsciiLower(b) == word[0] then Reading else Off
  {
    assert [b] == [] + [b];
    ProgressSnoc([], b, word);
    assert Progress([], word) == Reading;
  }

  /** Only one of the words can be on its way. */
  lemma {:induction false} OneOption(s: seq<byte>, word: seq<byte>)
    requires s != [] && word in OPTIONS
    ensures Progress(s, word) != Off ==> AsciiLower(s[0]) == word[0]
  {
    if Progress(s, word) == Matched {
      assert Folded(s[..|word|])[0] == AsciiLower(s[0]);
    } else if Progress(s, word) == Reading {
      assert Folded(s)[0] == AsciiLower(s[0]);
    }
  }

  lemma OptionsDiffer(s: seq<byte>)
    requires s != []
    ensures Progress(s, KEEP_ALIVE) != Off ==> Progress(s, CLOSE) == Off && Progress(s, UPGRADE) == Off
    ensures Progress(s, CLOSE) != Off ==> Progress(s, UPGRADE) == Off
  {
    OneOption(s, KEEP_ALIVE);
    OneOption(s, CLOSE);
    OneOption(s, UPGRADE);
  }

  lemma ItemFirst(b: byte)
    requires b != CR
    ensures ItemState([b]) == ConnectionToken(Lower(b), HMatchingConnectionToken)
    ensures 0 < |[b]|
  {
    ProgressFirst(b, KEEP_ALIVE);
    ProgressFirst(b, CLOSE);
    ProgressFirst(b, UPGRADE);
    LowerIsAscii(b, 107);
    LowerIsAscii(b, 99);
    LowerIsAscii(b, 117);
  }

  /** The states in which bytes of an item are counted. */
  predicate MatchingOption(hs: HState) {
    hs.HMatchingConnectionKeepAlive? || hs.HMatchingConnectionClose? || hs.HMatchingConnectionUpgrade?
  }

  lemma AbbreviatesState(s: seq<byte>)
    requires s != []
    ensures Abbreviates(s) <==> MatchingOption(ItemState(s))
  {
    OptionsDiffer(s);
  }

  /** One more byte of an item. */
  lemma ItemByte(p: Parser, b: byte, skip: bool, s: seq<byte>)
    requires p.errno == Ok && p.state.HeaderValue? && b != CR && b != LF
    requires s != [] && p.headerState == ItemState(s) && (MatchingOption(p.headerState) ==> p.index == |s| - 1)
    requires b == COMMA ==> MatchingOption(p.headerState)
    ensures var q := HeaderValueByte(p, b, skip).p;
      q.errno == Ok ==>
        && q == p.(headerState := ItemState(s + [b]), index := q.index)
        && (MatchingOption(q.headerState) ==> q.index == |s|)
  {
    hide Progress;
    OptionsDiffer(s);
    OptionsDiffer(s + [b]);
    ProgressSnoc(s, b, KEEP_ALIVE);
    ProgressSnoc(s, b, CLOSE);
    ProgressSnoc(s, b, UPGRADE);
    hide Match;
    hide Lower;
    if p.headerState.HMatchingConnectionKeepAlive? {
      MatchProgress(s, b, KEEP_ALIVE, HMatchingConnectionKeepAlive, HConnectionKeepAlive, HMatchingConnectionToken);
    } else if p.headerState.HMatchingConnectionClose? {
      MatchProgress(s, b, CLOSE, HMatchingConnectionClose, HConnectionClose, HMatchingConnectionToken);
    } else if p.headerState.HMatchingConnectionUpgrade? {
      MatchProgress(s, b, UPGRADE, HMatchingConnectionUpgrade, HConnectionUpgrade, HMatchingConnectionToken);
    }
  }

  /** The comma that ends an item. */
  lemma ItemComma(p: Parser, skip: bool, s: seq<byte>)
    requires p.errno == Ok && p.state.HeaderValue? && s != [] && p.headerState == ItemState(s)
    requires !MatchingOption(p.headerState)
    ensures HeaderValueByte(p, COMMA, skip).p
            == p.(flags := OptionFlags(p.flags, [s]), headerState := HMatchingConnectionTokenStart, index := 0)
  {
    OptionsDiffer(s);
    NamedOne(s);
  }

  lemma NamedOne(s: seq<byte>)
    ensures forall word :: Named([s], word) <==> Padded(s, word)
  {
    assert [s][1..] == [];
  }

  lemma ItemLast(flags: Flags, s: seq<byte>)
    requires s != []
    ensures ValueEndFlags(flags, ItemState(s)) == OptionFlags(flags, [s])
  {
    OptionsDiffer(s);
    NamedOne(s);
  }

  lemma OptionFlagsCons(flags: Flags, item: seq<byte>, items: seq<seq<byte>>)
    ensures OptionFlags(OptionFlags(flags, [item]), items) == OptionFlags(flags, [item] + items)
  {
    NamedOne(item);
    assert ([item] + items)[1..] == items;
  }

  /** What a connection value has set when its last byte is read and its line ends. */
  predicate ListRead(p: Parser, q: Parser, items: seq<seq<byte>>) {
    q.errno == Ok ==>
      && ValueEndFlags(q.flags, q.headerState) == OptionFlags(p.flags, items)
      && q == p.(flags := q.flags, headerState := q.headerState, index := q.index)
  }

  lemma {:induction false} ItemRun(p: Parser, skip: bool, s: seq<byte>, i: nat)
    requires p.errno == Ok && p.state.HeaderValue? && NoBreak(s) && 0 < i <= |s| && ItemEnd(s, 0) == ItemEnd(s, i)
    requires p.headerState == ItemState(s[..i]) && (MatchingOption(p.headerState) ==> p.index == i - 1)
    ensures ListRead(p, ValueRun(p, skip, s[i..]).p, Items(s))
    decreases |s| - i, 0
  {
    hide HeaderValueByte;
    hide ItemState;
    hide OptionFlags;
    hide Abbreviates;
    if i == |s| {
      assert s[i..] == [] && s[..i] == s && Items(s) == [s];
      ItemLast(p.flags, s);
    } else {
      var b, tail := s[i], s[i + 1..];
      assert s[i..][0] == b && s[i..][1..] == tail;
      AbbreviatesState(s[..i]);
      var q := HeaderValueByte(p, b, skip).p;
      if EndsItem(s, i) {
        ItemComma(p, skip, s[..i]);
        OptionFlagsCons(p.flags, s[..i], LaterItems(tail));
        LaterRun(q, p.headerState.HGeneral?, tail);
      } else {
        ItemByte(p, b, skip, s[..i]);
        assert s[..i] + [b] == s[..i + 1];
        if q.errno == Ok {
          ItemRun(q, p.headerState.HGeneral?, s, i + 1);
        }
      }
    }
  }

  lemma LaterByte(p: Parser, b: byte, skip: bool)
    requires p.errno == Ok && p.state.HeaderValue? && p.headerState.HMatchingConnectionTokenStart? && b != CR && b != LF
    ensures var q := HeaderValueByte(p, b, skip).p;
      q.errno == Ok ==> q == p.(headerState :=
        if b == SP then HMatchingConnectionTokenStart else if StartsItem(b) then ItemState([b]) else HGeneral)
  {
    ItemFirst(b);
    hide ItemState;
  }

  lemma {:induction false} LaterRun(p: Parser, skip: bool, s: seq<byte>)
    requires p.errno == Ok && p.state.HeaderValue? && p.headerState.HMatchingConnectionTokenStart? && p.index == 0
    requires NoBreak(s)
    ensures ListRead(p, ValueRun(p, skip, s).p, LaterItems(s))
    decreases |s|, 1
  {
    hide HeaderValueByte;
    hide ItemState;
    if s != [] {
      var b := s[0];
      LaterByte(p, b, skip);
      var q := HeaderValueByte(p, b, skip).p;
      if q.errno == Ok {
        if b == SP {
          LaterRun(q, false, s[1..]);
        } else if StartsItem(b) {
          assert s[..1] == [b];
          ItemRun(q, false, s, 1);
        } else {
          GaveUp(q, s[1..]);
        }
      }
    }
  }

  lemma {:induction false} GeneralKept(p: Parser, skip: bool, bytes: seq<byte>)
    requires p.headerState.HGeneral? && p.errno == Ok && p.state.HeaderValue? && NoBreak(bytes)
    ensures ValueRun(p, skip, bytes).p.errno == Ok ==> ValueRun(p, skip, bytes).p == p
    decreases |bytes|
  {
    if bytes != [] && HeaderValueByte(p, bytes[0], skip).p.errno == Ok {
      GeneralRun(p, bytes[1..]);
    }
  }

  lemma GaveUp(p: Parser, bytes: seq<byte>)
    requires p.headerState.HGeneral? && p.errno == Ok && p.state.HeaderValue? && NoBreak(bytes)
    ensures ListRead(p, ValueRun(p, false, bytes).p, [])
  {
    GeneralKept(p, false, bytes);
  }

  // ----- a whole value ------------------------------------------------------------------------

  /** The flags behind a header with this name and value, whatever they were before. */
  function HeaderFlags(flags: Flags, name: seq<byte>, value: seq<byte>): Flags {
    var low := Folded(name);
    if value == [] then flags
    else if low == TRANSFER_ENCODING then flags.(chunked := flags.chunked || Padded(value, CHUNKED))
    else if low == CONNECTION || low == PROXY_CONNECTION then OptionFlags(flags, Items(value))
    else if low == UPGRADE then flags.(upgrade := true)
    else if low == CONTENT_LENGTH then flags.(contentLength := true)
    else flags
  }

  function HeaderLength(length: nat, name: seq<byte>, value: seq<byte>): nat {
    if Folded(name) == CONTENT_LENGTH && value != [] then Decimal(0, value) else length
  }

  /** A length is given once, and as a number that fits. */
  predicate LengthAllowed(flags: Flags, name: seq<byte>, value: seq<byte>) {
    Folded(name) == CONTENT_LENGTH && value != [] ==>
      !flags.contentLength && DigitsOrSpaces(value) && Decimal(0, value) <= MAX_CONTENT_LENGTH
  }

  predicate Blank(b: byte) {
    b == SP || b == TAB
  }

  /** A value without the blanks before it, as far as its line. */
  predicate Trimmed(value: seq<byte>) {
    NoBreak(value) && (value != [] ==> !Blank(value[0]))
  }

  predicate HeaderChars(value: seq<byte>) {
    forall i :: 0 <= i < |value| ==> IsHeaderChar(value[i])
  }

  /** The flags and the length a value leaves, read from the parser `q` at the end of its line. */
  predicate ValueSets(p: Parser, q: Parser, name: seq<byte>, value: seq<byte>) {
    && ValueEndFlags(q.flags, q.headerState) == HeaderFlags(p.flags, name, value)
    && q == p.(state := HeaderValue, flags := q.flags, headerState := q.headerState, index := q.index,
               contentLength := HeaderLength(p.contentLength, name, value))
  }

  lemma CodingStart(p: Parser, first: byte)
    requires p.errno == Ok && p.state.HeaderValueDiscardWs? && p.headerState.HTransferEncoding?
    requires first != CR && first != LF && !Blank(first)
    ensures Transition(p, first, false).p == p.(state := HeaderValue, headerState := CodingState([first]), index := 0)
  {
    hide CodingState;
    CodingFirst(first);
  }

  lemma CodingFlags(flags: Flags, value: seq<byte>)
    ensures ValueEndFlags(flags, CodingState(value)) == flags.(chunked := flags.chunked || Padded(value, CHUNKED))
  {
    hide Padded;
    hide Begins;
  }

  lemma CodingValue(p: Parser, value: seq<byte>)
    requires p.errno == Ok && p.state.HeaderValueDiscardWs? && p.headerState.HTransferEncoding?
    requires value != [] && Trimmed(value)
    ensures var q := ValueRead(p, value);
      q.errno == Ok ==>
        && q == p.(state := HeaderValue, headerState := CodingState(value), index := q.index)
        && ValueEndFlags(q.flags, q.headerState) == p.flags.(chunked := p.flags.chunked || Padded(value, CHUNKED))
  {
    hide HeaderValueByte;
    hide Transition;
    hide CodingState;
    hide Progress;
    var first, rest := value[0], value[1..];
    CodingStart(p, first);
    assert [first] + rest == value;
    CodingRun(Transition(p, first, false).p, false, [first], rest);
    CodingFlags(p.flags, value);
  }

  lemma OptionsValue(p: Parser, value: seq<byte>)
    requires p.errno == Ok && p.state.HeaderValueDiscardWs? && p.headerState.HConnection?
    requires value != [] && Trimmed(value)
    ensures ListRead(p.(state := HeaderValue), ValueRead(p, value), Items(value))
  {
    hide HeaderValueByte;
    hide Items;
    hide OptionFlags;
    ItemFirst(value[0]);
    assert value[..1] == [value[0]];
    assert !EndsItem(value, 0);
    ItemRun(Transition(p, value[0], false).p, false, value, 1);
  }

  lemma OtherValue(p: Parser, value: seq<byte>)
    requires p.errno == Ok && p.state.HeaderValueDiscardWs? && NameState(p.headerState)
    requires !p.headerState.HConnection? && !p.headerState.HTransferEncoding? && !p.headerState.HContentLength?
    requires value != [] && Trimmed(value)
    ensures var q := ValueRead(p, value);
      q.errno == Ok ==>
        && q == p.(state := HeaderValue, headerState := HGeneral, index := 0, flags := q.flags)
        && q.flags == if p.headerState.HUpgrade? then p.flags.(upgrade := true) else p.flags
  {
    hide HeaderValueByte;
    GeneralKept(Transition(p, value[0], false).p, false, value[1..]);
  }

  lemma LengthValue(p: Parser, value: seq<byte>)
    requires p.errno == Ok && p.state.HeaderValueDiscardWs? && p.headerState.HContentLength?
    requires value != [] && Trimmed(value)
    ensures var q := ValueRead(p, value);
      && (q.errno == Ok <==> !p.flags.contentLength && DigitsOrSpaces(value) && Decimal(0, value) <= MAX_CONTENT_LENGTH)
      && (q.errno == Ok ==>
            q == p.(state := HeaderValue, index := 0, flags := p.flags.(contentLength := true),
                    contentLength := Decimal(0, value)))
  {
    hide HeaderValueByte;
    ContentLengthValue(p, value);
    var first, rest := value[0], value[1..];
    ContentLengthStart(p, first);
    if IsNum(first) && !p.flags.contentLength {
      ContentLengthExact(Transition(p, first, false).p, false, rest);
    }
  }

  lemma FoldedIsLower(name: seq<byte>)
    requires Tokens(name)
    ensures Folded(name) == LowerName(name)
  {
  }

  /** Whatever the value: if the parser takes it, the line leaves exactly those flags and that length. */
  lemma ValueSetsFlags(p: Parser, name: seq<byte>, value: seq<byte>)
    requires p.errno == Ok && p.state.HeaderValueDiscardWs? && NameState(p.headerState)
    requires Tokens(name) && Recognised(p.headerState, LowerName(name)) && value != [] && Trimmed(value)
    ensures ValueRead(p, value).errno == Ok ==> LengthAllowed(p.flags, name, value) && ValueSets(p, ValueRead(p, value), name, value)
  {
    hide ValueRead;
    hide Items;
    hide OptionFlags;
    hide Padded;
    FoldedIsLower(name);
    WordsDiffer();
    if p.headerState.HTransferEncoding? {
      CodingValue(p, value);
    } else if p.headerState.HConnection? {
      OptionsValue(p, value);
    } else if p.headerState.HContentLength? {
      LengthValue(p, value);
    } else {
      OtherValue(p, value);
    }
  }

  lemma PlainByte(p: Parser, b: byte, skip: bool)
    requires p.errno == Ok && p.state.HeaderValue? && ValueState(p.headerState) && !p.headerState.HContentLength?
    requires b != CR && b != LF && IsHeaderChar(b)
    ensures var q := HeaderValueByte(p, b, skip).p;
      q.errno == Ok && q.state.HeaderValue? && ValueState(q.headerState) && !q.headerState.HContentLength?
  {
  }

  lemma {:induction false} PlainRun(p: Parser, skip: bool, bytes: seq<byte>)
    requires p.errno == Ok && p.state.HeaderValue? && ValueState(p.headerState) && !p.headerState.HContentLength?
    requires NoBreak(bytes) && HeaderChars(bytes)
    ensures ValueRun(p, skip, bytes).p.errno == Ok
    decreases |bytes|
  {
    hide HeaderValueByte;
    hide ValueState;
    if bytes != [] {
      PlainByte(p, bytes[0], skip);
      PlainRun(HeaderValueByte(p, bytes[0], skip).p, p.headerState.HGeneral?, bytes[1..]);
    }
  }

  lemma StartPlain(p: Parser, b: byte)
    requires p.errno == Ok && p.state.HeaderValueDiscardWs? && NameState(p.headerState) && !p.headerState.HContentLength?
    requires b != CR && b != LF && !Blank(b)
    ensures var q := Transition(p, b, false).p;
      q.errno == Ok && q.state.HeaderValue? && ValueState(q.headerState) && !q.headerState.HContentLength?
  {
  }

  /** A value of header characters is refused exactly as a length that is not allowed. */
  lemma ValueAccepted(p: Parser, name: seq<byte>, value: seq<byte>)
    requires p.errno == Ok && p.state.HeaderValueDiscardWs? && NameState(p.headerState)
    requires Tokens(name) && Recognised(p.headerState, LowerName(name)) && value != [] && Trimmed(value)
    requires HeaderChars(value)
    ensures ValueRead(p, value).errno == Ok <==> LengthAllowed(p.flags, name, value)
  {
    hide Transition;
    FoldedIsLower(name);
    if p.headerState.HContentLength? {
      LengthValue(p, value);
    } else {
      StartPlain(p, value[0]);
      PlainRun(Transition(p, value[0], false).p, false, value[1..]);
    }
  }
}
