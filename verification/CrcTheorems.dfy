/** The three ways of computing a CRC agree, pieces can be processed one after the other, and short errors are seen. */
module CrcTheorems {

  import opened CrcBits
  import opened CrcWords
  import opened CrcLoops
  import opened CrcTables
  import opened CrcLookups
  import opened CrcNamed
  import opened CrcReversed
  import opened CrcCompute
  import opened CrcAgreement

  // ---------------------------------------------------------------- the bit loop is division

  /** After any message the register holds the remainder, over GF(2), of seed and message by x^w + polynomial. */
  lemma BitwiseIsRemainder(c: Config, p: Word, data: seq<Byte>, r: Bits)
    requires c.width <= 32 && |r| == StateWidth(c)
    ensures r == State(c, BitwiseRun(c, p, data)) <==>
            exists q: Bits :: |q| == 8 * |data|
                              && Divides(State(c, c.polynomial), Dividend(State(c, p), MessageBits(c, data)), q, r)
  {
    BitwiseFeeds(c, p, data);
    FeedsIsRemainder(State(c, c.polynomial), State(c, p), MessageBits(c, data), r);
  }

  /** `r` is the remainder of initial value and message, its bits taken as the configuration asks. */
  ghost predicate IsRemainder(c: Config, data: seq<Byte>, r: Bits)
    requires |r| == StateWidth(c)
  {
    exists q: Bits :: |q| == 8 * |data|
                      && Divides(State(c, c.polynomial), Dividend(State(c, c.initial), MessageBits(c, data)), q, r)
  }

  /** The remainder as it stands in the finished value: a register below 8 bits is moved to the top of a byte. */
  function Aligned(c: Config, r: Bits): (b: Bits)
    requires |r| == StateWidth(c)
    ensures |b| == TableWidth(c)
  {
    if c.width < 8 then r[7 - c.width..] + Zeros(8 - c.width) else r
  }

  function Finished(c: Config, b: Bits): Bits
    requires |b| == TableWidth(c)
  {
    Xor(if c.reflectRemainder then Reverse(b) else b, High(c.finalXor, TableWidth(c)))
  }

  lemma StopBits(c: Config, p: Word)
    requires c.width <= 32
    ensures High(Stop(c, BITWISE, p), TableWidth(c)) == Finished(c, Aligned(c, State(c, p)))
  {
    hide High;
    hide Low;
    var q := if c.width < 8 then ShiftLeft(p, 8 - c.width) else p;
    FinishBits(c, q);
    LowIsReverse(q, TableWidth(c));
    if c.width < 8 {
      NarrowStop(c, p, 8 - c.width);
    }
  }

  /** The whole bit-by-bit computation: the bits of its value are the remainder of initial value and message, reflected
    * as asked, plus the final xor, and nothing lies above them. From width 7 on the value tells the remainder. */
  lemma ComputeIsRemainder(c: Config, data: seq<Byte>, r: Bits)
    requires Supported(c) && |r| == StateWidth(c)
    ensures var value := Compute(c, BITWISE, data);
      && (IsRemainder(c, data, r) ==> High(value, TableWidth(c)) == Finished(c, Aligned(c, r)))
      && (c.width >= 7 ==> (IsRemainder(c, data, r) <==> High(value, TableWidth(c)) == Finished(c, Aligned(c, r))))
      && And(value, c.Mask()) == value
  {
    hide High;
    hide Low;
    hide State;
    hide Divides;
    hide Dividend;
    hide ReflectRemainder;
    var raw := BitwiseRun(c, c.initial, data);
    BitwiseIsRemainder(c, c.initial, data, r);
    MaskedState(c, raw);
    StopBits(c, Partial(c, BITWISE, c.initial, data));
    MaskTwice(Plus(ReflectRemainder(c, Unfinished(c, And(raw, c.Mask()))), c.finalXor), c.Mask());
    if c.width >= 7 && Finished(c, Aligned(c, r)) == Finished(c, Aligned(c, State(c, raw))) {
      FinishedTells(c, r, State(c, raw));
    }
  }

  /** The register that is reflected and xored. */
  function Unfinished(c: Config, p: Word): Word {
    if c.width < 8 then ShiftLeft(p, 8 - c.width) else p
  }

  lemma MaskTwice(x: Word, m: Word)
    ensures And(And(x, m), m) == And(x, m)
  {
    assert (x.v & m.v) & m.v == x.v & m.v;
  }

  lemma MaskedState(c: Config, p: Word)
    requires c.width <= 32
    ensures State(c, And(p, c.Mask())) == State(c, p)
  {
    hide High;
    RegisterMasked(c, BITWISE, p);
  }

  lemma FinishedTells(c: Config, a: Bits, b: Bits)
    requires 7 <= c.width && |a| == |b| == StateWidth(c)
    requires Finished(c, Aligned(c, a)) == Finished(c, Aligned(c, b))
    ensures a == b
  {
    hide High;
    var x, y := Aligned(c, a), Aligned(c, b);
    if c.reflectRemainder {
      XorCancels(Reverse(x), Reverse(y), High(c.finalXor, TableWidth(c)));
      ReverseInjective(x, y);
    } else {
      XorCancels(x, y, High(c.finalXor, TableWidth(c)));
    }
    if c.width < 8 {
      assert x[..7] == a && y[..7] == b;
    }
  }

  // ---------------------------------------------------------------- forward = right-shifting

  /** A left-shifting CRC-32 with both reflections, and the right-shifting one with none, started from mirrored
    * values. The defaults of both, all ones in and out, are one such pair. */
  predicate Mirrored(f: Config, r: Config) {
    && f.width == r.width == 32
    && f.polynomial == POLY_32BIT_ANSI && f.reflectData && f.reflectRemainder
    && r.polynomial == POLY_32BIT_REV_ANSI
    && High(f.initial, 32) == Low(r.initial, 32)
    && f.finalXor == r.finalXor
  }

  /** At every byte the two registers are bit reversals of each other. */
  lemma RegistersMirror(f: Config, r: Config, data: seq<Byte>)
    requires Mirrored(f, r)
    ensures High(TableRun(f, CRC_32BIT_ANSI, f.initial, data), 32) == Low(NibbleRun(r.initial, data), 32)
  {
    hide High;
    hide Low;
    hide Fetch;
    TableRegister(f, f.initial, data);
    NibbleRunFeeds(f, r.initial, data);
    MirrorPolynomials();
  }

  lemma MaskIsWhole(c: Config, x: Word)
    requires c.width == 32
    ensures And(x, c.Mask()) == x
  {
    MaskIsOnes(c);
    SameWord(And(x, c.Mask()), x);
  }

  /** Both engines return the same CRC-32 for every message. */
  lemma ForwardIsReversed(f: Config, r: Config, data: seq<Byte>)
    requires Mirrored(f, r)
    ensures Compute(f, TABLE, data) == Compute(r, TABLE, data)
  {
    hide High;
    hide Low;
    hide Reflect;
    hide Fetch;
    var x, y := RawRun(f, TABLE, f.initial, data), RawRun(r, TABLE, r.initial, data);
    RegistersMirror(f, r, data);
    MaskIsWhole(f, x);
    MaskIsWhole(r, y);
    LowIsReverse(y, 32);
    LowIsReverse(x, 32);
    ReverseTwice(High(y, 32));
    ReflectBits(x, 32, 32);
    assert Zeros(0) + Low(x, 32) == Low(x, 32);
    SameBits(Reflect(x, 32), y);
  }

  lemma SameBits(x: Word, y: Word)
    requires High(x, 32) == High(y, 32)
    ensures x == y
  {
    hide High;
    HighInjective(x, y, 32);
    Whole(x);
    Whole(y);
  }

  lemma Whole(x: Word)
    ensures And(x, Ones(32)) == x
  {
    assert And(x, Ones(32)).v == x.v;
  }

  predicate AllSet(b: Bits) {
    forall i :: 0 <= i < |b| ==> b[i]
  }

  lemma {:induction false} AllOnes(n: nat)
    requires n <= 32
    ensures AllSet(High(Ones(n), n))
  {
    if n > 0 {
      OnesStep(n);
      AllOnes(n - 1);
      AppendTrue(Ones(n), Ones(n - 1), n - 1);
    }
  }

  lemma AppendTrue(x: Word, half: Word, n: nat)
    requires Odd(x) && Half(x) == half && AllSet(High(half, n))
    ensures AllSet(High(x, n + 1))
  {
    assert High(x, n + 1) == High(half, n) + [true];
  }

  lemma DefaultsMirror()
    ensures Mirrored(ANSI_32, REV_ANSI_32)
  {
    hide High;
    hide Low;
    AllOnes(32);
    LowIsReverse(ALL_ONES, 32);
    AllSetReversed(High(ALL_ONES, 32));
  }

  lemma AllSetReversed(b: Bits)
    requires AllSet(b)
    ensures Reverse(b) == b
  {
  }

  // ---------------------------------------------------------------- one call after another

  /** The register after a message depends on nothing but the register before it. */
  lemma {:induction false} RegisterDepends(c: Config, m: Mode, p: Word, q: Word, data: seq<Byte>)
    requires Runs(c, m) && Register(c, m, p) == Register(c, m, q)
    ensures Register(c, m, RawRun(c, m, p, data)) == Register(c, m, RawRun(c, m, q, data))
  {
    hide High;
    hide Fetch;
    if m.BITWISE? {
      BitwiseFeeds(c, p, data);
      BitwiseFeeds(c, q, data);
    } else if data != [] {
      var init := data[..|data| - 1];
      RegisterDepends(c, m, p, q, init);
      TableByteDepends(c, RawRun(c, m, p, init), RawRun(c, m, q, init), data[|data| - 1]);
    }
  }

  lemma TableByteDepends(c: Config, p: Word, q: Word, b: Byte)
    requires Runs(c, TABLE) && High(p, TableWidth(c)) == High(q, TableWidth(c))
    ensures match TableFor(c.polynomial)
      case Bytes(t) => High(TableByte(c, t, p, b), TableWidth(c)) == High(TableByte(c, t, q, b), TableWidth(c))
      case Nibbles => High(NibbleByte(p, b), 32) == High(NibbleByte(q, b), 32)
  {
    hide High;
    hide Fetch;
    hide NibbleByte;
    match TableFor(c.polynomial)
    case Nibbles => SameBits(p, q);
    case Bytes(t) =>
      IndexDepends(c, p, q, b);
      LookupBits(c, t, p, b);
      LookupBits(c, t, q, b);
  }

  lemma IndexDepends(c: Config, p: Word, q: Word, b: Byte)
    requires c.width <= 32 && High(p, TableWidth(c)) == High(q, TableWidth(c))
    ensures Index(c, p, b) == Index(c, q, b)
  {
    hide High;
    IndexBits(c, p, b);
    IndexBits(c, q, b);
    HighInjective(Index(c, p, b), Index(c, q, b), 8);
    SmallMasked(Index(c, p, b));
    SmallMasked(Index(c, q, b));
  }

  lemma SmallMasked(i: Word)
    requires i.v < 0x100
    ensures And(i, Ones(8)) == i
  {
    SameWord(And(i, Ones(8)), i);
  }

  lemma RunAppend(c: Config, m: Mode, p: Word, a: seq<Byte>, b: seq<Byte>)
    requires Runs(c, m)
    ensures RawRun(c, m, p, a + b) == RawRun(c, m, RawRun(c, m, p, a), b)
    decreases |b|
  {
    hide Fetch;
    hide BitwiseByte;
    hide TableByte;
    hide NibbleByte;
    if b == [] {
      assert a + b == a;
    } else {
      var n := |b| - 1;
      RunAppend(c, m, p, a, b[..n]);
      assert (a + b)[..|a| + n] == a + b[..n];
    }
  }

  /** compute_partial called once for each piece. */
  function Pieces(c: Config, m: Mode, p: Word, pieces: seq<seq<Byte>>): Word
    requires Runs(c, m)
    decreases |pieces|
  {
    if pieces == [] then p
    else Pieces(c, m, Partial(c, m, p, pieces[0]), pieces[1..])
  }

  function Joined(pieces: seq<seq<Byte>>): seq<Byte> {
    if pieces == [] then [] else pieces[0] + Joined(pieces[1..])
  }

  lemma {:induction false} PiecesRegister(c: Config, m: Mode, p: Word, pieces: seq<seq<Byte>>)
    requires Runs(c, m)
    ensures Register(c, m, Pieces(c, m, p, pieces)) == Register(c, m, RawRun(c, m, p, Joined(pieces)))
    decreases |pieces|
  {
    hide High;
    hide Fetch;
    if pieces != [] {
      var x := RawRun(c, m, p, pieces[0]);
      var rest := Joined(pieces[1..]);
      PiecesRegister(c, m, Partial(c, m, p, pieces[0]), pieces[1..]);
      RegisterMasked(c, m, x);
      RegisterDepends(c, m, Partial(c, m, p, pieces[0]), x, rest);
      RunAppend(c, m, p, pieces[0], rest);
    }
  }

  lemma StopDepends(c: Config, m: Mode, p: Word, q: Word)
    requires Runs(c, m) && Register(c, m, p) == Register(c, m, q)
    ensures Stop(c, m, p) == Stop(c, m, q)
  {
    hide High;
    hide ShiftLeft;
    if m.TABLE? && c.polynomial == POLY_32BIT_REV_ANSI {
      SameBits(p, q);
    } else if c.width < 8 && m.BITWISE? {
      var k := 8 - c.width;
      NarrowStop(c, p, k);
      NarrowStop(c, q, k);
      FinishExact(c, ShiftLeft(p, k), ShiftLeft(q, k));
    } else {
      FinishExact(c, p, q);
    }
  }

  lemma NarrowStop(c: Config, p: Word, k: nat)
    requires c.width < 8 && k == 8 - c.width
    ensures High(ShiftLeft(p, k), 8) == State(c, p)[7 - c.width..] + Zeros(k)
  {
    HighShiftLeft(p, c.width, k);
    HighLow(p, 7 - c.width, c.width);
  }

  /** However a message is cut into pieces, the finished CRC is that of the whole message. */
  lemma PiecesAreWhole(c: Config, m: Mode, p: Word, pieces: seq<seq<Byte>>)
    requires Runs(c, m)
    ensures Stop(c, m, Pieces(c, m, p, pieces)) == Stop(c, m, Partial(c, m, p, Joined(pieces)))
  {
    hide High;
    hide Fetch;
    PiecesRegister(c, m, p, pieces);
    RegisterMasked(c, m, RawRun(c, m, p, Joined(pieces)));
    StopDepends(c, m, Pieces(c, m, p, pieces), Partial(c, m, p, Joined(pieces)));
  }

  // ---------------------------------------------------------------- errors that are always seen

  lemma ByteInjective(c: Config, x: Byte, y: Byte)
    requires ByteBits(c, x) == ByteBits(c, y)
    ensures x == y
  {
    hide High;
    hide Low;
    var a, b := FromByte(x), FromByte(y);
    if c.reflectData {
      LowIsReverse(a, 8);
      LowIsReverse(b, 8);
      ReverseInjective(High(a, 8), High(b, 8));
    }
    HighInjective(a, b, 8);
    ByteMasked(x);
    ByteMasked(y);
  }

  lemma ByteMasked(b: Byte)
    ensures And(FromByte(b), Ones(8)).v == b as bv32
  {
  }

  lemma {:induction false} MessageInjective(c: Config, x: seq<Byte>, y: seq<Byte>)
    requires |x| == |y| && MessageBits(c, x) == MessageBits(c, y)
    ensures x == y
  {
    hide ByteBits;
    if x != [] {
      var n := |x| - 1;
      SplitLast(MessageBits(c, x[..n]), ByteBits(c, x[n]), MessageBits(c, y[..n]), ByteBits(c, y[n]));
      MessageInjective(c, x[..n], y[..n]);
      ByteInjective(c, x[n], y[n]);
      assert x == x[..n] + [x[n]] && y == y[..n] + [y[n]];
    }
  }

  lemma SplitLast(a: Bits, b: Bits, c: Bits, d: Bits)
    requires |a| == |c| && a + b == c + d
    ensures a == c && b == d
  {
    assert a == (a + b)[..|a|] && c == (c + d)[..|c|];
    assert b == (a + b)[|a|..] && d == (c + d)[|c|..];
  }

  lemma {:induction false} MessageAppend(c: Config, x: seq<Byte>, y: seq<Byte>)
    ensures MessageBits(c, x + y) == MessageBits(c, x) + MessageBits(c, y)
    decreases |y|
  {
    hide ByteBits;
    if y == [] {
      assert x + y == x;
    } else {
      var n := |y| - 1;
      assert (x + y)[..|x| + n] == x + y[..n];
      MessageAppend(c, x, y[..n]);
    }
  }

  /** Two messages that differ only inside a window of at most width / 8 bytes never have the same CRC: for every odd
    * polynomial of width 8 or more, every seed, final xor and reflection setting. */
  lemma BurstChangesCrc(c: Config, before: seq<Byte>, x: seq<Byte>, y: seq<Byte>, after: seq<Byte>)
    requires Runs(c, BITWISE) && 8 <= c.width && Odd(c.polynomial)
    requires |x| == |y| && 8 * |x| <= c.width && x != y
    ensures Compute(c, BITWISE, before + x + after) != Compute(c, BITWISE, before + y + after)
  {
    hide High;
    hide Stop;
    hide Feeds;
    hide MessageBits;
    hide BitwiseRun;
    var p, s := State(c, c.polynomial), State(c, c.initial);
    var m, n := before + x + after, before + y + after;
    BitwiseFeeds(c, c.initial, m);
    BitwiseFeeds(c, c.initial, n);
    RegisterMasked(c, BITWISE, RawRun(c, BITWISE, c.initial, m));
    RegisterMasked(c, BITWISE, RawRun(c, BITWISE, c.initial, n));
    WindowBits(c, before, x, after);
    WindowBits(c, before, y, after);
    if MessageBits(c, x) == MessageBits(c, y) {
      MessageInjective(c, x, y);
    }
    OddPolynomial(c);
    WideStop(c, Partial(c, BITWISE, c.initial, m));
    WideStop(c, Partial(c, BITWISE, c.initial, n));
    BurstDetected(p, s, MessageBits(c, before), MessageBits(c, x), MessageBits(c, y), MessageBits(c, after));
    if Compute(c, BITWISE, m) == Compute(c, BITWISE, n) {
      FinishExact(c, Partial(c, BITWISE, c.initial, m), Partial(c, BITWISE, c.initial, n));
    }
  }

  lemma WindowBits(c: Config, before: seq<Byte>, x: seq<Byte>, after: seq<Byte>)
    ensures MessageBits(c, before + x + after) == MessageBits(c, before) + MessageBits(c, x) + MessageBits(c, after)
  {
    MessageAppend(c, before + x, after);
    MessageAppend(c, before, x);
  }

  lemma OddPolynomial(c: Config)
    ensures State(c, c.polynomial)[StateWidth(c) - 1] == Odd(c.polynomial)
  {
  }

  /** The engines with a table see the same errors, wherever they return the bit loop's CRC. */
  lemma BurstChangesTable(c: Config, before: seq<Byte>, x: seq<Byte>, y: seq<Byte>, after: seq<Byte>)
    requires ByteTable(c) && 8 <= c.width && |x| == |y| && 8 * |x| <= c.width && x != y
    requires Agrees(c, c.initial, before + x + after) && Agrees(c, c.initial, before + y + after)
    ensures Compute(c, TABLE, before + x + after) != Compute(c, TABLE, before + y + after)
  {
    hide Stop;
    hide Partial;
    hide Agrees;
    TableIsBitwise(c, c.initial, before + x + after);
    TableIsBitwise(c, c.initial, before + y + after);
    BurstChangesCrc(c, before, x, y, after);
  }

  /** So does the right-shifting engine, by its left-shifting mirror image. */
  lemma BurstChangesReversed(c: Config, before: seq<Byte>, x: seq<Byte>, y: seq<Byte>, after: seq<Byte>)
    requires c.width == 32 && c.polynomial == POLY_32BIT_REV_ANSI && |x| == |y| <= 4 && x != y
    ensures Compute(c, TABLE, before + x + after) != Compute(c, TABLE, before + y + after)
  {
    hide Stop;
    hide Partial;
    hide High;
    hide Low;
    hide Reflect;
    var f := Config(POLY_32BIT_ANSI, 32, Reflect(c.initial, 32), c.finalXor, true, true);
    ReflectBits(c.initial, 32, 32);
    assert Zeros(0) + Low(c.initial, 32) == Low(c.initial, 32);
    ForwardIsReversed(f, c, before + x + after);
    ForwardIsReversed(f, c, before + y + after);
    BurstChangesTable(f, before, x, y, after);
  }

  /** In the mode each engine runs in: two messages that differ only inside width / 8 consecutive bytes never share a
    * CRC; of the 16-bit IBM engine this is said of messages whose CRC is right. */
  lemma BurstChangesEngine(c: Config, before: seq<Byte>, x: seq<Byte>, y: seq<Byte>, after: seq<Byte>)
    requires Supported(c) && 8 <= c.width && (c.polynomial == POLY_32BIT_REV_ANSI || Odd(c.polynomial))
    requires |x| == |y| && 8 * |x| <= c.width && x != y
    requires Ibm(c) ==> Agrees(c, c.initial, before + x + after) && Agrees(c, c.initial, before + y + after)
    ensures Compute(c, OwnMode(c), before + x + after) != Compute(c, OwnMode(c), before + y + after)
  {
    hide Compute;
    match TableFor(c.polynomial)
    case NoTable => BurstChangesCrc(c, before, x, y, after);
    case Nibbles => BurstChangesReversed(c, before, x, y, after);
    case Bytes(_) => BurstChangesTable(c, before, x, y, after);
  }
}
