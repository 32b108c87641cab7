/** The right-shifting CRC-32: read lowest bit first, its register is the register of the left-shifting one. */
module CrcReversed {

  import opened CrcBits
  import opened CrcWords
  import opened CrcLoops
  import opened CrcTables
  import opened CrcLookups
  import opened CrcNamed

  lemma ReverseXor(a: Bits, b: Bits)
    requires |a| == |b|
    ensures Reverse(Xor(a, b)) == Xor(Reverse(a), Reverse(b))
  {
  }

  lemma LowXor(x: Word, y: Word, n: nat)
    ensures Low(Plus(x, y), n) == Xor(Low(x, n), Low(y, n))
  {
    HighXor(x, y, n);
    LowIsReverse(x, n);
    LowIsReverse(y, n);
    LowIsReverse(Plus(x, y), n);
    ReverseXor(High(x, n), High(y, n));
  }

  lemma HalfTopClear(x: Word)
    ensures !High(Half(x), 32)[0]
  {
    TopBits();
    TopBitTest(Half(x), 32);
    assert And(Half(x), Word(0x8000_0000)).v == 0;
  }

  lemma HighHalf(x: Word)
    ensures High(Half(x), 32) == [false] + High(x, 32)[..31]
  {
    HalfTopClear(x);
    HighTail(Half(x), 32);
    HeadTail(High(Half(x), 32), High(Half(x), 31), Odd(x));
  }

  lemma HeadTail(b: Bits, tail: Bits, last: bool)
    requires b != [] && b[1..] == tail
    ensures b == [b[0]] + (tail + [last])[..|tail|]
  {
  }

  lemma LowHalf(x: Word)
    ensures Low(Half(x), 32) == Low(x, 32)[1..] + [false]
  {
    hide Half;
    hide High;
    hide Low;
    HighHalf(x);
    LowIsReverse(x, 32);
    LowIsReverse(Half(x), 32);
    ReverseShift(High(x, 32));
  }

  lemma ReverseShift(b: Bits)
    requires b != []
    ensures Reverse([false] + b[..|b| - 1]) == Reverse(b)[1..] + [false]
  {
  }

  lemma StepRightFeeds(x: Word, poly: Word)
    ensures Low(StepRight(x, poly), 32) == Feed(Low(poly, 32), Low(x, 32), false)
  {
    LowHalf(x);
    LowXor(Half(x), poly, 32);
    assert Low(x, 32)[0] == Odd(x);
  }

  lemma FourStepsRightFeeds(x: Word, poly: Word)
    ensures Low(FourStepsRight(x, poly), 32) == Feeds(Low(poly, 32), Low(x, 32), Zeros(4))
  {
    var p := Low(poly, 32);
    var x1 := StepRight(x, poly);
    var x2 := StepRight(x1, poly);
    var x3 := StepRight(x2, poly);
    StepRightFeeds(x, poly);
    StepRightFeeds(x1, poly);
    StepRightFeeds(x2, poly);
    StepRightFeeds(x3, poly);
    FourFeeds(p, Low(x, 32));
  }

  lemma FourFeeds(p: Bits, r: Bits)
    requires |p| == |r| > 0
    ensures Feeds(p, r, Zeros(4)) == Feed(p, Feed(p, Feed(p, Feed(p, r, false), false), false), false)
  {
    OneFeed(p, r, 4);
    var r1 := Feed(p, r, false);
    OneFeed(p, r1, 3);
    var r2 := Feed(p, r1, false);
    OneFeed(p, r2, 2);
    OneFeed(p, Feed(p, r2, false), 1);
  }

  lemma OneFeed(p: Bits, r: Bits, n: nat)
    requires |p| == |r| > 0 && n > 0
    ensures Feeds(p, r, Zeros(n)) == Feeds(p, Feed(p, r, false), Zeros(n - 1))
  {
    assert Zeros(n)[1..] == Zeros(n - 1);
  }

  lemma LowSplit(x: Word, j: nat, k: nat)
    ensures Low(x, j + k) == Low(x, j) + Low(ShiftRight(x, j), k)
    decreases j
  {
    if j > 0 {
      LowSplit(Half(x), j - 1, k);
      assert [Odd(x)] + (Low(Half(x), j - 1) + Low(ShiftRight(Half(x), j - 1), k))
          == [Odd(x)] + Low(Half(x), j - 1) + Low(ShiftRight(Half(x), j - 1), k);
    } else {
      assert [] + Low(x, k) == Low(x, k);
    }
  }

  lemma {:induction false} LowShiftRight(x: Word, k: nat)
    requires k <= 32
    ensures Low(ShiftRight(x, k), 32) == Low(x, 32)[k..] + Zeros(k)
    decreases k
  {
    if k > 0 {
      LowShiftRight(Half(x), k - 1);
      LowHalf(x);
      assert (Low(x, 32)[1..] + [false])[k - 1..] + Zeros(k - 1) == Low(x, 32)[k..] + Zeros(k);
    } else {
      assert Low(x, 32)[0..] + Zeros(0) == Low(x, 32);
    }
  }

  lemma LowZero(n: nat)
    ensures Low(ZERO, n) == Zeros(n)
  {
    HighZero(n);
    LowIsReverse(ZERO, n);
  }

  /** A nibble's bits, in a word. */
  lemma SmallLow(i: Word)
    requires i.v < 0x10
    ensures Low(i, 32) == Low(i, 4) + Zeros(28)
  {
    LowSplit(i, 4, 28);
    FourHalves(i);
    LowZero(28);
  }

  lemma FourHalves(i: Word)
    requires i.v < 0x10
    ensures ShiftRight(i, 4) == ZERO
  {
    var h := Half(Half(Half(Half(i))));
    assert h.v == 0;
    assert ShiftRight(i, 4) == ShiftRight(Half(Half(i)), 2);
    assert ShiftRight(Half(Half(i)), 2) == h;
  }

  lemma NibbleEntry(i: Word)
    requires i.v < 0x10
    ensures Low(Word(CRC_32BIT_REV_ANSI.At(i.v)), 32) == Entry(Low(POLY_32BIT_REV_ANSI, 32), Low(i, 4))
  {
    RevAnsiTable(i.v);
    SameWord(Word(CRC_32BIT_REV_ANSI.At(i.v)), FourStepsRight(i, POLY_32BIT_REV_ANSI));
    FourStepsRightFeeds(i, POLY_32BIT_REV_ANSI);
    SmallLow(i);
  }

  lemma NibbleIndex(p: Word, d: Word)
    ensures And(Plus(p, d), NIBBLE_MASK).v < 0x10
    ensures Low(And(Plus(p, d), NIBBLE_MASK), 4) == Xor(Low(p, 32)[..4], Low(d, 4))
  {
    NibbleRange(Plus(p, d));
    NibbleMasked(Plus(p, d));
    LowXor(p, d, 4);
    LowSplit(p, 4, 28);
  }

  lemma NibbleRange(x: Word)
    ensures And(x, NIBBLE_MASK).v < 0x10
  {
  }

  lemma NibbleMasked(x: Word)
    ensures Low(And(x, NIBBLE_MASK), 4) == Low(x, 4)
  {
    HighMasked(x, 4);
    LowIsReverse(And(x, NIBBLE_MASK), 4);
    LowIsReverse(x, 4);
  }

  lemma NibbleFeeds(p: Word, d: Word)
    ensures Low(Nibble(p, d), 32) == Feeds(Low(POLY_32BIT_REV_ANSI, 32), Low(p, 32), Low(d, 4))
  {
    var i := And(Plus(p, d), NIBBLE_MASK);
    var r := Low(p, 32);
    var entry := Low(Word(CRC_32BIT_REV_ANSI.At(i.v)), 32);
    NibbleIndex(p, d);
    NibbleEntry(i);
    LookupIsFeeds(Low(POLY_32BIT_REV_ANSI, 32), r, Low(d, 4));
    LowShiftRight(p, 4);
    LowXor(ShiftRight(p, 4), Word(CRC_32BIT_REV_ANSI.At(i.v)), 32);
    XorCommutes(entry, r[4..] + Zeros(4));
  }

  lemma NibbleByteFeeds(p: Word, b: Byte)
    ensures Low(NibbleByte(p, b), 32) == Feeds(Low(POLY_32BIT_REV_ANSI, 32), Low(p, 32), Low(FromByte(b), 8))
  {
    var d := FromByte(b);
    NibbleFeeds(p, d);
    NibbleFeeds(Nibble(p, d), ShiftRight(d, 4));
    LowSplit(d, 4, 4);
    FeedsAppend(Low(POLY_32BIT_REV_ANSI, 32), Low(p, 32), Low(d, 4), Low(ShiftRight(d, 4), 4));
  }

  /** The nibble loop clocks in the bits of every byte lowest first. */
  lemma {:induction false} NibbleRunFeeds(c: Config, p: Word, data: seq<Byte>)
    requires c.reflectData
    ensures Low(NibbleRun(p, data), 32)
         == Feeds(Low(POLY_32BIT_REV_ANSI, 32), Low(p, 32), MessageBits(c, data))
  {
    if data != [] {
      var init, b := data[..|data| - 1], data[|data| - 1];
      NibbleRunFeeds(c, p, init);
      NibbleByteFeeds(NibbleRun(p, init), b);
      FeedsAppend(Low(POLY_32BIT_REV_ANSI, 32), Low(p, 32), MessageBits(c, init), ByteBits(c, b));
    }
  }

  /** The low half of one CRC-32 polynomial mirrors part of the other. */
  lemma MirrorHalves()
    ensures Low(Word(0xEDB8), 16) == High(POLY_32BIT_ANSI, 16)
  {
    hide High;
    var y := POLY_32BIT_ANSI;
    MirrorPair(Word(0x3), Word(0x0), y, 0);
    MirrorPair(Word(0xE), Word(0x3), y, 2);
    MirrorPair(Word(0x3B), Word(0xE), y, 4);
    MirrorPair(Word(0xED), Word(0x3B), y, 6);
    MirrorPair(Word(0x3B6), Word(0xED), y, 8);
    MirrorPair(Word(0xEDB), Word(0x3B6), y, 10);
    MirrorPair(Word(0x3B6E), Word(0xEDB), y, 12);
    MirrorPair(Word(0xEDB8), Word(0x3B6E), y, 14);
  }

  /** The two CRC-32 polynomials are each other's mirror image. */
  lemma MirrorPolynomials()
    ensures Low(POLY_32BIT_REV_ANSI, 32) == High(POLY_32BIT_ANSI, 32)
  {
    hide High;
    var y := POLY_32BIT_ANSI;
    MirrorHalves();
    MirrorPair(Word(0x3B6E2), Word(0xEDB8), y, 16);
    MirrorPair(Word(0xEDB88), Word(0x3B6E2), y, 18);
    MirrorPair(Word(0x3B6E20), Word(0xEDB88), y, 20);
    MirrorPair(Word(0xEDB883), Word(0x3B6E20), y, 22);
    MirrorPair(Word(0x3B6E20C), Word(0xEDB883), y, 24);
    MirrorPair(Word(0xEDB8832), Word(0x3B6E20C), y, 26);
    MirrorPair(Word(0x3B6E20C8), Word(0xEDB8832), y, 28);
    MirrorPair(Word(0xEDB88320), Word(0x3B6E20C8), y, 30);
  }

  /** The bit of value 1 << n. */
  predicate PlaceSet(y: Word, n: nat)
    requires n < 32
  {
    y.v & (OnesBits(n) + 1) != 0
  }

  lemma MirrorBit(x: Word, y: Word, n: nat)
    requires n < 32 && Low(Half(x), n) == High(y, n) && Odd(x) == PlaceSet(y, n)
    ensures Low(x, n + 1) == High(y, n + 1)
  {
    hide Half;
    hide Odd;
    hide High;
    PlaceBit(y, n);
    TopBitTest(y, n + 1);
    HighTail(y, n + 1);
  }

  lemma PlaceBit(y: Word, n: nat)
    requires n < 32
    ensures PlaceSet(y, n) <==> HasBit(y, ShiftLeft(ONE, n))
  {
    PlaceBitAt(y, n, OnesBits(n) + 1);
  }

  lemma PlaceBitAt(y: Word, n: nat, bit: bv32)
    requires n < 32 && bit == OnesBits(n) + 1
    ensures y.v & bit != 0 <==> HasBit(y, ShiftLeft(ONE, n))
  {
    hide HasBit;
    OnesIsMask(n);
    SameWord(ShiftLeft(ONE, n), Word(bit));
    BitTest(y, bit);
  }

  lemma BitTest(y: Word, bit: bv32)
    ensures HasBit(y, Word(bit)) <==> y.v & bit != 0
  {
    assert And(y, Word(bit)).v == y.v & bit;
  }

  lemma MirrorPair(x: Word, x2: Word, y: Word, n: nat)
    requires n <= 30 && x2 == Half(Half(x)) && Low(x2, n) == High(y, n)
    requires Odd(Half(x)) == PlaceSet(y, n) && Odd(x) == PlaceSet(y, n + 1)
    ensures Low(x, n + 2) == High(y, n + 2)
  {
    hide Half;
    hide Odd;
    hide Low;
    hide High;
    hide PlaceSet;
    MirrorBit(Half(x), y, n);
    MirrorBit(x, y, n + 1);
  }
}
