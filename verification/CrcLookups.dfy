/** The table loops, and the bits they keep: every byte or nibble looked up is a block of message bits clocked in. */
module CrcLookups {

  import opened CrcBits
  import opened CrcWords
  import opened CrcLoops
  import opened CrcTables

  const BYTE_MASK := Word(0xff)
  const NIBBLE_MASK := Word(0xf)

  /** The index a byte table is read at. */
  function Index(c: Config, p: Word, b: Byte): Word {
    if c.width <= 8 then And(Plus(ReflectByte(c, b), p), BYTE_MASK)
    else And(Plus(ReflectByte(c, b), ShiftRight(p, c.width - 8)), BYTE_MASK)
  }

  function TableByte(c: Config, t: Table, p: Word, b: Byte): Word {
    var e := Word(Fetch(t, Index(c, p, b).v));
    if c.width <= 8 then e else Plus(e, ShiftLeft(p, 8))
  }

  function TableRun(c: Config, t: Table, p: Word, data: seq<Byte>): Word {
    if data == [] then p
    else TableByte(c, t, TableRun(c, t, p, data[..|data| - 1]), data[|data| - 1])
  }

  function Nibble(p: Word, d: Word): Word {
    Plus(ShiftRight(p, 4), Word(CRC_32BIT_REV_ANSI.At(And(Plus(p, d), NIBBLE_MASK).v)))
  }

  function NibbleByte(p: Word, b: Byte): Word {
    Nibble(Nibble(p, FromByte(b)), ShiftRight(FromByte(b), 4))
  }

  function NibbleRun(p: Word, data: seq<Byte>): Word {
    if data == [] then p else NibbleByte(NibbleRun(p, data[..|data| - 1]), data[|data| - 1])
  }

  // ---------------------------------------------------------------- byte tables

  /** The register a byte table works on: the 7-bit table keeps its register one place to the left. */
  function TableWidth(c: Config): (w: nat)
    ensures 8 <= w
  {
    if c.width < 8 then 8 else c.width
  }

  predicate EntryRight(c: Config, t: Table, poly: Word, i: Word) {
    High(Word(Fetch(t, i.v)), TableWidth(c)) == Entry(High(poly, TableWidth(c)), High(i, 8))
  }

  lemma IndexBits(c: Config, p: Word, b: Byte)
    requires c.width <= 32
    ensures High(Index(c, p, b), 8) == Xor(High(p, TableWidth(c))[..8], ByteBits(c, b))
    ensures Index(c, p, b).v < 0x100
  {
    var q := if c.width <= 8 then p else ShiftRight(p, c.width - 8);
    var d := ReflectByte(c, b);
    assert High(q, 8) == High(p, TableWidth(c))[..8] by {
      if c.width > 8 {
        HighShiftRight(p, 8, c.width - 8);
      }
    }
    ReflectByteBits(c, b);
    HighXor(d, q, 8);
    XorCommutes(High(d, 8), High(q, 8));
    HighMasked(Plus(d, q), 8);
    assert And(Plus(d, q), BYTE_MASK).v < 0x100;
  }

  lemma XorCommutes(a: Bits, b: Bits)
    requires |a| == |b|
    ensures Xor(a, b) == Xor(b, a)
  {
  }

  /** A table step clocks the byte in exactly when the entry it reads is right. */
  lemma TableByteExact(c: Config, t: Table, poly: Word, p: Word, b: Byte)
    requires c.width <= 32
    ensures High(TableByte(c, t, p, b), TableWidth(c))
         == Feeds(High(poly, TableWidth(c)), High(p, TableWidth(c)), ByteBits(c, b))
       <==> EntryRight(c, t, poly, Index(c, p, b))
  {
    hide High;
    hide Fetch;
    IndexBits(c, p, b);
    LookupBits(c, t, p, b);
    LookupExact(High(poly, TableWidth(c)), High(p, TableWidth(c)), ByteBits(c, b),
                High(Word(Fetch(t, Index(c, p, b).v)), TableWidth(c)));
  }

  lemma LookupBits(c: Config, t: Table, p: Word, b: Byte)
    requires c.width <= 32
    ensures High(TableByte(c, t, p, b), TableWidth(c))
         == Lookup(High(Word(Fetch(t, Index(c, p, b).v)), TableWidth(c)), High(p, TableWidth(c)), 8)
  {
    hide High;
    hide Fetch;
    hide Index;
    var w := TableWidth(c);
    var e := Word(Fetch(t, Index(c, p, b).v));
    if c.width <= 8 {
      WholeRegister(High(e, w), High(p, w));
    } else {
      ShiftByte(p, w);
      HighXor(e, ShiftLeft(p, 8), w);
    }
  }

  lemma WholeRegister(entry: Bits, r: Bits)
    requires |entry| == |r| == 8
    ensures Lookup(entry, r, 8) == entry
  {
  }

  lemma ShiftByte(p: Word, w: nat)
    requires 8 <= w <= 32
    ensures High(ShiftLeft(p, 8), w) == High(p, w)[8..] + Zeros(8)
  {
    HighShiftLeft(p, w - 8, 8);
    HighLow(p, 8, w - 8);
  }

  /** Every index the run reads, in order. */
  predicate IndicesRight(c: Config, t: Table, poly: Word, p: Word, data: seq<Byte>) {
    forall k :: 0 <= k < |data| ==> EntryRight(c, t, poly, Index(c, TableRun(c, t, p, data[..k]), data[k]))
  }

  lemma {:induction false} TableFeeds(c: Config, t: Table, poly: Word, p: Word, data: seq<Byte>)
    requires c.width <= 32 && IndicesRight(c, t, poly, p, data)
    ensures High(TableRun(c, t, p, data), TableWidth(c))
         == Feeds(High(poly, TableWidth(c)), High(p, TableWidth(c)), MessageBits(c, data))
  {
    if data != [] {
      var n := |data| - 1;
      var init, b := data[..n], data[n];
      forall k | 0 <= k < n
        ensures EntryRight(c, t, poly, Index(c, TableRun(c, t, p, init[..k]), init[k]))
      {
        assert init[..k] == data[..k];
      }
      TableFeeds(c, t, poly, p, init);
      var w := TableWidth(c);
      TableByteExact(c, t, poly, TableRun(c, t, p, init), b);
      FeedsAppend(High(poly, w), High(p, w), MessageBits(c, init), ByteBits(c, b));
    }
  }

  // ---------------------------------------------------------------- the tables hold what the bit loop computes

  lemma EightStepsAreBitSteps(c: Config, x: Word)
    ensures BitSteps(c, x, 8) == EightSteps(x, c.polynomial, c.TopBit())
  {
    FourSteps(c, x, 8);
    FourSteps(c, BitStep(c, BitStep(c, BitStep(c, BitStep(c, x)))), 4);
  }

  lemma FourSteps(c: Config, x: Word, n: nat)
    requires n >= 4
    ensures BitSteps(c, x, n) == BitSteps(c, BitStep(c, BitStep(c, BitStep(c, BitStep(c, x)))), n - 4)
  {
    OneStep(c, x, n);
    OneStep(c, BitStep(c, x), n - 1);
    OneStep(c, BitStep(c, BitStep(c, x)), n - 2);
    OneStep(c, BitStep(c, BitStep(c, BitStep(c, x))), n - 3);
  }

  lemma OneStep(c: Config, x: Word, n: nat)
    requires n >= 1
    ensures BitSteps(c, x, n) == BitSteps(c, BitStep(c, x), n - 1)
  {
  }

  /** The bit loop run from an index at the top of the register computes the entry for that index. */
  lemma StepsMakeEntry(c: Config, i: Word)
    requires 8 <= c.width <= 32
    ensures State(c, BitSteps(c, ShiftLeft(i, c.width - 8), 8)) == Entry(State(c, c.polynomial), High(i, 8))
  {
    HighShiftLeft(i, 8, c.width - 8);
    BitStepsFeeds(c, ShiftLeft(i, c.width - 8), 8);
  }
}
