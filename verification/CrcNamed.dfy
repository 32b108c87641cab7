/** The six named polynomials, each at its own width, and the proof that their tables are right. */
module CrcNamed {

  import opened CrcBits
  import opened CrcWords
  import opened CrcLoops
  import opened CrcTables
  import opened CrcLookups

  const POLY_8BIT_CCITT := Word(0x07)
  const POLY_7BIT_SD := Word(0x9)
  const POLY_16BIT_CCITT := Word(0x1021)
  const POLY_16BIT_IBM := Word(0x8005)
  const POLY_32BIT_ANSI := Word(0x04C1_1DB7)
  const POLY_32BIT_REV_ANSI := Word(0xEDB8_8320)

  lemma ShiftLeft8(x: Word)
    ensures ShiftLeft(x, 8) == Up8(x)
  {
    FourDoubles(x, 4);
    FourDoubles(x, 0);
  }

  lemma FourDoubles(x: Word, k: nat)
    ensures ShiftLeft(x, k + 4) == Double(Double(Double(Double(ShiftLeft(x, k)))))
  {
    OneDouble(x, k + 3);
    OneDouble(x, k + 2);
    OneDouble(x, k + 1);
    OneDouble(x, k);
  }

  lemma OneDouble(x: Word, k: nat)
    ensures ShiftLeft(x, k + 1) == Double(ShiftLeft(x, k))
  {
  }

  lemma ShiftLeft24(x: Word)
    ensures ShiftLeft(x, 24) == Up8(Up8(Up8(x)))
  {
    ShiftLeft8(x);
    ShiftLeftTwice(x, 8, 8);
    ShiftLeft8(ShiftLeft(x, 8));
    ShiftLeftTwice(x, 16, 8);
    ShiftLeft8(ShiftLeft(x, 16));
  }

  lemma {:induction false} ShiftLeftTwice(x: Word, j: nat, k: nat)
    ensures ShiftLeft(ShiftLeft(x, j), k) == ShiftLeft(x, j + k)
  {
    if k > 0 {
      ShiftLeftTwice(x, j, k - 1);
    }
  }

  lemma TopBits()
    ensures ShiftLeft(ONE, 7) == Word(0x80)
    ensures ShiftLeft(ONE, 15) == Word(0x8000)
    ensures ShiftLeft(ONE, 31) == Word(0x8000_0000)
  {
    OnesIsMask(7);
    OnesIsMask(15);
    OnesIsMask(31);
  }

  // ---------------------------------------------------------------- every entry is right

  lemma Ansi32Right(c: Config, i: Word)
    requires c.width == 32 && c.polynomial == POLY_32BIT_ANSI && i.v < 0x100
    ensures EntryRight(c, CRC_32BIT_ANSI, c.polynomial, i)
  {
    var x := ShiftLeft(i, 24);
    hide High;
    hide Fetch;
    hide EightSteps;
    TopBits();
    ShiftLeft24(i);
    Ansi32Table(i.v);
    EightStepsAreBitSteps(c, x);
    StepsMakeEntry(c, i);
    SameWord(Word(Fetch(CRC_32BIT_ANSI, i.v)), BitSteps(c, x, 8));
  }

  lemma SameWord(x: Word, y: Word)
    requires x.v == y.v
    ensures x == y
  {
  }

  lemma Ccitt16Right(c: Config, i: Word)
    requires c.width == 16 && c.polynomial == POLY_16BIT_CCITT && i.v < 0x100
    ensures EntryRight(c, CRC_16BIT_CCITT, c.polynomial, i)
  {
    hide High;
    hide Fetch;
    hide EightSteps;
    Ccitt16Table(i.v);
    Steps16(c, i);
    MaskedEntry(Fetch(CRC_16BIT_CCITT, i.v), EightSteps(Up8(i), c.polynomial, Word(0x8000)), 16);
  }

  /** The bit loop on a 16-bit register, as the tables compute it. */
  lemma Steps16(c: Config, i: Word)
    requires c.width == 16
    ensures High(EightSteps(Up8(i), c.polynomial, Word(0x8000)), 16) == Entry(High(c.polynomial, 16), High(i, 8))
  {
    hide High;
    hide EightSteps;
    TopBits();
    ShiftLeft8(i);
    EightStepsAreBitSteps(c, ShiftLeft(i, 8));
    StepsMakeEntry(c, i);
  }

  lemma MaskedEntry(e: bv32, x: Word, w: nat)
    requires w <= 32 && e == x.v & OnesBits(w)
    ensures High(Word(e), w) == High(x, w)
  {
    SameWord(Word(e), And(x, Ones(w)));
    HighMasked(x, w);
  }

  lemma Ccitt8Right(c: Config, i: Word)
    requires c.width == 8 && c.polynomial == POLY_8BIT_CCITT && i.v < 0x100
    ensures EntryRight(c, CRC_8BIT_CCITT, c.polynomial, i)
  {
    hide High;
    hide Fetch;
    hide EightSteps;
    TopBits();
    Ccitt8Table(i.v);
    assert ShiftLeft(i, 0) == i;
    EightStepsAreBitSteps(c, i);
    StepsMakeEntry(c, i);
    MaskedEntry(Fetch(CRC_8BIT_CCITT, i.v), BitSteps(c, i, 8), 8);
  }

  const POLY_7BIT_SD_ALIGNED := Word(0x12)

  lemma Sd7Right(c: Config, i: Word)
    requires c.width == 7 && i.v < 0x100
    ensures EntryRight(c, CRC_7BIT_SD, POLY_7BIT_SD_ALIGNED, i)
  {
    var c8 := c.(width := 8, polynomial := POLY_7BIT_SD_ALIGNED);
    hide High;
    hide Fetch;
    hide EightSteps;
    TopBits();
    Sd7Table(i.v);
    assert ShiftLeft(i, 0) == i;
    EightStepsAreBitSteps(c8, i);
    StepsMakeEntry(c8, i);
    MaskedEntry(Fetch(CRC_7BIT_SD, i.v), BitSteps(c8, i, 8), 8);
  }

  /** The 16-bit IBM table is right at an index exactly when that index was initialised. */
  lemma Ibm16Right(c: Config, i: Word)
    requires c.width == 16 && c.polynomial == POLY_16BIT_IBM && i.v < 0x100
    ensures EntryRight(c, CRC_16BIT_IBM, c.polynomial, i) <==> i.v < 0xfc
  {
    Ibm16Table(i.v);
    Steps16(c, i);
    var x := EightSteps(Up8(i), POLY_16BIT_IBM, Word(0x8000));
    if i.v < 0xfc {
      MaskedEntry(Fetch(CRC_16BIT_IBM, i.v), x, 16);
    } else {
      Ibm16Missing(i.v);
      ZeroEntry(x);
    }
  }

  lemma ZeroEntry(x: Word)
    requires x.v & 0xffff != 0
    ensures High(Word(0), 16) != High(x, 16)
  {
    MaskedDiffers(x);
    if High(Word(0), 16) == High(x, 16) {
      HighInjective(Word(0), x, 16);
    }
  }

  lemma MaskedDiffers(x: Word)
    requires x.v & 0xffff != 0
    ensures And(Word(0), Ones(16)) != And(x, Ones(16))
  {
    assert And(Word(0), Ones(16)).v == 0;
    assert And(x, Ones(16)).v == x.v & 0xffff;
  }
}
