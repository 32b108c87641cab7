/** A whole computation: start, any number of partial steps, stop; and what the result depends on. */
module CrcCompute {

  import opened CrcBits
  import opened CrcWords
  import opened CrcLoops
  import opened CrcTables
  import opened CrcLookups
  import opened CrcNamed

  datatype Mode = TABLE | BITWISE

  datatype CrcTable = NoTable | Bytes(t: Table) | Nibbles

  /** The table the constructor picks, by polynomial alone. */
  function TableFor(polynomial: Word): CrcTable {
    if polynomial == POLY_32BIT_ANSI then Bytes(CRC_32BIT_ANSI)
    else if polynomial == POLY_32BIT_REV_ANSI then Nibbles
    else if polynomial == POLY_8BIT_CCITT then Bytes(CRC_8BIT_CCITT)
    else if polynomial == POLY_7BIT_SD then Bytes(CRC_7BIT_SD)
    else if polynomial == POLY_16BIT_CCITT then Bytes(CRC_16BIT_CCITT)
    else if polynomial == POLY_16BIT_IBM then Bytes(CRC_16BIT_IBM)
    else NoTable
  }

  /** A polynomial that has a table is used at the width the table was made for. */
  predicate Supported(c: Config) {
    && c.width <= 32
    && (c.polynomial == POLY_32BIT_ANSI || c.polynomial == POLY_32BIT_REV_ANSI ==> c.width == 32)
    && (c.polynomial == POLY_8BIT_CCITT ==> c.width == 8)
    && (c.polynomial == POLY_7BIT_SD ==> c.width == 7)
    && (c.polynomial == POLY_16BIT_CCITT || c.polynomial == POLY_16BIT_IBM ==> c.width == 16)
  }

  function OwnMode(c: Config): Mode {
    if TableFor(c.polynomial).NoTable? then BITWISE else TABLE
  }

  /** TABLE needs a table; BITWISE can always be run, with or without one. */
  predicate Runs(c: Config, m: Mode) {
    Supported(c) && (m.TABLE? ==> !TableFor(c.polynomial).NoTable?)
  }

  function RawRun(c: Config, m: Mode, p: Word, data: seq<Byte>): Word
    requires Runs(c, m)
  {
    if m.BITWISE? then BitwiseRun(c, p, data)
    else match TableFor(c.polynomial)
      case Bytes(t) => TableRun(c, t, p, data)
      case Nibbles => NibbleRun(p, data)
  }

  function Partial(c: Config, m: Mode, p: Word, data: seq<Byte>): Word
    requires Runs(c, m)
  {
    And(RawRun(c, m, p, data), c.Mask())
  }

  function Finish(c: Config, p: Word): Word {
    And(Plus(ReflectRemainder(c, p), c.finalXor), c.Mask())
  }

  /** A narrow register without a table is moved to the top of its byte; the right-shifting table is never reflected. */
  function Stop(c: Config, m: Mode, p: Word): Word {
    var q := if c.width < 8 && m.BITWISE? then ShiftLeft(p, 8 - c.width) else p;
    if m.TABLE? && c.polynomial == POLY_32BIT_REV_ANSI then And(Plus(q, c.finalXor), c.Mask())
    else Finish(c, q)
  }

  function Compute(c: Config, m: Mode, data: seq<Byte>): Word
    requires Runs(c, m)
  {
    Stop(c, m, Partial(c, m, c.initial, data))
  }

  predicate ByteTable(c: Config) {
    Supported(c) && TableFor(c.polynomial).Bytes?
  }

  predicate Ibm(c: Config) {
    c.width == 16 && c.polynomial == POLY_16BIT_IBM
  }

  /** The polynomial as the table's register holds it. */
  function TablePolynomial(c: Config): Word {
    if c.width < 8 then POLY_7BIT_SD_ALIGNED else c.polynomial
  }

  function Divisor(c: Config): (p: Bits)
    ensures |p| == TableWidth(c)
  {
    High(TablePolynomial(c), TableWidth(c))
  }

  // ---------------------------------------------------------------- what the result depends on

  const ALL_ONES := Word(0xffff_ffff)

  /** The default settings of each named polynomial. */
  const ANSI_32 := Config(POLY_32BIT_ANSI, 32, ALL_ONES, ALL_ONES, true, true)
  const REV_ANSI_32 := Config(POLY_32BIT_REV_ANSI, 32, ALL_ONES, ALL_ONES, false, false)
  const IBM_16 := Config(POLY_16BIT_IBM, 16, ZERO, ZERO, true, true)
  const CCITT_16 := Config(POLY_16BIT_CCITT, 16, ALL_ONES, ZERO, false, false)
  const SD_7 := Config(POLY_7BIT_SD, 7, ZERO, ZERO, false, false)
  const CCITT_8 := Config(POLY_8BIT_CCITT, 8, ZERO, ZERO, false, false)

  function RegisterWidth(c: Config, m: Mode): nat {
    if m.BITWISE? then StateWidth(c) else TableWidth(c)
  }

  function Register(c: Config, m: Mode, p: Word): (r: Bits)
    ensures |r| == RegisterWidth(c, m)
  {
    High(p, RegisterWidth(c, m))
  }

  lemma MaskIsOnes(c: Config)
    requires c.width <= 32
    ensures c.Mask() == Ones(TableWidth(c))
  {
    OnesIsMask(c.width);
  }

  lemma RegisterMasked(c: Config, m: Mode, p: Word)
    requires c.width <= 32
    ensures Register(c, m, And(p, c.Mask())) == Register(c, m, p)
  {
    hide OnesBits;
    hide High;
    MaskIsOnes(c);
    HighMasked(p, TableWidth(c));
    if c.width < 8 {
      HighTail(And(p, c.Mask()), 8);
      HighTail(p, 8);
    }
  }

  /** The bits of a finished value are the register's, in order or reversed, plus the final xor. */
  lemma FinishBits(c: Config, p: Word)
    requires c.width <= 32
    ensures High(Finish(c, p), TableWidth(c)) ==
            Xor(if c.reflectRemainder then Low(p, TableWidth(c)) else High(p, TableWidth(c)),
                High(c.finalXor, TableWidth(c)))
  {
    hide OnesBits;
    hide High;
    hide Low;
    var w := TableWidth(c);
    MaskIsOnes(c);
    HighMasked(Plus(ReflectRemainder(c, p), c.finalXor), w);
    HighXor(ReflectRemainder(c, p), c.finalXor, w);
    ReflectBits(p, w, w);
    assert Zeros(0) + Low(p, w) == Low(p, w);
  }

  /** A finished value tells the register apart from every other one, and nothing more. */
  lemma FinishExact(c: Config, p: Word, q: Word)
    requires c.width <= 32
    ensures Finish(c, p) == Finish(c, q) <==> High(p, TableWidth(c)) == High(q, TableWidth(c))
  {
    hide High;
    hide Low;
    var w := TableWidth(c);
    FinishBits(c, p);
    FinishBits(c, q);
    LowIsReverse(p, w);
    LowIsReverse(q, w);
    if Finish(c, p) == Finish(c, q) {
      if c.reflectRemainder {
        XorCancels(Low(p, w), Low(q, w), High(c.finalXor, w));
        ReverseInjective(High(p, w), High(q, w));
      } else {
        XorCancels(High(p, w), High(q, w), High(c.finalXor, w));
      }
    }
    if High(p, w) == High(q, w) {
      MaskedEqual(c, Plus(ReflectRemainder(c, p), c.finalXor), Plus(ReflectRemainder(c, q), c.finalXor));
    }
  }

  lemma WideStop(c: Config, p: Word)
    requires 8 <= c.width
    ensures Stop(c, BITWISE, p) == Finish(c, p)
  {
  }

  lemma MaskedEqual(c: Config, x: Word, y: Word)
    requires c.width <= 32
    requires High(And(x, c.Mask()), TableWidth(c)) == High(And(y, c.Mask()), TableWidth(c))
    ensures And(x, c.Mask()) == And(y, c.Mask())
  {
    hide OnesBits;
    hide High;
    MaskIsOnes(c);
    HighMasked(x, TableWidth(c));
    HighMasked(y, TableWidth(c));
    HighInjective(x, y, TableWidth(c));
  }
}
