/** When table lookup and the bit loop return the same CRC: exactly when, for every polynomial that has a byte table. */
module CrcAgreement {

  import opened CrcBits
  import opened CrcWords
  import opened CrcLoops
  import opened CrcTables
  import opened CrcLookups
  import opened CrcNamed
  import opened CrcCompute
  import opened CrcIbm

  /** The condition: the 7-bit engine starts from 0, or from 0x87 when there is a message at all; what the 16-bit IBM
    * engine missed cancels out; every other engine always agrees. */
  predicate Agrees(c: Config, p: Word, data: seq<Byte>)
    requires ByteTable(c)
  {
    if c.width == 7 then And(p, BYTE_MASK) == ZERO || (data != [] && And(p, BYTE_MASK) == Word(0x87))
    else if Ibm(c) then Damage(c, p, data, |data|) == Zeros(16)
    else true
  }

  // ---------------------------------------------------------------- the register of the table loop

  lemma EntryIsRight(c: Config, i: Word)
    requires ByteTable(c) && i.v < 0x100 && (Ibm(c) ==> i.v < 0xfc)
    ensures EntryRight(c, TableFor(c.polynomial).t, TablePolynomial(c), i)
  {
    hide EntryRight;
    hide Fetch;
    if c.polynomial == POLY_32BIT_ANSI {
      Ansi32Right(c, i);
    } else if c.polynomial == POLY_8BIT_CCITT {
      Ccitt8Right(c, i);
    } else if c.polynomial == POLY_7BIT_SD {
      Sd7Right(c, i);
    } else if c.polynomial == POLY_16BIT_CCITT {
      Ccitt16Right(c, i);
    } else {
      Ibm16Right(c, i);
    }
  }

  /** Every engine but the 16-bit IBM one clocks the message into its register. */
  lemma TableRegister(c: Config, p: Word, data: seq<Byte>)
    requires ByteTable(c) && !Ibm(c)
    ensures High(TableRun(c, TableFor(c.polynomial).t, p, data), TableWidth(c))
         == Feeds(Divisor(c), High(p, TableWidth(c)), MessageBits(c, data))
  {
    hide EntryRight;
    hide Fetch;
    var t := TableFor(c.polynomial).t;
    forall k | 0 <= k < |data|
      ensures EntryRight(c, t, TablePolynomial(c), Index(c, TableRun(c, t, p, data[..k]), data[k]))
    {
      IndexBits(c, TableRun(c, t, p, data[..k]), data[k]);
      EntryIsRight(c, Index(c, TableRun(c, t, p, data[..k]), data[k]));
    }
    TableFeeds(c, t, TablePolynomial(c), p, data);
  }

  // ---------------------------------------------------------------- the start of the 7-bit engine

  const SEVEN: Bits := [false, false, false, true, false, false, true]
  const START_87: Bits := [true, false, false, false, false, true, true, true]

  lemma SevenBits()
    ensures High(POLY_7BIT_SD, 7) == SEVEN && High(POLY_7BIT_SD_ALIGNED, 8) == SEVEN + [false]
    ensures High(Word(0x87), 8) == START_87
  {
    assert High(POLY_7BIT_SD, 3) == [false, false, true];
    assert High(Word(0x87), 4) == [false, true, true, true];
  }

  lemma FirstStepBits(r: Bits, b: bool)
    requires |r| == 8
    ensures var t := r[0] != b;
      Feed(SEVEN + [false], r, b) == [r[1], r[2], r[3], r[4] != t, r[5], r[6], r[7] != t, false]
  {
  }

  /** Dropping the top bit of the register and shifting it left changes nothing in the first step exactly for two
    * registers. */
  lemma FirstStep(r: Bits, b: bool)
    requires |r| == 8
    ensures Feed(SEVEN + [false], r, b) == Feed(SEVEN + [false], r[1..] + [false], b) <==>
            r == Zeros(8) || r == START_87
  {
    hide Feed;
    var s := r[1..] + [false];
    var x, y := Feed(SEVEN + [false], r, b), Feed(SEVEN + [false], s, b);
    FirstStepBits(r, b);
    FirstStepBits(s, b);
    assert r == [r[0], r[1], r[2], r[3], r[4], r[5], r[6], r[7]];
    if x == y {
      assert x[0] == y[0] && x[1] == y[1] && x[2] == y[2] && x[3] == y[3];
      assert x[4] == y[4] && x[5] == y[5] && x[6] == y[6];
      assert r == if r[0] then START_87 else Zeros(8);
    }
  }

  /** From the second step on nothing can bring the two registers together or apart. */
  lemma SevenExact(r: Bits, m: Bits)
    requires |r| == 8 && m != []
    ensures Feeds(SEVEN + [false], r, m) == Feeds(SEVEN + [false], r[1..] + [false], m) <==>
            r == Zeros(8) || r == START_87
  {
    var p := SEVEN + [false];
    var x, y := Feed(p, r, m[0]), Feed(p, r[1..] + [false], m[0]);
    FirstStep(r, m[0]);
    assert x == x[..7] + [false] && y == y[..7] + [false];
    LeftAligned(SEVEN, x[..7], m[1..]);
    LeftAligned(SEVEN, y[..7], m[1..]);
    if Feeds(p, x, m[1..]) == Feeds(p, y, m[1..]) {
      SameInit(Feeds(SEVEN, x[..7], m[1..]), Feeds(SEVEN, y[..7], m[1..]));
      FeedsInjective(SEVEN, x[..7], y[..7], m[1..]);
    }
  }

  lemma SameInit(a: Bits, b: Bits)
    requires a + [false] == b + [false]
    ensures a == b
  {
    SameLast(a, b, false, false);
  }

  /** The starting value as a word and as bits. */
  lemma StartBits(p: Word)
    ensures And(p, BYTE_MASK) == ZERO <==> High(p, 8) == Zeros(8)
    ensures And(p, BYTE_MASK) == Word(0x87) <==> High(p, 8) == START_87
    ensures High(p, 7) == High(p, 8)[1..]
  {
    hide High;
    ByteIs(p, ZERO);
    ByteIs(p, Word(0x87));
    HighZero(8);
    SevenBits();
    HighTail(p, 8);
  }

  lemma ByteIs(p: Word, q: Word)
    requires q.v < 0x100
    ensures And(p, BYTE_MASK) == q <==> High(p, 8) == High(q, 8)
  {
    hide High;
    HighMasked(p, 8);
    SmallByte(q);
    if High(p, 8) == High(q, 8) {
      HighInjective(p, q, 8);
    }
  }

  lemma SmallByte(q: Word)
    requires q.v < 0x100
    ensures And(q, Ones(8)) == q
  {
    SameWord(And(q, Ones(8)), q);
  }

  // ---------------------------------------------------------------- the exact condition

  /** The register the bit loop's finished value is made of, at the width of the table register. */
  function BitRegister(c: Config, p: Word, data: seq<Byte>): (r: Bits)
    requires ByteTable(c)
    ensures |r| == TableWidth(c)
  {
    var r := Feeds(State(c, c.polynomial), State(c, p), MessageBits(c, data));
    if c.width < 8 then r + [false] else r
  }

  lemma StopsCompared(c: Config, p: Word, data: seq<Byte>)
    requires ByteTable(c)
    ensures Stop(c, TABLE, Partial(c, TABLE, p, data)) == Stop(c, BITWISE, Partial(c, BITWISE, p, data))
       <==> High(RawRun(c, TABLE, p, data), TableWidth(c)) == BitRegister(c, p, data)
  {
    hide High;
    hide Fetch;
    hide ShiftLeft;
    hide Finish;
    hide Feeds;
    hide MessageBits;
    hide BitwiseRun;
    hide TableRun;
    var x, y := Partial(c, TABLE, p, data), Partial(c, BITWISE, p, data);
    RegisterMasked(c, TABLE, RawRun(c, TABLE, p, data));
    RegisterMasked(c, BITWISE, RawRun(c, BITWISE, p, data));
    BitwiseFeeds(c, p, data);
    if c.width < 8 {
      HighShiftLeft(y, 7, 1);
      assert Zeros(1) == [false];
      FinishExact(c, x, ShiftLeft(y, 1));
    } else {
      FinishExact(c, x, y);
    }
  }

  /** Table lookup and the bit loop return the same CRC exactly when Agrees holds. */
  lemma TableIsBitwise(c: Config, p: Word, data: seq<Byte>)
    requires ByteTable(c)
    ensures Stop(c, TABLE, Partial(c, TABLE, p, data)) == Stop(c, BITWISE, Partial(c, BITWISE, p, data))
       <==> Agrees(c, p, data)
  {
    hide High;
    hide Fetch;
    hide Stop;
    hide Partial;
    StopsCompared(c, p, data);
    if c.width == 7 {
      TableRegister(c, p, data);
      SevenRegisters(c, p, data);
    } else if Ibm(c) {
      IbmRegister(c, p, data);
      XorSame(Feeds(Divisor(c), High(p, 16), MessageBits(c, data)), Damage(c, p, data, |data|));
    } else {
      TableRegister(c, p, data);
    }
  }

  lemma SevenRegisters(c: Config, p: Word, data: seq<Byte>)
    requires c.width == 7 && c.polynomial == POLY_7BIT_SD
    ensures Feeds(Divisor(c), High(p, 8), MessageBits(c, data)) == BitRegister(c, p, data) <==> Agrees(c, p, data)
  {
    hide High;
    var m := MessageBits(c, data);
    SevenBits();
    StartBits(p);
    LeftAligned(SEVEN, High(p, 7), m);
    if data == [] {
      var r := High(p, 8);
      assert r == r[1..] + [false] <==> r == Zeros(8) by {
        ShiftFixed(r);
      }
    } else {
      SevenExact(High(p, 8), m);
    }
  }

  lemma ShiftFixed(r: Bits)
    requires |r| == 8
    ensures r == r[1..] + [false] <==> r == Zeros(8)
  {
    var s := r[1..] + [false];
    if r == s {
      assert r[7] == s[7] && r[6] == s[6] && r[5] == s[5] && r[4] == s[4];
      assert r[3] == s[3] && r[2] == s[2] && r[1] == s[1] && r[0] == s[0];
    }
  }

  /** With its default settings every engine but the 16-bit IBM one computes what the bit loop would. */
  lemma DefaultsAgree(c: Config, data: seq<Byte>)
    requires c == ANSI_32 || c == CCITT_16 || c == SD_7 || c == CCITT_8
    ensures Compute(c, TABLE, data) == Compute(c, BITWISE, data)
  {
    hide High;
    hide Stop;
    hide Partial;
    SameWord(And(ZERO, BYTE_MASK), ZERO);
    TableIsBitwise(c, c.initial, data);
  }

  /** A start from which the 7-bit engine does not return the CRC, for any message at all. */
  lemma SevenBadStart(c: Config, data: seq<Byte>)
    requires c == SD_7.(initial := ONE)
    ensures Compute(c, TABLE, data) != Compute(c, BITWISE, data)
  {
    hide High;
    hide Stop;
    hide Partial;
    assert And(ONE, BYTE_MASK).v == 1;
    TableIsBitwise(c, ONE, data);
  }

  // ---------------------------------------------------------------- the 16-bit IBM engine

  /** Exactly one missed entry always gives a wrong CRC. */
  lemma OneMissIsWrong(c: Config, p: Word, data: seq<Byte>, k: nat)
    requires Ibm(c) && Supported(c) && k < |data| && Misses(c, p, data, k)
    requires forall j :: 0 <= j < |data| && j != k ==> !Misses(c, p, data, j)
    ensures Stop(c, TABLE, Partial(c, TABLE, p, data)) != Stop(c, BITWISE, Partial(c, BITWISE, p, data))
  {
    hide High;
    hide Stop;
    hide Partial;
    hide Missed;
    MissedShows(c, p, data, k);
    OnlyDamage(c, p, data, k, |data|);
    TableIsBitwise(c, p, data);
  }

  /** When nothing is missed the CRC is right. */
  lemma NoMissIsRight(c: Config, p: Word, data: seq<Byte>)
    requires Ibm(c) && Supported(c) && forall j :: 0 <= j < |data| ==> !Misses(c, p, data, j)
    ensures Stop(c, TABLE, Partial(c, TABLE, p, data)) == Stop(c, BITWISE, Partial(c, BITWISE, p, data))
  {
    hide High;
    hide Stop;
    hide Partial;
    NoDamage(c, p, data, |data|);
    TableIsBitwise(c, p, data);
  }
}
