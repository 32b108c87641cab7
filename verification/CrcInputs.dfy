/** Messages on which the 16-bit IBM engine goes wrong, or reads what is missing and still comes out right. */
module CrcInputs {

  import opened CrcBits
  import opened CrcWords
  import opened CrcLoops
  import opened CrcTables
  import opened CrcLookups
  import opened CrcNamed
  import opened CrcCompute
  import opened CrcIbm
  import opened CrcAgreement

  /** The default 16-bit IBM engine on one byte: the missing entry is read once. */
  lemma IbmCounterexample()
    ensures Compute(IBM_16, TABLE, [0x3f]) != Compute(IBM_16, BITWISE, [0x3f])
  {
    hide Stop;
    hide Partial;
    var data: seq<Byte> := [0x3f];
    assert data[..0] == [];
    IbmFirstIndex();
    OneMissIsWrong(IBM_16, ZERO, data, 0);
  }

  lemma IbmFirstIndex()
    ensures Index(IBM_16, ZERO, 0x3f).v == 0xfc
  {
  }

  /** Seven bytes on which the default 16-bit IBM engine reads a missing entry five times. */
  const CANCELLING: seq<Byte> := [0xbf, 0xbf, 0x00, 0xbf, 0xff, 0x00, 0x7f]

  lemma BitByte(x: Word, b: Byte, i: Word)
    requires Reflect(FromByte(b), 8) == i
    ensures BitwiseByte(IBM_16, x, b) == EightSteps(Plus(x, Up8(i)), POLY_16BIT_IBM, Word(0x8000))
  {
    hide EightSteps;
    hide Reflect;
    TopBits();
    ShiftLeft8(i);
    EightStepsAreBitSteps(IBM_16, Plus(x, Up8(i)));
  }

  /** The register of the bit loop after each of the bytes. */
  lemma FirstRegisters()
    ensures EightSteps(Plus(ZERO, Up8(Word(0xfd))), POLY_16BIT_IBM, Word(0x8000)) == Word(0xa9820d)
    ensures EightSteps(Plus(Word(0xa9820d), Up8(Word(0xfd))), POLY_16BIT_IBM, Word(0x8000)) == Word(0xa9558c01)
    ensures EightSteps(Plus(Word(0xa9558c01), Up8(Word(0x0))), POLY_16BIT_IBM, Word(0x8000)) == Word(0x55f7822b)
    ensures EightSteps(Plus(Word(0x55f7822b), Up8(Word(0xfd))), POLY_16BIT_IBM, Word(0x8000)) == Word(0xf755aa01)
  {
  }

  lemma LastRegisters()
    ensures EightSteps(Plus(Word(0xf755aa01), Up8(Word(0xff))), POLY_16BIT_IBM, Word(0x8000)) == Word(0x556600fe)
    ensures EightSteps(Plus(Word(0x556600fe), Up8(Word(0x0))), POLY_16BIT_IBM, Word(0x8000)) == Word(0x6600fe00)
    ensures EightSteps(Plus(Word(0x6600fe00), Up8(Word(0xfe))), POLY_16BIT_IBM, Word(0x8000)) == ZERO
  {
  }

  lemma MirroredBytes()
    ensures Reflect(FromByte(0xbf), 8) == Word(0xfd) && Reflect(FromByte(0x00), 8) == Word(0)
    ensures Reflect(FromByte(0xff), 8) == Word(0xff) && Reflect(FromByte(0x7f), 8) == Word(0xfe)
  {
  }

  /** From byte `k` of the message to the next. */
  lemma CancellingStep(k: nat, x: Word, i: Word, y: Word)
    requires k < |CANCELLING| && BitwiseRun(IBM_16, ZERO, CANCELLING[..k]) == x
    requires Reflect(FromByte(CANCELLING[k]), 8) == i
    requires EightSteps(Plus(x, Up8(i)), POLY_16BIT_IBM, Word(0x8000)) == y
    ensures BitwiseRun(IBM_16, ZERO, CANCELLING[..k + 1]) == y
  {
    hide EightSteps;
    hide BitwiseByte;
    hide Reflect;
    assert CANCELLING[..k + 1][..k] == CANCELLING[..k];
    BitByte(x, CANCELLING[k], i);
  }

  lemma CancellingBits()
    ensures BitwiseRun(IBM_16, ZERO, CANCELLING) == ZERO
  {
    hide EightSteps;
    hide BitwiseRun;
    hide Reflect;
    hide Up8;
    hide Plus;
    FirstRegisters();
    LastRegisters();
    MirroredBytes();
    StartOfRun(IBM_16, ZERO, CANCELLING);
    CancellingStep(0, ZERO, Word(0xfd), Word(0xa9820d));
    CancellingStep(1, Word(0xa9820d), Word(0xfd), Word(0xa9558c01));
    CancellingStep(2, Word(0xa9558c01), Word(0x0), Word(0x55f7822b));
    CancellingStep(3, Word(0x55f7822b), Word(0xfd), Word(0xf755aa01));
    CancellingStep(4, Word(0xf755aa01), Word(0xff), Word(0x556600fe));
    CancellingStep(5, Word(0x556600fe), Word(0x0), Word(0x6600fe00));
    CancellingStep(6, Word(0x6600fe00), Word(0xfe), ZERO);
    assert CANCELLING[..7] == CANCELLING;
  }

  lemma StartOfRun(c: Config, p: Word, data: seq<Byte>)
    ensures BitwiseRun(c, p, data[..0]) == p && TableRun(c, CRC_16BIT_IBM, p, data[..0]) == p
  {
  }

  /** The table register stays at zero all the way. */
  lemma ZeroByte(b: Byte)
    requires b == 0xbf || b == 0x00 || b == 0xff || b == 0x7f
    ensures TableByte(IBM_16, CRC_16BIT_IBM, ZERO, b) == ZERO
    ensures Index(IBM_16, ZERO, b) == Reflect(FromByte(b), 8)
  {
    MirroredBytes();
    hide Reflect;
    ShiftedZero();
    var i := Index(IBM_16, ZERO, b);
    SameWord(i, Reflect(FromByte(b), 8));
    SameWord(Plus(Word(Fetch(CRC_16BIT_IBM, i.v)), ZERO), ZERO);
  }

  lemma ShiftedZero()
    ensures ShiftRight(ZERO, 8) == ZERO && ShiftLeft(ZERO, 8) == ZERO
  {
    SameWord(Half(ZERO), ZERO);
    SameWord(Double(ZERO), ZERO);
    ShiftedZeros(8);
  }

  lemma {:induction false} ShiftedZeros(k: nat)
    requires Half(ZERO) == ZERO && Double(ZERO) == ZERO
    ensures ShiftRight(ZERO, k) == ZERO && ShiftLeft(ZERO, k) == ZERO
  {
    if k > 0 {
      ShiftedZeros(k - 1);
    }
  }

  lemma {:induction false} CancellingTable(k: nat)
    requires k <= |CANCELLING|
    ensures TableRun(IBM_16, CRC_16BIT_IBM, ZERO, CANCELLING[..k]) == ZERO
  {
    hide TableByte;
    if k == 0 {
      StartOfRun(IBM_16, ZERO, CANCELLING);
    } else {
      assert CANCELLING[..k][..k - 1] == CANCELLING[..k - 1];
      CancellingTable(k - 1);
      ZeroByte(CANCELLING[k - 1]);
    }
  }

  lemma CancellingMisses(k: nat)
    requires k < |CANCELLING|
    ensures Misses(IBM_16, ZERO, CANCELLING, k) <==> k != 2 && k != 5
  {
    CancellingTable(k);
    ZeroByte(CANCELLING[k]);
    MirroredBytes();
  }

  /** Reading missing entries does not always show: here they are read at five bytes, and the CRC is right. */
  lemma IbmCancels()
    ensures Compute(IBM_16, TABLE, CANCELLING) == Compute(IBM_16, BITWISE, CANCELLING)
    ensures forall k :: 0 <= k < |CANCELLING| ==> (Misses(IBM_16, ZERO, CANCELLING, k) <==> k != 2 && k != 5)
  {
    hide Finish;
    hide BitwiseRun;
    hide Misses;
    CancellingBits();
    CancellingTable(7);
    assert CANCELLING[..7] == CANCELLING;
    WideStop(IBM_16, Partial(IBM_16, BITWISE, ZERO, CANCELLING));
    forall k | 0 <= k < |CANCELLING| ensures Misses(IBM_16, ZERO, CANCELLING, k) <==> k != 2 && k != 5 {
      CancellingMisses(k);
    }
  }
}
