/** The driver class: its loops, each proved to compute the function that CrcCompute and CrcTheorems speak about. */
module CrcEngine {

  import opened CrcWords
  import opened CrcLoops
  import opened CrcTables
  import opened CrcLookups
  import opened CrcNamed
  import opened CrcCompute

  class MbedCRC {
    const polynomial: Word
    const width: nat
    var initialValue: Word
    var finalXor: Word
    var reflectData: bool
    var reflectRemainder: bool
    var crcTable: CrcTable
    var mode: Mode

    function Settings(): Config
      reads this
    {
      Config(polynomial, width, initialValue, finalXor, reflectData, reflectRemainder)
    }

    ghost predicate Valid()
      reads this
    {
      width <= 32 && crcTable == TableFor(polynomial) && mode == OwnMode(Settings())
    }

    /** Picks the table by polynomial alone; a polynomial without one is run bit by bit. */
    constructor (polynomial: Word, width: nat, initialXor: Word, finalXor: Word, reflectData: bool, reflectRemainder: bool)
      requires width <= 32
      ensures Valid()
      ensures Settings() == Config(polynomial, width, initialXor, finalXor, reflectData, reflectRemainder)
    {
      this.polynomial := polynomial;
      this.width := width;
      this.initialValue := initialXor;
      this.finalXor := finalXor;
      this.reflectData := reflectData;
      this.reflectRemainder := reflectRemainder;
      crcTable := TableFor(polynomial);
      mode := if TableFor(polynomial).NoTable? then BITWISE else TABLE;
    }

    /** The loop that both reflections share: bit 0 goes to the top, and so on downwards. */
    method ReflectLoop(x: Word, nBits: nat) returns (reflection: Word)
      ensures reflection == Reflect(x, nBits)
    {
      reflection := ZERO;
      var data := x;
      for bit := 0 to nBits
        invariant Or(reflection, Reflect(data, nBits - bit)) == Reflect(x, nBits)
      {
        hide Or;
        hide Half;
        hide Odd;
        var place := ShiftLeft(ONE, (nBits - 1) - bit);
        if Odd(data) {
          OrAssociates(reflection, place, Reflect(Half(data), nBits - bit - 1));
          reflection := Or(reflection, place);
        }
        data := Half(data);
      }
      OrZero(reflection);
    }

    method ReflectedRemainder(data: Word) returns (r: Word)
      ensures r == CrcLoops.ReflectRemainder(Settings(), data)
    {
      if reflectRemainder {
        r := ReflectLoop(data, if width < 8 then 8 else width);
      } else {
        r := data;
      }
    }

    method ReflectedByte(b: Byte) returns (r: Word)
      ensures r == CrcLoops.ReflectByte(Settings(), b)
    {
      if reflectData {
        r := ReflectLoop(FromByte(b), 8);
      } else {
        r := FromByte(b);
      }
    }

    /** Widths below 8: message and register are shifted side by side. */
    method NarrowBits(buffer: array<Byte>, size: nat, crc: Word) returns (p: Word)
      requires width < 8 && size <= buffer.Length
      ensures p == BitwiseRun(Settings(), crc, buffer[..size])
    {
      ghost var c := Settings();
      p := crc;
      for byte := 0 to size
        invariant p == BitwiseRun(c, crc, buffer[..byte])
      {
        hide Double;
        hide Plus;
        hide And;
        hide HasBit;
        var data := ReflectedByte(buffer[byte]);
        ghost var p0, d0 := p, data;
        for bit := 8 downto 0
          invariant NarrowSteps(c, p, data, bit) == NarrowSteps(c, p0, d0, 8)
        {
          ghost var p1, d1 := p, data;
          p := Double(p);
          if HasBit(Plus(data, p), Settings().TopBit()) {
            p := Plus(p, polynomial);
          }
          data := And(Double(data), Word(0xff));
          assert NarrowSteps(c, p1, d1, bit + 1) == NarrowSteps(c, p, data, bit);
        }
        OneMore(buffer[..], byte);
      }
    }

    /** Widths from 8 on: the byte is added at the top, then the register is shifted eight times. */
    method WideBits(buffer: array<Byte>, size: nat, crc: Word) returns (p: Word)
      requires 8 <= width && size <= buffer.Length
      ensures p == BitwiseRun(Settings(), crc, buffer[..size])
    {
      ghost var c := Settings();
      p := crc;
      for byte := 0 to size
        invariant p == BitwiseRun(c, crc, buffer[..byte])
      {
        hide Double;
        hide Plus;
        hide HasBit;
        var data := ReflectedByte(buffer[byte]);
        p := Plus(p, ShiftLeft(data, width - 8));
        ghost var p0 := p;
        for bit := 8 downto 0
          invariant BitSteps(c, p, bit) == BitSteps(c, p0, 8)
        {
          if HasBit(p, Settings().TopBit()) {
            p := Plus(Double(p), polynomial);
          } else {
            p := Double(p);
          }
        }
        OneMore(buffer[..], byte);
      }
    }

    method BitwiseComputePartial(buffer: array<Byte>, size: nat, crc: Word) returns (r: Word)
      requires Supported(Settings()) && size <= buffer.Length
      ensures r == Partial(Settings(), BITWISE, crc, buffer[..size])
    {
      var p;
      if width < 8 {
        p := NarrowBits(buffer, size, crc);
      } else {
        p := WideBits(buffer, size, crc);
      }
      r := And(p, Settings().Mask());
    }

    method TableComputePartial(buffer: array<Byte>, size: nat, crc: Word) returns (r: Word)
      requires Valid() && Runs(Settings(), TABLE) && size <= buffer.Length
      ensures r == Partial(Settings(), TABLE, crc, buffer[..size])
    {
      var p := crc;
      if width <= 8 {
        p := NarrowTable(buffer, size, crc);
      } else if width <= 16 || polynomial != POLY_32BIT_REV_ANSI {
        p := WideTable(buffer, size, crc);
      } else {
        for i := 0 to size
          invariant p == NibbleRun(crc, buffer[..i])
        {
          ghost var p0 := p;
          p := Plus(ShiftRight(p, 4),
                    Word(CRC_32BIT_REV_ANSI.At(And(Plus(p, FromByte(buffer[i])), NIBBLE_MASK).v)));
          assert p == Nibble(p0, FromByte(buffer[i]));
          p := Plus(ShiftRight(p, 4),
                    Word(CRC_32BIT_REV_ANSI.At(And(Plus(p, ShiftRight(FromByte(buffer[i]), 4)), NIBBLE_MASK).v)));
          OneMore(buffer[..], i);
        }
      }
      r := And(p, Settings().Mask());
    }

    method NarrowTable(buffer: array<Byte>, size: nat, crc: Word) returns (p: Word)
      requires Valid() && crcTable.Bytes? && width <= 8 && size <= buffer.Length
      ensures p == TableRun(Settings(), crcTable.t, crc, buffer[..size])
    {
      p := crc;
      for byte := 0 to size
        invariant p == TableRun(Settings(), crcTable.t, crc, buffer[..byte])
      {
        hide Fetch;
        hide Plus;
        hide And;
        var data := ReflectedByte(buffer[byte]);
        var index := And(Plus(data, p), BYTE_MASK);
        p := Word(Fetch(crcTable.t, index.v));
        OneMore(buffer[..], byte);
      }
    }

    method WideTable(buffer: array<Byte>, size: nat, crc: Word) returns (p: Word)
      requires Valid() && crcTable.Bytes? && 8 < width && size <= buffer.Length
      ensures p == TableRun(Settings(), crcTable.t, crc, buffer[..size])
    {
      p := crc;
      for byte := 0 to size
        invariant p == TableRun(Settings(), crcTable.t, crc, buffer[..byte])
      {
        hide Fetch;
        hide Plus;
        hide And;
        var data := ReflectedByte(buffer[byte]);
        var index := And(Plus(data, ShiftRight(p, width - 8)), BYTE_MASK);
        p := Plus(Word(Fetch(crcTable.t, index.v)), ShiftLeft(p, 8));
        OneMore(buffer[..], byte);
      }
    }

    method ComputePartialStart() returns (crc: Word)
      ensures crc == Settings().initial
    {
      crc := initialValue;
    }

    method ComputePartial(buffer: array<Byte>, size: nat, crc: Word) returns (r: Word)
      requires Valid() && Supported(Settings()) && size <= buffer.Length
      ensures r == Partial(Settings(), OwnMode(Settings()), crc, buffer[..size])
    {
      match mode
      case TABLE => r := TableComputePartial(buffer, size, crc);
      case BITWISE => r := BitwiseComputePartial(buffer, size, crc);
    }

    method ComputePartialStop(crc: Word) returns (r: Word)
      requires Valid()
      ensures r == Stop(Settings(), OwnMode(Settings()), crc)
    {
      var p := crc;
      if width < 8 && crcTable.NoTable? {
        p := ShiftLeft(p, 8 - width);
      }
      if mode == TABLE && polynomial == POLY_32BIT_REV_ANSI {
        r := And(Plus(p, finalXor), Settings().Mask());
      } else {
        var q := ReflectedRemainder(p);
        r := And(Plus(q, finalXor), Settings().Mask());
      }
    }

    method Compute(buffer: array<Byte>, size: nat) returns (crc: Word)
      requires Valid() && Supported(Settings()) && size <= buffer.Length
      ensures crc == CrcCompute.Compute(Settings(), OwnMode(Settings()), buffer[..size])
    {
      crc := ComputePartialStart();
      crc := ComputePartial(buffer, size, crc);
      crc := ComputePartialStop(crc);
    }
  }

  lemma OrZero(x: Word)
    ensures Or(x, ZERO) == x
  {
    assert Or(x, ZERO).v == x.v;
  }

  lemma OneMore(s: seq<Byte>, i: nat)
    requires i < |s|
    ensures s[..i + 1][..i] == s[..i] && s[..i + 1][i] == s[i]
  {
  }
}
