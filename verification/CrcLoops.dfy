/** The engine's loops as functions on 32-bit words, and what each of them does to the bits it keeps. */
module CrcLoops {

  import opened CrcBits
  import opened CrcWords

  type Byte = bv8

  function FromByte(b: Byte): Word { Word(b as bv32) }

  /** The template and constructor arguments. */
  datatype Config = Config(polynomial: Word, width: nat, initial: Word, finalXor: Word,
                           reflectData: bool, reflectRemainder: bool) {
    function TopBit(): Word {
      if width < 8 then ShiftLeft(ONE, 7) else ShiftLeft(ONE, width - 1)
    }

    function Mask(): Word {
      if width < 8 then Word(0xff) else Word(ShiftLeft(ONE, width).v - 1)
    }
  }

  // ---------------------------------------------------------------- reflection

  /** The low `n` bits of `x` in the opposite order. */
  function Reflect(x: Word, n: nat): Word
    decreases n
  {
    if n == 0 then ZERO
    else if Odd(x) then Or(ShiftLeft(ONE, n - 1), Reflect(Half(x), n - 1))
    else Reflect(Half(x), n - 1)
  }

  lemma {:induction false} ReflectBits(x: Word, n: nat, m: nat)
    requires n <= m <= 32
    ensures High(Reflect(x, n), m) == Zeros(m - n) + Low(x, n)
    decreases n
  {
    if n == 0 {
      HighZero(m);
      assert Zeros(m) + [] == Zeros(m);
    } else {
      ReflectBits(Half(x), n - 1, m);
      var rest := Reflect(Half(x), n - 1);
      if Odd(x) {
        OrCommutes(ShiftLeft(ONE, n - 1), rest);
        SetBit(rest, m, n - 1);
      }
      ReflectPlace(Low(Half(x), n - 1), Odd(x), m);
    }
  }

  lemma ReflectPlace(low: Bits, first: bool, m: nat)
    requires |low| < m
    ensures (Zeros(m - |low|) + low)[m - 1 - |low| := first] == Zeros(m - |low| - 1) + ([first] + low)
    ensures !first ==> Zeros(m - |low|) + low == Zeros(m - |low| - 1) + ([first] + low)
  {
  }

  lemma OrCommutes(x: Word, y: Word)
    ensures Or(x, y) == Or(y, x)
  {
  }

  lemma OrAssociates(x: Word, y: Word, z: Word)
    ensures Or(Or(x, y), z) == Or(x, Or(y, z))
  {
  }

  function ReflectByte(c: Config, b: Byte): Word {
    if c.reflectData then Reflect(FromByte(b), 8) else FromByte(b)
  }

  function ReflectRemainder(c: Config, p: Word): Word {
    if c.reflectRemainder then Reflect(p, if c.width < 8 then 8 else c.width) else p
  }

  /** The order in which the bits of a byte enter the register. */
  function ByteBits(c: Config, b: Byte): (m: Bits)
    ensures |m| == 8
  {
    if c.reflectData then Low(FromByte(b), 8) else High(FromByte(b), 8)
  }

  function MessageBits(c: Config, data: seq<Byte>): (m: Bits)
    ensures |m| == 8 * |data|
  {
    if data == [] then [] else MessageBits(c, data[..|data| - 1]) + ByteBits(c, data[|data| - 1])
  }

  /** The bits of a byte, lowest first. */
  function Rising(b: Byte): Bits {
    [b & 1 != 0, b & 2 != 0, b & 4 != 0, b & 8 != 0, b & 16 != 0, b & 32 != 0, b & 64 != 0, b & 128 != 0]
  }

  lemma ByteOdd(b: Byte)
    ensures var x := FromByte(b); var x1 := Half(x); var x2 := Half(x1); var x3 := Half(x2); var x4 := Half(x3);
      Rising(b) == [Odd(x), Odd(x1), Odd(x2), Odd(x3), Odd(x4), Odd(Half(x4)), Odd(Half(Half(x4))), Odd(Half(Half(Half(x4))))]
  {
  }

  lemma LowTwo(x: Word, n: nat)
    ensures Low(x, n + 2) == [Odd(x), Odd(Half(x))] + Low(Half(Half(x)), n)
  {
    hide Half;
    hide Odd;
  }

  lemma Pairs(a: bool, b: bool, c: bool, d: bool, e: bool, f: bool, g: bool, h: bool)
    ensures [a, b] + ([c, d] + ([e, f] + ([g, h] + []))) == [a, b, c, d, e, f, g, h]
  {
  }

  lemma LowEight(b: Byte)
    ensures Low(FromByte(b), 8) == Rising(b)
  {
    hide Half;
    hide Odd;
    hide Rising;
    var x := FromByte(b);
    var x2 := Half(Half(x));
    var x4 := Half(Half(x2));
    var x6 := Half(Half(x4));
    ByteOdd(b);
    LowTwo(x, 6);
    LowTwo(x2, 4);
    LowTwo(x4, 2);
    LowTwo(x6, 0);
    assert Low(Half(Half(x6)), 0) == [];
    hide Low;
    Pairs(Odd(x), Odd(Half(x)), Odd(x2), Odd(Half(x2)), Odd(x4), Odd(Half(x4)), Odd(x6), Odd(Half(x6)));
  }

  /** Highest bit first, or lowest first where the data is reflected. */
  lemma ByteBitsAre(c: Config, b: Byte)
    ensures ByteBits(c, b) == if c.reflectData then Rising(b) else Reverse(Rising(b))
  {
    hide Low;
    hide High;
    hide Rising;
    LowEight(b);
    LowIsReverse(FromByte(b), 8);
    ReverseTwice(High(FromByte(b), 8));
  }

  /** The message is the bits of its bytes, one byte after the other. */
  lemma {:induction false} MessageBitsAt(c: Config, data: seq<Byte>, k: nat)
    requires k < |data|
    ensures MessageBits(c, data)[8 * k..8 * k + 8] == ByteBits(c, data[k])
    decreases |data|
  {
    hide ByteBits;
    var n := |data| - 1;
    if k < n {
      MessageBitsAt(c, data[..n], k);
      assert MessageBits(c, data)[8 * k..8 * k + 8] == MessageBits(c, data[..n])[8 * k..8 * k + 8];
    }
  }

  lemma ReflectByteBits(c: Config, b: Byte)
    ensures High(ReflectByte(c, b), 8) == ByteBits(c, b)
    ensures High(ReflectByte(c, b), 32) == Zeros(24) + ByteBits(c, b)
  {
    if c.reflectData {
      ReflectBits(FromByte(b), 8, 8);
      ReflectBits(FromByte(b), 8, 32);
      assert Zeros(0) + Low(FromByte(b), 8) == Low(FromByte(b), 8);
    } else {
      ByteHigh(b);
    }
  }

  lemma ByteHigh(b: Byte)
    ensures High(FromByte(b), 32) == Zeros(24) + High(FromByte(b), 8)
  {
    HighShiftRight(FromByte(b), 24, 8);
    ByteShift(b);
    HighZero(24);
    HighLow(FromByte(b), 24, 8);
  }

  lemma ByteShift(b: Byte)
    ensures ShiftRight(FromByte(b), 8) == ZERO
  {
    var x := FromByte(b).v;
    assert ShiftRight(Word(x), 8) == ShiftRight(Half(Half(Half(Half(Word(x))))), 4);
    assert ShiftRight(Half(Half(Half(Half(Word(x))))), 4) == Word(((((((((x >> 1) >> 1) >> 1) >> 1) >> 1) >> 1) >> 1) >> 1));
  }

  lemma {:induction false} HighLow(x: Word, n: nat, k: nat)
    ensures High(x, n + k)[n..] == High(x, k)
    decreases k
  {
    if k > 0 {
      HighLow(Half(x), n, k - 1);
    }
  }

  // ---------------------------------------------------------------- the bit loop

  /** The bits of the register that matter: a width below 8 is always run as if it were 7. */
  function StateWidth(c: Config): (w: nat)
    ensures 7 <= w
  {
    if c.width < 8 then 7 else c.width
  }

  function State(c: Config, p: Word): (s: Bits)
    ensures |s| == StateWidth(c)
  {
    High(p, StateWidth(c))
  }

  function BitStep(c: Config, p: Word): Word {
    Step(p, c.polynomial, c.TopBit())
  }

  function BitSteps(c: Config, p: Word, n: nat): Word
    decreases n
  {
    if n == 0 then p else BitSteps(c, BitStep(c, p), n - 1)
  }

  function NarrowStep(c: Config, p: Word, data: Word): Word {
    var q := Double(p);
    if HasBit(Plus(data, q), c.TopBit()) then Plus(q, c.polynomial) else q
  }

  /** The low byte of `data << 1`. */
  function NextByte(data: Word): Word {
    And(Double(data), Word(0xff))
  }

  function NarrowSteps(c: Config, p: Word, data: Word, n: nat): Word
    decreases n
  {
    if n == 0 then p else NarrowSteps(c, NarrowStep(c, p, data), NextByte(data), n - 1)
  }

  function WideByte(c: Config, p: Word, data: Word): Word
    requires 8 <= c.width
  {
    BitSteps(c, Plus(p, ShiftLeft(data, c.width - 8)), 8)
  }

  function BitwiseByte(c: Config, p: Word, b: Byte): Word {
    if c.width < 8 then NarrowSteps(c, p, ReflectByte(c, b), 8) else WideByte(c, p, ReflectByte(c, b))
  }

  function BitwiseRun(c: Config, p: Word, data: seq<Byte>): Word {
    if data == [] then p
    else BitwiseByte(c, BitwiseRun(c, p, data[..|data| - 1]), data[|data| - 1])
  }

  lemma BitStepFeeds(c: Config, p: Word)
    requires 8 <= c.width <= 32
    ensures State(c, BitStep(c, p)) == Feed(State(c, c.polynomial), State(c, p), false)
  {
    TopBitTest(p, c.width);
    HighShiftOne(p, c.width);
    HighXor(Double(p), c.polynomial, c.width);
  }

  lemma {:induction false} BitStepsFeeds(c: Config, p: Word, n: nat)
    requires 8 <= c.width <= 32
    ensures State(c, BitSteps(c, p, n)) == Feeds(State(c, c.polynomial), State(c, p), Zeros(n))
    decreases n
  {
    if n > 0 {
      BitStepFeeds(c, p);
      BitStepsFeeds(c, BitStep(c, p), n - 1);
      assert Zeros(n)[1..] == Zeros(n - 1);
    }
  }

  lemma WideByteFeeds(c: Config, p: Word, data: Word)
    requires 8 <= c.width <= 32
    ensures State(c, WideByte(c, p, data)) == Feeds(State(c, c.polynomial), State(c, p), High(data, 8))
  {
    hide High;
    hide Odd;
    hide Plus;
    var d := ShiftLeft(data, c.width - 8);
    HighShiftLeft(data, 8, c.width - 8);
    HighXor(p, d, c.width);
    BitStepsFeeds(c, Plus(p, d), 8);
    BlockAtTop(State(c, c.polynomial), State(c, p), High(data, 8));
  }

  lemma NarrowStepFeeds(c: Config, p: Word, data: Word)
    requires c.width < 8
    ensures State(c, NarrowStep(c, p, data)) == Feed(State(c, c.polynomial), State(c, p), High(data, 8)[0])
  {
    NarrowTest(c, p, data);
    HighShiftOne(p, 7);
    HighXor(Double(p), c.polynomial, 7);
  }

  lemma NarrowTest(c: Config, p: Word, data: Word)
    requires c.width < 8
    ensures HasBit(Plus(data, Double(p)), c.TopBit()) <==> High(data, 8)[0] != High(p, 7)[0]
  {
    hide High;
    hide Plus;
    hide Double;
    hide HasBit;
    var q := Double(p);
    TopBitTest(Plus(data, q), 8);
    HighXor(data, q, 8);
    assert High(q, 8)[0] == High(p, 7)[0] by {
      HighDouble(p, 8);
    }
  }

  lemma {:induction false} NarrowStepsFeeds(c: Config, p: Word, data: Word, n: nat)
    requires c.width < 8 && n <= 8
    ensures State(c, NarrowSteps(c, p, data, n)) == Feeds(State(c, c.polynomial), State(c, p), High(data, 8)[..n])
    decreases n
  {
    if n > 0 {
      hide High;
      NarrowStepFeeds(c, p, data);
      NarrowStepsFeeds(c, NarrowStep(c, p, data), NextByte(data), n - 1);
      HighMasked(Double(data), 8);
      HighShiftOne(data, 8);
      assert High(NextByte(data), 8)[..n - 1] == High(data, 8)[..n][1..];
    }
  }

  lemma BitwiseByteFeeds(c: Config, p: Word, b: Byte)
    requires c.width <= 32
    ensures State(c, BitwiseByte(c, p, b)) == Feeds(State(c, c.polynomial), State(c, p), ByteBits(c, b))
  {
    hide High;
    hide Reflect;
    hide FromByte;
    hide NarrowSteps;
    if c.width < 8 {
      NarrowStepsFeeds(c, p, ReflectByte(c, b), 8);
      ReflectByteBits(c, b);
      assert ByteBits(c, b)[..8] == ByteBits(c, b);
    } else {
      WideByteFeeds(c, p, ReflectByte(c, b));
      ReflectByteBits(c, b);
    }
  }

  /** The bit loop divides: for every width up to 32 and every polynomial, it clocks the message bits in, in order. */
  lemma {:induction false} BitwiseFeeds(c: Config, p: Word, data: seq<Byte>)
    requires c.width <= 32
    ensures State(c, BitwiseRun(c, p, data)) == Feeds(State(c, c.polynomial), State(c, p), MessageBits(c, data))
  {
    if data != [] {
      var init, b := data[..|data| - 1], data[|data| - 1];
      BitwiseFeeds(c, p, init);
      BitwiseByteFeeds(c, BitwiseRun(c, p, init), b);
      FeedsAppend(State(c, c.polynomial), State(c, p), MessageBits(c, init), ByteBits(c, b));
    }
  }
}
