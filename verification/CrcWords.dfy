/** How the 32-bit operations of the CRC engine act on the low bits of a word, read as bit lists. */
module CrcWords {

  import opened CrcBits

  /** uint32_t. */
  datatype Word = Word(v: bv32)

  const ZERO := Word(0)
  const ONE := Word(1)

  function And(x: Word, y: Word): Word { Word(x.v & y.v) }
  function Or(x: Word, y: Word): Word { Word(x.v | y.v) }
  function Plus(x: Word, y: Word): Word { Word(x.v ^ y.v) }
  function Double(x: Word): Word { Word(x.v << 1) }
  function Half(x: Word): Word { Word(x.v >> 1) }
  predicate Odd(x: Word) { x.v & 1 == 1 }

  /** `x << k` and `x >> k`, for a shift amount that depends on the CRC width. */
  function ShiftLeft(x: Word, k: nat): Word {
    if k == 0 then x else Double(ShiftLeft(x, k - 1))
  }

  function ShiftRight(x: Word, k: nat): Word
    decreases k
  {
    if k == 0 then x else ShiftRight(Half(x), k - 1)
  }

  /** The low `n` bits, highest first. */
  function High(x: Word, n: nat): (b: Bits)
    ensures |b| == n
    decreases n
  {
    if n == 0 then [] else High(Half(x), n - 1) + [Odd(x)]
  }

  /** The low `n` bits, lowest first. */
  function Low(x: Word, n: nat): (b: Bits)
    ensures |b| == n
    decreases n
  {
    if n == 0 then [] else [Odd(x)] + Low(Half(x), n - 1)
  }

  function Reverse(b: Bits): (r: Bits)
    ensures |r| == |b|
  {
    seq(|b|, i requires 0 <= i < |b| => b[|b| - 1 - i])
  }

  lemma {:induction false} LowIsReverse(x: Word, n: nat)
    ensures Low(x, n) == Reverse(High(x, n))
    decreases n
  {
    if n > 0 {
      LowIsReverse(Half(x), n - 1);
    }
  }

  lemma ReverseTwice(b: Bits)
    ensures Reverse(Reverse(b)) == b
  {
  }

  lemma ReverseInjective(a: Bits, b: Bits)
    requires Reverse(a) == Reverse(b)
    ensures a == b
  {
    ReverseTwice(a);
    ReverseTwice(b);
  }

  // ---------------------------------------------------------------- masks

  /** Ones in the low `n` places. */
  function OnesBits(n: nat): bv32 {
    if n == 0 then 0
    else if n == 1 then 0x1
    else if n == 2 then 0x3
    else if n == 3 then 0x7
    else if n == 4 then 0xf
    else if n == 5 then 0x1f
    else if n == 6 then 0x3f
    else if n == 7 then 0x7f
    else if n == 8 then 0xff
    else if n == 9 then 0x1ff
    else if n == 10 then 0x3ff
    else if n == 11 then 0x7ff
    else if n == 12 then 0xfff
    else if n == 13 then 0x1fff
    else if n == 14 then 0x3fff
    else if n == 15 then 0x7fff
    else if n == 16 then 0xffff
    else if n == 17 then 0x1ffff
    else if n == 18 then 0x3ffff
    else if n == 19 then 0x7ffff
    else if n == 20 then 0xfffff
    else if n == 21 then 0x1fffff
    else if n == 22 then 0x3fffff
    else if n == 23 then 0x7fffff
    else if n == 24 then 0xffffff
    else if n == 25 then 0x1ffffff
    else if n == 26 then 0x3ffffff
    else if n == 27 then 0x7ffffff
    else if n == 28 then 0xfffffff
    else if n == 29 then 0x1fffffff
    else if n == 30 then 0x3fffffff
    else if n == 31 then 0x7fffffff
    else 0xffff_ffff
  }

  function Ones(n: nat): Word { Word(OnesBits(n)) }

  lemma OnesStep(n: nat)
    requires 0 < n <= 32
    ensures Odd(Ones(n)) && Half(Ones(n)) == Ones(n - 1)
  {
  }

  lemma OnesDouble(n: nat)
    requires 0 < n <= 32
    ensures (OnesBits(n - 1) + 1) << 1 == OnesBits(n) + 1
  {
  }

  lemma {:induction false} OnesIsMask(n: nat)
    requires n <= 32
    ensures ShiftLeft(ONE, n).v - 1 == OnesBits(n)
  {
    if n > 0 {
      OnesIsMask(n - 1);
      OnesDouble(n);
    }
  }

  /** The low `n` bits of `m` are ones. */
  predicate LowOnes(m: Word, n: nat)
    decreases n
  {
    n == 0 || (Odd(m) && LowOnes(Half(m), n - 1))
  }

  lemma {:induction false} OnesLow(n: nat, k: nat)
    requires k <= n <= 32
    ensures LowOnes(Ones(n), k)
    decreases k
  {
    if k > 0 {
      OnesStep(n);
      OnesLow(n - 1, k - 1);
    }
  }

  /** Masking with ones in the low `n` places keeps the low `n` bits. */
  lemma {:induction false} HighCovered(x: Word, m: Word, n: nat)
    requires LowOnes(m, n)
    ensures High(And(x, m), n) == High(x, n)
    decreases n
  {
    if n > 0 {
      MaskShift(x, m);
      HighCovered(Half(x), Half(m), n - 1);
    }
  }

  lemma HighMasked(x: Word, n: nat)
    requires n <= 32
    ensures High(And(x, Ones(n)), n) == High(x, n)
  {
    OnesLow(n, n);
    HighCovered(x, Ones(n), n);
  }

  lemma MaskShift(x: Word, m: Word)
    ensures Half(And(x, m)) == And(Half(x), Half(m))
    ensures Odd(m) ==> Odd(And(x, m)) == Odd(x)
  {
  }

  /** The bits determine the masked word. */
  lemma {:induction false} HighInjective(x: Word, y: Word, n: nat)
    requires n <= 32 && High(x, n) == High(y, n)
    ensures And(x, Ones(n)) == And(y, Ones(n))
    decreases n
  {
    if n > 0 {
      SameLast(High(Half(x), n - 1), High(Half(y), n - 1), Odd(x), Odd(y));
      HighInjective(Half(x), Half(y), n - 1);
      OnesStep(n);
      MaskShift(x, Ones(n));
      MaskShift(y, Ones(n));
      SameHalves(And(x, Ones(n)), And(y, Ones(n)));
    }
  }

  lemma SameLast(a: Bits, b: Bits, x: bool, y: bool)
    requires a + [x] == b + [y]
    ensures a == b && x == y
  {
    assert a == (a + [x])[..|a|] && b == (b + [y])[..|b|];
    assert (a + [x])[|a|] == x && (b + [y])[|b|] == y;
  }

  lemma SameHalves(x: Word, y: Word)
    requires Half(x) == Half(y) && Odd(x) == Odd(y)
    ensures x == y
  {
  }

  lemma {:induction false} HighXor(x: Word, y: Word, n: nat)
    ensures High(Plus(x, y), n) == Xor(High(x, n), High(y, n))
    decreases n
  {
    if n > 0 {
      HighXor(Half(x), Half(y), n - 1);
      HighXorStep(x, y, n - 1);
    }
  }

  lemma HighXorStep(x: Word, y: Word, n: nat)
    requires High(Plus(Half(x), Half(y)), n) == Xor(High(Half(x), n), High(Half(y), n))
    ensures High(Plus(x, y), n + 1) == Xor(High(x, n + 1), High(y, n + 1))
  {
    PlusHalves(x, y);
    XorLast(High(Half(x), n), High(Half(y), n), Odd(x), Odd(y));
  }

  lemma XorLast(a: Bits, b: Bits, x: bool, y: bool)
    requires |a| == |b|
    ensures Xor(a + [x], b + [y]) == Xor(a, b) + [x != y]
  {
  }

  lemma PlusHalves(x: Word, y: Word)
    ensures Half(Plus(x, y)) == Plus(Half(x), Half(y))
    ensures Odd(Plus(x, y)) == (Odd(x) != Odd(y))
  {
  }

  // ---------------------------------------------------------------- shifts

  lemma {:induction false} HighTail(x: Word, n: nat)
    requires n > 0
    ensures High(x, n)[1..] == High(x, n - 1)
    decreases n
  {
    if n > 1 {
      HighTail(Half(x), n - 1);
    }
  }

  lemma HighDouble(x: Word, n: nat)
    requires 0 < n <= 32
    ensures High(Double(x), n) == High(x, n - 1) + [false]
  {
    DoubleHalf(x);
    OnesLow(31, n - 1);
    HighCovered(x, Ones(31), n - 1);
  }

  lemma DoubleHalf(x: Word)
    ensures Half(Double(x)) == And(x, Ones(31)) && !Odd(Double(x))
  {
  }

  lemma HighShiftOne(x: Word, n: nat)
    requires 0 < n <= 32
    ensures High(Double(x), n) == High(x, n)[1..] + [false]
  {
    HighDouble(x, n);
    HighTail(x, n);
  }

  lemma {:induction false} HighShiftLeft(x: Word, n: nat, k: nat)
    requires n + k <= 32
    ensures High(ShiftLeft(x, k), n + k) == High(x, n) + Zeros(k)
  {
    if k > 0 {
      HighShiftLeft(x, n, k - 1);
      HighDouble(ShiftLeft(x, k - 1), n + k);
      assert Zeros(k - 1) + [false] == Zeros(k);
      assert High(x, n) + Zeros(k - 1) + [false] == High(x, n) + (Zeros(k - 1) + [false]);
    } else {
      assert High(x, n) + Zeros(0) == High(x, n);
    }
  }

  lemma {:induction false} HighShiftRight(x: Word, n: nat, k: nat)
    ensures High(ShiftRight(x, k), n) == High(x, n + k)[..n]
    decreases k
  {
    if k > 0 {
      HighShiftRight(Half(x), n, k - 1);
    }
  }

  lemma {:induction false} HighZero(n: nat)
    ensures High(ZERO, n) == Zeros(n)
  {
    if n > 0 {
      HighZero(n - 1);
      assert Half(ZERO) == ZERO && !Odd(ZERO);
    }
  }

  // ---------------------------------------------------------------- single bits

  predicate HasBit(x: Word, bit: Word) {
    And(x, bit) != ZERO
  }

  /** One step of the left-shifting bit loop whose top bit is `top`. */
  function Step(x: Word, poly: Word, top: Word): Word {
    if HasBit(x, top) then Plus(Double(x), poly) else Double(x)
  }

  /** The test of the single bit 1 << (n - 1) reads the first of the `n` bits. */
  lemma {:induction false} TopBitTest(x: Word, n: nat)
    requires 0 < n <= 32
    ensures HasBit(x, ShiftLeft(ONE, n - 1)) <==> High(x, n)[0]
    decreases n
  {
    if n == 1 {
      OddTest(x);
    } else {
      TopBitTest(Half(x), n - 1);
      SingleBitClear(n - 2);
      TestShift(x, ShiftLeft(ONE, n - 2));
    }
  }

  lemma OddTest(x: Word)
    ensures HasBit(x, ONE) <==> Odd(x)
  {
  }

  lemma SingleBitClear(k: nat)
    requires k <= 30
    ensures ShiftLeft(ONE, k).v & 0x8000_0000 == 0
  {
    OnesIsMask(k);
    OnesTopClear(k, ShiftLeft(ONE, k).v);
  }

  lemma OnesTopClear(k: nat, t: bv32)
    requires k <= 30 && t - 1 == OnesBits(k)
    ensures t & 0x8000_0000 == 0
  {
  }

  lemma TestShift(x: Word, t: Word)
    requires t.v & 0x8000_0000 == 0
    ensures HasBit(x, Double(t)) <==> HasBit(Half(x), t)
  {
    assert (x.v & (t.v << 1)) >> 1 == (x.v >> 1) & t.v;
    assert (x.v & (t.v << 1)) & 1 == 0;
  }

  /** Setting the bit 1 << k sets one place of the list and no other. */
  lemma {:induction false} SetBit(x: Word, n: nat, k: nat)
    requires k < n <= 32
    ensures High(Or(x, ShiftLeft(ONE, k)), n) == High(x, n)[n - 1 - k := true]
    decreases n
  {
    if k == 0 {
      OrOne(x);
    } else {
      SetBit(Half(x), n - 1, k - 1);
      SetBitStep(x, ShiftLeft(ONE, k - 1), n, k);
    }
  }

  lemma SetBitStep(x: Word, t: Word, n: nat, k: nat)
    requires 0 < k < n <= 32 && t == ShiftLeft(ONE, k - 1)
    requires High(Or(Half(x), t), n - 1) == High(Half(x), n - 1)[n - 1 - k := true]
    ensures High(Or(x, Double(t)), n) == High(x, n)[n - 1 - k := true]
  {
    hide Half;
    hide Or;
    hide Double;
    hide Odd;
    hide ShiftLeft;
    SingleBitClear(k - 1);
    OrShift(x, t);
    UpdatePrefix(High(Half(x), n - 1), Odd(x), n - 1 - k);
  }

  lemma UpdatePrefix(a: Bits, last: bool, i: nat)
    requires i < |a|
    ensures (a + [last])[i := true] == a[i := true] + [last]
  {
  }

  lemma OrOne(x: Word)
    ensures Half(Or(x, ONE)) == Half(x) && Odd(Or(x, ONE))
  {
  }

  lemma OrShift(x: Word, t: Word)
    requires t.v & 0x8000_0000 == 0
    ensures Half(Or(x, Double(t))) == Or(Half(x), t) && Odd(Or(x, Double(t))) == Odd(x)
  {
  }
}
