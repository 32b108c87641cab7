/** The 16-bit IBM table lacks four entries: how far the register is off when they are read. */
module CrcIbm {

  import opened CrcBits
  import opened CrcWords
  import opened CrcLoops
  import opened CrcTables
  import opened CrcLookups
  import opened CrcNamed
  import opened CrcCompute

  function IbmIndex(c: Config, p: Word, data: seq<Byte>, k: nat): Word
    requires k < |data|
  {
    Index(c, TableRun(c, CRC_16BIT_IBM, p, data[..k]), data[k])
  }

  predicate Misses(c: Config, p: Word, data: seq<Byte>, k: nat)
    requires k < |data|
  {
    IbmIndex(c, p, data, k).v >= 0xfc
  }

  /** The entry missed at byte `k`, clocked through the zeros of the bytes after it. */
  function Missed(c: Config, p: Word, data: seq<Byte>, k: nat): (e: Bits)
    requires Ibm(c) && k < |data|
    ensures |e| == 16
  {
    if Misses(c, p, data, k)
    then Feeds(Divisor(c), Entry(Divisor(c), High(IbmIndex(c, p, data, k), 8)), Zeros(8 * (|data| - 1 - k)))
    else Zeros(16)
  }

  /** The sum of all that is missed up to byte `n`. */
  function Damage(c: Config, p: Word, data: seq<Byte>, n: nat): (d: Bits)
    requires Ibm(c) && n <= |data|
    ensures |d| == 16
  {
    if n == 0 then Zeros(16) else Xor(Damage(c, p, data, n - 1), Missed(c, p, data, n - 1))
  }

  lemma {:induction false} DamageShifts(c: Config, p: Word, data: seq<Byte>, n: nat)
    requires Ibm(c) && n < |data|
    ensures Damage(c, p, data, n) == Feeds(Divisor(c), Damage(c, p, data[..|data| - 1], n), Zeros(8))
  {
    hide Missed;
    hide Misses;
    hide Divisor;
    hide Zeros;
    hide High;
    hide Index;
    hide Entry;
    var d, init := Divisor(c), data[..|data| - 1];
    if n == 0 {
      FeedsNothing(d, 8);
    } else {
      DamageShifts(c, p, data, n - 1);
      MissedShifts(c, p, data, n - 1);
      FeedsLinear(d, Damage(c, p, init, n - 1), Missed(c, p, init, n - 1), Zeros(8));
    }
  }

  lemma MissedShifts(c: Config, p: Word, data: seq<Byte>, k: nat)
    requires Ibm(c) && k < |data| - 1
    ensures Missed(c, p, data, k) == Feeds(Divisor(c), Missed(c, p, data[..|data| - 1], k), Zeros(8))
  {
    hide High;
    hide Index;
    hide Entry;
    hide Feeds;
    var d, init := Divisor(c), data[..|data| - 1];
    assert init[..k] == data[..k];
    if Misses(c, p, data, k) {
      var e := Entry(d, High(IbmIndex(c, p, data, k), 8));
      FeedsLater(d, e, 8 * (|init| - 1 - k), 8);
    } else {
      FeedsNothing(d, 8);
    }
  }

  /** One step of the 16-bit IBM table: right, but for the entry it may miss. */
  lemma IbmStep(c: Config, p: Word, b: Byte)
    requires Ibm(c)
    ensures High(TableByte(c, CRC_16BIT_IBM, p, b), 16) ==
            Xor(Feeds(Divisor(c), High(p, 16), ByteBits(c, b)),
                if Index(c, p, b).v >= 0xfc then Entry(Divisor(c), High(Index(c, p, b), 8)) else Zeros(16))
  {
    hide High;
    hide Fetch;
    hide Entry;
    hide Index;
    var i := Index(c, p, b);
    var right := Feeds(Divisor(c), High(p, 16), ByteBits(c, b));
    IndexBits(c, p, b);
    if i.v >= 0xfc {
      Ibm16Missing(i.v);
      HighZero(16);
      LookupBits(c, CRC_16BIT_IBM, p, b);
      LookupMissing(Divisor(c), High(p, 16), ByteBits(c, b));
    } else {
      Ibm16Right(c, i);
      TableByteExact(c, CRC_16BIT_IBM, c.polynomial, p, b);
      XorZeros(right);
    }
  }

  /** The register of the 16-bit IBM engine differs from the true one by all that was missed. */
  lemma {:induction false} IbmRegister(c: Config, p: Word, data: seq<Byte>)
    requires Ibm(c)
    ensures High(TableRun(c, CRC_16BIT_IBM, p, data), 16)
         == Xor(Feeds(Divisor(c), High(p, 16), MessageBits(c, data)), Damage(c, p, data, |data|))
  {
    hide High;
    hide Index;
    hide Entry;
    hide TableByte;
    var d := Divisor(c);
    if data == [] {
      XorZeros(High(p, 16));
    } else {
      var n := |data| - 1;
      var init, b := data[..n], data[n];
      var r, e := Feeds(d, High(p, 16), MessageBits(c, init)), Damage(c, p, init, n);
      IbmRegister(c, p, init);
      IbmStep(c, TableRun(c, CRC_16BIT_IBM, p, init), b);
      FeedsLinear(d, r, e, ByteBits(c, b));
      FeedsAppend(d, High(p, 16), MessageBits(c, init), ByteBits(c, b));
      DamageShifts(c, p, data, n);
      XorAssociates(Feeds(d, r, ByteBits(c, b)), Feeds(d, e, Zeros(8)), Missed(c, p, data, n));
    }
  }

  /** One table step is right exactly when the index is one that was initialised. */
  lemma IbmStepExact(c: Config, p: Word, b: Byte)
    requires Ibm(c)
    ensures State(c, TableByte(c, CRC_16BIT_IBM, p, b)) == State(c, BitwiseByte(c, p, b)) <==> Index(c, p, b).v < 0xfc
  {
    hide High;
    hide Fetch;
    hide EntryRight;
    IndexBits(c, p, b);
    Ibm16Right(c, Index(c, p, b));
    TableByteExact(c, CRC_16BIT_IBM, c.polynomial, p, b);
    BitwiseByteFeeds(c, p, b);
  }

  /** A missed entry is never zero, however many zero bits it is clocked through. */
  lemma MissedShows(c: Config, p: Word, data: seq<Byte>, k: nat)
    requires Ibm(c) && k < |data| && Misses(c, p, data, k)
    ensures Missed(c, p, data, k) != Zeros(16)
  {
    hide High;
    hide Fetch;
    hide Index;
    hide Entry;
    var i, d := IbmIndex(c, p, data, k), Divisor(c);
    var e, n := Entry(d, High(i, 8)), 8 * (|data| - 1 - k);
    IndexBits(c, TableRun(c, CRC_16BIT_IBM, p, data[..k]), data[k]);
    Ibm16Right(c, i);
    Ibm16Missing(i.v);
    HighZero(16);
    assert e != Zeros(16);
    IbmOdd(c);
    FeedsNothing(d, n);
    if Feeds(d, e, Zeros(n)) == Zeros(16) {
      FeedsInjective(d, e, Zeros(16), Zeros(n));
    }
  }

  lemma IbmOdd(c: Config)
    requires Ibm(c)
    ensures Divisor(c)[15]
  {
  }

  lemma {:induction false} OnlyDamage(c: Config, p: Word, data: seq<Byte>, k: nat, n: nat)
    requires Ibm(c) && k < |data| && n <= |data|
    requires forall j :: 0 <= j < |data| && j != k ==> !Misses(c, p, data, j)
    ensures Damage(c, p, data, n) == if k < n then Missed(c, p, data, k) else Zeros(16)
    decreases n
  {
    hide High;
    hide Index;
    if n > 0 {
      OnlyDamage(c, p, data, k, n - 1);
      XorZeros(Damage(c, p, data, n - 1));
      XorZeros(Missed(c, p, data, n - 1));
    }
  }

  lemma {:induction false} NoDamage(c: Config, p: Word, data: seq<Byte>, n: nat)
    requires Ibm(c) && n <= |data| && forall j :: 0 <= j < |data| ==> !Misses(c, p, data, j)
    ensures Damage(c, p, data, n) == Zeros(16)
    decreases n
  {
    hide High;
    hide Index;
    if n > 0 {
      NoDamage(c, p, data, n - 1);
      XorZeros(Zeros(16));
    }
  }

  // ---------------------------------------------------------------- the register at every byte

  /** The table register follows the bit loop at every byte exactly when no missing entry is read. */
  lemma IbmRunExact(c: Config, p: Word, data: seq<Byte>)
    requires Ibm(c)
    ensures (forall k :: 0 <= k <= |data| ==>
              State(c, TableRun(c, CRC_16BIT_IBM, p, data[..k])) == State(c, BitwiseRun(c, p, data[..k])))
       <==> (forall k :: 0 <= k < |data| ==> !Misses(c, p, data, k))
  {
    hide High;
    hide Fetch;
    hide Index;
    hide TableRun;
    hide BitwiseRun;
    if forall k :: 0 <= k < |data| ==> !Misses(c, p, data, k) {
      forall k | 0 <= k <= |data|
        ensures State(c, TableRun(c, CRC_16BIT_IBM, p, data[..k])) == State(c, BitwiseRun(c, p, data[..k]))
      {
        NoMissPrefix(c, p, data, k);
        NoDamage(c, p, data[..k], k);
        IbmRegister(c, p, data[..k]);
        XorZeros(Feeds(Divisor(c), High(p, 16), MessageBits(c, data[..k])));
        BitwiseFeeds(c, p, data[..k]);
      }
    } else {
      var k :| 0 <= k < |data| && Misses(c, p, data, k);
      IbmFirstWrong(c, p, data, k);
    }
  }

  lemma NoMissPrefix(c: Config, p: Word, data: seq<Byte>, n: nat)
    requires n <= |data| && forall k :: 0 <= k < |data| ==> !Misses(c, p, data, k)
    ensures forall k :: 0 <= k < n ==> !Misses(c, p, data[..n], k)
  {
    forall k | 0 <= k < n ensures !Misses(c, p, data[..n], k) {
      assert data[..n][..k] == data[..k];
      assert !Misses(c, p, data, k);
    }
  }

  lemma IbmFirstWrong(c: Config, p: Word, data: seq<Byte>, k: nat)
    requires Ibm(c) && k < |data| && Misses(c, p, data, k)
    ensures State(c, TableRun(c, CRC_16BIT_IBM, p, data[..k])) != State(c, BitwiseRun(c, p, data[..k]))
         || State(c, TableRun(c, CRC_16BIT_IBM, p, data[..k + 1])) != State(c, BitwiseRun(c, p, data[..k + 1]))
  {
    hide High;
    hide Fetch;
    var x, y := TableRun(c, CRC_16BIT_IBM, p, data[..k]), BitwiseRun(c, p, data[..k]);
    assert data[..k + 1][..k] == data[..k];
    IbmStepExact(c, x, data[k]);
    BitwiseByteFeeds(c, x, data[k]);
    BitwiseByteFeeds(c, y, data[k]);
  }
}
