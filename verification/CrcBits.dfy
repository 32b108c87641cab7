/** Polynomials over GF(2) as bit lists, highest power first, and the shift register that divides by one of them.
  * Nothing here knows about machine words: the engine's loops are related to these lists in CrcWords, CrcLoops and
  * CrcLookups. */
module CrcBits {

  type Bits = seq<bool>

  function Zeros(n: nat): (z: Bits)
    ensures |z| == n
  {
    seq(n, _ => false)
  }

  function Xor(a: Bits, b: Bits): (c: Bits)
    requires |a| == |b|
    ensures |c| == |a|
  {
    seq(|a|, i requires 0 <= i < |a| => a[i] != b[i])
  }

  /** The register after one bit `b`: the divisor is x^|p| + p. */
  function Feed(p: Bits, r: Bits, b: bool): (s: Bits)
    requires |p| == |r| > 0
    ensures |s| == |r|
  {
    var shifted := r[1..] + [false];
    if r[0] != b then Xor(shifted, p) else shifted
  }

  function Feeds(p: Bits, r: Bits, m: Bits): (s: Bits)
    requires |p| == |r| > 0
    ensures |s| == |r|
    decreases |m|
  {
    if m == [] then r else Feeds(p, Feed(p, r, m[0]), m[1..])
  }

  lemma {:induction false} FeedsAppend(p: Bits, r: Bits, m: Bits, n: Bits)
    requires |p| == |r| > 0
    ensures Feeds(p, r, m + n) == Feeds(p, Feeds(p, r, m), n)
    decreases |m|
  {
    if m == [] {
      assert m + n == n;
    } else {
      assert (m + n)[1..] == m[1..] + n;
      FeedsAppend(p, Feed(p, r, m[0]), m[1..], n);
    }
  }

  // ---------------------------------------------------------------- a block of bits at once

  /** Adding a block to the top of the register and clocking in zeros is the same as clocking in the block. */
  lemma {:induction false} BlockAtTop(p: Bits, r: Bits, m: Bits)
    requires |p| == |r| > 0 && |m| <= |r|
    ensures Feeds(p, Xor(r, m + Zeros(|r| - |m|)), Zeros(|m|)) == Feeds(p, r, m)
    decreases |m|
  {
    var w := |r|;
    var x := Xor(r, m + Zeros(w - |m|));
    if m == [] {
      assert x == r;
    } else {
      assert Zeros(|m|)[1..] == Zeros(|m| - 1);
      assert Feed(p, x, false) == Xor(Feed(p, r, m[0]), m[1..] + Zeros(w - (|m| - 1)));
      BlockAtTop(p, Feed(p, r, m[0]), m[1..]);
    }
  }

  /** Clocking zeros through a sum whose second part leaves the top bits clear only shifts that part. */
  lemma {:induction false} ClearTop(p: Bits, a: Bits, low: Bits, k: nat)
    requires |p| == |a| > 0 && k + |low| == |a|
    ensures Feeds(p, Xor(a, Zeros(k) + low), Zeros(k)) == Xor(Feeds(p, a, Zeros(k)), low + Zeros(k))
    decreases k
  {
    if k == 0 {
    } else {
      assert Zeros(k)[1..] == Zeros(k - 1);
      var low' := low + [false];
      assert Feed(p, Xor(a, Zeros(k) + low), false) == Xor(Feed(p, a, false), Zeros(k - 1) + low');
      ClearTop(p, Feed(p, a, false), low', k - 1);
      assert low' + Zeros(k - 1) == low + Zeros(k);
    }
  }

  /** What a lookup table must hold for the block `i`. */
  function Entry(p: Bits, i: Bits): (e: Bits)
    requires 0 < |p| && |i| <= |p|
    ensures |e| == |p|
  {
    Feeds(p, i + Zeros(|p| - |i|), Zeros(|i|))
  }

  /** One table step: the entry for the top block xor the message, added to the register shifted by a block. */
  function Lookup(entry: Bits, r: Bits, k: nat): (s: Bits)
    requires |entry| == |r| && k <= |r|
    ensures |s| == |r|
  {
    Xor(entry, r[k..] + Zeros(k))
  }

  lemma SplitTop(r: Bits, m: Bits)
    requires |m| <= |r|
    ensures Xor(r, m + Zeros(|r| - |m|)) == Xor(Xor(r[..|m|], m) + Zeros(|r| - |m|), Zeros(|m|) + r[|m|..])
  {
  }

  lemma LookupIsFeeds(p: Bits, r: Bits, m: Bits)
    requires |p| == |r| > 0 && |m| <= |r|
    ensures Lookup(Entry(p, Xor(r[..|m|], m)), r, |m|) == Feeds(p, r, m)
  {
    var k := |m|;
    var i := Xor(r[..k], m);
    SplitTop(r, m);
    BlockAtTop(p, r, m);
    ClearTop(p, i + Zeros(|r| - k), r[k..], k);
  }

  /** A wrong entry always gives a wrong register: the table must be right at every index it is asked for. */
  lemma LookupExact(p: Bits, r: Bits, m: Bits, entry: Bits)
    requires |p| == |r| == |entry| > 0 && |m| <= |r|
    ensures Lookup(entry, r, |m|) == Feeds(p, r, m) <==> entry == Entry(p, Xor(r[..|m|], m))
  {
    LookupIsFeeds(p, r, m);
    var right := Entry(p, Xor(r[..|m|], m));
    if Lookup(entry, r, |m|) == Lookup(right, r, |m|) {
      XorCancels(entry, right, r[|m|..] + Zeros(|m|));
    }
  }

  lemma XorCancels(a: Bits, b: Bits, c: Bits)
    requires |a| == |b| == |c|
    ensures Xor(a, c) == Xor(b, c) <==> a == b
    ensures Xor(c, a) == Xor(c, b) <==> a == b
  {
    forall i | 0 <= i < |a|
      ensures Xor(a, c)[i] == Xor(b, c)[i] <==> a[i] == b[i]
      ensures Xor(c, a)[i] == Xor(c, b)[i] <==> a[i] == b[i]
    {
    }
    assert Xor(a, c) == Xor(b, c) <==> forall i :: 0 <= i < |a| ==> Xor(a, c)[i] == Xor(b, c)[i];
    assert Xor(c, a) == Xor(c, b) <==> forall i :: 0 <= i < |a| ==> Xor(c, a)[i] == Xor(c, b)[i];
  }

  /** A register kept one place too far to the left divides by the polynomial kept one place too far to the left. */
  lemma {:induction false} LeftAligned(p: Bits, r: Bits, m: Bits)
    requires |p| == |r| > 0
    ensures Feeds(p + [false], r + [false], m) == Feeds(p, r, m) + [false]
    decreases |m|
  {
    if m != [] {
      assert Feed(p + [false], r + [false], m[0]) == Feed(p, r, m[0]) + [false];
      LeftAligned(p, Feed(p, r, m[0]), m[1..]);
    }
  }

  // ---------------------------------------------------------------- division

  function Mul(q: Bits, d: Bits): (c: Bits)
    requires |d| > 0
    ensures |c| == |q| + |d| - 1
  {
    if q == [] then Zeros(|d| - 1)
    else Xor((if q[0] then d else Zeros(|d|)) + Zeros(|q| - 1), [false] + Mul(q[1..], d))
  }

  /** The bits that decide whether the divisor is subtracted, in order. */
  function Quotient(p: Bits, r: Bits, m: Bits): (q: Bits)
    requires |p| == |r| > 0
    ensures |q| == |m|
    decreases |m|
  {
    if m == [] then [] else [r[0] != m[0]] + Quotient(p, Feed(p, r, m[0]), m[1..])
  }

  /** seed * x^|m| + m * x^w, the polynomial a CRC divides. */
  function Dividend(seed: Bits, m: Bits): (d: Bits)
    ensures |d| == |m| + |seed|
  {
    Xor(m + Zeros(|seed|), seed + Zeros(|m|))
  }

  ghost predicate Divides(p: Bits, dividend: Bits, q: Bits, r: Bits)
    requires |dividend| == |q| + |p| && |r| == |p|
  {
    dividend == Xor(Mul(q, [true] + p), Zeros(|q|) + r)
  }

  lemma {:induction false} FeedsDivides(p: Bits, r: Bits, m: Bits)
    requires |p| == |r| > 0
    ensures Divides(p, Dividend(r, m), Quotient(p, r, m), Feeds(p, r, m))
    decreases |m|
  {
    if m == [] {
      assert Dividend(r, m) == r;
    } else {
      var s := Feed(p, r, m[0]);
      var m' := m[1..];
      var q' := Quotient(p, s, m');
      FeedsDivides(p, s, m');
      var top := r[0] != m[0];
      var add := (if top then [true] + p else Zeros(|p| + 1)) + Zeros(|m'|);
      DividendStep(p, r, m);
      var f := Feeds(p, s, m');
      var d := [true] + p;
      assert ([top] + q')[1..] == q';
      assert Mul([top] + q', d) == Xor(add, [false] + Mul(q', d));
      Regroup(add, Mul(q', d), f, |m'|);
    }
  }

  lemma Regroup(add: Bits, product: Bits, f: Bits, n: nat)
    requires |add| == |product| + 1 && |product| == n + |f|
    ensures Xor(add, [false] + Xor(product, Zeros(n) + f)) == Xor(Xor(add, [false] + product), Zeros(n + 1) + f)
  {
    var z := Zeros(n + 1) + f;
    assert z == [false] + (Zeros(n) + f);
  }

  /** One step of long division: subtract the divisor if the leading bit is set. */
  lemma DividendStep(p: Bits, r: Bits, m: Bits)
    requires |p| == |r| > 0 && m != []
    ensures Dividend(r, m) == Xor((if r[0] != m[0] then [true] + p else Zeros(|p| + 1)) + Zeros(|m| - 1),
                                  [false] + Dividend(Feed(p, r, m[0]), m[1..]))
  {
    var s := Feed(p, r, m[0]);
    var left, right := Dividend(r, m), Dividend(s, m[1..]);
    var add := (if r[0] != m[0] then [true] + p else Zeros(|p| + 1)) + Zeros(|m| - 1);
    forall i | 0 <= i < |left| ensures left[i] == Xor(add, [false] + right)[i] {
      if i == 0 {
      } else {
        assert right[i - 1] == ((m[1..] + Zeros(|r|))[i - 1] != (s + Zeros(|m| - 1))[i - 1]);
        assert (m[1..] + Zeros(|r|))[i - 1] == (m + Zeros(|r|))[i];
      }
    }
  }

  lemma {:induction false} DivisionIsUnique(p: Bits, d: Bits, q: Bits, r: Bits, q': Bits, r': Bits)
    requires |p| == |r| == |r'| && |q| == |q'| && |d| == |q| + |p|
    requires Divides(p, d, q, r) && Divides(p, d, q', r')
    ensures q == q' && r == r'
    decreases |q|
  {
    var one := [true] + p;
    if q == [] {
      assert Mul(q, one) == Mul(q', one);
      XorCancels(Zeros(0) + r, Zeros(0) + r', Mul(q, one));
      assert Zeros(0) + r == r && Zeros(0) + r' == r';
    } else {
      LeadingBit(p, q, r);
      LeadingBit(p, q', r');
      Tail(p, d, q, r);
      Tail(p, d, q', r');
      DivisionIsUnique(p, Rest(p, d), q[1..], r, q'[1..], r');
      assert q == [q[0]] + q[1..] && q' == [q'[0]] + q'[1..];
    }
  }

  function Rest(p: Bits, d: Bits): (e: Bits)
    requires |d| > |p|
    ensures |e| == |d| - 1
  {
    Xor((if d[0] then [true] + p else Zeros(|p| + 1)) + Zeros(|d| - |p| - 1), d)[1..]
  }

  lemma LeadingBit(p: Bits, q: Bits, r: Bits)
    requires |r| == |p| && q != []
    ensures Xor(Mul(q, [true] + p), Zeros(|q|) + r)[0] == q[0]
  {
  }

  lemma Tail(p: Bits, d: Bits, q: Bits, r: Bits)
    requires |r| == |p| && q != [] && |d| == |q| + |p| && Divides(p, d, q, r)
    ensures Divides(p, Rest(p, d), q[1..], r)
  {
    LeadingBit(p, q, r);
    var add := (if q[0] then [true] + p else Zeros(|p| + 1)) + Zeros(|q| - 1);
    var right := Xor(Mul(q[1..], [true] + p), Zeros(|q| - 1) + r);
    forall i | 0 <= i < |right| ensures Rest(p, d)[i] == right[i] {
      assert d[i + 1] == (Mul(q, [true] + p)[i + 1] != (Zeros(|q|) + r)[i + 1]);
      assert Mul(q, [true] + p)[i + 1] == (add[i + 1] != Mul(q[1..], [true] + p)[i]);
      assert (Zeros(|q|) + r)[i + 1] == (Zeros(|q| - 1) + r)[i];
      assert Rest(p, d)[i] == (add[i + 1] != d[i + 1]);
    }
    assert Rest(p, d) == right;
  }

  /** The register holds the remainder of seed * x^|m| + m * x^w by x^w + p: it is a remainder and no other is. */
  lemma FeedsIsRemainder(p: Bits, seed: Bits, m: Bits, r: Bits)
    requires |p| == |seed| == |r| > 0
    ensures r == Feeds(p, seed, m) <==> exists q: Bits :: |q| == |m| && Divides(p, Dividend(seed, m), q, r)
  {
    FeedsDivides(p, seed, m);
    forall q: Bits | |q| == |m| && Divides(p, Dividend(seed, m), q, r) ensures r == Feeds(p, seed, m) {
      DivisionIsUnique(p, Dividend(seed, m), q, r, Quotient(p, seed, m), Feeds(p, seed, m));
    }
  }

  // ---------------------------------------------------------------- error detection

  lemma FeedInjective(p: Bits, r: Bits, s: Bits, b: bool)
    requires |p| == |r| == |s| > 0 && p[|p| - 1]
    requires Feed(p, r, b) == Feed(p, s, b)
    ensures r == s
  {
    var w := |p|;
    assert Feed(p, r, b)[w - 1] == (r[0] != b);
    assert Feed(p, s, b)[w - 1] == (s[0] != b);
    forall i | 1 <= i < w ensures r[i] == s[i] {
      assert Feed(p, r, b)[i - 1] == (r[i] != ((r[0] != b) && p[i - 1]));
      assert Feed(p, s, b)[i - 1] == (s[i] != ((s[0] != b) && p[i - 1]));
    }
  }

  lemma {:induction false} FeedsInjective(p: Bits, r: Bits, s: Bits, m: Bits)
    requires |p| == |r| == |s| > 0 && p[|p| - 1]
    requires Feeds(p, r, m) == Feeds(p, s, m)
    ensures r == s
    decreases |m|
  {
    if m != [] {
      FeedsInjective(p, Feed(p, r, m[0]), Feed(p, s, m[0]), m[1..]);
      FeedInjective(p, r, s, m[0]);
    }
  }

  /** Two messages that differ only inside a window no wider than the register never meet, when p is odd. */
  lemma BurstDetected(p: Bits, r: Bits, before: Bits, m: Bits, n: Bits, after: Bits)
    requires |p| == |r| > 0 && p[|p| - 1]
    requires |m| == |n| <= |p| && m != n
    ensures Feeds(p, r, before + m + after) != Feeds(p, r, before + n + after)
  {
    var s := Feeds(p, r, before);
    FeedsAppend(p, r, before + m, after);
    FeedsAppend(p, r, before, m);
    FeedsAppend(p, r, before + n, after);
    FeedsAppend(p, r, before, n);
    if Feeds(p, Feeds(p, s, m), after) == Feeds(p, Feeds(p, s, n), after) {
      FeedsInjective(p, Feeds(p, s, m), Feeds(p, s, n), after);
      BlockInjective(p, s, m, n);
    }
  }

  /** From one register, two different blocks no wider than it lead to two different registers. */
  lemma BlockInjective(p: Bits, s: Bits, m: Bits, n: Bits)
    requires |p| == |s| > 0 && p[|p| - 1]
    requires |m| == |n| <= |p|
    requires Feeds(p, s, m) == Feeds(p, s, n)
    ensures m == n
  {
    BlockAtTop(p, s, m);
    BlockAtTop(p, s, n);
    var z := Zeros(|s| - |m|);
    FeedsInjective(p, Xor(s, m + z), Xor(s, n + z), Zeros(|m|));
    XorCancels(m + z, n + z, s);
    assert m == (m + z)[..|m|] && n == (n + z)[..|m|];
  }

  // ---------------------------------------------------------------- a difference between two registers

  lemma FeedLinear(p: Bits, r: Bits, d: Bits, b: bool)
    requires |p| == |r| == |d| > 0
    ensures Feed(p, Xor(r, d), b) == Xor(Feed(p, r, b), Feed(p, d, false))
  {
  }

  /** A difference between two registers travels on as if it were alone with a message of zeros. */
  lemma {:induction false} FeedsLinear(p: Bits, r: Bits, d: Bits, m: Bits)
    requires |p| == |r| == |d| > 0
    ensures Feeds(p, Xor(r, d), m) == Xor(Feeds(p, r, m), Feeds(p, d, Zeros(|m|)))
    decreases |m|
  {
    if m != [] {
      FeedLinear(p, r, d, m[0]);
      assert Zeros(|m|)[1..] == Zeros(|m| - 1) && Zeros(|m|)[0] == false;
      FeedsLinear(p, Feed(p, r, m[0]), Feed(p, d, false), m[1..]);
    }
  }

  lemma {:induction false} FeedsNothing(p: Bits, n: nat)
    requires |p| > 0
    ensures Feeds(p, Zeros(|p|), Zeros(n)) == Zeros(|p|)
  {
    if n > 0 {
      assert Zeros(n)[1..] == Zeros(n - 1);
      assert Feed(p, Zeros(|p|), false) == Zeros(|p|);
      FeedsNothing(p, n - 1);
    }
  }

  lemma FeedsLater(p: Bits, r: Bits, i: nat, j: nat)
    requires |p| == |r| > 0
    ensures Feeds(p, Feeds(p, r, Zeros(i)), Zeros(j)) == Feeds(p, r, Zeros(i + j))
  {
    assert Zeros(i) + Zeros(j) == Zeros(i + j);
    FeedsAppend(p, r, Zeros(i), Zeros(j));
  }

  lemma XorZeros(a: Bits)
    ensures Xor(a, Zeros(|a|)) == a && Xor(Zeros(|a|), a) == a
  {
  }

  lemma XorSame(a: Bits, b: Bits)
    requires |a| == |b|
    ensures Xor(a, b) == a <==> b == Zeros(|a|)
  {
    XorZeros(a);
    XorCancels(b, Zeros(|a|), a);
  }

  lemma XorAssociates(a: Bits, b: Bits, c: Bits)
    requires |a| == |b| == |c|
    ensures Xor(Xor(a, b), c) == Xor(a, Xor(b, c))
  {
  }

  /** A table step that finds zeros instead of its entry misses exactly that entry. */
  lemma LookupMissing(p: Bits, r: Bits, m: Bits)
    requires |p| == |r| > 0 && |m| <= |r|
    ensures Lookup(Zeros(|r|), r, |m|) == Xor(Feeds(p, r, m), Entry(p, Xor(r[..|m|], m)))
  {
    LookupIsFeeds(p, r, m);
    var e, rest := Entry(p, Xor(r[..|m|], m)), r[|m|..] + Zeros(|m|);
    assert Xor(Zeros(|r|), rest) == Xor(Xor(e, rest), e);
  }
}
