/** The sector map of a flash device and the memory behind it. */
module FlashGeometry {

  import opened Division

  type Byte = bv8

  /** Programming can only clear bits. */
  function Burn(was: Byte, data: Byte): Byte {
    was & data
  }

  const ERASED: Byte := 0xff

  datatype Geometry = Geometry(start: nat, pageSize: nat, sectors: seq<nat>) {
    /** Where sector `i` starts; for i == |sectors| this is the flash end. */
    function SectorStart(i: nat): (a: nat)
      requires i <= |sectors|
      ensures a >= start
    {
      if i == 0 then start else SectorStart(i - 1) + sectors[i - 1]
    }

    function End(): nat {
      SectorStart(|sectors|)
    }

    /** A sector is whole pages and starts at a multiple of its own size. */
    predicate SectorValid(i: nat)
      requires i < |sectors|
    {
      pageSize > 0 && sectors[i] > 0 && Aligned(sectors[i], pageSize) && Aligned(SectorStart(i), sectors[i])
    }

    /** Addresses are 32 bits wide. */
    ghost predicate Valid() {
      pageSize > 0 && (forall i :: 0 <= i < |sectors| ==> SectorValid(i)) && End() < 0x1_0000_0000
    }

    predicate InSector(i: nat, addr: nat) {
      i < |sectors| && SectorStart(i) <= addr < SectorStart(i + 1)
    }

    /** The sector an address lies in, searched from the start. */
    function SectorFrom(i: nat, addr: nat): (k: nat)
      requires i <= |sectors| && SectorStart(i) <= addr < End()
      ensures i <= k && InSector(k, addr)
      decreases |sectors| - i
    {
      if i < |sectors| && addr >= SectorStart(i + 1) then SectorFrom(i + 1, addr) else i
    }

    function SectorIndex(addr: nat): (k: nat)
      requires start <= addr < End()
      ensures InSector(k, addr)
    {
      SectorFrom(0, addr)
    }

    function SectorSize(addr: nat): nat
      requires start <= addr < End()
    {
      sectors[SectorIndex(addr)]
    }

    ghost predicate IsBoundary(addr: nat) {
      exists i :: 0 <= i <= |sectors| && SectorStart(i) == addr
    }

    lemma {:induction false} StartsIncrease(i: nat, j: nat)
      requires Valid() && i < j <= |sectors|
      ensures SectorStart(i) < SectorStart(j)
      decreases j
    {
      hide Aligned;
      assert SectorValid(j - 1);
      if i < j - 1 {
        StartsIncrease(i, j - 1);
      }
    }

    lemma BoundaryRange(addr: nat)
      requires Valid() && IsBoundary(addr)
      ensures start <= addr <= End()
    {
      var i :| 0 <= i <= |sectors| && SectorStart(i) == addr;
      if i < |sectors| {
        StartsIncrease(i, |sectors|);
      }
    }

    lemma SectorUnique(i: nat, j: nat, addr: nat)
      requires Valid() && InSector(i, addr) && InSector(j, addr)
      ensures i == j
    {
      hide Aligned;
      if i + 1 < j {
        StartsIncrease(i + 1, j);
      }
      if j + 1 < i {
        StartsIncrease(j + 1, i);
      }
    }

    /** The offset into a sector is the address modulo the sector's size. */
    lemma OffsetInSector(i: nat, addr: nat)
      requires Valid() && InSector(i, addr)
      ensures sectors[i] > 0 && addr % sectors[i] == addr - SectorStart(i) < sectors[i]
      ensures SectorStart(i + 1) == SectorStart(i) + sectors[i]
    {
      hide Aligned;
      assert SectorValid(i);
      OffsetOf(SectorStart(i), sectors[i], addr - SectorStart(i));
    }

    lemma {:induction false} StartsAligned(i: nat)
      requires Valid() && i <= |sectors| && sectors != []
      ensures Aligned(SectorStart(i), pageSize)
    {
      hide Aligned;
      if i < |sectors| {
        assert SectorValid(i);
        AlignedTwice(SectorStart(i), sectors[i], pageSize);
      } else {
        assert SectorValid(i - 1);
        StartsAligned(i - 1);
        AlignedSum(SectorStart(i - 1), sectors[i - 1], pageSize);
      }
    }

    /** The last sector ends where the flash ends, and starts at a page. */
    lemma LastSector()
      requires Valid() && sectors != []
      ensures var k := |sectors| - 1;
        SectorStart(k) + sectors[k] == End() && SectorStart(k) % pageSize == 0
    {
      StartsAligned(|sectors| - 1);
    }

    /** The byte at this address belongs to a sector. */
    ghost predicate Mapped(addr: nat) {
      exists i: nat :: InSector(i, addr)
    }

    lemma Unmapped(addr: nat)
      requires Valid() && addr >= End()
      ensures !Mapped(addr)
    {
      forall i: nat | i < |sectors| ensures !InSector(i, addr) {
        if i + 1 < |sectors| {
          StartsIncrease(i + 1, |sectors|);
        }
      }
    }

    /** From the start of the flash on, a range lies in the flash exactly if each of its bytes lies in a sector. */
    lemma InSectors(addr: nat, size: nat)
      requires Valid() && start <= addr && size > 0
      ensures addr + size <= End() <==> forall a :: addr <= a < addr + size ==> Mapped(a)
    {
      if addr + size <= End() {
        forall a | addr <= a < addr + size ensures Mapped(a) {
          assert InSector(SectorIndex(a), a);
        }
      } else {
        Unmapped(addr + size - 1);
      }
    }

    /** An address inside the flash is a sector boundary exactly when it is a multiple of its own sector's size. */
    lemma BoundaryIsAligned(addr: nat)
      requires Valid() && start <= addr < End()
      ensures SectorSize(addr) > 0
      ensures IsBoundary(addr) <==> Aligned(addr, SectorSize(addr))
    {
      hide SectorIndex;
      var k := SectorIndex(addr);
      OffsetInSector(k, addr);
      if IsBoundary(addr) {
        var i :| 0 <= i <= |sectors| && SectorStart(i) == addr;
        if i < |sectors| {
          StartsIncrease(i, i + 1);
        }
        SectorUnique(i, k, addr);
      }
    }
  }

  // ---------------------------------------------------------------- memory contents

  /** Memory after programming `data` at `at`. */
  function Programmed(memory: seq<Byte>, at: nat, data: seq<Byte>): (m: seq<Byte>)
    requires at + |data| <= |memory|
    ensures |m| == |memory|
  {
    seq(|memory|, i requires 0 <= i < |memory| =>
      if at <= i < at + |data| then Burn(memory[i], data[i - at]) else memory[i])
  }

  /** Memory after erasing the bytes from `from` up to `to`. */
  function Erased(memory: seq<Byte>, from: nat, to: nat): (m: seq<Byte>)
    ensures |m| == |memory|
  {
    seq(|memory|, i requires 0 <= i < |memory| => if from <= i < to then ERASED else memory[i])
  }

  lemma BurnFacts(b: Byte)
    ensures Burn(b, ERASED) == b
    ensures Burn(ERASED, b) == b
  {
  }

  /** Programming in two steps, the second one padded with 0xFF, is programming at once. */
  lemma ProgrammedAppend(memory: seq<Byte>, at: nat, a: seq<Byte>, b: seq<Byte>, pad: seq<Byte>)
    requires at + |a| + |b| + |pad| <= |memory|
    requires forall i :: 0 <= i < |pad| ==> pad[i] == ERASED
    ensures Programmed(Programmed(memory, at, a), at + |a|, b + pad) == Programmed(memory, at, a + b)
  {
    var x := Programmed(Programmed(memory, at, a), at + |a|, b + pad);
    var y := Programmed(memory, at, a + b);
    forall i | 0 <= i < |memory| ensures x[i] == y[i] {
      BurnFacts(memory[i]);
    }
  }

  /** On erased flash the buffer is what is read back, and everything else is as before. */
  lemma ProgrammedOnErased(memory: seq<Byte>, at: nat, data: seq<Byte>)
    requires at + |data| <= |memory| && forall i :: at <= i < at + |data| ==> memory[i] == ERASED
    ensures Programmed(memory, at, data) == memory[..at] + data + memory[at + |data|..]
  {
    forall i | 0 <= i < |data| ensures Programmed(memory, at, data)[at + i] == data[i] {
      BurnFacts(data[i]);
    }
  }

  lemma ErasedAppend(memory: seq<Byte>, from: nat, mid: nat, to: nat)
    requires from <= mid <= to
    ensures Erased(Erased(memory, from, mid), mid, to) == Erased(memory, from, to)
  {
  }
}
