/** Writing and erasing on-chip flash: an arbitrary write becomes page writes inside sectors, a range becomes sectors. */
module FlashIAP {

  import opened Division
  import opened FlashGeometry

  /** The flash driver underneath. Unless `reliable` it may refuse any operation, leaving its target in any state. */
  class FlashDevice {
    const geometry: Geometry
    const memory: array<Byte>
    const reliable: bool

    ghost predicate Valid() {
      geometry.Valid() && memory.Length == geometry.End() - geometry.start
    }

    constructor (geometry: Geometry, reliable: bool)
      requires geometry.Valid()
      ensures Valid() && this.geometry == geometry && this.reliable == reliable && fresh(memory)
    {
      this.geometry, this.reliable := geometry, reliable;
      memory := new Byte[geometry.End() - geometry.start];
    }

    /** Whole pages, inside one sector: what every write must be. */
    ghost predicate Writable(addr: nat, size: nat) {
      && geometry.Valid()
      && geometry.start <= addr < geometry.End()
      && Aligned(addr, geometry.pageSize) && Aligned(size, geometry.pageSize)
      && addr + size <= geometry.SectorStart(geometry.SectorIndex(addr) + 1) <= geometry.End()
    }

    /** Many targets only take word-aligned sources. */
    method ProgramPage(addr: nat, data: array<Byte>, from: nat, size: nat, wordAligned: bool) returns (ret: int)
      requires Valid() && Writable(addr, size) && data != memory && from + size <= data.Length
      requires wordAligned
      modifies memory
      ensures ret == 0 ==> memory[..] == Programmed(old(memory[..]), addr - geometry.start, data[from..from + size])
      ensures ret != 0 ==> SameOutside(old(memory[..]), memory[..], addr - geometry.start, addr + size - geometry.start)
      ensures reliable ==> ret == 0
    {
      ghost var was := memory[..];
      var at := addr - geometry.start;
      var refuse: bool := *;
      if refuse && !reliable {
        var n: nat :| n <= size;
        var junk: Byte := *;
        forall i | at <= i < at + n {
          memory[i] := junk;
        }
        return -1;
      }
      forall i | at <= i < at + size {
        memory[i] := Burn(memory[i], data[from + i - at]);
      }
      assert memory[..] == Programmed(was, at, data[from..from + size]);
      return 0;
    }

    method EraseSector(addr: nat) returns (ret: int)
      requires Valid() && geometry.start <= addr < geometry.End()
      requires geometry.SectorStart(geometry.SectorIndex(addr)) == addr
      modifies memory
      ensures ret == 0 ==> memory[..] == Erased(old(memory[..]), addr - geometry.start,
                                                addr + geometry.SectorSize(addr) - geometry.start)
      ensures ret != 0 ==> SameOutside(old(memory[..]), memory[..], addr - geometry.start,
                                       addr + geometry.SectorSize(addr) - geometry.start)
      ensures reliable ==> ret == 0
    {
      ghost var was := memory[..];
      var from, to := addr - geometry.start, addr + geometry.SectorSize(addr) - geometry.start;
      var refuse: bool := *;
      if refuse && !reliable {
        return 7;
      }
      forall i | from <= i < to && i < memory.Length {
        memory[i] := ERASED;
      }
      assert memory[..] == Erased(was, from, to);
      return 0;
    }
  }

  predicate SameOutside(was: seq<Byte>, now: seq<Byte>, from: nat, to: nat)
    requires |was| == |now|
  {
    forall i :: 0 <= i < |was| && !(from <= i < to) ==> now[i] == was[i]
  }

  /** The end of the last page a write of `size` bytes touches, relative to its start. */
  function PagesEnd(size: nat, page: nat): nat
    requires page > 0
  {
    (size + page - 1) / page * page
  }

  /** A refused write: what came before `done` is written, and nothing outside the pages of the range is touched. */
  ghost predicate PartlyDone(was: seq<Byte>, now: seq<Byte>, at: nat, data: seq<Byte>, done: nat, page: nat)
    requires |was| == |now| && page > 0
  {
    && done <= |data| && at + |data| <= |was|
    && (forall i :: 0 <= i < at + done ==> now[i] == Programmed(was, at, data)[i])
    && SameOutside(was, now, at, at + PagesEnd(|data|, page))
  }

  lemma PartlyDoneHere(was: seq<Byte>, before: seq<Byte>, now: seq<Byte>, at: nat, data: seq<Byte>, i: nat, reach: nat,
                       page: nat)
    requires |was| == |before| == |now| && page > 0 && i <= |data| && at + |data| <= |was|
    requires before == Programmed(was, at, data[..i]) && SameOutside(before, now, at + i, at + i + reach)
    requires Aligned(i, page) && Aligned(reach, page) && i + reach < |data| + page
    ensures PartlyDone(was, now, at, data, i, page)
  {
    hide PagesEnd;
    PagesReach(i, reach, |data|, page);
    PagesCover(|data|, page);
    forall j | 0 <= j < at + i ensures now[j] == Programmed(was, at, data)[j] {
      assert now[j] == before[j];
    }
    forall j | 0 <= j < |was| && !(at <= j < at + PagesEnd(|data|, page)) ensures now[j] == was[j] {
      assert now[j] == before[j];
    }
  }

  lemma ProgrammedNothing(was: seq<Byte>, at: nat)
    requires at <= |was|
    ensures Programmed(was, at, []) == was
  {
  }

  lemma PagesCover(size: nat, page: nat)
    requires page > 0
    ensures size <= PagesEnd(size, page) < size + page
    ensures Aligned(PagesEnd(size, page), page)
  {
    RoundDown(size + page - 1, page);
  }

  /** A page-aligned stretch that starts inside the write ends within its last page. */
  lemma PagesReach(done: nat, chunk: nat, size: nat, page: nat)
    requires page > 0 && Aligned(done, page) && Aligned(chunk, page) && done + chunk < size + page
    ensures done + chunk <= PagesEnd(size, page)
  {
    AlignedSum(done, chunk, page);
    var n := done + chunk;
    DivMod(size + page - 1, page);
    assert n == n / page * page;
    MulMonoDiv(n, size + page - 1, page);
  }

  lemma MulMonoDiv(n: nat, m: nat, p: nat)
    requires p > 0 && n <= m && n == n / p * p
    ensures n <= m / p * p
  {
    DivMod(m, p);
    assert (m / p + 1) * p == m / p * p + p;
    if m / p < n / p {
      MulMono(m / p + 1, n / p, p);
    }
  }

  class FlashIAP {
    const flash: FlashDevice
    const pageBuf: array<Byte>

    ghost predicate Valid() {
      && flash.Valid() && pageBuf != flash.memory
      && pageBuf.Length == flash.geometry.pageSize
    }

    constructor (flash: FlashDevice)
      requires flash.Valid()
      ensures Valid() && this.flash == flash && fresh(pageBuf)
    {
      this.flash := flash;
      pageBuf := new Byte[flash.geometry.pageSize];
    }

    /** Copies the chunk and pads it to a page. */
    method FillPage(buffer: array<Byte>, from: nat, chunk: nat)
      requires Valid() && buffer != pageBuf && from + chunk <= buffer.Length && chunk <= pageBuf.Length
      modifies pageBuf
      ensures pageBuf[..chunk] == buffer[from..from + chunk]
      ensures forall i :: chunk <= i < pageBuf.Length ==> pageBuf[i] == ERASED
    {
      forall i | 0 <= i < chunk {
        pageBuf[i] := buffer[from + i];
      }
      if chunk < pageBuf.Length {
        forall i | chunk <= i < pageBuf.Length {
          pageBuf[i] := 0xFF;
        }
      }
    }

    /** How much the next write takes, and whether it goes through the page buffer. */
    method NextChunk(addr: nat, left: nat, source: nat) returns (chunk: nat, buffered: bool)
      requires Valid() && left > 0 && Aligned(addr, flash.geometry.pageSize)
      requires flash.geometry.start <= addr && addr + left <= flash.geometry.End()
      ensures 0 < chunk <= left
      ensures buffered ==> chunk <= flash.geometry.pageSize && flash.Writable(addr, flash.geometry.pageSize)
                           && (chunk == flash.geometry.pageSize || chunk == left)
      ensures !buffered ==> flash.Writable(addr, chunk) && source % 4 == 0
    {
      var g, page := flash.geometry, flash.geometry.pageSize;
      var k := g.SectorIndex(addr);
      var currentSectorSize := g.SectorSize(addr);
      g.OffsetInSector(k, addr);
      SectorRest(g, k, addr);
      var rest := currentSectorSize - addr % currentSectorSize;
      chunk := if rest < left then rest else left;
      buffered := source / 4 * 4 != source || chunk < page;
      if buffered {
        chunk := if chunk < page then chunk else page;
        SelfAligned(page);
      } else {
        RoundDown(chunk, page);
        AtLeastOne(chunk, page);
        chunk := chunk / page * page;
      }
    }

    /** One round of the loop: the next chunk is written, or the driver refuses. */
    method WriteChunk(buffer: array<Byte>, done: nat, left: nat, addr: nat, source: nat)
      returns (chunk: nat, ret: int, ghost reach: nat, ghost pad: seq<Byte>)
      requires Valid() && buffer != pageBuf && buffer != flash.memory && done + left <= buffer.Length
      requires left > 0 && Aligned(addr, flash.geometry.pageSize)
      requires flash.geometry.start <= addr && addr + left <= flash.geometry.End()
      modifies flash.memory, pageBuf
      ensures 0 < chunk <= left && reach >= chunk && Aligned(reach, flash.geometry.pageSize)
      ensures reach == chunk || (chunk == left && reach == flash.geometry.pageSize)
      ensures addr + reach <= flash.geometry.End()
      ensures flash.reliable ==> ret == 0
      ensures chunk + |pad| == reach && forall i :: 0 <= i < |pad| ==> pad[i] == ERASED
      ensures ret == 0 ==> flash.memory[..] == Programmed(old(flash.memory[..]), addr - flash.geometry.start,
                                                          buffer[done..done + chunk] + pad)
      ensures ret != 0 ==> SameOutside(old(flash.memory[..]), flash.memory[..],
                                       addr - flash.geometry.start, addr + reach - flash.geometry.start)
    {
      hide Aligned;
      var page := flash.geometry.pageSize;
      var buffered;
      chunk, buffered := NextChunk(addr, left, source);
      if buffered {
        FillPage(buffer, done, chunk);
        reach := page;
        SelfAligned(page);
        pad := pageBuf[chunk..];
        ret := flash.ProgramPage(addr, pageBuf, 0, page, true);
        assert pageBuf[0..page] == buffer[done..done + chunk] + pad;
      } else {
        reach := chunk;
        ret := flash.ProgramPage(addr, buffer, done, chunk, source % 4 == 0);
        pad := [];
        assert buffer[done..done + chunk] == buffer[done..done + chunk] + pad;
      }
    }

    method WriteAll(buffer: array<Byte>, source: nat, addr: nat, size: nat) returns (ret: int, ghost done: nat)
      requires Valid() && size <= buffer.Length && buffer != pageBuf && buffer != flash.memory
      requires flash.geometry.start <= addr && addr + size <= flash.geometry.End()
      requires Aligned(addr, flash.geometry.pageSize)
      modifies flash.memory, pageBuf
      ensures ret == 0 || ret == -1
      ensures flash.reliable ==> ret == 0
      ensures buffer[..] == old(buffer[..])
      ensures ret == 0 ==> flash.memory[..] == Programmed(old(flash.memory[..]), addr - flash.geometry.start,
                                                          buffer[..size])
      ensures ret != 0 ==> PartlyDone(old(flash.memory[..]), flash.memory[..], addr - flash.geometry.start,
                                      buffer[..size], done, flash.geometry.pageSize)
    {
      hide Aligned;
      hide Programmed;
      hide PartlyDone;
      ret, done := 0, 0;
      var left: nat, cur: nat, src: nat := size, addr, source;
      ghost var was, at := flash.memory[..], addr - flash.geometry.start;
      ghost var page := flash.geometry.pageSize;
      assert buffer[..0] == [];
      ZeroAligned(page);
      ProgrammedNothing(was, at);
      while left > 0
        invariant left <= size && cur == addr + (size - left)
        invariant left > 0 ==> Aligned(cur, page) && Aligned(size - left, page)
        invariant flash.memory[..] == Programmed(was, at, buffer[..size - left])
        decreases left
      {
        ghost var i: nat, before := size - left, flash.memory[..];
        var chunk;
        ghost var reach, pad;
        chunk, ret, reach, pad := WriteChunk(buffer, size - left, left, cur, src);
        if ret != 0 {
          ret := -1;
          done := i;
          assert buffer[..size][..i] == buffer[..i];
          PartlyDoneHere(was, before, flash.memory[..], at, buffer[..size], i, reach, page);
          return;
        }
        ProgrammedAppend(was, at, buffer[..i], buffer[i..i + chunk], pad);
        assert buffer[..i] + buffer[i..i + chunk] == buffer[..i + chunk];
        if chunk < left {
          AlignedSum(cur, chunk, page);
          AlignedSum(i, chunk, page);
        }
        left := left - chunk;
        cur := cur + chunk;
        src := src + chunk;
      }
    }

    /** `source` is the address of the buffer; only its alignment matters. `done` is how far a refused write got. */
    method Program(buffer: array?<Byte>, source: nat, addr: nat, size: nat) returns (ret: int, ghost done: nat)
      requires Valid() && flash.geometry.start <= addr && addr + size < 0x1_0000_0000
      requires buffer != null ==> size <= buffer.Length && buffer != pageBuf && buffer != flash.memory
      modifies flash.memory, pageBuf
      ensures ret == 0 || ret == -1
      ensures ret == 0 ==> buffer != null && addr % flash.geometry.pageSize == 0 && addr + size <= flash.geometry.End()
      ensures flash.reliable ==>
                (ret == 0 <==> buffer != null && addr % flash.geometry.pageSize == 0 && addr + size <= flash.geometry.End())
      ensures buffer == null || addr % flash.geometry.pageSize != 0 || addr + size > flash.geometry.End() ==>
                ret == -1 && flash.memory[..] == old(flash.memory[..])
      ensures ret == 0 ==> flash.memory[..] == Programmed(old(flash.memory[..]), addr - flash.geometry.start,
                                                          old(buffer[..size]))
      ensures ret != 0 && buffer != null && addr % flash.geometry.pageSize == 0 && addr + size <= flash.geometry.End() ==>
                PartlyDone(old(flash.memory[..]), flash.memory[..], addr - flash.geometry.start,
                           old(buffer[..size]), done, flash.geometry.pageSize)
    {
      hide Programmed;
      hide PartlyDone;
      if addr % flash.geometry.pageSize != 0 || buffer == null || addr + size > flash.geometry.End() {
        return -1, 0;
      }
      ret, done := WriteAll(buffer, source, addr, size);
      assert buffer[..size] == buffer[..][..size];
    }

    /** Erases the sectors of a range that starts at a sector and ends, without wrapping, where a sector or the flash
      * ends; any other end is refused before anything is erased. */
    method Erase(addr: nat, size: nat) returns (ret: int)
      requires Valid() && flash.geometry.IsBoundary(addr) && addr + size < 0x1_0000_0000
      modifies flash.memory
      ensures ret == 0 ==> flash.geometry.IsBoundary(addr + size)
      ensures flash.geometry.IsBoundary(addr + size) && flash.reliable ==> ret == 0
      ensures !flash.geometry.IsBoundary(addr + size) ==> ret == -1 && flash.memory[..] == old(flash.memory[..])
      ensures ret == 0 ==> flash.memory[..] == Erased(old(flash.memory[..]), addr - flash.geometry.start,
                                                      addr + size - flash.geometry.start)
      ensures ret != 0 ==> SameOutside(old(flash.memory[..]), flash.memory[..], addr - flash.geometry.start,
                                       addr + size - flash.geometry.start)
    {
      var g := flash.geometry;
      var end := addr + size;
      g.BoundaryRange(addr);
      if end > g.End() {
        NoBoundaryBeyond(g, end);
        return -1;
      } else if end < g.End() {
        g.BoundaryIsAligned(end);
        if end % g.SectorSize(end) != 0 {
          return -1;
        }
      } else {
        assert g.SectorStart(|g.sectors|) == end;
      }
      ret := EraseAll(addr, size);
    }

    method EraseAll(addr: nat, size: nat) returns (ret: int)
      requires Valid() && flash.geometry.IsBoundary(addr) && flash.geometry.IsBoundary(addr + size)
      modifies flash.memory
      ensures ret == 0 || ret == -1
      ensures flash.reliable ==> ret == 0
      ensures ret == 0 ==> flash.memory[..] == Erased(old(flash.memory[..]), addr - flash.geometry.start,
                                                      addr + size - flash.geometry.start)
      ensures ret != 0 ==> SameOutside(old(flash.memory[..]), flash.memory[..], addr - flash.geometry.start,
                                       addr + size - flash.geometry.start)
    {
      hide Erased;
      ret := 0;
      var g := flash.geometry;
      var left: nat, cur: nat := size, addr;
      ghost var was, at := flash.memory[..], addr - g.start;
      ErasedNothing(was, at);
      while left > 0
        invariant cur + left == addr + size && addr <= cur && g.IsBoundary(cur)
        invariant flash.memory[..] == Erased(was, at, cur - g.start)
        decreases left
      {
        NextBoundary(g, cur, addr + size);
        ghost var before := flash.memory[..];
        ret := flash.EraseSector(cur);
        if ret != 0 {
          ret := -1;
          ErasedOutside(was, before, flash.memory[..], at, cur - g.start, cur + g.SectorSize(cur) - g.start,
                        addr + size - g.start);
          return;
        }
        var currentSectorSize := g.SectorSize(cur);
        ErasedAppend(was, at, cur - g.start, cur + currentSectorSize - g.start);
        left := left - currentSectorSize;
        cur := cur + currentSectorSize;
      }
    }

    /** On a reliable flash any buffer that fills the last sector is written into it. */
    method ProgramLastSector(buffer: array<Byte>, source: nat) returns (ret: int)
      requires Valid() && flash.reliable && flash.geometry.sectors != []
      requires buffer != pageBuf && buffer != flash.memory
      requires buffer.Length == flash.geometry.sectors[|flash.geometry.sectors| - 1]
      modifies flash.memory, pageBuf
      ensures ret == 0
      ensures flash.memory[..] == Programmed(old(flash.memory[..]), flash.memory.Length - buffer.Length, old(buffer[..]))
    {
      hide Programmed;
      hide PartlyDone;
      var g := flash.geometry;
      g.LastSector();
      ghost var done;
      ret, done := Program(buffer, source, g.SectorStart(|g.sectors| - 1), buffer.Length);
      assert old(buffer[..buffer.Length]) == old(buffer[..]);
    }
  }

  lemma ZeroAligned(p: nat)
    requires p > 0
    ensures Aligned(0, p)
  {
    QuotientIs(0, p, 0, 0);
  }

  lemma NoBoundaryBeyond(g: Geometry, addr: nat)
    requires g.Valid() && addr > g.End()
    ensures !g.IsBoundary(addr)
  {
    if g.IsBoundary(addr) {
      g.BoundaryRange(addr);
    }
  }

  /** From a boundary below another one, the whole sector in between fits. */
  lemma NextBoundary(g: Geometry, addr: nat, end: nat)
    requires g.Valid() && g.IsBoundary(addr) && g.IsBoundary(end) && addr < end
    ensures g.start <= addr < g.End() && g.SectorStart(g.SectorIndex(addr)) == addr
    ensures 0 < g.SectorSize(addr) && addr + g.SectorSize(addr) <= end <= g.End()
    ensures g.IsBoundary(addr + g.SectorSize(addr))
  {
    hide Aligned;
    g.BoundaryRange(addr);
    g.BoundaryRange(end);
    var i :| 0 <= i <= |g.sectors| && g.SectorStart(i) == addr;
    var j :| 0 <= j <= |g.sectors| && g.SectorStart(j) == end;
    BoundaryOrder(g, i, j);
    g.StartsIncrease(i, i + 1);
    g.SectorUnique(i, g.SectorIndex(addr), addr);
    g.OffsetInSector(i, addr);
    if i + 1 < j {
      g.StartsIncrease(i + 1, j);
    }
  }

  lemma BoundaryOrder(g: Geometry, i: nat, j: nat)
    requires g.Valid() && i <= |g.sectors| && j <= |g.sectors| && g.SectorStart(i) < g.SectorStart(j)
    ensures i < j
  {
    if j < i {
      g.StartsIncrease(j, i);
    }
  }

  lemma ErasedNothing(was: seq<Byte>, at: nat)
    ensures Erased(was, at, at) == was
  {
  }

  lemma ErasedOutside(was: seq<Byte>, before: seq<Byte>, now: seq<Byte>, at: nat, from: nat, to: nat, end: nat)
    requires |was| == |before| == |now| && at <= from && to <= end
    requires before == Erased(was, at, from) && from <= to && SameOutside(before, now, from, to)
    ensures SameOutside(was, now, at, end)
  {
    forall i | 0 <= i < |was| && !(at <= i < end) ensures now[i] == was[i] {
      assert now[i] == before[i];
    }
  }

  lemma SelfAligned(p: nat)
    requires p > 0
    ensures Aligned(p, p)
  {
    QuotientIs(p, p, 1, 0);
  }

  lemma AtLeastOne(n: nat, p: nat)
    requires p > 0 && n >= p
    ensures n / p * p >= p
  {
    RoundDown(n, p);
    DivMod(n, p);
    if n / p > 0 {
      MulMono(1, n / p, p);
    }
  }

  /** What is left of a sector from a page-aligned address is at least a page, and whole pages. */
  lemma SectorRest(g: Geometry, k: nat, addr: nat)
    requires g.Valid() && g.InSector(k, addr) && Aligned(addr, g.pageSize)
    ensures var rest := g.sectors[k] - (addr - g.SectorStart(k));
      rest >= g.pageSize && Aligned(rest, g.pageSize) && addr + rest == g.SectorStart(k + 1) <= g.End()
  {
    hide Aligned;
    var rest := g.sectors[k] - (addr - g.SectorStart(k));
    assert g.SectorValid(k);
    g.OffsetInSector(k, addr);
    g.StartsAligned(k);
    AlignedDifference(addr, g.SectorStart(k), g.pageSize);
    AlignedDifference(g.sectors[k], addr - g.SectorStart(k), g.pageSize);
    PositiveMultiple(rest, g.pageSize);
    if k + 1 < |g.sectors| {
      g.StartsIncrease(k + 1, |g.sectors|);
    }
  }

  lemma PositiveMultiple(n: nat, p: nat)
    requires p > 0 && n > 0 && Aligned(n, p)
    ensures n >= p
  {
    if n < p {
      QuotientIs(n, p, 0, n);
    }
  }
}
