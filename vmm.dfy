/**
 * The kernel's page-table builder: `get_next_page` follows or creates the
 * table below a slot, `vmm_map_page` walks the four levels and writes the
 * leaf entry, and `vmm_init` builds the kernel's address space.
 *
 * Tables are held in `TableMemory` by physical frame; the alias of physical
 * memory at `phys + hhdm_offset` through which the C code reaches them is
 * not modelled. New table frames come from a pool standing for the
 * physical memory manager: `pmm_alloc_page` hands out the pool's frames in
 * order and returns 0 (NULL) once it is empty.
 */
module Vmm {
  import opened Base
  import opened Limine
  import opened Paging

  /** What `get_next_page` yields: the table below the slot, NULL, or a halt on an allocation failure. */
  datatype NextTable = Table(frame: Frame) | NoTable | OutOfMemory

  /** The walk of every virtual address that was mapped under `root` is the same in `mem'` as in `mem`. */
  ghost predicate SameTranslation(mem: TableMemory, mem': TableMemory, root: Frame)
  {
    forall w :: Mapped(mem', root, w) == Mapped(mem, root, w)
  }

  /** Translations kept across two changes are kept across both. */
  lemma SameTranslationTrans(m1: TableMemory, m2: TableMemory, m3: TableMemory, root: Frame)
    requires SameTranslation(m1, m2, root) && SameTranslation(m2, m3, root)
    ensures SameTranslation(m1, m3, root)
  {
  }

  /** Linking a new zeroed table changes no translation under a PML4. */
  lemma LinkSameTranslation(mem: TableMemory, level: map<Frame, nat>, t: Frame, i: nat, n: Frame, root: Frame)
    requires CanLink(mem, level, t, i, n)
    requires root in mem && level[root] == 4
    ensures SameTranslation(mem, Link(mem, t, i, n), root)
  {
    forall w {
      LinkPreservesWalk(mem, level, t, i, n, root, w);
    }
  }

  /** Writing the leaf entry for `v` changes the translation of `v`'s page and no other. */
  lemma WriteEntryTranslation(mem: TableMemory, level: map<Frame, nat>, root: Frame, v: bv64, e: bv64)
    requires CanWrite(mem, level, root, Path(v))
    ensures var mem' := WriteEntry(mem, LeafTable(mem, root, 4, Path(v)).value, Path(v)[0], e);
            && Walk(mem', root, v) == Some(e)
            && forall w :: Mapped(mem', root, w) == if SamePage(w, v) then IfPresent(e) else Mapped(mem, root, w)
  {
    var mem' := WriteEntry(mem, LeafTable(mem, root, 4, Path(v)).value, Path(v)[0], e);
    forall w
      ensures Mapped(mem', root, w) == if SamePage(w, v) then IfPresent(e) else Mapped(mem, root, w)
    {
      SamePagePath(w, v);
      WriteEntryWalk(mem, level, root, Path(v), e, Path(w));
    }
    WriteEntryWalk(mem, level, root, Path(v), e, Path(v));
  }

  /** The flags of every HHDM, rodata and data mapping: `PTE_PRESENT | PTE_RW | PTE_NX`. */
  const DATA_FLAGS: bv64 := PTE_PRESENT | PTE_RW | PTE_NX

  /** The flags of the text mapping: `PTE_PRESENT` alone, so the pages are read-only. */
  const TEXT_FLAGS: bv64 := PTE_PRESENT

  /** The kernel image's sections, from the linker script's `__text_start` … `__data_end` symbols. */
  datatype Sections = Sections(textStart: u64, textEnd: u64, rodataStart: u64, rodataEnd: u64,
                               dataStart: u64, dataEnd: u64)

  /** One `vmm_map_page(pml4, virt, phys, flags)` call. */
  datatype PageWrite = PageWrite(virt: u64, phys: u64, flags: bv64)
  {
    /** The leaf entry the call writes: `phys | flags`, with `phys` not masked. */
    function Entry(): bv64
    {
      Bits(phys) | flags
    }
  }

  /**
   * A `uint64_t` value as the 64 bits a page-table entry or a virtual address
   * holds, built bit by bit: the bits of `a / 2` shifted up, with the low bit of `a`.
   */
  function Bits(a: u64): bv64
    decreases a
  {
    if a == 0 then 0 else (Bits(a / 2) << 1) | (if a % 2 == 0 then 0 else 1)
  }

  /**
   * The translation of `w` after the leaf writes `ws`, in order, into a
   * PML4 that mapped nothing: the last write to `w`'s page, if its entry is
   * present.
   */
  function Translation(ws: seq<PageWrite>, w: bv64): Option<bv64>
  {
    if |ws| == 0 then None
    else if SamePage(w, Bits(ws[|ws| - 1].virt)) then IfPresent(ws[|ws| - 1].Entry())
    else Translation(ws[..|ws| - 1], w)
  }

  /** A page that a write reaches and no later write reaches translates as that write says. */
  lemma {:induction false} TranslationLastWrite(ws: seq<PageWrite>, k: nat, w: bv64)
    requires k < |ws| && SamePage(w, Bits(ws[k].virt))
    requires forall j :: k < j < |ws| ==> !SamePage(w, Bits(ws[j].virt))
    ensures Translation(ws, w) == IfPresent(ws[k].Entry())
  {
    if k < |ws| - 1 {
      TranslationLastWrite(ws[..|ws| - 1], k, w);
    }
  }

  /** A translation comes from a write to the same page: no page is mapped that nothing wrote. */
  lemma {:induction false} TranslationWritten(ws: seq<PageWrite>, w: bv64)
    requires Translation(ws, w).Some?
    ensures exists k :: 0 <= k < |ws| && SamePage(w, Bits(ws[k].virt)) && Some(ws[k].Entry()) == Translation(ws, w)
  {
    var n := |ws| - 1;
    var init := ws[..n];
    if SamePage(w, Bits(ws[n].virt)) {
      assert Some(ws[n].Entry()) == Translation(ws, w);
    } else {
      assert Translation(ws, w) == Translation(init, w);
      TranslationWritten(init, w);
      var k :| 0 <= k < n && SamePage(w, Bits(init[k].virt)) && Some(init[k].Entry()) == Translation(init, w);
      assert ws[k] == init[k];
      assert SamePage(w, Bits(ws[k].virt)) && Some(ws[k].Entry()) == Translation(ws, w);
    }
  }

  /**
   * The leaf write of one iteration of a mapping loop over `a`: the page at
   * `a + dv` maps to `(a + dp) | flags`, in `uint64_t` arithmetic.
   */
  function RangeWrite(a: u64, dv: int, dp: int, flags: bv64): PageWrite
  {
    PageWrite(Wrap64(a + dv), Wrap64(a + dp), flags)
  }

  /**
   * The number of pages a loop `for (a = start; a < end; a += PAGE_SIZE)`
   * visits, for page-aligned bounds.
   */
  function PageCount(start: u64, end: u64): (n: nat)
    requires start % 4096 == 0 && end % 4096 == 0
    ensures start + 4096 * n == if start <= end then end else start
  {
    if end <= start then 0 else end / 4096 - start / 4096
  }

  /** The leaf writes of the first `n` iterations of a mapping loop from `start`, in order. */
  function Pages(start: u64, n: nat, dv: int, dp: int, flags: bv64): (ws: seq<PageWrite>)
    requires start + 4096 * n <= U64_MODULUS
    ensures |ws| == n
  {
    if n == 0 then [] else Pages(start, n - 1, dv, dp, flags) + [RangeWrite(start + 4096 * (n - 1), dv, dp, flags)]
  }

  /**
   * The leaf writes of a mapping loop `for (a = start; a < end; a += PAGE_SIZE)`
   * over page-aligned bounds, one `RangeWrite` per page, in order.
   */
  function RangeWrites(start: u64, end: u64, dv: int, dp: int, flags: bv64): seq<PageWrite>
    requires start % 4096 == 0 && end % 4096 == 0
  {
    Pages(start, PageCount(start, end), dv, dp, flags)
  }

  /** The `k`-th write of the first `n` iterations is the one for the page `k` pages above `start`. */
  lemma {:induction false} PagesAt(start: u64, n: nat, dv: int, dp: int, flags: bv64, k: nat)
    requires start + 4096 * n <= U64_MODULUS && k < n
    ensures Pages(start, n, dv, dp, flags)[k] == RangeWrite(start + 4096 * k, dv, dp, flags)
  {
    if k < n - 1 {
      PagesAt(start, n - 1, dv, dp, flags, k);
    }
  }

  /** Every write of a mapping loop is for a page of `[start, end)`. */
  lemma RangeWritesFrom(start: u64, end: u64, dv: int, dp: int, flags: bv64, x: PageWrite)
    requires start % 4096 == 0 && end % 4096 == 0
    requires x in RangeWrites(start, end, dv, dp, flags)
    ensures exists a: u64 :: start <= a < end && a % 4096 == 0 && x == RangeWrite(a, dv, dp, flags)
  {
    var n := PageCount(start, end);
    var ws := RangeWrites(start, end, dv, dp, flags);
    var k :| 0 <= k < n && ws[k] == x;
    PagesAt(start, n, dv, dp, flags, k);
    var a: u64 := start + 4096 * k;
    assert start <= a < end && a % 4096 == 0 && x == RangeWrite(a, dv, dp, flags);
  }

  /** Every page of `[start, end)` gets its write in a mapping loop. */
  lemma RangeWritesHas(start: u64, end: u64, dv: int, dp: int, flags: bv64, a: u64)
    requires start % 4096 == 0 && end % 4096 == 0
    requires start <= a < end && a % 4096 == 0
    ensures RangeWrite(a, dv, dp, flags) in RangeWrites(start, end, dv, dp, flags)
  {
    var n := PageCount(start, end);
    var k := a / 4096 - start / 4096;
    assert a == start + 4096 * k && k < n;
    PagesAt(start, n, dv, dp, flags, k);
  }

  /** Every page of `[start, end)` gets its write, and every write is for such a page. */
  lemma RangeWritesPages(start: u64, end: u64, dv: int, dp: int, flags: bv64, x: PageWrite)
    requires start % 4096 == 0 && end % 4096 == 0
    ensures x in RangeWrites(start, end, dv, dp, flags) <==>
            exists a: u64 :: start <= a < end && a % 4096 == 0 && x == RangeWrite(a, dv, dp, flags)
  {
    if x in RangeWrites(start, end, dv, dp, flags) {
      RangeWritesFrom(start, end, dv, dp, flags, x);
    }
    if exists a: u64 :: start <= a < end && a % 4096 == 0 && x == RangeWrite(a, dv, dp, flags) {
      var a: u64 :| start <= a < end && a % 4096 == 0 && x == RangeWrite(a, dv, dp, flags);
      RangeWritesHas(start, end, dv, dp, flags, a);
    }
  }

  /** Every leaf entry of a mapping loop carries the loop's flags. */
  lemma RangeWritesFlags(start: u64, end: u64, dv: int, dp: int, flags: bv64, x: PageWrite)
    requires start % 4096 == 0 && end % 4096 == 0
    requires x in RangeWrites(start, end, dv, dp, flags)
    ensures x.Entry() & flags == flags
  {
    RangeWritesFrom(start, end, dv, dp, flags, x);
  }

  /** The memory-map kinds whose frames `vmm_init` maps into the HHDM. */
  predicate HhdmKind(kind: MemmapKind)
  {
    kind == Usable || kind == BootloaderReclaimable || kind == ExecutableAndModules || kind == Framebuffer
  }

  /**
   * The HHDM writes for one memory-map entry: every frame from
   * `ALIGN_DOWN(base)` up to `ALIGN_UP(base + length)` at `phys + hhdm`,
   * when the entry is of a mapped kind, and nothing otherwise.
   */
  function EntryWrites(e: MemmapEntry, hhdm: u64): seq<PageWrite>
  {
    if HhdmKind(e.kind) then RangeWrites(AlignDown(e.base), AlignUp(Wrap64(e.base + e.length)), hhdm, 0, DATA_FLAGS)
    else []
  }

  /** The HHDM writes for the memory map, entry by entry. */
  function HhdmWrites(m: seq<MemmapEntry>, hhdm: u64): seq<PageWrite>
  {
    if |m| == 0 then [] else HhdmWrites(m[..|m| - 1], hhdm) + EntryWrites(m[|m| - 1], hhdm)
  }

  /** The writes for a prefix of the memory map are a prefix of the writes for all of it. */
  lemma {:induction false} HhdmWritesPrefix(m: seq<MemmapEntry>, hhdm: u64, i: nat)
    requires i <= |m|
    ensures HhdmWrites(m[..i], hhdm) <= HhdmWrites(m, hhdm)
  {
    if i < |m| {
      assert m[..|m| - 1][..i] == m[..i];
      HhdmWritesPrefix(m[..|m| - 1], hhdm, i);
    } else {
      assert m[..i] == m;
    }
  }

  /** The loop over the memory map adds the writes of one entry at a time. */
  lemma HhdmWritesStep(m: seq<MemmapEntry>, hhdm: u64, i: nat)
    requires i < |m|
    ensures HhdmWrites(m[..i + 1], hhdm) == HhdmWrites(m[..i], hhdm) + EntryWrites(m[i], hhdm)
    ensures |HhdmWrites(m[..i + 1], hhdm)| <= |HhdmWrites(m, hhdm)|
  {
    assert m[..i + 1][..i] == m[..i];
    HhdmWritesPrefix(m, hhdm, i + 1);
  }

  /** Every HHDM write of every memory-map entry is among the HHDM writes for the map. */
  lemma HhdmWritesCover(m: seq<MemmapEntry>, hhdm: u64, i: nat, x: PageWrite)
    requires i < |m| && x in EntryWrites(m[i], hhdm)
    ensures x in HhdmWrites(m, hhdm)
  {
    HhdmWritesStep(m, hhdm, i);
    HhdmWritesPrefix(m, hhdm, i + 1);
    var before, all := HhdmWrites(m[..i + 1], hhdm), HhdmWrites(m, hhdm);
    var k :| 0 <= k < |before| && before[k] == x;
    assert all[k] == x;
  }

  /** Every HHDM write is for a frame of an entry of a mapped kind. */
  lemma {:induction false} HhdmWritesSource(m: seq<MemmapEntry>, hhdm: u64, x: PageWrite)
    requires x in HhdmWrites(m, hhdm)
    ensures exists i :: 0 <= i < |m| && HhdmKind(m[i].kind) && x in EntryWrites(m[i], hhdm)
  {
    var n := |m| - 1;
    if x in HhdmWrites(m[..n], hhdm) {
      HhdmWritesSource(m[..n], hhdm, x);
      var i :| 0 <= i < n && HhdmKind(m[..n][i].kind) && x in EntryWrites(m[..n][i], hhdm);
      assert m[i] == m[..n][i];
    } else {
      assert x in EntryWrites(m[n], hhdm);
    }
  }

  /**
   * The first page of the text mapping: one page below `ALIGN_DOWN(__text_start)`,
   * in `uint64_t` arithmetic.
   */
  function TextStart(s: Sections): (a: u64)
    ensures a % 4096 == 0
  {
    var d := AlignDown(s.textStart);
    assert d >= 4096 ==> Wrap64(d - 4096) == d - 4096;
    assert d < 4096 ==> d == 0 && Wrap64(d - 4096) == U64_MODULUS - 4096;
    Wrap64(d - 4096)
  }

  /**
   * The text writes: from one page below `__text_start` up to
   * `ALIGN_UP(__text_end)`, each page at its virtual address mapping to
   * `virt - virtual_base + physical_base`, read-only.
   */
  function TextWrites(s: Sections, x: ExecutableAddress): seq<PageWrite>
  {
    RangeWrites(TextStart(s), AlignUp(s.textEnd), 0, x.physicalBase - x.virtualBase, TEXT_FLAGS)
  }

  /** The rodata writes: `[ALIGN_DOWN(__rodata_start), ALIGN_UP(__rodata_end))`, with the data flags. */
  function RodataWrites(s: Sections, x: ExecutableAddress): seq<PageWrite>
  {
    RangeWrites(AlignDown(s.rodataStart), AlignUp(s.rodataEnd), 0, x.physicalBase - x.virtualBase, DATA_FLAGS)
  }

  /** The data writes: `[ALIGN_DOWN(__data_start), ALIGN_UP(__data_end))`, with the data flags. */
  function DataWrites(s: Sections, x: ExecutableAddress): seq<PageWrite>
  {
    RangeWrites(AlignDown(s.dataStart), AlignUp(s.dataEnd), 0, x.physicalBase - x.virtualBase, DATA_FLAGS)
  }

  /** Every leaf write `vmm_init` makes, in order: the HHDM, then the kernel's text, rodata and data. */
  function InitWrites(m: seq<MemmapEntry>, hhdm: u64, s: Sections, x: ExecutableAddress): seq<PageWrite>
  {
    HhdmWrites(m, hhdm) + TextWrites(s, x) + RodataWrites(s, x) + DataWrites(s, x)
  }

  /**
   * The text mapping begins a whole page below `__text_start`: the page
   * before the one holding it is mapped as text.
   */
  lemma TextMapsPageBelow(s: Sections, x: ExecutableAddress)
    requires 4096 <= s.textStart < s.textEnd <= U64_MODULUS - 4096
    ensures TextStart(s) + 4096 <= s.textStart
    ensures RangeWrite(TextStart(s), 0, x.physicalBase - x.virtualBase, TEXT_FLAGS) in TextWrites(s, x)
  {
    var dp := x.physicalBase - x.virtualBase;
    var a := TextStart(s);
    assert a == AlignDown(s.textStart) - 4096;
    RangeWritesHas(a, AlignUp(s.textEnd), 0, dp, TEXT_FLAGS, a);
  }

  /** Every rodata page is mapped writable, as the data pages are. */
  lemma RodataWritable(s: Sections, x: ExecutableAddress, w: PageWrite)
    requires w in RodataWrites(s, x)
    ensures w.Entry() & PTE_RW != 0
  {
    RangeWritesFlags(AlignDown(s.rodataStart), AlignUp(s.rodataEnd), 0, x.physicalBase - x.virtualBase, DATA_FLAGS, w);
  }

  /** Pools with `n` more non-zero frames after `taken`: the next `n` allocations succeed. */
  predicate Available(pool: seq<bv64>, taken: nat, n: nat)
  {
    taken + n <= |pool| && forall k :: taken <= k < taken + n ==> pool[k] != 0
  }

  /** After at most `d` of them are taken, `n - d` of the frames remain. */
  lemma AvailableAfter(pool: seq<bv64>, t0: nat, t1: nat, n: nat, d: nat)
    requires Available(pool, t0, n) && t0 <= t1 <= t0 + d && d <= n
    ensures Available(pool, t1, n - d)
  {
  }

  /**
   * The kernel's paging state: the tables in physical memory, the frames
   * the physical memory manager will still hand out, `kernel_pml4` and the
   * value loaded into CR3 (both physical addresses, 0 before `vmm_init`).
   */
  class AddressSpace {
    var mem: TableMemory
    ghost var level: map<Frame, nat>
    const pool: seq<bv64>
    var taken: nat
    var kernelPml4: bv64
    var cr3: bv64

    /**
     * The tables form a well-formed hierarchy, and the frames of the pool
     * not yet handed out are distinct frame addresses none of which
     * already holds a table.
     */
    ghost predicate Valid()
      reads this`mem, this`level, this`taken
    {
      && WellFormed(mem, level)
      && taken <= |pool|
      && (forall k :: taken <= k < |pool| ==> IsFrame(pool[k]) && Frame(pool[k]) !in mem)
      && (forall j, k :: 0 <= j < k < |pool| ==> pool[j] != pool[k])
    }

    /** The next `n` allocations succeed: the pool has `n` more frames and none of them is frame 0. */
    predicate Ready(n: nat)
      reads this`taken
    {
      Available(pool, taken, n)
    }

    /** No tables yet; `frames` are the frames the physical memory manager will hand out, in order. */
    constructor (frames: seq<bv64>)
      requires forall k :: 0 <= k < |frames| ==> IsFrame(frames[k])
      requires forall j, k :: 0 <= j < k < |frames| ==> frames[j] != frames[k]
      ensures Valid() && mem == map[] && pool == frames && taken == 0 && kernelPml4 == 0 && cr3 == 0
    {
      mem := map[];
      level := map[];
      pool := frames;
      taken := 0;
      kernelPml4 := 0;
      cr3 := 0;
    }

    /** `pmm_alloc_page` as the page-table builder sees it: the next frame, or 0 (NULL) when there is none. */
    method AllocFrame() returns (phys: bv64)
      modifies this
      ensures old(taken) < |pool| ==> phys == pool[old(taken)] && taken == old(taken) + 1
      ensures old(taken) >= |pool| ==> phys == 0 && taken == old(taken)
      ensures mem == old(mem) && level == old(level) && kernelPml4 == old(kernelPml4) && cr3 == old(cr3)
    {
      if taken >= |pool| {
        return 0;
      }
      phys := pool[taken];
      taken := taken + 1;
    }

    /**
     * `get_next_page(table, index, allocate)`: the table a present slot
     * points to; NULL for an absent slot when `allocate` is false;
     * otherwise a new frame, zero-filled and linked into the slot with
     * `PTE_PRESENT | PTE_RW`. An allocation that returns 0 halts the kernel.
     */
    method GetNextPage(t: Frame, index: nat, allocate: bool) returns (r: NextTable)
      requires Valid() && t in mem && level[t] >= 2 && index < ENTRIES
      modifies this
      ensures Valid() && kernelPml4 == old(kernelPml4) && cr3 == old(cr3)
      ensures var e := old(mem[t][index]);
              if Present(e) then
                r == Table(Target(e)) && mem == old(mem) && level == old(level) && taken == old(taken)
              else if !allocate then
                r == NoTable && mem == old(mem) && level == old(level) && taken == old(taken)
              else if !old(Ready(1)) then
                r == OutOfMemory && mem == old(mem) && level == old(level) && old(taken) <= taken <= old(taken) + 1
              else
                var n := Frame(pool[old(taken)]);
                && r == Table(n)
                && mem == Link(old(mem), t, index, n)
                && level == old(level)[n := old(level[t]) - 1]
                && taken == old(taken) + 1
      ensures r.Table? ==> IsTable(mem, r.frame) && level[r.frame] == level[t] - 1
      ensures r.Table? ==> Present(mem[t][index]) && Target(mem[t][index]) == r.frame
      ensures forall u :: u in old(mem) ==> u in mem && level[u] == old(level[u])
      ensures forall u :: u in old(mem) && u != t ==> mem[u] == old(mem[u])
    {
      var e := mem[t][index];
      if Present(e) {
        assert ClosedAt(mem, level, t);
        return Table(Target(e));
      }
      if !allocate {
        return NoTable;
      }
      var phys := AllocFrame();
      if phys == 0 {
        return OutOfMemory;
      }
      InstallTable(t, index, phys);
      return Table(Frame(phys));
    }

    /**
     * The end of `get_next_page` for an absent slot: zero-fill the frame
     * just taken from the pool and link it into the slot with
     * `PTE_PRESENT | PTE_RW`.
     */
    method InstallTable(t: Frame, index: nat, phys: bv64)
      requires Valid() && t in mem && level[t] >= 2 && index < ENTRIES && !Present(mem[t][index])
      requires IsFrame(phys) && Frame(phys) !in mem && forall k :: taken <= k < |pool| ==> pool[k] != phys
      modifies this
      ensures Valid() && taken == old(taken) && kernelPml4 == old(kernelPml4) && cr3 == old(cr3)
      ensures mem == Link(old(mem), t, index, Frame(phys))
      ensures level == old(level)[Frame(phys) := old(level[t]) - 1]
      ensures Present(mem[t][index]) && Target(mem[t][index]) == Frame(phys)
    {
      var n := Frame(phys);
      LinkWellFormed(mem, level, t, index, n);
      LinkEntryAt(mem, level, t, index, n, t, index);
      mem := Link(mem, t, index, n);
      level := level[n := level[t] - 1];
    }

    /**
     * `vmm_map_page(pml4, virt, phys, flags)`: walk (and where needed
     * build) the tables for `virt` and write `phys | flags` into its leaf
     * slot; `phys` is not masked. It returns false where the kernel halts:
     * a table it needed could not be allocated.
     */
    method MapPage(root: Frame, virt: bv64, phys: bv64, flags: bv64) returns (ok: bool)
      requires Valid() && root in mem && level[root] == 4
      modifies this
      ensures Valid() && root in mem && level[root] == 4
      ensures kernelPml4 == old(kernelPml4) && cr3 == old(cr3)
      ensures old(taken) <= taken <= old(taken) + 3
      ensures old(LeafTable(mem, root, 4, Path(virt))).Some? ==> ok && taken == old(taken) && mem.Keys == old(mem.Keys)
      ensures old(Ready(3)) ==> ok
      ensures ok ==> Walk(mem, root, virt) == Some(phys | flags)
      ensures ok ==> forall w :: Mapped(mem, root, w) == if SamePage(w, virt) then IfPresent(phys | flags) else old(Mapped(mem, root, w))
    {
      var pt := WalkToLeaf(root, virt);
      if !pt.Table? {
        return false;
      }
      WriteLeaf(root, virt, pt.frame, phys | flags);
      return true;
    }

    /**
     * The three `get_next_page(…, true)` calls of `vmm_map_page`: the page
     * table for `virt`, building the tables that are missing on the way,
     * with at most one new frame per level. No translation changes.
     */
    method WalkToLeaf(root: Frame, virt: bv64) returns (pt: NextTable)
      requires Valid() && root in mem && level[root] == 4
      modifies this
      ensures Valid() && root in mem && level[root] == 4
      ensures kernelPml4 == old(kernelPml4) && cr3 == old(cr3)
      ensures SameTranslation(old(mem), mem, root)
      ensures old(taken) <= taken <= old(taken) + 3
      ensures old(LeafTable(mem, root, 4, Path(virt))).Some? ==> pt.Table? && mem == old(mem) && taken == old(taken)
      ensures old(Ready(3)) ==> pt.Table?
      ensures pt.Table? ==> LeafTable(mem, root, 4, Path(virt)) == Some(pt.frame)
    {
      var p := Path(virt);
      ghost var mem0 := mem;
      ghost var built := LeafTable(mem, root, 4, p).Some?;
      if built {
        LeafTablePresent(mem, root, 4, p);
      }
      var pdpt := Step(root, p[3], root);
      if !pdpt.Table? {
        return pdpt;
      }
      if built {
        LeafTablePresent(mem, pdpt.frame, 3, p);
      }
      ghost var mem1, rootTable := mem, mem[root];
      var pd := Step(pdpt.frame, p[2], root);
      SameTranslationTrans(mem0, mem1, mem, root);
      if !pd.Table? {
        return pd;
      }
      assert mem[root] == rootTable;
      if built {
        LeafTablePresent(mem, pd.frame, 2, p);
      }
      ghost var mem2, pdptTable := mem, mem[pdpt.frame];
      pt := Step(pd.frame, p[1], root);
      SameTranslationTrans(mem0, mem2, mem, root);
      if pt.Table? {
        assert mem[root] == rootTable && mem[pdpt.frame] == pdptTable;
        LeafTableThrough(mem, root, pdpt.frame, pd.frame, pt.frame, p);
      }
    }

    /** `pt[pt_idx] = phys | flags`: write the leaf entry for `virt` into the page table `pt` its walk reaches. */
    method WriteLeaf(root: Frame, virt: bv64, pt: Frame, e: bv64)
      requires Valid() && root in mem && level[root] == 4
      requires LeafTable(mem, root, 4, Path(virt)) == Some(pt)
      modifies this
      ensures Valid() && taken == old(taken) && kernelPml4 == old(kernelPml4) && cr3 == old(cr3)
      ensures mem.Keys == old(mem.Keys) && level == old(level)
      ensures Walk(mem, root, virt) == Some(e)
      ensures forall w :: Mapped(mem, root, w) == if SamePage(w, virt) then IfPresent(e) else old(Mapped(mem, root, w))
    {
      WriteEntryTranslation(mem, level, root, virt, e);
      WriteEntryWellFormed(mem, level, root, Path(virt), e);
      mem := WriteEntry(mem, pt, Path(virt)[0], e);
    }

    /**
     * One level of the walk in `vmm_map_page`: `get_next_page(t, index, true)`,
     * with the fact that it changes no translation under `root`.
     */
    method Step(t: Frame, index: nat, ghost root: Frame) returns (r: NextTable)
      requires Valid() && t in mem && level[t] >= 2 && index < ENTRIES
      requires root in mem && level[root] == 4
      modifies this
      ensures Valid() && kernelPml4 == old(kernelPml4) && cr3 == old(cr3)
      ensures forall u :: u in old(mem) ==> u in mem && level[u] == old(level[u])
      ensures forall u :: u in old(mem) && u != t ==> mem[u] == old(mem[u])
      ensures root in mem && level[root] == 4
      ensures SameTranslation(old(mem), mem, root)
      ensures old(taken) <= taken <= old(taken) + 1
      ensures Present(old(mem[t][index])) ==> r == Table(Target(old(mem[t][index]))) && mem == old(mem) && taken == old(taken)
      ensures old(Ready(1)) ==> r.Table?
      ensures r.Table? && old(Ready(3)) ==> Ready(2)
      ensures r.Table? && old(Ready(2)) ==> Ready(1)
      ensures r.Table? ==> IsTable(mem, r.frame) && level[r.frame] == level[t] - 1
      ensures r.Table? ==> Present(mem[t][index]) && Target(mem[t][index]) == r.frame
      ensures r != NoTable
    {
      ghost var mem0, level0, taken0 := mem, level, taken;
      r := GetNextPage(t, index, true);
      if mem != mem0 {
        LinkSameTranslation(mem0, level0, t, index, Frame(pool[taken0]), root);
      }
    }

    /**
     * The PML4 `root` is a table of the hierarchy, and every virtual address
     * translates under it as the leaf writes `ws` leave it.
     */
    ghost predicate Tracks(root: Frame, ws: seq<PageWrite>)
      reads this`mem, this`level, this`taken
    {
      && Valid() && root in mem && level[root] == 4
      && forall w {:trigger Translation(ws, w)} :: Mapped(mem, root, w) == Translation(ws, w)
    }

    /**
     * `vmm_init`: allocate and zero-fill the kernel PML4, map the frames of
     * the usable, boot-loader-reclaimable, executable-and-modules and
     * framebuffer entries of the memory map at `phys + hhdm`, map the
     * kernel's text (from one page below `__text_start`, read-only), rodata
     * and data at their link addresses, and load the PML4 into CR3. It
     * returns false where the kernel halts: the text section is empty, the
     * boot loader gave no executable address, or a frame could not be
     * allocated.
     */
    method Init(m: seq<MemmapEntry>, hhdm: u64, s: Sections, exec: Option<ExecutableAddress>) returns (ok: bool)
      requires Valid()
      modifies this
      ensures s.textEnd <= s.textStart || exec.None? ==> !ok && mem == old(mem) && taken == old(taken) && cr3 == old(cr3)
      ensures exec.Some? && s.textStart < s.textEnd && old(Ready(1 + 3 * |InitWrites(m, hhdm, s, exec.value)|)) ==> ok
      ensures ok ==> exec.Some? && cr3 == kernelPml4 && Tracks(Frame(kernelPml4), InitWrites(m, hhdm, s, exec.value))
    {
      if s.textEnd <= s.textStart {
        return false;
      }
      if exec.None? {
        return false;
      }
      var x := exec.value;
      ghost var hhdmWrites := HhdmWrites(m, hhdm);
      ghost var kernel := |TextWrites(s, x)| + |RodataWrites(s, x)| + |DataWrites(s, x)|;
      ghost var ready := Ready(1 + 3 * (|hhdmWrites| + kernel));
      ghost var taken0 := taken;
      var rootPhys := AllocFrame();
      if rootPhys == 0 {
        return false;
      }
      kernelPml4 := rootPhys;
      NewRoot(rootPhys);
      var root := Frame(rootPhys);
      if ready {
        AvailableAfter(pool, taken0, taken, 1 + 3 * (|hhdmWrites| + kernel), 1);
      }
      ghost var taken1 := taken;
      ok := MapHhdm(root, m, hhdm);
      if !ok {
        return;
      }
      if ready {
        AvailableAfter(pool, taken1, taken, 3 * (|hhdmWrites| + kernel), 3 * |hhdmWrites|);
      }
      ok := MapKernel(root, s, x, hhdmWrites);
      if !ok {
        return;
      }
      assert InitWrites(m, hhdm, s, x) == hhdmWrites + TextWrites(s, x) + RodataWrites(s, x) + DataWrites(s, x);
      cr3 := rootPhys;
    }

    /** `memset(kernel_pml4, 0, PAGE_SIZE)`: the frame just allocated becomes an empty PML4. */
    method NewRoot(phys: bv64)
      requires Valid() && IsFrame(phys) && Frame(phys) !in mem
      requires forall k :: taken <= k < |pool| ==> pool[k] != phys
      modifies this
      ensures taken == old(taken) && kernelPml4 == old(kernelPml4) && cr3 == old(cr3)
      ensures mem == old(mem)[Frame(phys) := ZeroTable()] && level == old(level)[Frame(phys) := 4]
      ensures Tracks(Frame(phys), [])
    {
      AddRootWellFormed(mem, level, Frame(phys));
      mem := mem[Frame(phys) := ZeroTable()];
      level := level[Frame(phys) := 4];
    }

    /** The HHDM loop of `vmm_init`: every frame of every entry of a mapped kind, at `phys + hhdm`. */
    method MapHhdm(root: Frame, m: seq<MemmapEntry>, hhdm: u64) returns (ok: bool)
      requires Tracks(root, [])
      modifies this
      ensures kernelPml4 == old(kernelPml4) && cr3 == old(cr3)
      ensures old(taken) <= taken <= old(taken) + 3 * |HhdmWrites(m, hhdm)|
      ensures old(Ready(3 * |HhdmWrites(m, hhdm)|)) ==> ok
      ensures ok ==> Tracks(root, HhdmWrites(m, hhdm))
    {
      ghost var total := |HhdmWrites(m, hhdm)|;
      ghost var ready := Ready(3 * total);
      ghost var taken0 := taken;
      assert m[..0] == [];
      var i := 0;
      while i < |m|
        invariant i <= |m|
        invariant Tracks(root, HhdmWrites(m[..i], hhdm))
        invariant kernelPml4 == old(kernelPml4) && cr3 == old(cr3)
        invariant |HhdmWrites(m[..i], hhdm)| <= total
        invariant taken0 <= taken <= taken0 + 3 * |HhdmWrites(m[..i], hhdm)|
        invariant ready ==> Ready(3 * (total - |HhdmWrites(m[..i], hhdm)|))
      {
        ghost var before := HhdmWrites(m[..i], hhdm);
        HhdmWritesStep(m, hhdm, i);
        ok := MapEntry(root, m[i], hhdm, before, total - |HhdmWrites(m[..i + 1], hhdm)|);
        if !ok {
          return;
        }
        i := i + 1;
      }
      assert i == |m| && m[..i] == m;
      return true;
    }

    /**
     * One iteration of the HHDM loop: map the frames of `e` when it is of a
     * mapped kind, using at most three of the frames still available per page.
     */
    method MapEntry(root: Frame, e: MemmapEntry, hhdm: u64, ghost ws: seq<PageWrite>, ghost rest: nat) returns (ok: bool)
      requires Tracks(root, ws)
      modifies this
      ensures kernelPml4 == old(kernelPml4) && cr3 == old(cr3)
      ensures old(taken) <= taken <= old(taken) + 3 * |EntryWrites(e, hhdm)|
      ensures old(Ready(3 * (rest + |EntryWrites(e, hhdm)|))) ==> ok && Ready(3 * rest)
      ensures ok ==> Tracks(root, ws + EntryWrites(e, hhdm))
    {
      ghost var ready, taken0 := Ready(3 * (rest + |EntryWrites(e, hhdm)|)), taken;
      if HhdmKind(e.kind) {
        ok := MapRange(root, AlignDown(e.base), AlignUp(Wrap64(e.base + e.length)), hhdm, 0, DATA_FLAGS, ws);
      } else {
        assert ws + EntryWrites(e, hhdm) == ws;
        ok := true;
      }
      if ok && ready {
        AvailableAfter(pool, taken0, taken, 3 * (rest + |EntryWrites(e, hhdm)|), 3 * |EntryWrites(e, hhdm)|);
      }
    }

    /**
     * The kernel-image loops of `vmm_init`: text, rodata and data, each page
     * mapping to `virt - virtual_base + physical_base`.
     */
    method MapKernel(root: Frame, s: Sections, x: ExecutableAddress, ghost ws: seq<PageWrite>) returns (ok: bool)
      requires Tracks(root, ws)
      modifies this
      ensures kernelPml4 == old(kernelPml4) && cr3 == old(cr3)
      ensures old(Ready(3 * (|TextWrites(s, x)| + |RodataWrites(s, x)| + |DataWrites(s, x)|))) ==> ok
      ensures ok ==> Tracks(root, ws + TextWrites(s, x) + RodataWrites(s, x) + DataWrites(s, x))
    {
      var dp := x.physicalBase - x.virtualBase;
      ghost var text, rodata, data := TextWrites(s, x), RodataWrites(s, x), DataWrites(s, x);
      assert text == RangeWrites(TextStart(s), AlignUp(s.textEnd), 0, dp, TEXT_FLAGS);
      assert rodata == RangeWrites(AlignDown(s.rodataStart), AlignUp(s.rodataEnd), 0, dp, DATA_FLAGS);
      assert data == RangeWrites(AlignDown(s.dataStart), AlignUp(s.dataEnd), 0, dp, DATA_FLAGS);
      ghost var ready := Ready(3 * (|text| + |rodata| + |data|));
      ghost var taken0 := taken;
      ok := MapRange(root, TextStart(s), AlignUp(s.textEnd), 0, dp, TEXT_FLAGS, ws);
      if !ok {
        return;
      }
      if ready {
        AvailableAfter(pool, taken0, taken, 3 * (|text| + |rodata| + |data|), 3 * |text|);
      }
      ghost var taken1 := taken;
      ok := MapRange(root, AlignDown(s.rodataStart), AlignUp(s.rodataEnd), 0, dp, DATA_FLAGS, ws + text);
      if !ok {
        return;
      }
      if ready {
        AvailableAfter(pool, taken1, taken, 3 * (|rodata| + |data|), 3 * |rodata|);
      }
      ok := MapRange(root, AlignDown(s.dataStart), AlignUp(s.dataEnd), 0, dp, DATA_FLAGS, ws + text + rodata);
    }

    /**
     * One mapping loop of `vmm_init`:
     * `for (a = start; a < end; a += PAGE_SIZE) vmm_map_page(pml4, a + dv, a + dp, flags)`
     * in `uint64_t` arithmetic, over page-aligned bounds. The writes `ws`
     * made before are followed by this loop's.
     */
    method MapRange(root: Frame, start: u64, end: u64, dv: int, dp: int, flags: bv64, ghost ws: seq<PageWrite>)
      returns (ok: bool)
      requires Tracks(root, ws)
      requires start % 4096 == 0 && end % 4096 == 0
      modifies this
      ensures kernelPml4 == old(kernelPml4) && cr3 == old(cr3)
      ensures old(taken) <= taken <= old(taken) + 3 * |RangeWrites(start, end, dv, dp, flags)|
      ensures old(Ready(3 * |RangeWrites(start, end, dv, dp, flags)|)) ==> ok
      ensures ok ==> Tracks(root, ws + RangeWrites(start, end, dv, dp, flags))
    {
      ghost var count := PageCount(start, end);
      ghost var ready := Ready(3 * count);
      ghost var taken0 := taken;
      ghost var k := 0;
      var a := start;
      assert ws + Pages(start, 0, dv, dp, flags) == ws;
      ghost var kp, cr := kernelPml4, cr3;
      while a < end
        invariant a == start + 4096 * k
        invariant Progress(root, ws, start, dv, dp, flags, k, count, taken0, ready, kp, cr)
        decreases count - k
      {
        ok := MapStep(root, a, dv, dp, flags, start, k, count, ws, taken0, ready, kp, cr);
        if !ok {
          return;
        }
        // `a + PAGE_SIZE` is at most `end`, so the `uint64_t` addition does not wrap.
        a := a + 4096;
        k := k + 1;
      }
      ProgressDone(root, ws, start, end, dv, dp, flags, k, taken0, ready, kp, cr);
      return true;
    }

    /** When the loop leaves `a < end`, every page has been mapped and the writes are the loop's. */
    lemma ProgressDone(root: Frame, ws: seq<PageWrite>, start: u64, end: u64, dv: int, dp: int, flags: bv64,
                       k: nat, taken0: nat, ready: bool, kp: bv64, cr: bv64)
      requires start % 4096 == 0 && end % 4096 == 0 && start + 4096 * k >= end
      requires Progress(root, ws, start, dv, dp, flags, k, PageCount(start, end), taken0, ready, kp, cr)
      ensures kernelPml4 == kp && cr3 == cr
      ensures Tracks(root, ws + RangeWrites(start, end, dv, dp, flags))
      ensures taken0 <= taken <= taken0 + 3 * |RangeWrites(start, end, dv, dp, flags)|
    {
      assert k == PageCount(start, end);
    }

    /**
     * A mapping loop from `start` over `count` pages has done `k` of them:
     * the translation follows the writes `ws` and then the first `k` of the
     * loop's, at most three frames went to each page, and if the pool had
     * three frames per page at the start it still has three per page left.
     */
    ghost predicate Progress(root: Frame, ws: seq<PageWrite>, start: u64, dv: int, dp: int, flags: bv64,
                             k: nat, count: nat, taken0: nat, ready: bool, kp: bv64, cr: bv64)
      reads this
    {
      && kernelPml4 == kp && cr3 == cr
      && k <= count && start + 4096 * count <= U64_MODULUS
      && Tracks(root, ws + Pages(start, k, dv, dp, flags))
      && taken0 <= taken <= taken0 + 3 * k
      && (ready ==> Ready(3 * (count - k)))
    }

    /**
     * The body of a mapping loop at `a`, the `k`-th page above `start`:
     * `vmm_map_page(pml4, a + dv, a + dp, flags)`, using at most three of
     * the frames still available.
     */
    method MapStep(root: Frame, a: u64, dv: int, dp: int, flags: bv64, ghost start: u64, ghost k: nat,
                   ghost count: nat, ghost ws: seq<PageWrite>, ghost taken0: nat, ghost ready: bool,
                   ghost kp: bv64, ghost cr: bv64) returns (ok: bool)
      requires a == start + 4096 * k && k < count
      requires Progress(root, ws, start, dv, dp, flags, k, count, taken0, ready, kp, cr)
      modifies this
      ensures kernelPml4 == kp && cr3 == cr
      ensures old(taken) <= taken <= old(taken) + 3
      ensures ready ==> ok
      ensures ok ==> Progress(root, ws, start, dv, dp, flags, k + 1, count, taken0, ready, kp, cr)
    {
      ghost var taken1 := taken;
      ghost var before := ws + Pages(start, k, dv, dp, flags);
      ok := MapOne(root, Wrap64(a + dv), Wrap64(a + dp), flags, before);
      if ok && ready {
        AvailableAfter(pool, taken1, taken, 3 * (count - k), 3);
      }
      assert ws + Pages(start, k + 1, dv, dp, flags) == before + [RangeWrite(a, dv, dp, flags)];
    }

    /** One iteration of a mapping loop: `vmm_map_page(pml4, virt, phys, flags)`, followed by one more write. */
    method MapOne(root: Frame, virt: u64, phys: u64, flags: bv64, ghost ws: seq<PageWrite>) returns (ok: bool)
      requires Tracks(root, ws)
      modifies this
      ensures kernelPml4 == old(kernelPml4) && cr3 == old(cr3)
      ensures old(taken) <= taken <= old(taken) + 3
      ensures old(Ready(3)) ==> ok
      ensures ok ==> Tracks(root, ws + [PageWrite(virt, phys, flags)])
    {
      ok := MapPage(root, Bits(virt), Bits(phys), flags);
      ghost var ws' := ws + [PageWrite(virt, phys, flags)];
      assert ws'[..|ws|] == ws;
    }
  }
}
