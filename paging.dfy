/**
 * x86-64 4-level paging as the kernel's page-table builder uses it: the
 * page-table-entry flags, the alignment macros and the physical-address
 * mask, the split of a virtual address into four 9-bit table indices, and
 * a walk of a page-table hierarchy held in physical memory (section 4.5 of
 * Volume 3A of the Intel 64 and IA-32 Architectures Software Developer's
 * Manual).
 *
 * Table memory is a map from the physical address of a table frame to its
 * 512 entries. A ghost level map records which level (4 = PML4 down to
 * 1 = PT) each table serves at; the hierarchy is well formed when every
 * present entry of a non-leaf table points to a table one level down and
 * no two such entries point to the same table (the hierarchy is a tree).
 */
module Paging {
  import opened Base

  /** Page-table-entry flags. */
  const PTE_PRESENT: bv64 := 1
  const PTE_RW: bv64 := 2
  const PTE_USER: bv64 := 4
  const PTE_PWT: bv64 := 8
  const PTE_PCD: bv64 := 16
  const PTE_ACCESSED: bv64 := 32
  const PTE_DIRTY: bv64 := 64
  const PTE_HUGE: bv64 := 128
  const PTE_GLOBAL: bv64 := 256
  /** The no-execute flag is defined as 0, so it sets no bit. */
  const PTE_NX: bv64 := 0

  /** Bits 12 to 51 of an entry: the physical address of the frame it maps. */
  const PHYS_ADDR_MASK: bv64 := 0x000F_FFFF_FFFF_F000

  /** Entries per table. */
  const ENTRIES: nat := 512

  /** The flags are the distinct single bits 0 to 8, and `PTE_NX` sets none. */
  lemma FlagBits()
    ensures PTE_PRESENT == 1 << 0 && PTE_RW == 1 << 1 && PTE_USER == 1 << 2
    ensures PTE_PWT == 1 << 3 && PTE_PCD == 1 << 4 && PTE_ACCESSED == 1 << 5
    ensures PTE_DIRTY == 1 << 6 && PTE_HUGE == 1 << 7 && PTE_GLOBAL == 1 << 8
    ensures PTE_NX == 0
  {
  }

  /**
   * `ALIGN_DOWN(a)`, that is `a & ~0xFFF`: `a` rounded down to a multiple
   * of 4096.
   */
  function AlignDown(a: u64): (r: u64)
    ensures r % 4096 == 0
    ensures r <= a && a - r < 4096
  {
    a - a % 4096
  }

  /**
   * `ALIGN_UP(a)`, that is `(a + 0xFFF) & ~0xFFF` in `uint64_t`: `a`
   * rounded up to a multiple of 4096, unless the addition wraps.
   */
  function AlignUp(a: u64): (r: u64)
    ensures r % 4096 == 0
    ensures a <= U64_MODULUS - 4096 ==> a <= r && r - a < 4096
  {
    AlignDown(Wrap64(a + 0xFFF))
  }

  /** Both macros leave a multiple of 4096 as it is, so they are idempotent. */
  lemma AlignIdentity(a: u64)
    requires a % 4096 == 0
    ensures AlignDown(a) == a
    ensures AlignUp(a) == a
  {
    assert a <= U64_MODULUS - 4096;
    assert Wrap64(a + 0xFFF) == a + 0xFFF;
  }

  /** `PHYS_ADDR_MASK` has exactly the bits 12 to 51. */
  lemma PhysMaskBits(j: nat)
    requires j < 64
    ensures (PHYS_ADDR_MASK >> j) & 1 == 1 <==> 12 <= j < 52
  {
  }

  /** A frame address the mask keeps whole: 4096-aligned and below 2^52. */
  predicate IsFrame(p: bv64)
  {
    p & PHYS_ADDR_MASK == p
  }

  /** Flags that fit in the low 12 bits of an entry. */
  predicate LowFlags(f: bv64)
  {
    f & 0xFFF == f
  }

  /** The mask recovers the frame address from a frame address OR'd with low flags. */
  lemma MaskRecoversFrame(p: bv64, f: bv64)
    requires IsFrame(p) && LowFlags(f)
    ensures (p | f) & PHYS_ADDR_MASK == p
  {
  }

  /** An entry maps its frame. */
  predicate Present(e: bv64)
  {
    e & PTE_PRESENT != 0
  }

  /** The physical address of a page-table frame, as a key of table memory. */
  datatype Frame = Frame(addr: bv64)

  /** The frame an entry points to (`entry & PHYS_ADDR_MASK`). */
  function Target(e: bv64): Frame
  {
    Frame(e & PHYS_ADDR_MASK)
  }

  /** The entry `get_next_page` writes to link a new table: `phys | PTE_PRESENT | PTE_RW`. */
  function LinkEntry(p: bv64): (e: bv64)
    requires IsFrame(p)
    ensures Present(e) && Target(e) == Frame(p)
  {
    MaskRecoversFrame(p, PTE_PRESENT | PTE_RW);
    p | PTE_PRESENT | PTE_RW
  }

  /** The 9-bit index `(v >> 39) & 0x1FF` of virtual address `v` in the PML4. */
  function Pml4Index(v: bv64): (i: bv64)
    ensures i < 512
    ensures i << 39 == v & 0xFF80_0000_0000
  {
    (v >> 39) & 0x1FF
  }

  /** The index `(v >> 30) & 0x1FF` in the page-directory-pointer table. */
  function PdptIndex(v: bv64): (i: bv64)
    ensures i < 512
    ensures i << 30 == v & 0x007F_C000_0000
  {
    (v >> 30) & 0x1FF
  }

  /** The index `(v >> 21) & 0x1FF` in the page directory. */
  function PdIndex(v: bv64): (i: bv64)
    ensures i < 512
    ensures i << 21 == v & 0x0000_3FE0_0000
  {
    (v >> 21) & 0x1FF
  }

  /** The index `(v >> 12) & 0x1FF` in the page table. */
  function PtIndex(v: bv64): (i: bv64)
    ensures i < 512
    ensures i << 12 == v & 0x0000_001F_F000
  {
    (v >> 12) & 0x1FF
  }

  /** The four indices and the page offset put back together give bits 0 to 47 of `v`. */
  lemma IndexSplit(v: bv64)
    ensures (Pml4Index(v) << 39) | (PdptIndex(v) << 30) | (PdIndex(v) << 21) | (PtIndex(v) << 12) | (v & 0xFFF)
            == v & 0xFFFF_FFFF_FFFF
  {
    assert (v & 0xFF80_0000_0000) | (v & 0x007F_C000_0000) | (v & 0x0000_3FE0_0000) | (v & 0x0000_001F_F000)
           | (v & 0xFFF) == v & 0xFFFF_FFFF_FFFF;
  }

  /**
   * The indices that virtual address `v` selects: element `lvl - 1` is the
   * index in the table serving at level `lvl` (4 = PML4, 1 = PT).
   */
  function Path(v: bv64): (p: seq<nat>)
    ensures ValidPath(p)
  {
    [Index(PtIndex(v)), Index(PdIndex(v)), Index(PdptIndex(v)), Index(Pml4Index(v))]
  }

  /** A table index, below 512, as a natural number: only its low nine bits can be set. */
  function Index(i: bv64): (n: nat)
    requires i < 512
    ensures n < ENTRIES
  {
    (i as bv9) as int
  }

  /** Four table indices, each below 512. */
  predicate ValidPath(p: seq<nat>)
  {
    |p| == 4 && forall k :: 0 <= k < 4 ==> p[k] < ENTRIES
  }

  /** The bits of a canonical virtual address that select its page: bits 12 to 47. */
  const PAGE_BITS: bv64 := 0xFFFF_FFFF_F000

  /** Two virtual addresses lie in the same page: they agree on bits 12 to 47. */
  predicate SamePage(w: bv64, v: bv64)
  {
    w & PAGE_BITS == v & PAGE_BITS
  }

  /** Bits 12 to 47 of `v` are its four indices, each shifted into place. */
  lemma PageBits(v: bv64)
    ensures v & PAGE_BITS == (Pml4Index(v) << 39) | (PdptIndex(v) << 30) | (PdIndex(v) << 21) | (PtIndex(v) << 12)
  {
    assert v & PAGE_BITS == (v & 0xFF80_0000_0000) | (v & 0x007F_C000_0000) | (v & 0x0000_3FE0_0000) | (v & 0x0000_001F_F000);
  }

  /** Each index of `v` depends only on bits 12 to 47. */
  lemma IndicesOfPageBits(v: bv64)
    ensures Pml4Index(v) == Pml4Index(v & PAGE_BITS) && PdptIndex(v) == PdptIndex(v & PAGE_BITS)
    ensures PdIndex(v) == PdIndex(v & PAGE_BITS) && PtIndex(v) == PtIndex(v & PAGE_BITS)
  {
  }

  /** Addresses in the same page have the same index at every level. */
  lemma SamePageIndices(w: bv64, v: bv64)
    requires SamePage(w, v)
    ensures Pml4Index(w) == Pml4Index(v) && PdptIndex(w) == PdptIndex(v)
    ensures PdIndex(w) == PdIndex(v) && PtIndex(w) == PtIndex(v)
  {
    IndicesOfPageBits(w);
    IndicesOfPageBits(v);
  }

  /** Nine-bit values with the same integer value are equal. */
  lemma NineBitsInjective(x: bv9, y: bv9)
    requires x as int == y as int
    ensures x == y
  {
    assert (x as int) as bv9 == x;
  }

  /** An index below 512 is kept whole by its low nine bits. */
  lemma NineBitsWhole(i: bv64)
    requires i < 512
    ensures (i as bv9) as bv64 == i
  {
  }

  /** Distinct table indices are distinct natural numbers. */
  lemma IndexInjective(a: bv64, b: bv64)
    requires a < 512 && b < 512 && Index(a) == Index(b)
    ensures a == b
  {
    NineBitsInjective(a as bv9, b as bv9);
    NineBitsWhole(a);
    NineBitsWhole(b);
  }

  /** Addresses with the same path lie in the same page. */
  lemma PathIndices(w: bv64, v: bv64)
    requires Path(w) == Path(v)
    ensures SamePage(w, v)
  {
    IndexInjective(PtIndex(w), PtIndex(v));
    IndexInjective(PdIndex(w), PdIndex(v));
    IndexInjective(PdptIndex(w), PdptIndex(v));
    IndexInjective(Pml4Index(w), Pml4Index(v));
    PageBits(w);
    PageBits(v);
  }

  /** Two addresses lie in the same page iff they select the same entry at every level. */
  lemma SamePagePath(w: bv64, v: bv64)
    ensures SamePage(w, v) <==> Path(w) == Path(v)
  {
    if Path(w) == Path(v) {
      PathIndices(w, v);
    }
    if SamePage(w, v) {
      SamePageIndices(w, v);
    }
  }

  /** Physical memory holding page tables, by the physical address of each table frame. */
  type TableMemory = map<Frame, seq<bv64>>

  /** A table as `memset(…, 0, PAGE_SIZE)` leaves it. */
  function ZeroTable(): (z: seq<bv64>)
    ensures |z| == ENTRIES
    ensures forall i :: 0 <= i < ENTRIES ==> z[i] == 0
  {
    seq(ENTRIES, _ => 0)
  }

  predicate IsTable(mem: TableMemory, t: Frame)
  {
    t in mem && |mem[t]| == ENTRIES
  }

  /**
   * The leaf table (PT) reached from table `t`, serving at level `lvl`, by
   * following the present entries that the indices `p` select.
   */
  function LeafTable(mem: TableMemory, t: Frame, lvl: nat, p: seq<nat>): (r: Option<Frame>)
    requires 1 <= lvl <= 4 && ValidPath(p)
    ensures r.Some? ==> IsTable(mem, r.value)
    decreases lvl
  {
    if !IsTable(mem, t) then None
    else if lvl == 1 then Some(t)
    else
      var e := mem[t][p[lvl - 1]];
      if Present(e) then LeafTable(mem, Target(e), lvl - 1, p) else None
  }

  /** One level of the walk: from a table whose selected entry is present, the walk goes on from that entry's target. */
  lemma LeafTableStep(mem: TableMemory, t: Frame, lvl: nat, p: seq<nat>, c: Frame)
    requires 2 <= lvl <= 4 && ValidPath(p) && IsTable(mem, t)
    requires Present(mem[t][p[lvl - 1]]) && Target(mem[t][p[lvl - 1]]) == c
    ensures LeafTable(mem, t, lvl, p) == LeafTable(mem, c, lvl - 1, p)
  {
  }

  /** A walk that reaches a page table passes through a present entry at every level above it. */
  lemma LeafTablePresent(mem: TableMemory, t: Frame, lvl: nat, p: seq<nat>)
    requires 2 <= lvl <= 4 && ValidPath(p) && LeafTable(mem, t, lvl, p).Some?
    ensures IsTable(mem, t) && Present(mem[t][p[lvl - 1]])
    ensures LeafTable(mem, Target(mem[t][p[lvl - 1]]), lvl - 1, p) == LeafTable(mem, t, lvl, p)
  {
  }

  /** A walk through present entries from the PML4 down to a page table reaches that page table. */
  lemma LeafTableThrough(mem: TableMemory, root: Frame, pdpt: Frame, pd: Frame, pt: Frame, p: seq<nat>)
    requires ValidPath(p) && IsTable(mem, root) && IsTable(mem, pdpt) && IsTable(mem, pd) && IsTable(mem, pt)
    requires Present(mem[root][p[3]]) && Target(mem[root][p[3]]) == pdpt
    requires Present(mem[pdpt][p[2]]) && Target(mem[pdpt][p[2]]) == pd
    requires Present(mem[pd][p[1]]) && Target(mem[pd][p[1]]) == pt
    ensures LeafTable(mem, root, 4, p) == Some(pt)
  {
    LeafTableStep(mem, pd, 2, p, pt);
    LeafTableStep(mem, pdpt, 3, p, pd);
    LeafTableStep(mem, root, 4, p, pdpt);
  }

  /** The leaf entry for indices `p` under PML4 `root`, when the three levels above it are present. */
  function WalkPath(mem: TableMemory, root: Frame, p: seq<nat>): Option<bv64>
    requires ValidPath(p)
  {
    match LeafTable(mem, root, 4, p)
    case Some(pt) => Some(mem[pt][p[0]])
    case None => None
  }

  /**
   * The leaf entry for virtual address `w` under PML4 `root`. It depends on
   * `w` only through `Path(w)`, so addresses in the same page share it.
   */
  function Walk(mem: TableMemory, root: Frame, w: bv64): Option<bv64>
  {
    WalkPath(mem, root, Path(w))
  }

  /** An entry as the processor uses it: only when it is present. */
  function IfPresent(e: bv64): Option<bv64>
  {
    if Present(e) then Some(e) else None
  }

  /** The present leaf entry that translates `w` under PML4 `root`, if any. */
  function Mapped(mem: TableMemory, root: Frame, w: bv64): Option<bv64>
  {
    match Walk(mem, root, w)
    case Some(e) => IfPresent(e)
    case None => None
  }

  /** `level` names the level, 1 to 4, of every table, and every table has 512 entries. */
  ghost predicate Levelled(mem: TableMemory, level: map<Frame, nat>)
  {
    && mem.Keys == level.Keys
    && (forall t :: t in mem ==> |mem[t]| == ENTRIES && 1 <= level[t] <= 4)
  }

  /** Every present entry of table `t`, if `t` is not a leaf table, points to a table one level down. */
  ghost predicate ClosedAt(mem: TableMemory, level: map<Frame, nat>, t: Frame)
    requires Levelled(mem, level) && t in mem
  {
    forall i :: 0 <= i < |mem[t]| && level[t] >= 2 && Present(mem[t][i]) ==>
      Target(mem[t][i]) in mem && level[Target(mem[t][i])] == level[t] - 1
  }

  /**
   * Every present entry of a non-leaf table points to a table one level
   * down. Proofs use it for one table at a time, by naming `ClosedAt`.
   */
  ghost predicate Closed(mem: TableMemory, level: map<Frame, nat>)
    requires Levelled(mem, level)
  {
    forall t {:trigger ClosedAt(mem, level, t)} :: t in mem ==> ClosedAt(mem, level, t)
  }

  /** Entry `i1` of table `t1` and entry `i2` of table `t2`, if both are present non-leaf entries, point to different tables unless they are the same entry. */
  ghost predicate Unshared(mem: TableMemory, level: map<Frame, nat>, t1: Frame, i1: int, t2: Frame, i2: int)
    requires Levelled(mem, level)
  {
    (t1 in mem && t2 in mem && 0 <= i1 < |mem[t1]| && 0 <= i2 < |mem[t2]|
     && level[t1] >= 2 && level[t2] >= 2 && Present(mem[t1][i1]) && Present(mem[t2][i2])
     && Target(mem[t1][i1]) == Target(mem[t2][i2])) ==> t1 == t2 && i1 == i2
  }

  /**
   * No table is pointed to by two present entries of non-leaf tables.
   * Proofs use it for one pair of entries at a time, by naming `Unshared`.
   */
  ghost predicate Tree(mem: TableMemory, level: map<Frame, nat>)
    requires Levelled(mem, level)
  {
    forall t1, i1, t2, i2 {:trigger Unshared(mem, level, t1, i1, t2, i2)} :: Unshared(mem, level, t1, i1, t2, i2)
  }

  /** The hierarchy is well formed: levelled, closed and a tree. */
  ghost predicate WellFormed(mem: TableMemory, level: map<Frame, nat>)
  {
    Levelled(mem, level) && Closed(mem, level) && Tree(mem, level)
  }

  /**
   * Table memory after `get_next_page` zero-fills the new table `n` and links
   * it into slot `i` of table `t`.
   */
  function Link(mem: TableMemory, t: Frame, i: nat, n: Frame): (r: TableMemory)
    requires IsTable(mem, t) && i < ENTRIES && IsFrame(n.addr) && n != t
    ensures r.Keys == mem.Keys + {n}
  {
    var grown := mem[n := ZeroTable()];
    grown[t := mem[t][i := LinkEntry(n.addr)]]
  }

  /** Table memory after `vmm_map_page` writes entry `e` into slot `i` of leaf table `pt`. */
  function WriteEntry(mem: TableMemory, pt: Frame, i: nat, e: bv64): TableMemory
    requires IsTable(mem, pt) && i < ENTRIES
  {
    mem[pt := mem[pt][i := e]]
  }

  /** The preconditions under which `get_next_page` links a new table. */
  ghost predicate CanLink(mem: TableMemory, level: map<Frame, nat>, t: Frame, i: nat, n: Frame)
  {
    && WellFormed(mem, level)
    && t in mem && level[t] >= 2 && i < ENTRIES && !Present(mem[t][i])
    && IsFrame(n.addr) && n !in mem
  }

  /** Each entry after a link: zero in the new table, the link in its slot, as before elsewhere. */
  lemma LinkEntryAt(mem: TableMemory, level: map<Frame, nat>, t: Frame, i: nat, n: Frame, u: Frame, j: nat)
    requires CanLink(mem, level, t, i, n)
    requires u in Link(mem, t, i, n) && j < ENTRIES
    ensures |Link(mem, t, i, n)[u]| == ENTRIES
    ensures var e := Link(mem, t, i, n)[u][j];
            if u == n then e == 0 && !Present(e)
            else if u == t && j == i then Present(e) && Target(e) == n
            else u in mem && e == mem[u][j]
  {
  }

  /** A walk that reaches a table reaches one serving at level 1. */
  lemma {:induction false} LeafTableLevel(mem: TableMemory, level: map<Frame, nat>, s: Frame, lvl: nat, p: seq<nat>)
    requires WellFormed(mem, level)
    requires 1 <= lvl <= 4 && ValidPath(p) && s in mem && level[s] == lvl
    requires LeafTable(mem, s, lvl, p).Some?
    ensures level[LeafTable(mem, s, lvl, p).value] == 1
    decreases lvl
  {
    if lvl > 1 {
      var e := mem[s][p[lvl - 1]];
      assert ClosedAt(mem, level, s);
      LeafTableLevel(mem, level, Target(e), lvl - 1, p);
    }
  }

  /** A walk from a freshly zeroed table stops at once, unless it is already the leaf. */
  lemma ZeroTableLeaf(mem: TableMemory, n: Frame, lvl: nat, p: seq<nat>)
    requires 1 <= lvl <= 4 && ValidPath(p) && n in mem && mem[n] == ZeroTable()
    ensures LeafTable(mem, n, lvl, p) == if lvl == 1 then Some(n) else None
  {
    if lvl > 1 {
      assert mem[n][p[lvl - 1]] == 0;
    }
  }

  /**
   * Linking a new zeroed table changes the walk from any table only by
   * letting a walk that used to stop at the new slot reach the new table.
   */
  lemma {:induction false} LinkLeafTable(mem: TableMemory, level: map<Frame, nat>, t: Frame, i: nat, n: Frame,
                                         s: Frame, lvl: nat, p: seq<nat>)
    requires CanLink(mem, level, t, i, n)
    requires 1 <= lvl <= 4 && ValidPath(p) && s in mem && level[s] == lvl
    ensures var after := LeafTable(Link(mem, t, i, n), s, lvl, p);
            after == LeafTable(mem, s, lvl, p) || (LeafTable(mem, s, lvl, p) == None && after == Some(n))
    decreases lvl
  {
    var mem' := Link(mem, t, i, n);
    if lvl > 1 {
      var k := p[lvl - 1];
      LinkEntryAt(mem, level, t, i, n, s, k);
      if s == t && k == i {
        LinkEntryAt(mem, level, t, i, n, n, 0);
        ZeroTableLeaf(mem', n, lvl - 1, p);
      } else if Present(mem[s][k]) {
        assert ClosedAt(mem, level, s);
        LinkLeafTable(mem, level, t, i, n, Target(mem[s][k]), lvl - 1, p);
      }
    }
  }

  /** Linking keeps every table at its level and gives the new one the level below `t`. */
  lemma LinkLevelled(mem: TableMemory, level: map<Frame, nat>, t: Frame, i: nat, n: Frame)
    requires CanLink(mem, level, t, i, n)
    ensures Levelled(Link(mem, t, i, n), level[n := level[t] - 1])
  {
    var mem' := Link(mem, t, i, n);
    forall u | u in mem'
      ensures |mem'[u]| == ENTRIES
    {
      LinkEntryAt(mem, level, t, i, n, u, 0);
    }
  }

  /** Linking keeps every present non-leaf entry pointing one level down. */
  lemma LinkClosed(mem: TableMemory, level: map<Frame, nat>, t: Frame, i: nat, n: Frame)
    requires CanLink(mem, level, t, i, n)
    ensures Levelled(Link(mem, t, i, n), level[n := level[t] - 1])
    ensures Closed(Link(mem, t, i, n), level[n := level[t] - 1])
  {
    var mem' := Link(mem, t, i, n);
    var level' := level[n := level[t] - 1];
    LinkLevelled(mem, level, t, i, n);
    forall u | u in mem'
      ensures ClosedAt(mem', level', u)
    {
      forall j | 0 <= j < |mem'[u]| && level'[u] >= 2 && Present(mem'[u][j])
        ensures Target(mem'[u][j]) in mem' && level'[Target(mem'[u][j])] == level'[u] - 1
      {
        LinkEntryAt(mem, level, t, i, n, u, j);
        if u != n {
          assert ClosedAt(mem, level, u);
        }
      }
    }
  }

  /** Linking keeps every table pointed to by at most one present non-leaf entry. */
  lemma LinkTree(mem: TableMemory, level: map<Frame, nat>, t: Frame, i: nat, n: Frame)
    requires CanLink(mem, level, t, i, n)
    ensures Levelled(Link(mem, t, i, n), level[n := level[t] - 1])
    ensures Tree(Link(mem, t, i, n), level[n := level[t] - 1])
  {
    var mem' := Link(mem, t, i, n);
    var level' := level[n := level[t] - 1];
    LinkLevelled(mem, level, t, i, n);
    forall t1, i1, t2, i2 |
        t1 in mem' && t2 in mem' && 0 <= i1 < |mem'[t1]| && 0 <= i2 < |mem'[t2]|
        && level'[t1] >= 2 && level'[t2] >= 2 && Present(mem'[t1][i1]) && Present(mem'[t2][i2])
        && Target(mem'[t1][i1]) == Target(mem'[t2][i2])
      ensures t1 == t2 && i1 == i2
    {
      assert Unshared(mem, level, t1, i1, t2, i2);
      LinkEntryAt(mem, level, t, i, n, t1, i1);
      LinkEntryAt(mem, level, t, i, n, t2, i2);
      if t1 != n {
        assert ClosedAt(mem, level, t1);
      }
      if t2 != n {
        assert ClosedAt(mem, level, t2);
      }
      if (t1 == t && i1 == i) != (t2 == t && i2 == i) {
        // The other entry was present before, so it points to a table that exists, and `n` does not.
        assert false;
      }
    }
  }

  /** Linking a new zeroed table keeps the hierarchy well formed. */
  lemma LinkWellFormed(mem: TableMemory, level: map<Frame, nat>, t: Frame, i: nat, n: Frame)
    requires CanLink(mem, level, t, i, n)
    ensures WellFormed(Link(mem, t, i, n), level[n := level[t] - 1])
  {
    LinkClosed(mem, level, t, i, n);
    LinkTree(mem, level, t, i, n);
  }

  /**
   * Linking a new zeroed table translates every virtual address as before,
   * and leaves the leaf entry of every address whose walk reached a leaf.
   */
  lemma LinkPreservesWalk(mem: TableMemory, level: map<Frame, nat>, t: Frame, i: nat, n: Frame, root: Frame, w: bv64)
    requires CanLink(mem, level, t, i, n)
    requires root in mem && level[root] == 4
    ensures Mapped(Link(mem, t, i, n), root, w) == Mapped(mem, root, w)
    ensures Walk(mem, root, w).Some? ==> Walk(Link(mem, t, i, n), root, w) == Walk(mem, root, w)
  {
    var mem' := Link(mem, t, i, n);
    var p := Path(w);
    LinkLeafTable(mem, level, t, i, n, root, 4, p);
    var before := LeafTable(mem, root, 4, p);
    if before.Some? {
      LeafTableLevel(mem, level, root, 4, p);
      LinkEntryAt(mem, level, t, i, n, before.value, p[0]);
    } else if LeafTable(mem', root, 4, p).Some? {
      LinkEntryAt(mem, level, t, i, n, n, p[0]);
    }
  }

  /** Walks read only non-leaf tables before they reach the leaf table. */
  lemma {:induction false} LeafTableFrame(mem: TableMemory, mem': TableMemory, level: map<Frame, nat>,
                                          s: Frame, lvl: nat, p: seq<nat>)
    requires WellFormed(mem, level)
    requires forall u :: u in mem && level[u] >= 2 ==> u in mem' && mem'[u] == mem[u]
    requires forall u :: u in mem && level[u] == 1 ==> IsTable(mem', u)
    requires 1 <= lvl <= 4 && ValidPath(p) && s in mem && level[s] == lvl
    ensures LeafTable(mem', s, lvl, p) == LeafTable(mem, s, lvl, p)
    decreases lvl
  {
    if lvl > 1 {
      var e := mem[s][p[lvl - 1]];
      if Present(e) {
        assert ClosedAt(mem, level, s);
        LeafTableFrame(mem, mem', level, Target(e), lvl - 1, p);
      }
    }
  }

  /**
   * Two walks that reach the same leaf table from tables at the same level
   * started at the same table and used the same indices on the way: the
   * hierarchy is a tree.
   */
  lemma {:induction false} LeafTableUnique(mem: TableMemory, level: map<Frame, nat>,
                                           s1: Frame, s2: Frame, lvl: nat, p: seq<nat>, q: seq<nat>)
    requires WellFormed(mem, level)
    requires 1 <= lvl <= 4 && ValidPath(p) && ValidPath(q)
    requires s1 in mem && s2 in mem && level[s1] == lvl && level[s2] == lvl
    requires LeafTable(mem, s1, lvl, p).Some? && LeafTable(mem, s1, lvl, p) == LeafTable(mem, s2, lvl, q)
    ensures s1 == s2
    ensures forall k :: 1 <= k < lvl ==> p[k] == q[k]
    decreases lvl
  {
    if lvl > 1 {
      var i1, i2 := p[lvl - 1], q[lvl - 1];
      assert Present(mem[s1][i1]) && Present(mem[s2][i2]);
      assert ClosedAt(mem, level, s1) && ClosedAt(mem, level, s2);
      LeafTableUnique(mem, level, Target(mem[s1][i1]), Target(mem[s2][i2]), lvl - 1, p, q);
      assert Unshared(mem, level, s1, i1, s2, i2);
    }
  }

  /** The leaf table the walk of `p` from `root` reaches, in a well-formed hierarchy. */
  ghost predicate CanWrite(mem: TableMemory, level: map<Frame, nat>, root: Frame, p: seq<nat>)
  {
    && WellFormed(mem, level)
    && root in mem && level[root] == 4 && ValidPath(p)
    && LeafTable(mem, root, 4, p).Some?
  }

  /** Writing a leaf entry changes no table above level 1 and keeps every table whole. */
  lemma WriteEntryFrame(mem: TableMemory, level: map<Frame, nat>, root: Frame, p: seq<nat>, e: bv64)
    requires CanWrite(mem, level, root, p)
    ensures var mem' := WriteEntry(mem, LeafTable(mem, root, 4, p).value, p[0], e);
            && mem'.Keys == mem.Keys
            && (forall u :: u in mem && level[u] >= 2 ==> mem'[u] == mem[u])
            && (forall u :: u in mem ==> |mem'[u]| == ENTRIES)
  {
    LeafTableLevel(mem, level, root, 4, p);
  }

  /** Writing a leaf entry keeps the hierarchy well formed. */
  lemma WriteEntryWellFormed(mem: TableMemory, level: map<Frame, nat>, root: Frame, p: seq<nat>, e: bv64)
    requires CanWrite(mem, level, root, p)
    ensures WellFormed(WriteEntry(mem, LeafTable(mem, root, 4, p).value, p[0], e), level)
  {
    var mem' := WriteEntry(mem, LeafTable(mem, root, 4, p).value, p[0], e);
    WriteEntryFrame(mem, level, root, p, e);
    assert Levelled(mem', level);
    forall u | u in mem'
      ensures ClosedAt(mem', level, u)
    {
      assert ClosedAt(mem, level, u);
      if level[u] >= 2 {
        assert mem'[u] == mem[u];
      }
    }
    forall t1, i1, t2, i2
      ensures Unshared(mem', level, t1, i1, t2, i2)
    {
      assert Unshared(mem, level, t1, i1, t2, i2);
    }
  }

  /**
   * Writing the leaf entry that indices `p` select makes the walk of `p`
   * yield the new entry and leaves the walk of every other path as it was.
   */
  lemma WriteEntryWalk(mem: TableMemory, level: map<Frame, nat>, root: Frame, p: seq<nat>, e: bv64, q: seq<nat>)
    requires CanWrite(mem, level, root, p) && ValidPath(q)
    ensures var mem' := WriteEntry(mem, LeafTable(mem, root, 4, p).value, p[0], e);
            && WalkPath(mem', root, p) == Some(e)
            && (q != p ==> WalkPath(mem', root, q) == WalkPath(mem, root, q))
  {
    var pt := LeafTable(mem, root, 4, p).value;
    var mem' := WriteEntry(mem, pt, p[0], e);
    WriteEntryFrame(mem, level, root, p, e);
    LeafTableFrame(mem, mem', level, root, 4, p);
    LeafTableFrame(mem, mem', level, root, 4, q);
    if q != p && LeafTable(mem, root, 4, q) == Some(pt) {
      LeafTableUnique(mem, level, root, root, 4, q, p);
      assert q[0] != p[0] by {
        assert |q| == |p| && q != p;
      }
    }
  }

  /** No virtual address is translated under PML4 `root`. */
  ghost predicate MapsNothing(mem: TableMemory, root: Frame)
  {
    forall w :: Mapped(mem, root, w) == None
  }

  /**
   * A new zero-filled PML4 in a frame that holds no table keeps the
   * hierarchy well formed and translates no virtual address.
   */
  lemma AddRootWellFormed(mem: TableMemory, level: map<Frame, nat>, n: Frame)
    requires WellFormed(mem, level) && n !in mem
    ensures WellFormed(mem[n := ZeroTable()], level[n := 4])
    ensures MapsNothing(mem[n := ZeroTable()], n)
  {
    var mem', level' := mem[n := ZeroTable()], level[n := 4];
    assert Levelled(mem', level');
    forall u | u in mem'
      ensures ClosedAt(mem', level', u)
    {
      if u != n {
        assert ClosedAt(mem, level, u);
      }
    }
    forall t1, i1, t2, i2
      ensures Unshared(mem', level', t1, i1, t2, i2)
    {
      assert Unshared(mem, level, t1, i1, t2, i2);
    }
    forall w
      ensures Mapped(mem', n, w) == None
    {
      ZeroTableLeaf(mem', n, 4, Path(w));
    }
  }
}
