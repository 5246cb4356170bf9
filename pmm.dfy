/**
 * The physical memory manager: a bitmap frame allocator over the memory
 * map the boot loader reports. `Init` sizes the bitmap to cover every frame
 * up to the highest address in the map, places it in the first usable
 * region large enough to hold it, marks every frame used, frees the
 * `length / 4096` frames from `base / 4096` of each usable region and marks
 * the bitmap's own frames used again. `Alloc` hands out the lowest free frame of the first byte with a
 * free frame, scanning from the byte of the previous allocation to the end
 * and then from the start (next fit); `Free` clears a frame's bit. The
 * allocator counts free memory in bytes as it goes.
 */
module Pmm {
  import opened Base
  import opened Limine
  import opened Bitmap
  import Util

  /** One past the last byte an entry describes (`base + length`). */
  function EntryEnd(e: MemmapEntry): nat
  {
    e.base + e.length
  }

  /** The highest end address of any entry in the map, 0 for an empty map. */
  function HighestEnd(m: seq<MemmapEntry>): nat
  {
    if |m| == 0 then 0
    else
      var h := HighestEnd(m[..|m| - 1]);
      if EntryEnd(m[|m| - 1]) > h then EntryEnd(m[|m| - 1]) else h
  }

  /** `highest_addr` ends up the largest `base + length` of the map: no entry ends above it, and one ends at it unless it is 0. */
  lemma {:induction false} HighestEndIsMax(m: seq<MemmapEntry>)
    ensures forall i :: 0 <= i < |m| ==> EntryEnd(m[i]) <= HighestEnd(m)
    ensures HighestEnd(m) == 0 || exists i :: 0 <= i < |m| && EntryEnd(m[i]) == HighestEnd(m)
  {
    if |m| > 0 {
      var init := m[..|m| - 1];
      HighestEndIsMax(init);
      assert forall i :: 0 <= i < |init| ==> m[i] == init[i];
      if HighestEnd(init) != 0 && HighestEnd(m) == HighestEnd(init) {
        var i :| 0 <= i < |init| && EntryEnd(init[i]) == HighestEnd(init);
        assert EntryEnd(m[i]) == HighestEnd(m);
      }
    }
  }

  /** Bytes of bitmap needed for one bit per frame below address `highest`. */
  function BitmapBytes(highest: nat): (size: nat)
    ensures 8 * size * PAGE_SIZE >= highest
  {
    var highestPfn := (highest + PAGE_SIZE - 1) / PAGE_SIZE;
    (highestPfn + 7) / 8
  }

  /** `bitmap_size` is `DIV_ROUND_UP(DIV_ROUND_UP(highest, PAGE_SIZE), 8)`: enough bits for every frame below `highest`, and no spare byte. */
  lemma BitmapBytesCeiling(highest: nat)
    ensures BitmapBytes(highest) == DivRoundUp(DivRoundUp(highest, PAGE_SIZE), 8)
    ensures 8 * BitmapBytes(highest) * PAGE_SIZE >= highest
    ensures BitmapBytes(highest) == 0 || 8 * (BitmapBytes(highest) - 1) * PAGE_SIZE < highest
  {
    var pfn := DivRoundUp(highest, PAGE_SIZE);
    DivRoundUpIsCeiling(highest, PAGE_SIZE);
    DivRoundUpIsCeiling(pfn, 8);
    var q := DivRoundUp(pfn, 8);
    assert q * 8 >= pfn;
    assert 8 * q * PAGE_SIZE >= pfn * PAGE_SIZE;
    if q > 0 {
      assert (q - 1) * 8 < pfn;
      assert (q - 1) * 8 <= pfn - 1;
      assert (pfn - 1) * PAGE_SIZE < highest;
      assert 8 * (q - 1) * PAGE_SIZE <= (pfn - 1) * PAGE_SIZE;
    }
  }

  /** The bitmap has a bit for every frame that holds an address below `highest`. */
  lemma BitmapBytesCover(highest: nat, addr: nat)
    requires addr < highest
    ensures addr / PAGE_SIZE < 8 * BitmapBytes(highest)
  {
    var highestPfn := (highest + PAGE_SIZE - 1) / PAGE_SIZE;
    assert addr / PAGE_SIZE < highestPfn;
    assert highestPfn <= 8 * ((highestPfn + 7) / 8);
  }

  /** An entry that can hold a bitmap of `size` bytes: usable and long enough. */
  predicate CanHost(e: MemmapEntry, size: nat)
  {
    e.length >= size && e.kind == Usable
  }

  /** The first entry at or after `i` that can hold a bitmap of `size` bytes. */
  function FindHostFrom(m: seq<MemmapEntry>, size: nat, i: nat): (r: Option<nat>)
    requires i <= |m|
    ensures r.Some? ==> i <= r.value < |m| && CanHost(m[r.value], size)
    ensures r.Some? ==> forall j :: i <= j < r.value ==> !CanHost(m[j], size)
    ensures r.None? ==> forall j :: i <= j < |m| ==> !CanHost(m[j], size)
    decreases |m| - i
  {
    if i == |m| then None
    else if CanHost(m[i], size) then Some(i)
    else FindHostFrom(m, size, i + 1)
  }

  /** The entry `Init` places the bitmap in: the first that can hold it. */
  function FindHost(m: seq<MemmapEntry>): Option<nat>
  {
    FindHostFrom(m, BitmapBytes(HighestEnd(m)), 0)
  }

  /**
   * `pmm_init` finds an entry to hold the bitmap, and the bitmap's virtual
   * address `base + hhdm` is not NULL.
   */
  predicate BitmapPlaced(m: seq<MemmapEntry>, hhdm: u64)
  {
    match FindHost(m)
    case Some(h) => Wrap64(m[h].base + hhdm) != 0
    case None => false
  }

  /**
   * Frame `f` is one of the frames `Init` frees for entry `e`: the
   * `length / 4096` frames from `base / 4096`, by floor division. They are
   * the entry's whole frames when `base` is page aligned
   * (`InUsableAligned`); otherwise the first starts below the entry.
   */
  predicate InUsable(e: MemmapEntry, f: nat)
  {
    e.kind == Usable && e.base / PAGE_SIZE <= f < e.base / PAGE_SIZE + e.length / PAGE_SIZE
  }

  /** Frame `f` is freed for one of the first `n` entries. */
  ghost predicate FreedBy(m: seq<MemmapEntry>, n: nat, f: nat)
    requires n <= |m|
  {
    exists a :: 0 <= a < n && InUsable(m[a], f)
  }

  /** The number of frames `Init` frees for the first `n` entries, counted per entry. */
  function UsablePages(m: seq<MemmapEntry>, n: nat): nat
    requires n <= |m|
  {
    if n == 0 then 0
    else UsablePages(m, n - 1) + (if m[n - 1].kind == Usable then m[n - 1].length / PAGE_SIZE else 0)
  }

  /** No frame is freed for two entries: the frame runs of the usable entries do not overlap. */
  ghost predicate UsableDisjoint(m: seq<MemmapEntry>)
  {
    forall a, b, f :: 0 <= a < b < |m| && InUsable(m[a], f) ==> !InUsable(m[b], f)
  }

  /** The first frame of a bitmap placed at physical address `base`. */
  function BitmapFirstFrame(base: nat): nat
  {
    base / PAGE_SIZE
  }

  /** One past the last frame of a bitmap of `size` bytes at `base` (rounded up). */
  function BitmapEndFrame(base: nat, size: nat): nat
  {
    (base + size + PAGE_SIZE - 1) / PAGE_SIZE
  }

  /**
   * The bitmap's frames lie within the frames freed for the entry that
   * holds it, so every frame it occupies was freed.
   */
  predicate HostCovered(m: seq<MemmapEntry>)
  {
    match FindHost(m)
    case Some(h) =>
      BitmapEndFrame(m[h].base, BitmapBytes(HighestEnd(m))) <= m[h].base / PAGE_SIZE + m[h].length / PAGE_SIZE
    case None => true
  }

  /** `a / 4096 + b / 4096` never exceeds `(a + b) / 4096`. */
  lemma DivAdd(a: nat, b: nat)
    ensures a / PAGE_SIZE + b / PAGE_SIZE <= (a + b) / PAGE_SIZE
  {
    var qa, qb := a / PAGE_SIZE, b / PAGE_SIZE;
    assert qa * PAGE_SIZE + qb * PAGE_SIZE <= a + b;
    assert (qa + qb) * PAGE_SIZE <= a + b;
  }

  /** Every frame freed for an entry has a bit in the bitmap. */
  lemma EntryFramesFit(m: seq<MemmapEntry>, i: nat)
    requires i < |m|
    ensures m[i].base / PAGE_SIZE + m[i].length / PAGE_SIZE <= 8 * BitmapBytes(HighestEnd(m))
  {
    var h := HighestEnd(m);
    HighestEndIsMax(m);
    DivAdd(m[i].base, m[i].length);
    assert (m[i].base + m[i].length) / PAGE_SIZE <= h / PAGE_SIZE;
    var highestPfn := (h + PAGE_SIZE - 1) / PAGE_SIZE;
    assert h / PAGE_SIZE <= highestPfn;
    assert highestPfn <= 8 * ((highestPfn + 7) / 8);
  }

  /** Every frame of a bitmap placed in an entry long enough to hold it has a bit in it. */
  lemma BitmapFramesFit(m: seq<MemmapEntry>, h: nat)
    requires h < |m| && m[h].length >= BitmapBytes(HighestEnd(m))
    ensures BitmapFirstFrame(m[h].base) <= BitmapEndFrame(m[h].base, BitmapBytes(HighestEnd(m)))
    ensures BitmapEndFrame(m[h].base, BitmapBytes(HighestEnd(m))) <= 8 * BitmapBytes(HighestEnd(m))
  {
    var highest := HighestEnd(m);
    HighestEndIsMax(m);
    assert m[h].base + BitmapBytes(highest) <= highest;
    assert BitmapFirstFrame(m[h].base) * PAGE_SIZE <= m[h].base;
    var highestPfn := (highest + PAGE_SIZE - 1) / PAGE_SIZE;
    assert BitmapEndFrame(m[h].base, BitmapBytes(highest)) <= highestPfn;
    assert highestPfn <= 8 * ((highestPfn + 7) / 8);
  }

  /**
   * `bitmap_size` as the first loop of `pmm_init` computes it in `uint64_t`:
   * the round-up `highest_addr + PAGE_SIZE - 1` wraps when `highest_addr`
   * lies within a page of 2^64. Below that it is `BitmapBytes`.
   */
  function BitmapBytesAsWritten(highest: u64): (size: nat)
    ensures highest + PAGE_SIZE - 1 < U64_MODULUS ==> size == BitmapBytes(highest)
  {
    var highestPfn := Wrap64(highest + PAGE_SIZE - 1) / PAGE_SIZE;
    (highestPfn + 7) / 8
  }

  /**
   * A map whose highest entry ends 2048 bytes below 2^64 gets an empty
   * bitmap as written, although the third loop frees frame 0 of its usable
   * entry; `BitmapBytes` gives every frame below the highest end a bit.
   */
  lemma BitmapBytesWraps()
    ensures var m := [MemmapEntry(0, 0x1_0000, Usable), MemmapEntry(0xFFFF_FFFF_FFFF_F000, 0x800, Reserved)];
            && HighestEnd(m) == U64_MODULUS - 2048
            && InUsable(m[0], 0)
            && BitmapBytesAsWritten(HighestEnd(m)) == 0
            && BitmapBytes(HighestEnd(m)) == 0x2_0000_0000_0000
  {
    var m := [MemmapEntry(0, 0x1_0000, Usable), MemmapEntry(0xFFFF_FFFF_FFFF_F000, 0x800, Reserved)];
    assert HighestEnd(m[..1]) == 0x1_0000;
    assert Wrap64(U64_MODULUS - 2048 + PAGE_SIZE - 1) == 2047;
  }

  /** `end_pfn` as the last loop of `pmm_init` computes it in `uint64_t`. */
  function BitmapEndFrameAsWritten(base: u64, size: u64): nat
  {
    Wrap64(Wrap64(base + size) + PAGE_SIZE - 1) / PAGE_SIZE
  }

  /**
   * The round-up of `end_pfn` cannot wrap unless the round-up of
   * `highest_addr` does: the bitmap ends within its host, so no higher than
   * the highest end.
   */
  lemma BitmapEndFrameNoWrap(m: seq<MemmapEntry>, h: nat)
    requires h < |m| && m[h].length >= BitmapBytes(HighestEnd(m))
    requires HighestEnd(m) + PAGE_SIZE - 1 < U64_MODULUS
    ensures BitmapEndFrameAsWritten(m[h].base, BitmapBytes(HighestEnd(m)))
            == BitmapEndFrame(m[h].base, BitmapBytes(HighestEnd(m)))
  {
    HighestEndIsMax(m);
    assert m[h].base + BitmapBytes(HighestEnd(m)) <= HighestEnd(m);
  }

  /** A frame of the bitmap's own host is one `Init` freed, when the bitmap's frames lie within the host's freed frames. */
  lemma HostFrameFreed(m: seq<MemmapEntry>, h: nat, k: nat)
    requires FindHost(m) == Some(h) && HostCovered(m)
    requires BitmapFirstFrame(m[h].base) <= k < BitmapEndFrame(m[h].base, BitmapBytes(HighestEnd(m)))
    ensures InUsable(m[h], k) && FreedBy(m, |m|, k)
  {
  }

  /** Freeing the frames of entry `i` extends the frames freed so far by exactly those. */
  lemma FreedByStep(m: seq<MemmapEntry>, i: nat, f: nat)
    requires i < |m|
    ensures FreedBy(m, i + 1, f) <==> FreedBy(m, i, f) || InUsable(m[i], f)
  {
    if FreedBy(m, i + 1, f) && !InUsable(m[i], f) {
      var a :| 0 <= a < i + 1 && InUsable(m[a], f);
      assert a < i;
    }
  }

  /**
   * The bitmap as the third loop of `pmm_init` builds it: a frame is free
   * iff it was freed for one of the first `n` entries or lies in `[lo, hi)`.
   */
  ghost predicate FreedState(s: seq<bv8>, m: seq<MemmapEntry>, n: nat, lo: nat, hi: nat)
    requires n <= |m|
  {
    forall f: nat :: Covers(s, f) ==> (!TestFrame(s, f) <==> FreedBy(m, n, f) || lo <= f < hi)
  }

  /** Freeing frame `hi` extends the range of frames freed so far. */
  lemma FreedStateStep(s: seq<bv8>, m: seq<MemmapEntry>, n: nat, lo: nat, hi: nat)
    requires n <= |m| && lo <= hi && Covers(s, hi) && FreedState(s, m, n, lo, hi)
    ensures FreedState(UnsetFrame(s, hi), m, n, lo, hi + 1)
  {
    forall f: nat | Covers(s, f)
      ensures TestFrame(UnsetFrame(s, hi), f) == (f != hi && TestFrame(s, f))
    {
      TestAfterUnset(s, hi, f);
    }
  }

  /** Once the range holds exactly the frames freed for entry `n`, that entry is done. */
  lemma FreedStateNext(s: seq<bv8>, m: seq<MemmapEntry>, n: nat, lo: nat, hi: nat)
    requires n < |m| && FreedState(s, m, n, lo, hi)
    requires forall f: nat :: InUsable(m[n], f) <==> lo <= f < hi
    ensures FreedState(s, m, n + 1, 0, 0)
  {
    forall f: nat | Covers(s, f)
      ensures !TestFrame(s, f) <==> FreedBy(m, n + 1, f)
    {
      FreedByStep(m, n, f);
    }
  }

  /**
   * With disjoint usable regions, a frame of entry `n` that the loop has not
   * reached yet is still marked used, so freeing it adds one free frame.
   */
  lemma NotYetFreed(s: seq<bv8>, m: seq<MemmapEntry>, n: nat, lo: nat, hi: nat)
    requires n < |m| && UsableDisjoint(m) && FreedState(s, m, n, lo, hi)
    requires Covers(s, hi) && InUsable(m[n], hi)
    ensures TestFrame(s, hi)
  {

  }

  /** After `memset(bitmap, 0xFF, bitmap_size)` every frame is in use and none is counted free. */
  lemma FullBitmap(s: seq<bv8>, m: seq<MemmapEntry>)
    requires forall i :: 0 <= i < |s| ==> s[i] == 0xFF
    ensures FreedState(s, m, 0, 0, 0) && ClearCount(s) == 0
  {
    forall f: nat | Covers(s, f)
      ensures TestFrame(s, f)
    {
      assert s[f / 8] == 0xFF;
    }
    ClearCountZero(s);
  }

  /**
   * The bitmap as `pmm_init` leaves it: a frame is free iff it was freed for
   * a usable entry and is not one of the bitmap's own frames `[first, end)`.
   */
  ghost predicate BootState(s: seq<bv8>, m: seq<MemmapEntry>, first: nat, end: nat)
  {
    forall f: nat :: Covers(s, f) ==> (!TestFrame(s, f) <==> FreedBy(m, |m|, f) && !(first <= f < end))
  }

  /** Marking frame `k` used extends the reserved range by one frame. */
  lemma BootStateStep(s: seq<bv8>, m: seq<MemmapEntry>, first: nat, k: nat)
    requires first <= k && Covers(s, k) && BootState(s, m, first, k)
    ensures BootState(SetFrame(s, k), m, first, k + 1)
  {
    forall f: nat | Covers(s, f)
      ensures TestFrame(SetFrame(s, k), f) == (f == k || TestFrame(s, f))
    {
      TestAfterSet(s, k, f);
    }
  }

  /** Every free frame of `s` lies wholly below address `limit`. */
  ghost predicate FreeBelow(s: seq<bv8>, limit: nat)
  {
    forall f: nat :: Covers(s, f) && !TestFrame(s, f) ==> FrameAddress(f) + PAGE_SIZE <= limit
  }

  /** A frame freed for an entry ends no later than the entry. */
  lemma InUsableBelow(e: MemmapEntry, f: nat)
    requires InUsable(e, f)
    ensures FrameAddress(f) + PAGE_SIZE <= EntryEnd(e)
  {
    var qb, ql := e.base / PAGE_SIZE, e.length / PAGE_SIZE;
    assert f + 1 <= qb + ql;
    assert (f + 1) * PAGE_SIZE <= qb * PAGE_SIZE + ql * PAGE_SIZE;
  }

  /**
   * For a page-aligned usable entry the frames `Init` frees are exactly the
   * whole frames within `[base, base + length)`.
   */
  lemma InUsableAligned(e: MemmapEntry, f: nat)
    requires e.kind == Usable && e.base % PAGE_SIZE == 0
    ensures InUsable(e, f) <==> e.base <= FrameAddress(f) && FrameAddress(f) + PAGE_SIZE <= EntryEnd(e)
  {
    var qb, ql := e.base / PAGE_SIZE, e.length / PAGE_SIZE;
    assert e.base == qb * PAGE_SIZE;
    assert EntryEnd(e) == (qb + ql) * PAGE_SIZE + e.length % PAGE_SIZE;
    if e.base <= FrameAddress(f) && FrameAddress(f) + PAGE_SIZE <= EntryEnd(e) {
      assert qb * PAGE_SIZE <= f * PAGE_SIZE;
      assert (f + 1) * PAGE_SIZE < (qb + ql + 1) * PAGE_SIZE;
    }
    if InUsable(e, f) {
      InUsableBelow(e, f);
    }
  }

  /**
   * For a usable entry whose base is not page aligned, the first frame
   * `Init` frees starts below the entry: `[0x800, 0x2800)` frees frame 0.
   */
  lemma UnalignedFirstFrame()
    ensures InUsable(MemmapEntry(0x800, 0x2000, Usable), 0)
    ensures FrameAddress(0) < 0x800
  {
  }

  /** After `pmm_init` every free frame lies below the highest end address of the map. */
  lemma BootStateBelow(s: seq<bv8>, m: seq<MemmapEntry>, first: nat, end: nat)
    requires BootState(s, m, first, end)
    ensures FreeBelow(s, HighestEnd(m))
  {
    HighestEndIsMax(m);
    forall f: nat | Covers(s, f) && !TestFrame(s, f)
      ensures FrameAddress(f) + PAGE_SIZE <= HighestEnd(m)
    {
      var a :| 0 <= a < |m| && InUsable(m[a], f);
      InUsableBelow(m[a], f);
    }
  }

  /** Marking a frame used keeps every free frame below `limit`. */
  lemma SetFrameBelow(s: seq<bv8>, k: nat, limit: nat)
    requires Covers(s, k) && FreeBelow(s, limit)
    ensures FreeBelow(SetFrame(s, k), limit)
  {
    forall f: nat | Covers(SetFrame(s, k), f) && !TestFrame(SetFrame(s, k), f)
      ensures FrameAddress(f) + PAGE_SIZE <= limit
    {
      TestAfterSet(s, k, f);
    }
  }

  /** Freeing a frame below `limit` keeps every free frame below it. */
  lemma UnsetFrameBelow(s: seq<bv8>, k: nat, limit: nat)
    requires Covers(s, k) && FreeBelow(s, limit) && FrameAddress(k) + PAGE_SIZE <= limit
    ensures FreeBelow(UnsetFrame(s, k), limit)
  {
    forall f: nat | Covers(UnsetFrame(s, k), f) && !TestFrame(UnsetFrame(s, k), f)
      ensures FrameAddress(f) + PAGE_SIZE <= limit
    {
      TestAfterUnset(s, k, f);
    }
  }

  /** The lowest clear bit of byte `b` at or above bit `j`, 8 when there is none. */
  function LowestClearFrom(b: bv8, j: nat): (r: nat)
    requires j <= 8
    ensures j <= r <= 8
    ensures r < 8 ==> b & Bit(r) == 0
    ensures forall k :: j <= k < r ==> b & Bit(k) != 0
    decreases 8 - j
  {
    if j == 8 then 8
    else if b & Bit(j) == 0 then j
    else LowestClearFrom(b, j + 1)
  }

  /** A byte with all eight bits set is `0xFF`. */
  lemma FullByte(b: bv8)
    requires forall k :: 0 <= k < 8 ==> b & Bit(k) != 0
    ensures b == 0xFF
  {
    assert b & Bit(0) != 0 && b & Bit(1) != 0 && b & Bit(2) != 0 && b & Bit(3) != 0;
    assert b & Bit(4) != 0 && b & Bit(5) != 0 && b & Bit(6) != 0 && b & Bit(7) != 0;
  }

  /** The lowest clear bit of a byte that is not `0xFF`: the frame `pmm_alloc_page` takes from it. */
  function LowestClear(b: bv8): (j: nat)
    requires b != 0xFF
    ensures j < 8 && b & Bit(j) == 0
    ensures forall k :: 0 <= k < j ==> b & Bit(k) != 0
  {
    var j := LowestClearFrom(b, 0);
    if j == 8 then FullByte(b); j else j
  }

  /** A clear bit with every bit below it set is the lowest clear bit. */
  lemma LowestClearUnique(b: bv8, j: nat)
    requires j < 8 && b & Bit(j) == 0
    requires forall k :: 0 <= k < j ==> b & Bit(k) != 0
    ensures b != 0xFF && LowestClear(b) == j
  {
    assert b != 0xFF by {
      assert 0xFF & Bit(j) != 0;
    }
    var l := LowestClear(b);
    if l < j {
      assert false;
    } else if j < l {
      assert false;
    }
  }

  /** The first byte in `[lo, hi)` that is not `0xFF`, i.e. that has a free frame. */
  function FirstNotFull(s: seq<bv8>, lo: nat, hi: nat): (r: Option<nat>)
    requires hi <= |s|
    ensures r.Some? ==> lo <= r.value < hi && s[r.value] != 0xFF
    ensures r.Some? ==> forall k :: lo <= k < r.value ==> s[k] == 0xFF
    ensures r.None? ==> forall k :: lo <= k < hi ==> s[k] == 0xFF
    decreases hi - lo
  {
    if lo >= hi then None
    else if s[lo] != 0xFF then Some(lo)
    else FirstNotFull(s, lo + 1, hi)
  }

  /** A frame as the byte that holds its bit and the bit's position in it. */
  datatype Slot = Slot(byte: nat, bit: nat)
  {
    /** The frame number: `byte * 8 + bit`. */
    function Frame(): (f: nat)
      ensures bit < 8 ==> f / 8 == byte && f % 8 == bit
    {
      byte * 8 + bit
    }
  }

  /**
   * The frame `pmm_alloc_page` takes from bitmap `s` with the scan starting
   * at byte `cursor`: the lowest clear bit of the first byte with one,
   * looking from the cursor to the end and then from the start to the
   * cursor; none when every frame is in use.
   */
  function AllocSlot(s: seq<bv8>, cursor: nat): (r: Option<Slot>)
    requires cursor <= |s|
    ensures r.Some? ==> r.value.byte < |s| && r.value.bit < 8
    ensures r.Some? ==> Covers(s, r.value.Frame()) && !TestFrame(s, r.value.Frame())
    ensures r.None? <==> forall k :: 0 <= k < |s| ==> s[k] == 0xFF
  {
    match FirstNotFull(s, cursor, |s|)
    case Some(i) => Some(Slot(i, LowestClear(s[i])))
    case None =>
      match FirstNotFull(s, 0, cursor)
      case Some(i) => Some(Slot(i, LowestClear(s[i])))
      case None => None
  }

  /** Where byte `k` comes in a scan of `n` bytes that starts at byte `cursor` and wraps around. */
  function ScanRank(cursor: nat, n: nat, k: nat): nat
    requires cursor <= n
  {
    if k >= cursor then k - cursor else k + n - cursor
  }

  /**
   * Next fit: every byte the scan passes before the chosen one is full, and
   * the chosen bit is the lowest free bit of its byte.
   */
  lemma AllocSlotNextFit(s: seq<bv8>, cursor: nat, k: nat)
    requires cursor <= |s| && k < |s| && AllocSlot(s, cursor).Some?
    requires ScanRank(cursor, |s|, k) < ScanRank(cursor, |s|, AllocSlot(s, cursor).value.byte)
    ensures s[k] == 0xFF
    ensures AllocSlot(s, cursor).value.bit == LowestClear(s[AllocSlot(s, cursor).value.byte])
  {
    var i := AllocSlot(s, cursor).value.byte;
    match FirstNotFull(s, cursor, |s|)
    case Some(_) =>
      assert cursor <= i && cursor <= k < i;
    case None =>
      assert i < cursor;
      if k < cursor {
        assert k < i;
      }
  }

  /** The allocator finds nothing exactly when the bitmap counts no free frame. */
  lemma AllocSlotNoneIffExhausted(s: seq<bv8>, cursor: nat)
    requires cursor <= |s|
    ensures AllocSlot(s, cursor).None? <==> ClearCount(s) == 0
  {
    ClearCountZero(s);
  }

  /** Two allocations in a row never return the same frame. */
  lemma AllocTwiceDistinct(s: seq<bv8>, cursor: nat)
    requires cursor <= |s| && AllocSlot(s, cursor).Some?
    ensures var first := AllocSlot(s, cursor).value;
            var after := SetFrame(s, first.Frame());
            var second := AllocSlot(after, first.byte);
            second.Some? ==> second.value.Frame() != first.Frame()
  {
  }

  /**
   * Frame 0 is handed out as address 0, the value `pmm_alloc_page` also
   * returns for "no free frame": when the scan from byte 0 finds frame 0
   * free, a caller cannot tell the result from NULL.
   */
  lemma FrameZeroLooksLikeNull(s: seq<bv8>)
    requires |s| > 0 && s[0] & 1 == 0
    ensures AllocSlot(s, 0) == Some(Slot(0, 0))
    ensures FrameAddress(AllocSlot(s, 0).value.Frame()) == 0
  {
    assert s[0] & Bit(0) == 0;
    LowestClearUnique(s[0], 0);
  }

  /** Freeing the frame just allocated restores the bitmap and the free-page count. */
  lemma AllocFreeRoundTrip(s: seq<bv8>, cursor: nat)
    requires cursor <= |s| && AllocSlot(s, cursor).Some?
    ensures var f := AllocSlot(s, cursor).value.Frame();
            && FrameAddress(f) / PAGE_SIZE == f
            && UnsetFrame(SetFrame(s, f), FrameAddress(f) / PAGE_SIZE) == s
            && ClearCount(SetFrame(s, f)) + 1 == ClearCount(s)
  {
    var f := AllocSlot(s, cursor).value.Frame();
    UnsetAfterSet(s, f);
    SetFrameCount(s, f);
  }

  /** 2^31 and 2^32, for the 32-bit signed `int` of the C compiler. */
  const INT32_HALF: int := 0x8000_0000
  const INT32_MODULUS: int := 0x1_0000_0000

  /** A value reduced to a two's-complement 32-bit `int`. */
  function Int32Wrap(x: int): (r: int)
    ensures -INT32_HALF <= r < INT32_HALF
    ensures -INT32_HALF <= x < INT32_HALF ==> r == x
  {
    (x + INT32_HALF) % INT32_MODULUS - INT32_HALF
  }

  /**
   * The address the first scan of `pmm_alloc_page` computes for bit `bit` of
   * byte `i`, as written: `(i * 8 + freebit) * PAGE_SIZE` is evaluated in
   * 32-bit `int` (the loop counter is an `int`) and then converted to
   * `uint64_t`, which sign-extends a negative result.
   */
  function FirstScanAddressAsWritten(i: nat, bit: nat): (addr: u64)
    ensures (i * 8 + bit) * PAGE_SIZE < INT32_HALF ==> addr == FrameAddress(i * 8 + bit)
  {
    Wrap64(Int32Wrap((i * 8 + bit) * PAGE_SIZE))
  }

  /**
   * Frame 2^19, at 2 GiB, is the first the first scan gets wrong: it
   * returns 0xFFFF_FFFF_8000_0000 instead of 0x8000_0000.
   */
  lemma FirstScanAddressOverflows()
    ensures FrameAddress(65536 * 8 + 0) == 0x8000_0000
    ensures FirstScanAddressAsWritten(65536, 0) == 0xFFFF_FFFF_8000_0000
    ensures FirstScanAddressAsWritten(65536, 0) != FrameAddress(65536 * 8 + 0)
  {
    assert Int32Wrap(0x8000_0000) == -0x8000_0000;
    assert Wrap64(-0x8000_0000) == 0xFFFF_FFFF_8000_0000;
  }

  /** The allocator's static state: the bitmap and its bookkeeping. */
  class FrameAllocator {
    /** The bitmap, one bit per frame, set when the frame is in use. */
    var bitmap: array<bv8>
    /** The highest end address in the memory map. */
    var highestAddr: nat
    /** Free memory in bytes, adjusted on every mark and allocation. */
    var freeMemory: int
    /** Bytes of bitmap. */
    var bitmapSize: nat
    /** The byte the next allocation starts scanning from. */
    var lastAllocIndex: nat

    /** The bitmap has `bitmapSize` bytes and the cursor lies within it. */
    ghost predicate Valid()
      reads this
    {
      bitmap.Length == bitmapSize && lastAllocIndex <= bitmapSize
    }

    /** The counter holds one page for every clear bit of the bitmap. */
    ghost predicate CountConsistent()
      reads this, bitmap
    {
      freeMemory == PAGE_SIZE * ClearCount(bitmap[..])
    }

    /** The statics as the kernel image starts: all zero, no bitmap. */
    predicate Pristine()
      reads this
    {
      highestAddr == 0 && freeMemory == 0 && bitmapSize == 0 && lastAllocIndex == 0
    }

    constructor ()
      ensures Pristine() && Valid() && bitmap.Length == 0
    {
      bitmap := new bv8[0];
      highestAddr := 0;
      freeMemory := 0;
      bitmapSize := 0;
      lastAllocIndex := 0;
    }

    /** `BITMAP_SET(k)` on the allocator's bitmap. */
    method MarkUsed(k: nat)
      requires Covers(bitmap[..], k)
      modifies bitmap
      ensures bitmap[..] == SetFrame(old(bitmap[..]), k)
    {
      bitmap[k / 8] := bitmap[k / 8] | Bit(k % 8);
    }

    /** `BITMAP_UNSET(k)` on the allocator's bitmap. */
    method MarkFree(k: nat)
      requires Covers(bitmap[..], k)
      modifies bitmap
      ensures bitmap[..] == UnsetFrame(old(bitmap[..]), k)
    {
      bitmap[k / 8] := bitmap[k / 8] & Mask(k % 8);
    }

    /** The first loop of `pmm_init`: the highest end address and the bitmap size it needs. */
    method FindHighest(m: seq<MemmapEntry>)
      requires highestAddr == 0 && bitmapSize == 0
      modifies this
      ensures highestAddr == HighestEnd(m) && bitmapSize == BitmapBytes(highestAddr)
      ensures bitmap == old(bitmap) && freeMemory == old(freeMemory) && lastAllocIndex == old(lastAllocIndex)
    {
      var i := 0;
      while i < |m|
        invariant i <= |m|
        invariant highestAddr == HighestEnd(m[..i]) && bitmapSize == BitmapBytes(highestAddr)
        invariant bitmap == old(bitmap) && freeMemory == old(freeMemory) && lastAllocIndex == old(lastAllocIndex)
      {
        assert m[..i + 1][..i] == m[..i];
        var cur := m[i];
        if cur.base + cur.length > highestAddr {
          highestAddr := cur.base + cur.length;
          var highestPfn := (highestAddr + PAGE_SIZE - 1) / PAGE_SIZE;
          bitmapSize := (highestPfn + 7) / 8;
        }
        i := i + 1;
      }
      assert m[..|m|] == m;
    }

    /** The second loop of `pmm_init`: the first usable entry long enough for the bitmap. */
    method LocateBitmap(m: seq<MemmapEntry>) returns (host: Option<nat>)
      ensures host == FindHostFrom(m, bitmapSize, 0)
    {
      var i := 0;
      while i < |m|
        invariant i <= |m|
        invariant FindHostFrom(m, bitmapSize, 0) == FindHostFrom(m, bitmapSize, i)
      {
        var cur := m[i];
        if cur.length >= bitmapSize && cur.kind == Usable {
          return Some(i);
        }
        i := i + 1;
      }
      return None;
    }

    /** One pass of the third loop of `pmm_init`: free the frames of entry `i` if it is usable. */
    method FreeEntry(m: seq<MemmapEntry>, i: nat)
      requires i < |m| && Valid() && bitmapSize == BitmapBytes(HighestEnd(m))
      requires FreedState(bitmap[..], m, i, 0, 0)
      requires UsableDisjoint(m) ==> CountConsistent()
      modifies this, bitmap
      ensures Valid() && bitmap == old(bitmap)
      ensures highestAddr == old(highestAddr) && bitmapSize == old(bitmapSize) && lastAllocIndex == old(lastAllocIndex)
      ensures FreedState(bitmap[..], m, i + 1, 0, 0)
      ensures freeMemory == old(freeMemory) + PAGE_SIZE * (UsablePages(m, i + 1) - UsablePages(m, i))
      ensures UsableDisjoint(m) ==> CountConsistent()
    {
      var entry := m[i];
      if entry.kind != Usable {
        FreedStateNext(bitmap[..], m, i, 0, 0);
        return;
      }
      var startPfn := entry.base / PAGE_SIZE;
      var pageCount := entry.length / PAGE_SIZE;
      EntryFramesFit(m, i);
      var j := 0;
      while j < pageCount
        invariant j <= pageCount && Valid() && bitmap == old(bitmap)
        invariant highestAddr == old(highestAddr) && bitmapSize == old(bitmapSize)
        invariant lastAllocIndex == old(lastAllocIndex)
        invariant FreedState(bitmap[..], m, i, startPfn, startPfn + j)
        invariant freeMemory == old(freeMemory) + PAGE_SIZE * j
        invariant UsableDisjoint(m) ==> CountConsistent()
      {
        var pfn := startPfn + j;
        if UsableDisjoint(m) {
          NotYetFreed(bitmap[..], m, i, startPfn, pfn);
          UnsetFrameCount(bitmap[..], pfn);
        }
        FreedStateStep(bitmap[..], m, i, startPfn, pfn);
        MarkFree(pfn);
        freeMemory := freeMemory + PAGE_SIZE;
        j := j + 1;
      }
      FreedStateNext(bitmap[..], m, i, startPfn, startPfn + pageCount);
    }

    /** The third loop of `pmm_init`: free the frames of every usable entry. */
    method FreeUsable(m: seq<MemmapEntry>)
      requires Valid() && bitmapSize == BitmapBytes(HighestEnd(m))
      requires FreedState(bitmap[..], m, 0, 0, 0)
      requires CountConsistent()
      modifies this, bitmap
      ensures Valid() && bitmap == old(bitmap)
      ensures highestAddr == old(highestAddr) && bitmapSize == old(bitmapSize) && lastAllocIndex == old(lastAllocIndex)
      ensures FreedState(bitmap[..], m, |m|, 0, 0)
      ensures freeMemory == old(freeMemory) + PAGE_SIZE * UsablePages(m, |m|)
      ensures UsableDisjoint(m) ==> CountConsistent()
    {
      var i := 0;
      while i < |m|
        invariant i <= |m| && Valid() && bitmap == old(bitmap)
        invariant highestAddr == old(highestAddr) && bitmapSize == old(bitmapSize)
        invariant lastAllocIndex == old(lastAllocIndex)
        invariant FreedState(bitmap[..], m, i, 0, 0)
        invariant freeMemory == old(freeMemory) + PAGE_SIZE * UsablePages(m, i)
        invariant UsableDisjoint(m) ==> CountConsistent()
      {
        FreeEntry(m, i);
        i := i + 1;
      }
    }

    /** The last loop of `pmm_init`: mark the frames the bitmap itself occupies used again. */
    method ReserveBitmap(m: seq<MemmapEntry>, h: nat)
      requires Valid() && bitmapSize == BitmapBytes(HighestEnd(m))
      requires FindHost(m) == Some(h)
      requires FreedState(bitmap[..], m, |m|, 0, 0)
      modifies this, bitmap
      ensures Valid() && bitmap == old(bitmap)
      ensures highestAddr == old(highestAddr) && bitmapSize == old(bitmapSize) && lastAllocIndex == old(lastAllocIndex)
      ensures var first, end := BitmapFirstFrame(m[h].base), BitmapEndFrame(m[h].base, bitmapSize);
              && first <= end
              && BootState(bitmap[..], m, first, end)
              && freeMemory == old(freeMemory) - PAGE_SIZE * (end - first)
      ensures HostCovered(m) && old(CountConsistent()) ==> CountConsistent()
    {
      var bitmapPhysStart := m[h].base;
      var bitmapPhysEnd := bitmapPhysStart + bitmapSize;
      var startPfn := bitmapPhysStart / PAGE_SIZE;
      var endPfn := (bitmapPhysEnd + PAGE_SIZE - 1) / PAGE_SIZE;
      BitmapFramesFit(m, h);
      ghost var tracked := HostCovered(m) && CountConsistent();
      var k := startPfn;
      while k < endPfn
        invariant startPfn <= k <= endPfn && Valid() && bitmap == old(bitmap)
        invariant highestAddr == old(highestAddr) && bitmapSize == old(bitmapSize)
        invariant lastAllocIndex == old(lastAllocIndex)
        invariant BootState(bitmap[..], m, startPfn, k)
        invariant freeMemory == old(freeMemory) - PAGE_SIZE * (k - startPfn)
        invariant tracked ==> CountConsistent()
      {
        assert Covers(bitmap[..], k);
        if tracked {
          HostFrameFreed(m, h, k);
        }
        BootStateStep(bitmap[..], m, startPfn, k);
        ReserveFrame(k);
        k := k + 1;
      }
    }

    /** One pass of the last loop of `pmm_init`: mark frame `k` used and count a page less free. */
    method ReserveFrame(k: nat)
      requires Valid() && Covers(bitmap[..], k)
      modifies this, bitmap
      ensures Valid() && bitmap == old(bitmap)
      ensures highestAddr == old(highestAddr) && bitmapSize == old(bitmapSize) && lastAllocIndex == old(lastAllocIndex)
      ensures bitmap[..] == SetFrame(old(bitmap[..]), k)
      ensures freeMemory == old(freeMemory) - PAGE_SIZE
      ensures old(CountConsistent()) && !old(TestFrame(bitmap[..], k)) ==> CountConsistent()
    {
      if !TestFrame(bitmap[..], k) {
        SetFrameCount(bitmap[..], k);
      }
      MarkUsed(k);
      freeMemory := freeMemory - PAGE_SIZE;
    }

    /**
     * `pmm_init`: build the bitmap from the memory map. It returns false
     * where the kernel halts: no usable entry can hold the bitmap, or the
     * bitmap's virtual address `base + hhdm` is NULL.
     */
    method Init(m: seq<MemmapEntry>, hhdm: u64) returns (ok: bool)
      requires Pristine()
      modifies this
      ensures ok <==> BitmapPlaced(m, hhdm)
      ensures ok ==> Valid() && fresh(bitmap) && lastAllocIndex == 0
      ensures ok ==> highestAddr == HighestEnd(m) && bitmapSize == BitmapBytes(highestAddr)
      ensures ok ==>
        var base := m[FindHost(m).value].base;
        var first, end := BitmapFirstFrame(base), BitmapEndFrame(base, bitmapSize);
        && BootState(bitmap[..], m, first, end)
        && freeMemory == PAGE_SIZE * UsablePages(m, |m|) - PAGE_SIZE * (end - first)
      ensures ok ==> FreeBelow(bitmap[..], highestAddr)
      ensures ok && UsableDisjoint(m) && HostCovered(m) ==> CountConsistent()
    {
      FindHighest(m);
      var host := LocateBitmap(m);
      assert host == FindHost(m);
      if host.None? || Wrap64(m[host.value].base + hhdm) == 0 {
        return false;
      }
      assert BitmapPlaced(m, hhdm);
      bitmap := new bv8[bitmapSize];
      Util.Fill(bitmap, 0, 0xFF, bitmapSize);
      FullBitmap(bitmap[..], m);
      FreeUsable(m);
      ReserveBitmap(m, host.value);
      BootStateBelow(bitmap[..], m, BitmapFirstFrame(m[host.value].base), BitmapEndFrame(m[host.value].base, bitmapSize));
      return true;
    }

    /**
     * The scan for a free bit in byte `b` of `pmm_alloc_page`
     * (`BITMAP_TEST(i * 8 + bit)` reads bit `bit` of byte `i`).
     */
    method FirstClearBit(b: bv8) returns (bit: nat)
      requires b != 0xFF
      ensures bit == LowestClear(b)
    {
      bit := 0;
      while bit < 8
        invariant bit <= 8
        invariant forall k :: 0 <= k < bit ==> b & Bit(k) != 0
      {
        if b & Bit(bit) == 0 {
          LowestClearUnique(b, bit);
          return;
        }
        bit := bit + 1;
      }
      FullByte(b);
      assert false;
    }

    /** Take the lowest free frame of byte `i`, as both scans of `pmm_alloc_page` do. */
    method TakeFrom(i: nat) returns (addr: nat)
      requires Valid() && i < bitmapSize && bitmap[i] != 0xFF
      modifies this, bitmap
      ensures Valid() && bitmap == old(bitmap)
      ensures highestAddr == old(highestAddr) && bitmapSize == old(bitmapSize)
      ensures var f := Slot(i, LowestClear(old(bitmap[i]))).Frame();
              && addr == FrameAddress(f)
              && bitmap[..] == SetFrame(old(bitmap[..]), f)
              && freeMemory == old(freeMemory) - PAGE_SIZE
              && lastAllocIndex == i
      ensures old(CountConsistent()) ==> CountConsistent()
      ensures old(FreeBelow(bitmap[..], highestAddr)) ==> FreeBelow(bitmap[..], highestAddr) && addr + PAGE_SIZE <= highestAddr
    {
      var freebit := FirstClearBit(bitmap[i]);
      var f := Slot(i, freebit).Frame();
      addr := FrameAddress(f);
      freeMemory := freeMemory - PAGE_SIZE;
      SetFrameCount(bitmap[..], f);
      if FreeBelow(bitmap[..], highestAddr) {
        SetFrameBelow(bitmap[..], f, highestAddr);
      }
      MarkUsed(f);
      lastAllocIndex := i;
    }

    /** Nothing has changed since the start of the enclosing method. */
    twostate predicate Unchanged()
      reads this, bitmap
    {
      && bitmap == old(bitmap) && bitmap[..] == old(bitmap[..]) && Valid()
      && highestAddr == old(highestAddr) && bitmapSize == old(bitmapSize)
      && freeMemory == old(freeMemory) && lastAllocIndex == old(lastAllocIndex)
    }

    /**
     * `pmm_alloc_page`: the address of the frame `AllocSlot` picks, now
     * marked used, or 0 (NULL) with nothing changed when every frame is in
     * use. Frame 0 is returned as 0 too, so a caller cannot tell it from
     * NULL.
     */

    method Alloc() returns (addr: nat)
      requires Valid()
      modifies this, bitmap
      ensures Valid() && bitmap == old(bitmap)
      ensures highestAddr == old(highestAddr) && bitmapSize == old(bitmapSize)
      ensures match AllocSlot(old(bitmap[..]), old(lastAllocIndex))
        case None =>
          && addr == 0 && bitmap[..] == old(bitmap[..])
          && freeMemory == old(freeMemory) && lastAllocIndex == old(lastAllocIndex)
        case Some(slot) =>
          && addr == FrameAddress(slot.Frame())
          && bitmap[..] == SetFrame(old(bitmap[..]), slot.Frame())
          && freeMemory == old(freeMemory) - PAGE_SIZE
          && lastAllocIndex == slot.byte
      ensures old(CountConsistent()) ==> CountConsistent()
      ensures old(FreeBelow(bitmap[..], highestAddr)) ==>
                FreeBelow(bitmap[..], highestAddr)
                && (AllocSlot(old(bitmap[..]), old(lastAllocIndex)).Some? ==> addr + PAGE_SIZE <= highestAddr)
    {
      var i := lastAllocIndex;
      while i < bitmapSize
        invariant Unchanged()
        invariant lastAllocIndex <= i <= bitmapSize
        invariant FirstNotFull(bitmap[..], lastAllocIndex, bitmapSize) == FirstNotFull(bitmap[..], i, bitmapSize)
      {
        if bitmap[i] != 0xFF {
          addr := TakeFrom(i);
          return;
        }
        i := i + 1;
      }
      i := 0;
      while i < lastAllocIndex
        invariant Unchanged()
        invariant i <= lastAllocIndex
        invariant FirstNotFull(bitmap[..], 0, lastAllocIndex) == FirstNotFull(bitmap[..], i, lastAllocIndex)
      {
        if bitmap[i] != 0xFF {
          addr := TakeFrom(i);
          return;
        }
        i := i + 1;
      }
      return 0;
    }

    /**
     * `pmm_free_page`: clear the bit of the frame holding `addr` and count a
     * page more free. Nothing checks that the frame was in use: freeing a
     * free frame leaves the bitmap as it was but still raises the counter.
     */
    method Free(addr: nat)
      requires Valid() && Covers(bitmap[..], addr / PAGE_SIZE)
      modifies this, bitmap
      ensures Valid() && bitmap == old(bitmap)
      ensures highestAddr == old(highestAddr) && bitmapSize == old(bitmapSize)
      ensures lastAllocIndex == old(lastAllocIndex)
      ensures bitmap[..] == UnsetFrame(old(bitmap[..]), addr / PAGE_SIZE)
      ensures freeMemory == old(freeMemory) + PAGE_SIZE
      ensures old(CountConsistent()) && old(TestFrame(bitmap[..], addr / PAGE_SIZE)) ==> CountConsistent()
      ensures old(CountConsistent()) && !old(TestFrame(bitmap[..], addr / PAGE_SIZE)) ==>
                freeMemory == PAGE_SIZE * (ClearCount(bitmap[..]) + 1)
      ensures old(FreeBelow(bitmap[..], highestAddr)) && FrameAddress(addr / PAGE_SIZE) + PAGE_SIZE <= highestAddr ==>
                FreeBelow(bitmap[..], highestAddr)
    {
      var pageIdx := addr / PAGE_SIZE;
      if FreeBelow(bitmap[..], highestAddr) && FrameAddress(pageIdx) + PAGE_SIZE <= highestAddr {
        UnsetFrameBelow(bitmap[..], pageIdx, highestAddr);
      }
      if TestFrame(bitmap[..], pageIdx) {
        UnsetFrameCount(bitmap[..], pageIdx);
      } else {
        UnsetFreeFrame(bitmap[..], pageIdx);
      }
      MarkFree(pageIdx);
      freeMemory := freeMemory + PAGE_SIZE;
    }

    /** `pmm_get_free_page_count`: the free pages the counter records. */
    function FreePageCount(): (n: int)
      reads this, bitmap
      ensures CountConsistent() ==> n == ClearCount(bitmap[..])
    {
      freeMemory / PAGE_SIZE
    }
  }
}
