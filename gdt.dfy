/**
 * The Global Descriptor Table: seven 8-byte descriptors (null, kernel code,
 * kernel data, user code, user data and the two halves of the 16-byte TSS
 * descriptor), the Task State Segment and the GDTR pointer, all static
 * storage filled in place at boot. A descriptor scatters a segment's base
 * over three fields and its 20-bit limit over two, as the x86-64 segment
 * descriptor format lays them out (Intel SDM Vol. 3A, section 3.4.5); the
 * TSS descriptor of long mode takes two slots, the second holding bits
 * 32..63 of the base (Intel SDM Vol. 3A, section 7.2.3).
 */
module Gdt {
  import opened Base

  /** Slots in the table: five segments and a two-slot TSS descriptor. */
  const GDT_ENTRIES: nat := 7

  /** `sizeof(struct gdt_entry)`. */
  const ENTRY_SIZE: nat := 8

  /** `sizeof(struct tss_entry)`: reserved0, rsp0..2, reserved1, ist[7], reserved2, reserved3, iomap_base. */
  const TSS_SIZE: nat := 4 + 3 * 8 + 8 + 7 * 8 + 8 + 2 + 2

  /** The limit of the TSS segment, `sizeof(struct tss_entry) - 1`. */
  const TSS_LIMIT: bv64 := 103

  /** The slot of the TSS descriptor. */
  const TSS_SLOT: nat := 5

  /** One 8-byte segment descriptor (`struct gdt_entry`). */
  datatype Entry = Entry(
    limitLow: bv16,
    baseLow: bv16,
    baseMiddle: bv8,
    access: bv8,
    granularity: bv8,
    baseHigh: bv8)

  /** The Task State Segment (`struct tss_entry`). */
  datatype Tss = Tss(
    reserved0: u32,
    rsp0: u64,
    rsp1: u64,
    rsp2: u64,
    reserved1: u64,
    ist: seq<u64>,
    reserved2: u64,
    reserved3: u16,
    iomapBase: u16)

  /** The operand of `lgdt` (`struct gdtr`). */
  datatype Gdtr = Gdtr(limit: u16, base: u64)

  /** A descriptor whose bytes are all zero. */
  const ZERO_ENTRY: Entry := Entry(0, 0, 0, 0, 0, 0)

  /** A TSS whose bytes are all zero. */
  const ZERO_TSS: Tss := Tss(0, 0, 0, 0, 0, seq(7, _ => 0), 0, 0, 0)

  /** The base a descriptor describes: `base_low | base_middle << 16 | base_high << 24`. */
  function EntryBase(e: Entry): bv64
  {
    (e.baseLow as bv64) | ((e.baseMiddle as bv64) << 16) | ((e.baseHigh as bv64) << 24)
  }

  /** The 20-bit limit a descriptor describes: `limit_low` and the low nibble of `granularity`. */
  function EntryLimit(e: Entry): bv64
  {
    (e.limitLow as bv64) | (((e.granularity & 0x0F) as bv64) << 16)
  }

  /** The flags nibble of a descriptor: the high nibble of `granularity`. */
  function EntryFlags(e: Entry): bv8
  {
    e.granularity & 0xF0
  }

  /** The descriptor `gdt_set_gate` writes. */
  function MakeEntry(base: bv64, limit: bv64, access: bv8, gran: bv8): (e: Entry)
    ensures EntryBase(e) == base & 0xFFFF_FFFF
    ensures EntryLimit(e) == limit & 0xF_FFFF
    ensures EntryFlags(e) == gran & 0xF0
    ensures e.access == access
  {
    Entry(
      (limit & 0xFFFF) as bv16,
      (base & 0xFFFF) as bv16,
      ((base >> 16) & 0xFF) as bv8,
      access,
      (((limit >> 16) & 0x0F) as bv8) | (gran & 0xF0),
      ((base >> 24) & 0xFF) as bv8)
  }

  /**
   * The slot after a TSS descriptor as `gdt_set_system_gate` leaves it:
   * `base_upper` overlays its `limit_low` and `base_low`, `reserved` its
   * other four bytes.
   */
  function UpperEntry(base: bv64): Entry
  {
    Entry(((base >> 32) & 0xFFFF) as bv16, ((base >> 48) & 0xFFFF) as bv16, 0, 0, 0, 0)
  }

  /** The `base_upper` field of a 16-byte descriptor whose second half is `hi`. */
  function BaseUpper(hi: Entry): bv64
  {
    (hi.limitLow as bv64) | ((hi.baseLow as bv64) << 16)
  }

  /** The `reserved` field of a 16-byte descriptor whose second half is `hi`, as four bytes. */
  predicate ReservedZero(hi: Entry)
  {
    hi.baseMiddle == 0 && hi.access == 0 && hi.granularity == 0 && hi.baseHigh == 0
  }

  /** The 64-bit base a 16-byte system descriptor in slots `lo`, `hi` describes. */
  function SystemBase(lo: Entry, hi: Entry): bv64
  {
    EntryBase(lo) | (BaseUpper(hi) << 32)
  }

  /** The second half of a TSS descriptor holds bits 32..63 of the base, and its reserved dword is zero. */
  lemma UpperEntryBase(base: bv64)
    ensures BaseUpper(UpperEntry(base)) == base >> 32
    ensures ReservedZero(UpperEntry(base))
  {
  }

  /** A 64-bit value is its low dword with its high dword shifted back in. */
  lemma JoinHalves(x: bv64)
    ensures (x & 0xFFFF_FFFF) | ((x >> 32) << 32) == x
  {
  }

  /** A system descriptor written by `gdt_set_system_gate` describes the whole 64-bit base. */
  lemma SystemGateBase(base: bv64, limit: bv64, access: bv8, gran: bv8)
    ensures SystemBase(MakeEntry(base, limit, access, gran), UpperEntry(base)) == base
  {
    var lo, hi := MakeEntry(base, limit, access, gran), UpperEntry(base);
    UpperEntryBase(base);
    JoinHalves(base);
    assert SystemBase(lo, hi) == (base & 0xFFFF_FFFF) | ((base >> 32) << 32);
  }

  /** The present bit of an access byte. */
  predicate Present(access: bv8)
  {
    access & 0x80 != 0
  }

  /** The privilege level of an access byte. */
  function Dpl(access: bv8): bv8
  {
    (access >> 5) & 3
  }

  /** A code or data segment (S bit set) whose type is executable and readable. */
  predicate CodeSegment(access: bv8)
  {
    access & 0x10 != 0 && access & 0x08 != 0 && access & 0x02 != 0
  }

  /** A code or data segment (S bit set) whose type is writable data. */
  predicate DataSegment(access: bv8)
  {
    access & 0x10 != 0 && access & 0x08 == 0 && access & 0x02 != 0
  }

  /** The L flag: a 64-bit code segment. */
  predicate LongMode(e: Entry)
  {
    EntryFlags(e) & 0x20 != 0
  }

  /** A system descriptor (S bit clear) of type 9, an available 64-bit TSS. */
  predicate AvailableTss(access: bv8)
  {
    access & 0x10 == 0 && access & 0x0F == 9
  }

  /** A flat segment with base 0 and limit 0 of the given privilege and kind. */
  predicate FlatSegment(e: Entry, dpl: bv8, code: bool)
  {
    EntryBase(e) == 0 && EntryLimit(e) == 0 && Present(e.access) && Dpl(e.access) == dpl
    && (if code then CodeSegment(e.access) && LongMode(e) else DataSegment(e.access))
  }

  /** The access and flag bytes `gdt_init` uses describe the segments its comments name. */
  lemma SegmentKinds()
    ensures FlatSegment(MakeEntry(0, 0, 0x9A, 0x20), 0, true)
    ensures FlatSegment(MakeEntry(0, 0, 0x92, 0), 0, false)
    ensures FlatSegment(MakeEntry(0, 0, 0xFA, 0x20), 3, true)
    ensures FlatSegment(MakeEntry(0, 0, 0xF2, 0), 3, false)
    ensures Present(0x89) && Dpl(0x89) == 0 && AvailableTss(0x89)
  {
  }

  /** The seven slots `gdt_init` writes, for a TSS at `tssAddr`. */
  function BootTable(tssAddr: bv64): seq<Entry>
  {
    [MakeEntry(0, 0, 0, 0),
     MakeEntry(0, 0, 0x9A, 0x20),
     MakeEntry(0, 0, 0x92, 0),
     MakeEntry(0, 0, 0xFA, 0x20),
     MakeEntry(0, 0, 0xF2, 0),
     MakeEntry(tssAddr, TSS_LIMIT, 0x89, 0),
     UpperEntry(tssAddr)]
  }

  /**
   * The layout the kernel relies on: a null slot 0, flat ring-0 code and
   * data at selectors 0x08 and 0x10, flat ring-3 code and data at 0x18 and
   * 0x20, and at 0x28 a present 64-bit TSS descriptor for the TSS at
   * `tssAddr` whose limit ends at the last byte of `struct tss_entry`.
   */
  predicate KernelLayout(t: seq<Entry>, tssAddr: bv64)
  {
    |t| == GDT_ENTRIES
    && t[0] == ZERO_ENTRY
    && FlatSegment(t[1], 0, true) && FlatSegment(t[2], 0, false)
    && FlatSegment(t[3], 3, true) && FlatSegment(t[4], 3, false)
    && SystemBase(t[TSS_SLOT], t[TSS_SLOT + 1]) == tssAddr
    && EntryLimit(t[TSS_SLOT]) == TSS_LIMIT
    && Present(t[TSS_SLOT].access) && Dpl(t[TSS_SLOT].access) == 0 && AvailableTss(t[TSS_SLOT].access)
    && ReservedZero(t[TSS_SLOT + 1])
  }

  /** The TSS descriptor `gdt_init` writes describes the TSS at `tssAddr`, `TSS_SIZE` bytes long. */
  lemma TssDescriptor(tssAddr: bv64)
    ensures SystemBase(MakeEntry(tssAddr, TSS_LIMIT, 0x89, 0), UpperEntry(tssAddr)) == tssAddr
    ensures EntryLimit(MakeEntry(tssAddr, TSS_LIMIT, 0x89, 0)) == TSS_LIMIT
    ensures ReservedZero(UpperEntry(tssAddr))
    ensures TSS_LIMIT as int == TSS_SIZE - 1
  {
    SystemGateBase(tssAddr, TSS_LIMIT, 0x89, 0);
    UpperEntryBase(tssAddr);
  }

  /** The table `gdt_init` writes has the layout the kernel relies on. */
  lemma BootTableLayout(tssAddr: bv64)
    ensures KernelLayout(BootTable(tssAddr), tssAddr)
  {
    SegmentKinds();
    TssDescriptor(tssAddr);
    assert MakeEntry(0, 0, 0, 0) == ZERO_ENTRY;
  }

  /** The descriptor tables of the kernel: `gdt[7]`, `tss` and `gdtr`. */
  class DescriptorTable {
    /** `gdt[7]`. */
    var gdt: array<Entry>
    /** `tss`. */
    var tss: Tss
    /** `gdtr`. */
    var gdtr: Gdtr

    /** The table has its seven slots. */
    predicate Valid()
      reads this
    {
      gdt.Length == GDT_ENTRIES
    }

    /** The statics as the kernel image starts: all zero. */
    constructor ()
      ensures Valid() && fresh(gdt)
      ensures forall i :: 0 <= i < gdt.Length ==> gdt[i] == ZERO_ENTRY
      ensures tss == ZERO_TSS && gdtr == Gdtr(0, 0)
    {
      gdt := new Entry[GDT_ENTRIES](_ => ZERO_ENTRY);
      tss := ZERO_TSS;
      gdtr := Gdtr(0, 0);
    }

    /** `gdt_set_gate`: slot `num` receives the descriptor of `base`, `limit`, `access`, `gran`. */
    method SetGate(num: nat, base: bv64, limit: bv64, access: bv8, gran: bv8)
      requires num < gdt.Length
      modifies gdt
      ensures gdt[..] == old(gdt[..])[num := MakeEntry(base, limit, access, gran)]
    {
      gdt[num] := MakeEntry(base, limit, access, gran);
    }

    /** `gdt_set_system_gate`: slot `num` as `gdt_set_gate`, and slot `num + 1` overwritten by the upper half. */
    method SetSystemGate(num: nat, base: bv64, limit: bv64, access: bv8, gran: bv8)
      requires num + 1 < gdt.Length
      modifies gdt
      ensures gdt[..] == old(gdt[..])[num := MakeEntry(base, limit, access, gran)][num + 1 := UpperEntry(base)]
      ensures SystemBase(gdt[num], gdt[num + 1]) == base && ReservedZero(gdt[num + 1])
    {
      SetGate(num, base, limit, access, gran);
      gdt[num + 1] := UpperEntry(base);
      SystemGateBase(base, limit, access, gran);
      UpperEntryBase(base);
    }

    /**
     * `gdt_init` without the `lgdt` and `ltr` instructions: the TSS zeroed but
     * for `iomap_base`, the five segments and the TSS descriptor at
     * `tssAddr`, and the GDTR covering the seven slots at `gdtAddr`.
     */
    method Init(tssAddr: bv64, gdtAddr: u64)
      requires Valid()
      modifies this, gdt
      ensures Valid() && gdt == old(gdt)
      ensures tss == ZERO_TSS.(iomapBase := TSS_SIZE)
      ensures gdt[..] == BootTable(tssAddr) && KernelLayout(gdt[..], tssAddr)
      ensures gdtr.limit == GDT_ENTRIES * ENTRY_SIZE - 1 && gdtr.base == gdtAddr
    {
      tss := ZERO_TSS;
      tss := tss.(iomapBase := TSS_SIZE);
      SetGate(0, 0, 0, 0, 0);
      SetGate(1, 0, 0, 0x9A, 0x20);
      SetGate(2, 0, 0, 0x92, 0);
      SetGate(3, 0, 0, 0xFA, 0x20);
      SetGate(4, 0, 0, 0xF2, 0);
      SetSystemGate(TSS_SLOT, tssAddr, TSS_LIMIT, 0x89, 0);
      gdtr := Gdtr(GDT_ENTRIES * ENTRY_SIZE - 1, gdtAddr);
      BootTableLayout(tssAddr);
    }

    /** `tss_set_stack`: the ring-0 stack pointer becomes `stackPtr`; nothing else changes. */
    method SetStack(stackPtr: u64)
      modifies this
      ensures tss == old(tss).(rsp0 := stackPtr)
      ensures gdt == old(gdt) && gdtr == old(gdtr)
    {
      tss := tss.(rsp0 := stackPtr);
    }
  }
}
