/**
 * The Interrupt Descriptor Table: 256 16-byte interrupt gates, each naming a
 * handler address, the kernel code selector and the gate's type and
 * privilege, laid out as the 64-bit IDT gate descriptor (Intel SDM Vol. 3A,
 * section 6.14.1), and the IDTR pointer that `lidt` loads. `idt_init` points
 * every vector at the matching assembly stub as a ring-0 interrupt gate.
 */
module Idt {
  import opened Base
  import Gdt

  /** `IDT_ENTRIES`. */
  const IDT_ENTRIES: nat := 256

  /** `sizeof(struct idt_entry)`. */
  const GATE_SIZE: nat := 16

  /** The code selector every gate names: slot 1 of the GDT, table GDT, privilege 0. */
  const KERNEL_CODE_SELECTOR: bv16 := 0x08

  /** The flags `idt_init` gives every gate: present, ring 0, 64-bit interrupt gate. */
  const INTERRUPT_GATE_FLAGS: bv8 := 0x8E

  /** One interrupt gate (`struct idt_entry`). */
  datatype Gate = Gate(
    isrLow: bv16,
    kernelCs: bv16,
    ist: bv8,
    attributes: bv8,
    isrMid: bv16,
    isrHigh: bv32,
    reserved: bv32)

  /** The operand of `lidt` (`struct idtr`). */
  datatype Idtr = Idtr(limit: u16, base: u64)

  /** A gate whose bytes are all zero. */
  const ZERO_GATE: Gate := Gate(0, 0, 0, 0, 0, 0, 0)

  /** The handler address a gate names: `isr_low | isr_mid << 16 | isr_high << 32`. */
  function Handler(g: Gate): bv64
  {
    (g.isrLow as bv64) | ((g.isrMid as bv64) << 16) | ((g.isrHigh as bv64) << 32)
  }

  /** The gate `idt_set_gate` writes for handler `addr` with attribute byte `flags`. */
  function MakeGate(addr: bv64, flags: bv8): (g: Gate)
    ensures Handler(g) == addr
    ensures g.kernelCs == KERNEL_CODE_SELECTOR && g.ist == 0
    ensures g.attributes == flags && g.reserved == 0
  {
    Gate(
      (addr & 0xFFFF) as bv16,
      KERNEL_CODE_SELECTOR,
      0,
      flags,
      ((addr >> 16) & 0xFFFF) as bv16,
      ((addr >> 32) & 0xFFFF_FFFF) as bv32,
      0)
  }

  /** The present bit of an attribute byte. */
  predicate Present(attributes: bv8)
  {
    attributes & 0x80 != 0
  }

  /** The privilege level an attribute byte allows software interrupts from. */
  function Dpl(attributes: bv8): bv8
  {
    (attributes >> 5) & 3
  }

  /** The gate type of an attribute byte (bit 4 is zero for every gate). */
  function GateType(attributes: bv8): bv8
  {
    attributes & 0x1F
  }

  /** A present ring-0 64-bit interrupt gate (type 0xE), entered on the current stack in the kernel code segment. */
  predicate KernelInterruptGate(g: Gate)
  {
    g.kernelCs == KERNEL_CODE_SELECTOR && g.ist == 0 && g.reserved == 0
    && Present(g.attributes) && Dpl(g.attributes) == 0 && GateType(g.attributes) == 0xE
  }

  /** Every gate `idt_init` writes is a kernel interrupt gate calling its stub. */
  lemma InitGate(addr: bv64)
    ensures KernelInterruptGate(MakeGate(addr, INTERRUPT_GATE_FLAGS))
    ensures Handler(MakeGate(addr, INTERRUPT_GATE_FLAGS)) == addr
  {
  }

  /** The index a selector names in its descriptor table. */
  function SelectorIndex(selector: bv16): bv16
  {
    selector >> 3
  }

  /** The requested privilege level of a selector. */
  function SelectorRpl(selector: bv16): bv16
  {
    selector & 3
  }

  /** The selector the gates name picks the flat ring-0 long-mode code segment of the GDT `gdt_init` writes. */
  lemma KernelSelectorIsKernelCode(t: seq<Gdt.Entry>, tssAddr: bv64)
    requires Gdt.KernelLayout(t, tssAddr)
    ensures KERNEL_CODE_SELECTOR & 4 == 0 && SelectorRpl(KERNEL_CODE_SELECTOR) == 0
    ensures SelectorIndex(KERNEL_CODE_SELECTOR) == 1 && Gdt.FlatSegment(t[1], 0, true)
  {
  }

  /** The kernel's interrupt table: `idt[256]` and `idtr`. */
  class InterruptTable {
    /** `idt[IDT_ENTRIES]`. */
    var idt: array<Gate>
    /** `idtr`. */
    var idtr: Idtr

    /** The table has its 256 gates. */
    predicate Valid()
      reads this
    {
      idt.Length == IDT_ENTRIES
    }

    /** The statics as the kernel image starts: all zero. */
    constructor ()
      ensures Valid() && fresh(idt)
      ensures forall i :: 0 <= i < idt.Length ==> idt[i] == ZERO_GATE
      ensures idtr == Idtr(0, 0)
    {
      idt := new Gate[IDT_ENTRIES](_ => ZERO_GATE);
      idtr := Idtr(0, 0);
    }

    /** `idt_set_gate`: gate `vector` receives handler `isr` with attributes `flags`; no other gate changes. */
    method SetGate(vector: u8, isr: bv64, flags: bv8)
      requires Valid()
      modifies idt
      ensures idt[..] == old(idt[..])[vector := MakeGate(isr, flags)]
    {
      idt[vector] := MakeGate(isr, flags);
    }

    /**
     * `idt_init` without `pic_remap`, `lidt` and `sti`: gate `i` calls
     * `stubs[i]` (`isr_stub_table[i]`) as a ring-0 interrupt gate, and the
     * IDTR covers the 256 gates at `idtAddr`.
     */
    method Init(stubs: seq<bv64>, idtAddr: u64)
      requires Valid() && |stubs| == IDT_ENTRIES
      modifies this, idt
      ensures Valid() && idt == old(idt)
      ensures forall i :: 0 <= i < IDT_ENTRIES ==> idt[i] == MakeGate(stubs[i], INTERRUPT_GATE_FLAGS)
      ensures forall i :: 0 <= i < IDT_ENTRIES ==> Handler(idt[i]) == stubs[i] && KernelInterruptGate(idt[i])
      ensures idtr.limit == IDT_ENTRIES * GATE_SIZE - 1 && idtr.base == idtAddr
    {
      var i := 0;
      while i < IDT_ENTRIES
        invariant 0 <= i <= IDT_ENTRIES && Valid() && idt == old(idt)
        invariant forall k :: 0 <= k < i ==> idt[k] == MakeGate(stubs[k], INTERRUPT_GATE_FLAGS)
      {
        SetGate(i, stubs[i], INTERRUPT_GATE_FLAGS);
        i := i + 1;
      }
      idtr := Idtr(IDT_ENTRIES * GATE_SIZE - 1, idtAddr);
      forall i | 0 <= i < IDT_ENTRIES
        ensures Handler(idt[i]) == stubs[i] && KernelInterruptGate(idt[i])
      {
        InitGate(stubs[i]);
      }
    }
  }
}
