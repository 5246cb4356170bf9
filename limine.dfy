/**
 * The boot protocol's responses as the core reads them: the physical
 * memory map and the executable-address response. They are inputs only.
 */
module Limine {
  import opened Base

  /** Kinds of memory-map entries reported by the boot loader. */
  datatype MemmapKind =
    | Usable
    | Reserved
    | AcpiReclaimable
    | AcpiNvs
    | BadMemory
    | BootloaderReclaimable
    | ExecutableAndModules
    | Framebuffer

  /** One memory-map entry: `length` bytes of physical memory from `base`. */
  datatype MemmapEntry = MemmapEntry(base: u64, length: u64, kind: MemmapKind)

  /** Where the boot loader placed the kernel image, physically and virtually. */
  datatype ExecutableAddress = ExecutableAddress(physicalBase: u64, virtualBase: u64)
}
