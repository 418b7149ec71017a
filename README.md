# Boot bridge and placeholder allocator of a bare-metal x86_64 kernel

This project models the sequential logic of a small x86_64 kernel's entry
function and of its placeholder global allocator, and proves properties of
that model in Dafny.

The kernel entry receives the bootloader's handoff. The model covers the part
of the entry that runs before the event loop:

- It picks the last memory region whose kind is `Usable`, and aborts boot if
  there is none.
- It requires the physical-memory offset, and aborts boot if it is absent.
- It translates the region's physical start to a virtual address by adding the
  offset.
- It writes the sentinel bytes 'A' and 'B' into a 100-byte window at that
  address and reads them back.
- It takes the root page-table base from CR3 and checks that it is 4 KiB
  aligned. CR3 holds the 4 KiB-aligned physical base of the top-level table
  (Intel 64 and IA-32 Architectures Software Developer's Manual, Volume 3A,
  section 4.5). An unaligned base aborts boot.
- It dumps the first six machine words of that table through the translated
  address.

The allocator's `alloc` always returns null and its `dealloc` always panics.
`init_heap` adds its argument to the global `HEAP_START`, which starts at 0.

Modules:

- `Wrappers` holds `Option`.
- `Machine` holds bytes, `u64`/`usize`, Rust's overflow-checked addition, a
  panic outcome (`Completion`) and little-endian word loads.
- `BootBridge` holds the handoff types, the region selection and address
  translation.
- `PageTableInspector` holds the alignment check and the root-table dump.
- `Kernel` holds the sentinel write, a specification function `Boot` of the
  whole sequential part, the method `KernelMain` proved against it, and lemmas
  for each way boot ends.
- `Allocator` holds `Alloc`, `Dealloc`, the class `HeapState` for
  `HEAP_START`, and lemmas about sequences of `init_heap` calls.

Physical memory is a Dafny `array<u8>` indexed by physical address. The
bootloader maps it at virtual addresses `offset .. offset + mem.Length`. The
precondition `PhysicalMemoryMapped` states that this mapping covers the
100-byte window and the 48 bytes of the dump. The kernel relies on this
mapping without checking it.

Rust's `+` and `-` on `u64`/`usize` are modelled with overflow checks. An
overflow panics, so in the kernel it aborts boot (`AddressOverflow`,
`RegionLengthUnderflow`), and in
`init_heap` it is a `Panicked` outcome.

Consequences of following the code:

- An overflowing translation panics, so the round trip holds only for
  translations that succeed (`PhysToVirt`, `VirtToPhysRoundTrip`).
- `bootloader_api` has no `Reserved` kind; the example list uses
  `UnknownUefi(0)`, the UEFI reserved memory type.
- The region listing computes each region's length `end - start` as a `u64`
  before the selection, so a region that ends before it starts panics there
  (`RegionLengthUnderflow`).

## Model

| member | source | states |
|---|---|---|
| BootBridge.ListRegions | kernel/src/main.rs:39-41 | the listing panics iff some region ends before it starts; otherwise it yields one length per region, with start + length = end |
| BootBridge.UsableRegions | kernel/src/main.rs:43 | the filter yields only `Usable` regions, each one taken from the handoff list |
| BootBridge.SelectUsableRegion | kernel/src/main.rs:43 | a selected region has kind `Usable` and is an entry of the handoff list |
| BootBridge.SelectUsableRegionAppend | kernel/src/main.rs:43 | appending a region makes it the selection if it is `Usable`, otherwise leaves the selection unchanged |
| BootBridge.SelectUsableRegionIsLastUsable | kernel/src/main.rs:43 | nothing is selected iff no entry is `Usable`; otherwise the selection is the entry at an index that is `Usable` with no `Usable` entry after it |
| BootBridge.SelectUsableRegionAt | kernel/src/main.rs:43 | if index i is the last `Usable` entry, the selection is exactly that entry |
| BootBridge.SelectUsableRegionExample | kernel/src/main.rs:43 | of the regions (0,0x1000,reserved), (0x1000,0x10000,Usable) and (0x10000,0x20000,Usable), the last is selected |
| BootBridge.PhysToVirt | kernel/src/main.rs:47 | translation fails (addition overflow panic) iff offset + physical does not fit 64 bits; a translated address maps back to the physical address it came from |
| BootBridge.VirtToPhys | kernel/src/main.rs:47 | a virtual address has a physical address iff it is at or above the offset, and adding the offset to that physical address gives the virtual address back |
| BootBridge.VirtToPhysRoundTrip | kernel/src/main.rs:47 | translating the physical address behind a window address gives that virtual address again |
| PageTableInspector.PageFromStartAddress | kernel/src/main.rs:62 | a page is built from the CR3 base iff the base is a multiple of 4096, and then it starts at that base |
| PageTableInspector.DumpRootTable | kernel/src/main.rs:65-68 | returns exactly six words; word k is the little-endian `usize` stored at physical address (virtual - offset) + 8k; memory is not modified |
| Machine.LittleEndian | kernel/src/main.rs:65-67 | a loaded n-byte word is below 256^n, so a loaded 8-byte word fits a `usize` |
| Kernel.Poked | kernel/src/main.rs:50-52 | after the sentinel write, byte p is 65 ('A') and byte p+1 is 66 ('B'); every other byte, including window bytes 2..99, is unchanged |
| Kernel.PokeSentinel | kernel/src/main.rs:50-53 | writes the sentinel through the translated address and reads back 'A' and 'B' through it; memory becomes exactly `Poked` |
| Kernel.KernelMain | kernel/src/main.rs:39-68 | the outcome and the final memory are those of the specification `Boot`, in the source's order of checks |
| Kernel.BootAbortsOnMalformedRegion | kernel/src/main.rs:39-41 | a region that ends before it starts aborts boot with `RegionLengthUnderflow` before the selection, memory untouched |
| Kernel.BootAbortsWithoutUsableRegion | kernel/src/main.rs:43 | when every region ends at or after its start and none is `Usable`, boot aborts with `NoUsableRegion` and memory is untouched |
| Kernel.BootAbortsWithoutOffset | kernel/src/main.rs:46 | when every region ends at or after its start, with a `Usable` region but no physical-memory offset, boot aborts with `NoPhysicalMemoryOffset` and memory is untouched |
| Kernel.BootAbortsOnAddressOverflow | kernel/src/main.rs:47-65 | with every region well formed, if offset + region start overflows 64 bits, boot aborts with `AddressOverflow` and memory untouched; if instead offset + aligned CR3 base overflows, it aborts with `AddressOverflow` after the sentinel write, memory being `Poked` |
| Kernel.BootRejectsMisalignedRootTable | kernel/src/main.rs:62 | with every region well formed, a CR3 base that is not a multiple of 4096 aborts boot with `PageTableNotAligned`, after the sentinel has been written to the last usable region |
| Kernel.BootEntersEventLoop | kernel/src/main.rs:43-68 | when all checks pass, boot reaches the event loop; it read back ('A','B') from the last usable region's start, changed only those two bytes, and dumped the six words stored at the CR3 base |
| Allocator.Alloc | kernel/src/allocator.rs:13-15 | every layout gets the null pointer; the method reads and changes no state, so this holds before and after `init_heap` and leaves `HEAP_START` alone |
| Allocator.Dealloc | kernel/src/allocator.rs:17-19 | never returns normally: every pointer and layout panics with "dealloc should be never called" |
| Allocator.HeapState.constructor | kernel/src/allocator.rs:8 | `HEAP_START` is 0 before any `init_heap` call |
| Allocator.HeapState.InitHeap | kernel/src/allocator.rs:22-24 | the new `HEAP_START` is the old one plus the offset; an addition that overflows `usize` panics and changes nothing; agrees with one step of `InitHeapCalls` |
| Allocator.InitHeapCallsSum | kernel/src/allocator.rs:22-24 | a sequence of `init_heap` calls leaves `HEAP_START` at its initial value plus the sum of the offsets, and some call panics iff that total overflows `usize` |
| Allocator.InitHeapCallsExample | kernel/src/allocator.rs:8-24 | starting from 0, offsets 0x1000 then 0x2000 give 0x3000 |
| Allocator.InitHeapZeroUnchanged | kernel/src/allocator.rs:22-24 | any number of `init_heap(0)` calls leave `HEAP_START` unchanged |
| Allocator.InitHeapNotIdempotent | kernel/src/allocator.rs:22-24 | after one successful call with a non-zero offset, a second call with the same offset gives a different result |

## Left out

- Framebuffer drawing (kernel/src/main.rs:28-37) is pixel I/O. The `screen` module is not part of this model.
- Kernel.KernelMain: begins at the region listing (kernel/src/main.rs:39) and assumes lines 26-38 returned normally; the framebuffer `unwrap` calls (lines 28, 30, 31) and the subtraction `frame_info.height-15` (line 34) can abort boot there, and the model does not capture those aborts.
- All `writeln!`/`write!` output to the serial port and the screen writer is left out as a side effect. The one computation inside it that can abort, the region length at kernel/src/main.rs:40, is modelled by `ListRegions`. On the path that reaches the event loop, the outcome keeps the read-back characters and the dumped words; an abort after the sentinel write (misaligned or overflowing CR3 base) keeps only the error, not the read-back printed at line 53.
- The `start`, `tick` and `key` handlers (kernel/src/main.rs:78-91) only print.
- `HandlerTable` and its `start` loop (kernel/src/main.rs:71-75) are interrupt-driven and never return, and that crate is not part of this model. `KernelMain` ends with `EnteredEventLoop` where control passes to it.
- `Cr3::read()` (kernel/src/main.rs:56) reads a hardware register. Its start address is a parameter of `KernelMain`. In the x86_64 crate that start address comes from a physical frame and is 4 KiB aligned by construction, so a real CR3 value always passes the alignment check at line 62; `PageTableNotAligned` is reachable only for the arbitrary parameter values the model admits.
- `VirtAddr::new` (kernel/src/main.rs:62) also checks that its argument is a canonical address; that code belongs to the x86_64 crate, which is not part of this model. The model checks only the 4 KiB alignment.
- The bootloader configuration and the `entry_point!` macro (kernel/src/main.rs:18-24) are compile-time configuration.
- The `#[global_allocator]` registration (kernel/src/allocator.rs:1-2) is runtime wiring.
- Raw-pointer validity is not modelled. The bootloader's full mapping of physical memory is the precondition `PhysicalMemoryMapped`, and the alignment of the `usize` reads is assumed, not checked.
- BootBridge.PhysToVirt: models the overflow-checked (debug build) addition. A release build would wrap modulo 2^64 instead, and the model does not capture that.
- Allocator.HeapState.InitHeap: models the overflow-checked (debug build) `+=`. A release build would wrap modulo 2^64 instead, and the model does not capture that.
- Concurrent access to `HEAP_START` is not modelled. The kernel is single-threaded until its interrupt handlers run, and they do not touch it.
