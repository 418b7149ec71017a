/**
 * The kernel entry's sequential part: list the memory regions, select the usable region, require the
 * physical-memory offset, poke a sentinel into the usable region through the
 * translated address, check the root page table's alignment and dump its
 * first words. After that the kernel hands control to its event loop.
 *
 * Physical memory is an array of bytes indexed by physical address; the
 * bootloader maps it at virtual addresses `offset .. offset + mem.Length`.
 */
module Kernel {
  import opened Wrappers
  import opened Machine
  import opened BootBridge
  import opened PageTableInspector

  /** Length of the byte window opened at the start of the usable region. */
  const VAULT_LEN: nat := 100

  /** The sentinel bytes, the codes of 'A' and 'B'. */
  const SENTINEL_FIRST: u8 := 65
  const SENTINEL_SECOND: u8 := 66

  /** Why boot stops: an `unwrap` on a missing value, or an overflowing addition or subtraction. */
  datatype BootError =
    | RegionLengthUnderflow
    | NoUsableRegion
    | NoPhysicalMemoryOffset
    | AddressOverflow
    | PageTableNotAligned

  /** How the sequential part of boot ends. */
  datatype BootOutcome =
    | Aborted(error: BootError)
    | EnteredEventLoop(readBack: (char, char), rootTable: seq<u64>)

  /**
   * The bootloader's mapping covers what the kernel touches: the window at
   * the start of the selected region and the dumped words of the root table.
   */
  ghost predicate PhysicalMemoryMapped(boot: BootInfo, cr3: u64, memSize: nat)
  {
    && (match SelectUsableRegion(boot.memoryRegions)
        case Some(region) => region.start + VAULT_LEN <= memSize
        case None => true)
    && cr3 + DUMP_WORDS * WORD_BYTES <= memSize
  }

  /**
   * Memory after the sentinel write at physical address `p`: the first two
   * bytes of the window hold 'A' and 'B', every other byte is as it was.
   */
  function Poked(mem: seq<u8>, p: nat): (after: seq<u8>)
    requires p + VAULT_LEN <= |mem|
    ensures |after| == |mem|
    ensures after[p] == SENTINEL_FIRST && after[p + 1] == SENTINEL_SECOND
    ensures forall i :: 0 <= i < |mem| && i != p && i != p + 1 ==> after[i] == mem[i]
  {
    mem[p := SENTINEL_FIRST][p + 1 := SENTINEL_SECOND]
  }

  /**
   * Writes the sentinel through virtual address `vault` and reads it back
   * through the same address.
   */
  method PokeSentinel(mem: array<u8>, offset: u64, vault: u64) returns (first: char, second: char)
    requires offset <= vault && vault - offset + VAULT_LEN <= mem.Length
    modifies mem
    ensures mem[..] == Poked(old(mem[..]), vault - offset)
    ensures first == 'A' && second == 'B'
  {
    var p := VirtToPhys(offset, vault).value;
    mem[p] := SENTINEL_FIRST;
    mem[p + 1] := SENTINEL_SECOND;
    first, second := mem[p] as char, mem[p + 1] as char;
  }

  /**
   * The outcome of the sequential part of boot and the memory it leaves,
   * given the boot handoff, the root-table base read from CR3 and the
   * initial physical memory.
   */
  function Boot(boot: BootInfo, cr3: u64, mem: seq<u8>): (result: (BootOutcome, seq<u8>))
    requires PhysicalMemoryMapped(boot, cr3, |mem|)
  {
    if !RegionsWellFormed(boot.memoryRegions) then (Aborted(RegionLengthUnderflow), mem)
    else
    match SelectUsableRegion(boot.memoryRegions)
    case None => (Aborted(NoUsableRegion), mem)
    case Some(region) =>
      match boot.physicalMemoryOffset
      case None => (Aborted(NoPhysicalMemoryOffset), mem)
      case Some(offset) =>
        match PhysToVirt(offset, region.start)
        case None => (Aborted(AddressOverflow), mem)
        case Some(vault) =>
          var p := VirtToPhys(offset, vault).value;
          var poked := Poked(mem, p);
          if PageFromStartAddress(cr3).None? then (Aborted(PageTableNotAligned), poked)
          else
            match PhysToVirt(offset, cr3)
            case None => (Aborted(AddressOverflow), poked)
            case Some(table) =>
              var readBack := (poked[p] as char, poked[p + 1] as char);
              (EnteredEventLoop(readBack, RootTableWords(poked, VirtToPhys(offset, table).value)), poked)
  }

  /**
   * The kernel entry from the region listing up to the start of the event
   * loop, on physical memory `mem`; the framebuffer set-up before the
   * listing is taken to have returned normally.
   */
  method KernelMain(boot: BootInfo, cr3: u64, mem: array<u8>) returns (outcome: BootOutcome)
    requires PhysicalMemoryMapped(boot, cr3, mem.Length)
    modifies mem
    ensures (outcome, mem[..]) == Boot(boot, cr3, old(mem[..]))
  {
    var lengths := ListRegions(boot.memoryRegions);
    if lengths.None? {
      return Aborted(RegionLengthUnderflow);
    }
    var usable := SelectUsableRegion(boot.memoryRegions);
    if usable.None? {
      return Aborted(NoUsableRegion);
    }
    var region := usable.value;
    if boot.physicalMemoryOffset.None? {
      return Aborted(NoPhysicalMemoryOffset);
    }
    var offset := boot.physicalMemoryOffset.value;
    var vault := PhysToVirt(offset, region.start);
    if vault.None? {
      return Aborted(AddressOverflow);
    }
    var first, second := PokeSentinel(mem, offset, vault.value);
    if PageFromStartAddress(cr3).None? {
      return Aborted(PageTableNotAligned);
    }
    var table := PhysToVirt(offset, cr3);
    if table.None? {
      return Aborted(AddressOverflow);
    }
    var words := DumpRootTable(mem, offset, table.value);
    assert words == RootTableWords(mem[..], cr3);
    outcome := EnteredEventLoop((first, second), words);
  }

  /**
   * A region that ends before it starts makes the region listing panic:
   * boot aborts before the selection and memory is untouched.
   */
  lemma BootAbortsOnMalformedRegion(boot: BootInfo, cr3: u64, mem: seq<u8>, i: int)
    requires PhysicalMemoryMapped(boot, cr3, |mem|)
    requires 0 <= i < |boot.memoryRegions| && boot.memoryRegions[i].end < boot.memoryRegions[i].start
    ensures Boot(boot, cr3, mem) == (Aborted(RegionLengthUnderflow), mem)
  {
  }

  /** With no usable region boot aborts at once and memory is untouched. */
  lemma BootAbortsWithoutUsableRegion(boot: BootInfo, cr3: u64, mem: seq<u8>)
    requires PhysicalMemoryMapped(boot, cr3, |mem|)
    requires RegionsWellFormed(boot.memoryRegions)
    requires forall i :: 0 <= i < |boot.memoryRegions| ==> boot.memoryRegions[i].kind != Usable
    ensures Boot(boot, cr3, mem) == (Aborted(NoUsableRegion), mem)
  {
  }

  /** With a usable region but no physical-memory offset boot aborts and memory is untouched. */
  lemma BootAbortsWithoutOffset(boot: BootInfo, cr3: u64, mem: seq<u8>, i: int)
    requires PhysicalMemoryMapped(boot, cr3, |mem|)
    requires RegionsWellFormed(boot.memoryRegions)
    requires 0 <= i < |boot.memoryRegions| && boot.memoryRegions[i].kind == Usable
    requires boot.physicalMemoryOffset.None?
    ensures Boot(boot, cr3, mem) == (Aborted(NoPhysicalMemoryOffset), mem)
  {
    SelectUsableRegionIsLastUsable(boot.memoryRegions);
  }

  /**
   * Once the last usable region `i` is translated, an overflowing address
   * addition aborts boot: before the sentinel write for the region, after it
   * for the root table.
   */
  lemma BootAbortsOnAddressOverflow(boot: BootInfo, cr3: u64, mem: seq<u8>, i: int, offset: u64)
    requires PhysicalMemoryMapped(boot, cr3, |mem|)
    requires RegionsWellFormed(boot.memoryRegions)
    requires IsLastUsable(boot.memoryRegions, i)
    requires boot.physicalMemoryOffset == Some(offset)
    requires offset + boot.memoryRegions[i].start >= U64_LIMIT
      || (cr3 % PAGE_SIZE == 0 && offset + cr3 >= U64_LIMIT)
    ensures offset + boot.memoryRegions[i].start >= U64_LIMIT ==>
      Boot(boot, cr3, mem) == (Aborted(AddressOverflow), mem)
    ensures offset + boot.memoryRegions[i].start < U64_LIMIT ==>
      && boot.memoryRegions[i].start + VAULT_LEN <= |mem|
      && Boot(boot, cr3, mem) == (Aborted(AddressOverflow), Poked(mem, boot.memoryRegions[i].start))
  {
    SelectUsableRegionAt(boot.memoryRegions, i);
  }

  /**
   * A root-table base off a 4 KiB boundary aborts boot, after the sentinel
   * has been written to the start of the last usable region `i`.
   */
  lemma BootRejectsMisalignedRootTable(boot: BootInfo, cr3: u64, mem: seq<u8>, i: int, offset: u64)
    requires PhysicalMemoryMapped(boot, cr3, |mem|)
    requires RegionsWellFormed(boot.memoryRegions)
    requires IsLastUsable(boot.memoryRegions, i)
    requires boot.physicalMemoryOffset == Some(offset)
    requires offset + boot.memoryRegions[i].start < U64_LIMIT
    requires cr3 % PAGE_SIZE != 0
    ensures boot.memoryRegions[i].start + VAULT_LEN <= |mem|
      && Boot(boot, cr3, mem) == (Aborted(PageTableNotAligned), Poked(mem, boot.memoryRegions[i].start))
  {
    SelectUsableRegionAt(boot.memoryRegions, i);
  }

  /**
   * When every check passes, boot reaches the event loop: it read back
   * 'A' and 'B' from the start of the last usable region `i`, changed no
   * other byte, and dumped the six words stored at the root-table base.
   */
  lemma BootEntersEventLoop(boot: BootInfo, cr3: u64, mem: seq<u8>, i: int, offset: u64)
    requires PhysicalMemoryMapped(boot, cr3, |mem|)
    requires RegionsWellFormed(boot.memoryRegions)
    requires IsLastUsable(boot.memoryRegions, i)
    requires boot.physicalMemoryOffset == Some(offset)
    requires offset + boot.memoryRegions[i].start < U64_LIMIT
    requires cr3 % PAGE_SIZE == 0 && offset + cr3 < U64_LIMIT
    ensures boot.memoryRegions[i].start + VAULT_LEN <= |mem|
    ensures Boot(boot, cr3, mem).0.EnteredEventLoop?
    ensures Boot(boot, cr3, mem).0.readBack == ('A', 'B')
    ensures Boot(boot, cr3, mem).1 == Poked(mem, boot.memoryRegions[i].start)
    ensures Boot(boot, cr3, mem).0.rootTable == RootTableWords(Boot(boot, cr3, mem).1, cr3)
  {
    SelectUsableRegionAt(boot.memoryRegions, i);
    var region := boot.memoryRegions[i];
    var after := Poked(mem, region.start);
    assert PhysToVirt(offset, region.start) == Some(offset + region.start);
    assert PhysToVirt(offset, cr3) == Some(offset + cr3);
    assert Boot(boot, cr3, mem) == (EnteredEventLoop((after[region.start] as char, after[region.start + 1] as char),
      RootTableWords(after, cr3)), after);
  }
}
