/**
 * The diagnostic pass over the active root page table: the 4 KiB alignment
 * check on the table's base and the raw dump of its first entries.
 *
 * Control register CR3 holds the 4 KiB-aligned physical base of the
 * top-level (PML4) table (Intel 64 and IA-32 Architectures Software
 * Developer's Manual, Volume 3A, section 4.5).
 */
module PageTableInspector {
  import opened Wrappers
  import opened Machine
  import opened BootBridge

  /** Size of a 4 KiB page. */
  const PAGE_SIZE: nat := 4096

  /** Number of root-table words the diagnostic dump reads. */
  const DUMP_WORDS: nat := 6

  /** A 4 KiB page, identified by its start address. */
  datatype Page = Page(startAddress: u64)

  /** The largest multiple of `align` that is at most `addr`. */
  function AlignDown(addr: u64, align: nat): (aligned: u64)
    requires align > 0
  {
    addr - addr % align
  }

  /**
   * The page starting at `addr`; `None` (the error "address not aligned")
   * unless `addr` lies on a 4 KiB boundary.
   */
  function PageFromStartAddress(addr: u64): (page: Option<Page>)
    ensures page.Some? <==> addr % PAGE_SIZE == 0
    ensures page.Some? ==> page.value.startAddress == addr
  {
    if AlignDown(addr, PAGE_SIZE) == addr then Some(Page(addr)) else None
  }

  /** The first `DUMP_WORDS` words stored from physical address `base` on. */
  function RootTableWords(mem: seq<u8>, base: nat): (words: seq<u64>)
    requires base + DUMP_WORDS * WORD_BYTES <= |mem|
  {
    seq(DUMP_WORDS, k requires 0 <= k < DUMP_WORDS => WordAt(mem, base + k * WORD_BYTES))
  }

  /**
   * Reads the first `DUMP_WORDS` machine words of the table at virtual
   * address `tableVirt` through the physical-memory window, one word per
   * iteration, and changes no memory.
   */
  method DumpRootTable(mem: array<u8>, offset: u64, tableVirt: u64) returns (words: seq<u64>)
    requires offset <= tableVirt
    requires tableVirt - offset + DUMP_WORDS * WORD_BYTES <= mem.Length
    ensures |words| == DUMP_WORDS
    ensures forall k :: 0 <= k < DUMP_WORDS ==>
      words[k] == WordAt(mem[..], tableVirt - offset + k * WORD_BYTES)
  {
    var base := VirtToPhys(offset, tableVirt).value;
    words := [];
    for x := 0 to DUMP_WORDS
      invariant |words| == x
      invariant forall k :: 0 <= k < x ==> words[k] == WordAt(mem[..], base + k * WORD_BYTES)
    {
      words := words + [WordAt(mem[..], base + x * WORD_BYTES)];
    }
  }
}
