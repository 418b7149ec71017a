/**
 * The boot handoff as the kernel consumes it: the bootloader's ordered list
 * of memory regions, the optional physical-memory offset, the choice of the
 * usable region and physical-to-virtual translation.
 */
module BootBridge {
  import opened Wrappers
  import opened Machine

  /** The kinds of region the bootloader reports. */
  datatype MemoryRegionKind =
    | Usable
    | Bootloader
    | UnknownUefi(uefiType: nat)
    | UnknownBios(biosType: nat)

  /** A physical range `[start, end)` and what it is used for. */
  datatype MemoryRegion = MemoryRegion(start: u64, end: u64, kind: MemoryRegionKind)

  /** The parts of the boot handoff that the boot bridge reads. */
  datatype BootInfo = BootInfo(memoryRegions: seq<MemoryRegion>, physicalMemoryOffset: Option<u64>)

  /** Every region ends at or after its start, so its length `end - start` fits a `u64`. */
  predicate RegionsWellFormed(regions: seq<MemoryRegion>)
  {
    forall i :: 0 <= i < |regions| ==> regions[i].start <= regions[i].end
  }

  /**
   * The length of each region, computed in list order with an
   * overflow-checked `u64` subtraction for the region listing; `None` stands
   * for the panic on the first region that ends before it starts.
   */
  method ListRegions(regions: seq<MemoryRegion>) returns (lengths: Option<seq<u64>>)
    ensures lengths.None? <==> !RegionsWellFormed(regions)
    ensures lengths.Some? ==> |lengths.value| == |regions|
    ensures lengths.Some? ==>
      forall i :: 0 <= i < |regions| ==> regions[i].start + lengths.value[i] == regions[i].end
  {
    var acc: seq<u64> := [];
    for i := 0 to |regions|
      invariant |acc| == i
      invariant forall j :: 0 <= j < i ==> regions[j].start <= regions[j].end
      invariant forall j :: 0 <= j < i ==> regions[j].start + acc[j] == regions[j].end
    {
      var r := regions[i];
      if r.end < r.start {
        return None;
      }
      acc := acc + [r.end - r.start];
    }
    lengths := Some(acc);
  }

  /** The regions whose kind is `Usable`, in their original order (the iterator's `filter`). */
  function UsableRegions(regions: seq<MemoryRegion>): (usable: seq<MemoryRegion>)
    ensures forall k :: 0 <= k < |usable| ==> usable[k].kind == Usable && usable[k] in regions
  {
    if regions == [] then []
    else (if regions[0].kind == Usable then [regions[0]] else []) + UsableRegions(regions[1..])
  }

  /** The iterator's `last`. */
  function Last<T>(s: seq<T>): (last: Option<T>)
  {
    if s == [] then None else Some(s[|s| - 1])
  }

  /**
   * The region the kernel takes as its usable memory: the last `Usable`
   * entry of the handoff list, or `None`, on which boot aborts.
   */
  function SelectUsableRegion(regions: seq<MemoryRegion>): (selected: Option<MemoryRegion>)
    ensures selected.Some? ==> selected.value.kind == Usable && selected.value in regions
  {
    Last(UsableRegions(regions))
  }

  /** Index `i` holds a `Usable` region and no later entry does. */
  ghost predicate IsLastUsable(regions: seq<MemoryRegion>, i: int)
  {
    && 0 <= i < |regions|
    && regions[i].kind == Usable
    && forall j :: i < j < |regions| ==> regions[j].kind != Usable
  }

  lemma {:induction false} UsableRegionsAppend(regions: seq<MemoryRegion>, r: MemoryRegion)
    ensures UsableRegions(regions + [r]) == UsableRegions(regions) + (if r.kind == Usable then [r] else [])
  {
    if regions != [] {
      assert (regions + [r])[1..] == regions[1..] + [r];
      UsableRegionsAppend(regions[1..], r);
    }
  }

  /** Appending a region: it is selected if usable, otherwise the selection is unchanged. */
  lemma SelectUsableRegionAppend(regions: seq<MemoryRegion>, r: MemoryRegion)
    ensures SelectUsableRegion(regions + [r]) == if r.kind == Usable then Some(r) else SelectUsableRegion(regions)
  {
    UsableRegionsAppend(regions, r);
  }

  /**
   * The selection is exactly the last usable region: there is none iff no
   * entry is `Usable`, and otherwise it is the entry at the one index that
   * is usable with no usable entry after it.
   */
  lemma {:induction false} SelectUsableRegionIsLastUsable(regions: seq<MemoryRegion>)
    ensures SelectUsableRegion(regions).None? <==> forall i :: 0 <= i < |regions| ==> regions[i].kind != Usable
    ensures SelectUsableRegion(regions).Some? ==>
      exists i :: IsLastUsable(regions, i) && regions[i] == SelectUsableRegion(regions).value
  {
    if regions != [] {
      var n := |regions| - 1;
      var init := regions[..n];
      assert regions == init + [regions[n]];
      SelectUsableRegionAppend(init, regions[n]);
      SelectUsableRegionIsLastUsable(init);
      if regions[n].kind == Usable {
        assert IsLastUsable(regions, n);
      } else if SelectUsableRegion(init).Some? {
        var i :| IsLastUsable(init, i) && init[i] == SelectUsableRegion(init).value;
        assert IsLastUsable(regions, i);
      }
    }
  }

  /** The last usable index is unique, so the selection is the region at any such index. */
  lemma SelectUsableRegionAt(regions: seq<MemoryRegion>, i: int)
    requires IsLastUsable(regions, i)
    ensures SelectUsableRegion(regions) == Some(regions[i])
  {
    SelectUsableRegionIsLastUsable(regions);
    var k :| IsLastUsable(regions, k) && regions[k] == SelectUsableRegion(regions).value;
    assert !(k < i) && !(i < k);
  }

  /** Of two usable regions, the later is chosen. */
  lemma SelectUsableRegionExample()
    ensures SelectUsableRegion([
      MemoryRegion(0, 0x1000, UnknownUefi(0)),
      MemoryRegion(0x1000, 0x10000, Usable),
      MemoryRegion(0x10000, 0x20000, Usable)]) == Some(MemoryRegion(0x10000, 0x20000, Usable))
  {
  }

  /**
   * Physical to virtual translation under the bootloader's full mapping of
   * physical memory: `virtual = offset + physical`, where an addition that
   * overflows 64 bits panics (`None`). The translated address maps back to
   * the physical one.
   */
  function PhysToVirt(offset: u64, phys: u64): (virt: Option<u64>)
    ensures virt.None? <==> offset + phys >= U64_LIMIT
    ensures virt.Some? ==> VirtToPhys(offset, virt.value) == Some(phys)
  {
    CheckedAdd(offset, phys)
  }

  /**
   * The inverse mapping: the physical address behind a virtual address of
   * the physical-memory window, `None` below the window.
   */
  function VirtToPhys(offset: u64, virt: u64): (phys: Option<u64>)
    ensures phys.Some? <==> offset <= virt
    ensures phys.Some? ==> offset + phys.value == virt
  {
    if offset <= virt then Some(virt - offset) else None
  }

  /** Every address of the window translates back to the virtual address it came from. */
  lemma VirtToPhysRoundTrip(offset: u64, virt: u64)
    requires offset <= virt
    ensures PhysToVirt(offset, VirtToPhys(offset, virt).value) == Some(virt)
  {
  }
}
