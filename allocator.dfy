/**
 * The kernel's placeholder global allocator: allocation always fails,
 * deallocation is a fatal error, and the heap start is a global that
 * `init_heap` adds to.
 */
module Allocator {
  import opened Wrappers
  import opened Machine

  /** The size and alignment of a requested block. */
  datatype Layout = Layout(size: usize, align: usize)

  /** A raw `*mut u8`: null, or an address. */
  datatype Ptr = Null | Address(addr: usize)

  const DEALLOC_MESSAGE: string := "dealloc should be never called"

  /**
   * Allocation never succeeds: every layout gets the null pointer. The
   * method has no state to read or change, so the answer is the same
   * before and after `InitHeap`, and the heap start is left alone.
   */
  method Alloc(layout: Layout) returns (p: Ptr)
    ensures p == Null
  {
    p := Null;
  }

  /** Deallocation never returns normally: whatever it is given, it panics. */
  method Dealloc(p: Ptr, layout: Layout) returns (outcome: Completion)
    ensures outcome == Panicked(DEALLOC_MESSAGE)
  {
    outcome := Panicked(DEALLOC_MESSAGE);
  }

  /** The global heap-start address. */
  class HeapState {
    var heapStart: usize

    /** The heap start is zero when the kernel is loaded. */
    constructor ()
      ensures heapStart == 0
    {
      heapStart := 0;
    }

    /**
     * Adds `offset` to the heap start. If the sum does not fit a `usize`,
     * the addition panics and the heap start keeps its old value.
     */
    method InitHeap(offset: usize) returns (outcome: Completion)
      modifies this
      ensures outcome.Returned? <==> old(heapStart) + offset < U64_LIMIT
      ensures outcome.Returned? ==> heapStart == old(heapStart) + offset
      ensures outcome.Panicked? ==> heapStart == old(heapStart) && outcome == Panicked(ADD_OVERFLOW_MESSAGE)
      ensures InitHeapCalls(old(heapStart), [offset]) == if outcome.Returned? then Some(heapStart) else None
    {
      var sum := CheckedAdd(heapStart, offset);
      if sum.None? {
        return Panicked(ADD_OVERFLOW_MESSAGE);
      }
      heapStart := sum.value;
      outcome := Returned;
    }
  }

  /**
   * The heap start after `InitHeap` is called with each offset in turn,
   * starting from `heapStart`; `None` if one of the calls panics.
   */
  function InitHeapCalls(heapStart: usize, offsets: seq<usize>): (final: Option<usize>)
    decreases |offsets|
  {
    if offsets == [] then Some(heapStart)
    else
      match CheckedAdd(heapStart, offsets[0])
      case None => None
      case Some(next) => InitHeapCalls(next, offsets[1..])
  }

  function Sum(offsets: seq<usize>): (total: nat)
  {
    if offsets == [] then 0 else offsets[0] + Sum(offsets[1..])
  }

  /**
   * The calls accumulate: the heap start ends as the initial value plus
   * the sum of all offsets, and some call panics exactly when that total
   * does not fit a `usize`.
   */
  lemma {:induction false} InitHeapCallsSum(heapStart: usize, offsets: seq<usize>)
    ensures InitHeapCalls(heapStart, offsets) ==
      if heapStart + Sum(offsets) < U64_LIMIT then Some(heapStart + Sum(offsets)) else None
    decreases |offsets|
  {
    if offsets != [] {
      if heapStart + offsets[0] < U64_LIMIT {
        InitHeapCallsSum(heapStart + offsets[0], offsets[1..]);
      }
    }
  }

  /** From the initial zero, offsets 0x1000 then 0x2000 leave the heap start at 0x3000. */
  lemma InitHeapCallsExample()
    ensures InitHeapCalls(0, [0x1000, 0x2000]) == Some(0x3000)
  {
  }

  /** Offset zero leaves the heap start unchanged, however often it is applied. */
  lemma {:induction false} InitHeapZeroUnchanged(heapStart: usize, n: nat)
    ensures InitHeapCalls(heapStart, seq(n, _ => 0)) == Some(heapStart)
  {
    if n > 0 {
      assert seq(n, _ => 0)[1..] == seq(n - 1, _ => 0);
      InitHeapZeroUnchanged(heapStart, n - 1);
    }
  }

  /**
   * `InitHeap` is not idempotent: once a call with a non-zero offset has
   * returned, repeating it moves the heap start again (or panics).
   */
  lemma InitHeapNotIdempotent(heapStart: usize, offset: usize)
    requires offset != 0
    ensures InitHeapCalls(heapStart, [offset]).Some? ==>
      InitHeapCalls(heapStart, [offset, offset]) != InitHeapCalls(heapStart, [offset])
  {
    InitHeapCallsSum(heapStart, [offset, offset]);
    InitHeapCallsSum(heapStart, [offset]);
  }
}
