/**
 * Machine-level values of the x86_64 target: bytes, 64-bit words, the
 * overflow-checked addition Rust performs on them, and little-endian loads.
 */
module Machine {
  import opened Wrappers

  /** 2^64, one more than the largest `u64` (and, on x86_64, `usize`). */
  const U64_LIMIT: int := 0x1_0000_0000_0000_0000

  type u8 = b: int | 0 <= b < 0x100
  type u64 = x: int | 0 <= x < 0x1_0000_0000_0000_0000
  /** `usize` is 64 bits wide on x86_64. */
  type usize = u64

  /** Size in bytes of a `usize` machine word. */
  const WORD_BYTES: nat := 8

  /** How a Rust call ends: it returns, or it panics (which halts this kernel). */
  datatype Completion = Returned | Panicked(message: string)

  const ADD_OVERFLOW_MESSAGE: string := "attempt to add with overflow"

  /**
   * Rust's `a + b` on `u64`/`usize` with overflow checks: `None` stands for
   * the panic "attempt to add with overflow".
   */
  function CheckedAdd(a: u64, b: u64): (sum: Option<u64>)
  {
    if a + b < U64_LIMIT then Some(a + b) else None
  }

  function Pow256(n: nat): (power: nat)
  {
    if n == 0 then 1 else 256 * Pow256(n - 1)
  }

  /** The number a little-endian byte string encodes, the way x86_64 loads a word. */
  function LittleEndian(bytes: seq<u8>): (w: nat)
    ensures w < Pow256(|bytes|)
  {
    if bytes == [] then 0 else bytes[0] + 256 * LittleEndian(bytes[1..])
  }

  lemma WordFitsU64()
    ensures Pow256(WORD_BYTES) == U64_LIMIT
  {
  }

  /** The `usize` stored at physical address `addr` of memory `mem`. */
  function WordAt(mem: seq<u8>, addr: nat): (word: u64)
    requires addr + WORD_BYTES <= |mem|
  {
    WordFitsU64();
    LittleEndian(mem[addr..addr + WORD_BYTES])
  }
}
