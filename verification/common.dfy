/**
 Shared vocabulary of the model: optional values (the C code's nullable
 pointers), byte- and word-sized integers, and reading a NUL-terminated
 C string past the end of its counted length.
 */
module Common {

  /** A nullable pointer: `None` is `nil`. */
  datatype Option<+T> = None | Some(value: T)

  const BYTE_MODULUS: int := 0x100
  const U32_MODULUS: int := 0x1_0000_0000
  const U64_MODULUS: int := 0x1_0000_0000_0000_0000

  /** An unsigned 8-bit value (`umin`, `byte`). */
  type byte = x: int | 0 <= x < 0x100

  /** An unsigned 32-bit value (`u32`). */
  type u32 = x: int | 0 <= x < 0x1_0000_0000

  /** An unsigned 64-bit value (`u64`, `usize`). */
  type u64 = x: int | 0 <= x < 0x1_0000_0000_0000_0000

  const NUL: char := '\0'

  /** The character at index `i` of a C string whose counted part is `s`:
      the terminating NUL, and by extension every position past it,
      reads as `NUL`. */
  function At(s: string, i: nat): (c: char)
    ensures i < |s| ==> c == s[i]
    ensures i >= |s| ==> c == NUL
  {
    if i < |s| then s[i] else NUL
  }

  /** A string as produced by `from_cstring`: no NUL inside it. */
  predicate NulFree(s: string)
  {
    forall i | 0 <= i < |s| :: s[i] != NUL
  }

  /** Multiplying by the same natural number keeps the order. */
  lemma MulMono(x: nat, y: nat, w: nat)
    ensures x <= y ==> x * w <= y * w
  {
    if x <= y {
      assert y * w == x * w + (y - x) * w;
    }
  }

  function Min(a: int, b: int): int
  {
    if a < b then a else b
  }

  function Max(a: int, b: int): int
  {
    if a < b then b else a
  }
}
