/**
 The string helpers the hash map relies on (src/crelude/common.c:370-415):
 equality and three-way comparison of counted byte strings, and the
 `djb2` hash over a byte slice.

 A crelude `string` is a counted slice of unsigned bytes; it need not be
 NUL-terminated and may contain NUL bytes.
 */
module Strings {
  import opened Common

  type Bytes = seq<byte>

  /** `string_eq(self, other)`: lengths first, then byte by byte. */
  method StringEq(a: Bytes, b: Bytes) returns (r: bool)
    ensures r <==> a == b
  {
    if |a| != |b| {
      return false;
    }
    var i := 0;
    while i < |a|
      invariant i <= |a|
      invariant a[..i] == b[..i]
    {
      if a[i] != b[i] {
        return false;
      }
      i := i + 1;
    }
    assert a == a[..i] && b == b[..i];
    return true;
  }

  /** Lexicographic comparison of counted strings, the way `string_cmp`
      reports it: the difference of the first differing bytes, and when
      one string is a prefix of the other, the next byte of the longer one
      against an implicit 0. */
  function Lex(a: Bytes, b: Bytes): (r: int)
    ensures -255 <= r <= 255
    ensures a == b ==> r == 0
  {
    if |a| == 0 && |b| == 0 then 0
    else if |a| == 0 then 0 - b[0]
    else if |b| == 0 then a[0] - 0
    else if a[0] != b[0] then a[0] - b[0]
    else Lex(a[1..], b[1..])
  }

  /** `strcmp` on NUL-terminated byte strings: the reference `string_cmp`
      is compared with. Only what precedes the first NUL matters. */
  function StrCmp(x: Bytes, y: Bytes): (r: int)
    requires 0 in x && 0 in y
    decreases |x|
  {
    if x[0] != y[0] || x[0] == 0 then x[0] - y[0]
    else
      assert 0 in x[1..] && 0 in y[1..] by {
        assert forall z: Bytes | 0 in z && z[0] != 0 :: 0 in z[1..];
      }
      StrCmp(x[1..], y[1..])
  }

  /** `string_cmp(self, other)`: scan the common prefix for a difference,
      then settle by length. The result fits the `i16` the source returns. */
  method StringCmp(a: Bytes, b: Bytes) returns (r: int)
    ensures r == Lex(a, b)
    ensures -255 <= r <= 255
  {
    var len := Min(|a|, |b|);
    var i := 0;
    while i < len
      invariant i <= len
      invariant a[..i] == b[..i]
      invariant Lex(a, b) == Lex(a[i..], b[i..])
    {
      if a[i] != b[i] {
        return a[i] as int - b[i] as int;
      }
      assert a[i..][1..] == a[i + 1..] && b[i..][1..] == b[i + 1..];
      i := i + 1;
    }
    if |a| == |b| {
      return 0;
    }
    if |a| == len {
      return 0 - b[len] as int;
    }
    return a[len] as int - 0;
  }

  /** `string_cmp` is antisymmetric. */
  lemma {:induction false} LexAntisymmetric(a: Bytes, b: Bytes)
    ensures Lex(a, b) == -Lex(b, a)
    decreases |a|
  {
    if |a| > 0 && |b| > 0 && a[0] == b[0] {
      LexAntisymmetric(a[1..], b[1..]);
    }
  }

  /** On strings without NUL bytes, `string_cmp` and `strcmp` on the
      terminated copies give the same number. */
  lemma {:induction false} LexIsStrCmp(a: Bytes, b: Bytes)
    requires forall i | 0 <= i < |a| :: a[i] != 0
    requires forall i | 0 <= i < |b| :: b[i] != 0
    ensures 0 in a + [0] && 0 in b + [0]
    ensures Lex(a, b) == StrCmp(a + [0], b + [0])
    decreases |a|
  {
    assert (a + [0])[|a|] == 0 && (b + [0])[|b|] == 0;
    if |a| > 0 && |b| > 0 && a[0] == b[0] {
      assert (a + [0])[1..] == a[1..] + [0];
      assert (b + [0])[1..] == b[1..] + [0];
      LexAntisymmetric(a[1..], b[1..]);
      LexIsStrCmp(a[1..], b[1..]);
    }
  }

  /** Without NUL bytes `string_cmp` is zero exactly on equal strings;
      a trailing NUL is where that breaks down. */
  lemma {:induction false} LexZeroIffEqual(a: Bytes, b: Bytes)
    requires forall i | 0 <= i < |a| :: a[i] != 0
    requires forall i | 0 <= i < |b| :: b[i] != 0
    ensures Lex(a, b) == 0 <==> a == b
    decreases |a|
  {
    if |a| > 0 && |b| > 0 && a[0] == b[0] {
      LexZeroIffEqual(a[1..], b[1..]);
      assert a == [a[0]] + a[1..] && b == [b[0]] + b[1..];
    }
  }

  lemma LexNulSuffix()
    ensures Lex([97, 0], [97]) == 0
  {
  }

  /** The two comparisons in the test suite: "Latino" against "Latina",
      and the views of both that stop before the last letter. */
  lemma LexLatino()
    ensures Lex([76, 97, 116, 105, 110, 111], [76, 97, 116, 105, 110, 97]) == 111 - 97
    ensures Lex([76, 97, 116, 105, 110], [76, 97, 116, 105, 110]) == 0
  {
  }

  /** The `djb2` value without the 64-bit wrap-around: `5381`, then
      `33 * h + c` for each byte in turn. */
  function Djb2(s: Bytes): (h: nat)
  {
    if |s| == 0 then 5381 else 33 * Djb2(s[..|s| - 1]) + s[|s| - 1]
  }

  /** One step of the hash loop in `u64`: `h += c + (h << 5)`. */
  function HashStep(h: u64, c: byte): u64
  {
    (h + c + (h * 32) % U64_MODULUS) % U64_MODULUS
  }

  lemma HashStepIsMod(a: nat, c: byte)
    ensures HashStep(a % U64_MODULUS, c) == (33 * a + c) % U64_MODULUS
  {
    var x := a % U64_MODULUS;
    var q := a / U64_MODULUS;
    assert a == q * U64_MODULUS + x;
    var y := (x * 32) % U64_MODULUS;
    var q2 := (x * 32) / U64_MODULUS;
    assert x * 32 == q2 * U64_MODULUS + y;
    assert 33 * a + c == (x + c + y) + (33 * q + q2) * U64_MODULUS;
    ModAddMultiple(x + c + y, 33 * q + q2);
  }

  lemma ModAddMultiple(z: int, k: int)
    ensures (z + k * U64_MODULUS) % U64_MODULUS == z % U64_MODULUS
  {
  }

  /** `hash_bytes(mem)`: the `djb2` value reduced modulo 2^64. */
  method HashBytes(mem: Bytes) returns (h: u64)
    ensures h == Djb2(mem) % U64_MODULUS
  {
    h := 5381;
    var i := 0;
    while i < |mem|
      invariant i <= |mem|
      invariant h == Djb2(mem[..i]) % U64_MODULUS
    {
      assert mem[..i + 1][..i] == mem[..i];
      HashStepIsMod(Djb2(mem[..i]), mem[i]);
      h := HashStep(h, mem[i]);
      i := i + 1;
    }
    assert mem[..i] == mem;
  }

  /** The `djb2` loop started from an arbitrary value `h`. */
  function Djb2From(h: nat, t: Bytes): (r: nat)
  {
    if |t| == 0 then h else 33 * Djb2From(h, t[..|t| - 1]) + t[|t| - 1]
  }

  /** Hashing a concatenation continues from the unreduced hash of its
      first part. */
  lemma {:induction false} Djb2Concat(s: Bytes, t: Bytes)
    ensures Djb2(s + t) == Djb2From(Djb2(s), t)
    decreases |t|
  {
    if |t| > 0 {
      assert (s + t)[..|s + t| - 1] == s + t[..|t| - 1];
      Djb2Concat(s, t[..|t| - 1]);
    } else {
      assert s + t == s;
    }
  }
}
