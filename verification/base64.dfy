/**
 Base-64 encoding and decoding of byte slices (src/crelude/base64.h and
 src/crelude/base64.c): the digit alphabet and its inverse table, the
 encoded and decoded sizes, and the two conversions.

 A `MemSlice` is its bytes, `seq<byte>`. The terminating NUL both
 conversions write after the counted bytes is not part of a result. The
 decoder's `u32` accumulator and `usize` size arithmetic are written out
 where they wrap.
 */
module Base64 {
  import opened Common

  type Bytes = seq<byte>

  /** `'='`, the padding digit. */
  const PAD: byte := 61
  /** `'+'`, the smallest digit; the inverse table is indexed from it. */
  const PLUS: byte := 43

  /** The alphabet as the header spells it, in pieces of at most 13. */
  const ALPHABET: string :=
    "ABCDEFGHIJKLM" + "NOPQRSTUVWXYZ" + "abcdefghijklm" + "nopqrstuvwxyz" + "0123456789" + "+/"

  /** The byte of digit `i`: `A`–`Z`, `a`–`z`, `0`–`9`, `+`, `/`. */
  function DigitCode(i: nat): (c: byte)
    requires i < 64
    ensures PLUS <= c <= 122 && c != PAD
  {
    if i < 26 then 65 + i
    else if i < 52 then 71 + i
    else if i < 62 then i - 4
    else if i == 62 then 43
    else 47
  }

  /** `BASE64_DIGITS`: the 64 digits, then the NUL that ends the string
      initializer, which `INIT` counts, so `len` is 65. */
  const BASE64_DIGITS: Bytes := DigitTable()

  function DigitTable(): (t: Bytes)
    ensures |t| == 65 && t[64] == 0
    ensures forall i | 0 <= i < 64 :: t[i] == DigitCode(i)
  {
    seq(64, i requires 0 <= i < 64 => DigitCode(i)) + [0]
  }

  /** `BASE64_DIGITS` holds the bytes of the alphabet's text. */
  lemma DigitsSpellAlphabet()
    ensures |ALPHABET| == 64 && |BASE64_DIGITS| == 65 && BASE64_DIGITS[64] == 0
    ensures forall i | 0 <= i < 64 :: BASE64_DIGITS[i] == ALPHABET[i] as int
  {
    UpperCaseSpelled();
    LowerCaseSpelled();
    assert forall i | 52 <= i < 62 :: ALPHABET[i] as int == i - 4;
  }

  lemma UpperCaseSpelled()
    ensures forall i | 0 <= i < 26 :: ALPHABET[i] as int == 65 + i
  {
    assert forall i | 0 <= i < 13 :: ALPHABET[i] as int == 65 + i;
    assert forall i | 13 <= i < 26 :: ALPHABET[i] as int == 65 + i;
  }

  lemma LowerCaseSpelled()
    ensures forall i | 26 <= i < 52 :: ALPHABET[i] as int == 71 + i
  {
    assert forall i | 26 <= i < 39 :: ALPHABET[i] as int == 71 + i;
    assert forall i | 39 <= i < 52 :: ALPHABET[i] as int == 71 + i;
  }

  /** No two digits share a byte. */
  lemma DigitsDistinct(i: nat, j: nat)
    requires i < 64 && j < 64
    ensures DigitCode(i) == DigitCode(j) <==> i == j
  {
  }

  /** `BASE64_INVERSES`, row for row as the header lists it: the digit value
      of byte `'+' + k`, or -1 where that byte is not a digit. */
  const BASE64_INVERSES: seq<int> :=
    [62, -1, -1, -1, 63, 52, 53, 54, 55, 56] +
    [57, 58, 59, 60, 61, -1, -1, -1, -1, -1] +
    [-1, -1,  0,  1,  2,  3,  4,  5,  6,  7] +
    [ 8,  9, 10, 11, 12, 13, 14, 15, 16, 17] +
    [18, 19, 20, 21, 22, 23, 24, 25, -1, -1] +
    [-1, -1, -1, -1, 26, 27, 28, 29, 30, 31] +
    [32, 33, 34, 35, 36, 37, 38, 39, 40, 41] +
    [42, 43, 44, 45, 46, 47, 48, 49, 50, 51]

  /** The entry for byte `'+' + k`, range by range. */
  function InverseAt(k: nat): (x: int)
    requires k < 80
    ensures -1 <= x < 64
    ensures x >= 0 ==> DigitCode(x) == k + PLUS
  {
    if k == 0 then 62
    else if k == 4 then 63
    else if 5 <= k <= 14 then k + 47
    else if 22 <= k <= 47 then k - 22
    else if 54 <= k then k - 28
    else -1
  }

  lemma InverseRows()
    ensures |BASE64_INVERSES| == 80
    ensures forall k | 0 <= k < 80 :: BASE64_INVERSES[k] == InverseAt(k)
  {
    InverseRowsLow();
    InverseRowsHigh();
  }

  lemma InverseRowsLow()
    ensures |BASE64_INVERSES| == 80
    ensures forall k | 0 <= k < 40 :: BASE64_INVERSES[k] == InverseAt(k)
  {
    assert forall k | 0 <= k < 10 :: BASE64_INVERSES[k] == InverseAt(k);
    assert forall k | 10 <= k < 20 :: BASE64_INVERSES[k] == InverseAt(k);
    assert forall k | 20 <= k < 30 :: BASE64_INVERSES[k] == InverseAt(k);
    assert forall k | 30 <= k < 40 :: BASE64_INVERSES[k] == InverseAt(k);
  }

  lemma InverseRowsHigh()
    ensures forall k | 40 <= k < 80 :: BASE64_INVERSES[k] == InverseAt(k)
  {
    assert forall k | 40 <= k < 50 :: BASE64_INVERSES[k] == InverseAt(k);
    assert forall k | 50 <= k < 60 :: BASE64_INVERSES[k] == InverseAt(k);
    assert forall k | 60 <= k < 70 :: BASE64_INVERSES[k] == InverseAt(k);
    assert forall k | 70 <= k < 80 :: BASE64_INVERSES[k] == InverseAt(k);
  }

  /** The inverse table undoes the digit table, and it has an entry other
      than -1 exactly at the digits. */
  lemma InversesInvertDigits()
    ensures |BASE64_INVERSES| == 80
    ensures forall i | 0 <= i < 64 :: BASE64_INVERSES[DigitCode(i) - PLUS] == i
    ensures forall k | 0 <= k < 80 ::
              BASE64_INVERSES[k] == -1 ||
              (0 <= BASE64_INVERSES[k] < 64 && DigitCode(BASE64_INVERSES[k]) == k + PLUS)
  {
    InverseRows();
    forall i | 0 <= i < 64
      ensures BASE64_INVERSES[DigitCode(i) - PLUS] == i
    {
      var x := InverseAt(DigitCode(i) - PLUS);
      assert x == i;
    }
  }

  /** `base64_decode_table()`: every entry -1, then for each digit `i` the
      entry at `BASE64_DIGITS[i] - '+'` set to `i`. It rebuilds the literal
      table. */
  method DecodeTable() returns (table: seq<int>)
    ensures table == BASE64_INVERSES
  {
    table := seq(80, _ => -1);
    var i := 0;
    while i < |BASE64_DIGITS| - 1
      invariant 0 <= i <= 64 && |table| == 80
      invariant forall k | 0 <= k < 80 :: table[k] == (if 0 <= InverseAt(k) < i then InverseAt(k) else -1)
    {
      var k := BASE64_DIGITS[i] - PLUS;
      assert InverseAt(k) == i;
      table := table[k := i];
      i := i + 1;
    }
    InverseRows();
  }

  /** `is_base64_digit(d)`: a decimal digit, a letter, `+`, `/` or `=`. */
  predicate IsBase64Digit(d: byte)
  {
    (48 <= d <= 57) || (65 <= d <= 90) || (97 <= d <= 122) || d == PLUS || d == 47 || d == PAD
  }

  /** The bytes `is_base64_digit` accepts are the alphabet and `'='`. */
  lemma IsBase64DigitIff(d: byte)
    ensures IsBase64Digit(d) <==> d == PAD || exists i :: 0 <= i < 64 && DigitCode(i) == d
  {
    if 48 <= d <= 57 {
      assert DigitCode(d + 4) == d;
    } else if 65 <= d <= 90 {
      assert DigitCode(d - 65) == d;
    } else if 97 <= d <= 122 {
      assert DigitCode(d - 71) == d;
    } else if d == PLUS {
      assert DigitCode(62) == d;
    } else if d == 47 {
      assert DigitCode(63) == d;
    }
  }

  /** `base64_encoded_size(original)`: four digits for every started group
      of three bytes. */
  function EncodedSize(n: nat): (size: nat)
    ensures size % 4 == 0
    ensures n <= size / 4 * 3 < n + 3
  {
    var size := if n % 3 == 0 then n else n + (3 - n % 3);
    size / 3 * 4
  }

  /** The number of `'='` bytes `base64_decoded_size` counts off the end:
      the run of them that ends the input. */
  function TrailingPads(d: Bytes): (p: nat)
    ensures p <= |d|
    ensures forall k | |d| - p <= k < |d| :: d[k] == PAD
    ensures p < |d| ==> d[|d| - 1 - p] != PAD
    decreases |d|
  {
    if |d| == 0 || d[|d| - 1] != PAD then 0 else 1 + TrailingPads(d[..|d| - 1])
  }

  /** Padding that ends a block is unaffected by what precedes the block. */
  lemma {:induction false} TrailingPadsAppend(a: Bytes, b: Bytes)
    requires TrailingPads(b) < |b|
    ensures TrailingPads(a + b) == TrailingPads(b)
    decreases |b|
  {
    if b[|b| - 1] == PAD {
      assert (a + b)[..|a + b| - 1] == a + b[..|b| - 1];
      TrailingPadsAppend(a, b[..|b| - 1]);
    }
  }

  /** `base64_decoded_size(encoded)` before the `usize` wrap: three bytes per
      whole group of four, less one per trailing `'='`. It is negative, that
      is it wraps, when the padding outnumbers the bytes. */
  function DecodedSize(d: Bytes): (size: int)
    ensures size <= |d| / 4 * 3
    ensures size < 0 <==> TrailingPads(d) > |d| / 4 * 3
  {
    |d| / 4 * 3 - TrailingPads(d)
  }

  /** The three bytes of a group as one number, `b0 << 16 | b1 << 8 | b2`. */
  function Pack(b0: byte, b1: byte, b2: byte): (v: nat)
    ensures v < 0x100_0000
  {
    b0 * 0x1_0000 + b1 * 256 + b2
  }

  /** The `(v >> 16) & 0xFF`, `(v >> 8) & 0xFF` and `v & 0xFF` of a packed
      group are its three bytes. */
  lemma Unpack(b0: byte, b1: byte, b2: byte)
    ensures Pack(b0, b1, b2) / 0x1_0000 % 256 == b0
    ensures Pack(b0, b1, b2) / 256 % 256 == b1
    ensures Pack(b0, b1, b2) % 256 == b2
  {
    var v := Pack(b0, b1, b2);
    assert v == b0 * 0x1_0000 + (b1 * 256 + b2);
    assert v / 0x1_0000 == b0;
    assert v == (b0 * 256 + b1) * 256 + b2;
    assert v / 256 == b0 * 256 + b1;
    assert (b0 * 256 + b1) % 256 == b1;
  }

  /** The byte at `k`, or 0 past the end: the source multiplies the byte it
      reads there by a false flag. */
  function Next(data: Bytes, k: nat): (b: byte)
    ensures k < |data| ==> b == data[k]
    ensures k >= |data| ==> b == 0
  {
    if k < |data| then data[k] else 0
  }

  /** The four digits one encoding pass writes for the packed value `v`:
      `(v >> 18) & 0x3F`, `(v >> 12) & 0x3F`, `(v >> 6) & 0x3F` and
      `v & 0x3F` looked up in `BASE64_DIGITS`, with `'='` in place of the
      third when one byte is left and of the fourth when one or two are. */
  function Digits(v: nat, notOneFromEnd: bool, notTwoFromEnd: bool): (quad: Bytes)
    ensures |quad| == 4
    ensures forall k | 0 <= k < 4 :: IsBase64Digit(quad[k])
    ensures quad[0] != PAD && quad[1] != PAD
    ensures quad[2] == PAD <==> !notOneFromEnd
    ensures quad[3] == PAD <==> !notTwoFromEnd
  {
    [BASE64_DIGITS[v / 0x4_0000 % 64], BASE64_DIGITS[v / 0x1000 % 64],
     if notOneFromEnd then BASE64_DIGITS[v / 64 % 64] else PAD,
     if notTwoFromEnd then BASE64_DIGITS[v % 64] else PAD]
  }

  /** One pass of the `base64_encode` loop at offset `i`: the bytes at `i`,
      `i + 1` and `i + 2`, a missing one counting as 0, packed and cut into
      four digits. */
  function EncodeGroup(data: Bytes, i: nat): (quad: Bytes)
    requires i < |data|
    ensures |quad| == 4
    ensures forall k | 0 <= k < 4 :: IsBase64Digit(quad[k])
    ensures quad[0] != PAD && quad[1] != PAD
    ensures quad[2] == PAD <==> i + 1 >= |data|
    ensures quad[3] == PAD <==> i + 2 >= |data|
  {
    Digits(Pack(data[i], Next(data, i + 1), Next(data, i + 2)), i + 1 < |data|, i + 2 < |data|)
  }

  /** The groups of the encoding loop from offset `i` on. */
  function EncodeFrom(data: Bytes, i: nat): (out: Bytes)
    ensures |out| == (if i < |data| then EncodedSize(|data| - i) else 0)
    ensures forall k | 0 <= k < |out| :: IsBase64Digit(out[k])
    decreases |data| - i
  {
    if i >= |data| then []
    else
      var group, rest := EncodeGroup(data, i), EncodeFrom(data, i + 3);
      EncodedSizeStep(|data| - i);
      DigitsConcat(group, rest);
      group + rest
  }

  /** Each group of the loop adds four digits for up to three bytes. */
  lemma EncodedSizeStep(n: nat)
    requires n > 0
    ensures EncodedSize(n) == 4 + (if n > 3 then EncodedSize(n - 3) else 0)
  {
    if n > 3 {
      assert (n - 3) % 3 == n % 3;
      var m := if n % 3 == 0 then n else n + (3 - n % 3);
      assert m / 3 == (m - 3) / 3 + 1;
    }
  }

  lemma DigitsConcat(a: Bytes, b: Bytes)
    requires forall k | 0 <= k < |a| :: IsBase64Digit(a[k])
    requires forall k | 0 <= k < |b| :: IsBase64Digit(b[k])
    ensures forall k | 0 <= k < |a + b| :: IsBase64Digit((a + b)[k])
  {
    forall k | 0 <= k < |a + b| ensures IsBase64Digit((a + b)[k]) {
      if k >= |a| {
        assert (a + b)[k] == b[k - |a|];
      }
    }
  }

  /** `base64_encode(data)`: `EncodedSize(len)` digits, and none for empty
      input. */
  function Encode(data: Bytes): (out: Bytes)
    ensures |out| == EncodedSize(|data|)
    ensures forall k | 0 <= k < |out| :: IsBase64Digit(out[k])
  {
    if |data| == 0 then [] else EncodeFrom(data, 0)
  }

  /** `BASE64_INVERSES[c - '+']` for a byte `is_base64_digit` accepts: the
      digit's value, or -1 for `'='`. */
  function InverseOf(c: byte): (x: int)
    requires IsBase64Digit(c)
    ensures -1 <= x < 64
    ensures x == -1 <==> c == PAD
  {
    InverseRows();
    BASE64_INVERSES[c - PLUS]
  }

  /** `v << 6 | x` in `u32`: the shift keeps the low 26 bits of `v`, and a
      negative `x` (the `i8` -1) converts to all ones. */
  function ShiftIn(v: u32, x: int): (r: u32)
    requires -1 <= x < 64
    ensures x >= 0 ==> r % 64 == x && r / 64 == v % 0x400_0000
    ensures x < 0 ==> r == U32_MODULUS - 1
  {
    if x < 0 then U32_MODULUS - 1 else v % 0x400_0000 * 64 + x
  }

  predicate IsQuad(q: Bytes)
  {
    |q| == 4 && forall k | 0 <= k < 4 :: IsBase64Digit(q[k])
  }

  /** The `u32` value one pass of the decoding loop accumulates from the
      four digits `q`; a `'='` in the third or fourth place adds 0. */
  function Accumulate(q: Bytes): (v: u32)
    requires IsQuad(q)
  {
    AccumulateValues(InverseOf(q[0]), InverseOf(q[1]),
                     if q[2] != PAD then InverseOf(q[2]) else 0,
                     if q[3] != PAD then InverseOf(q[3]) else 0)
  }

  /** `u32 v = x0`, then `v = v << 6 | x` for the other three. */
  function AccumulateValues(x0: int, x1: int, x2: int, x3: int): (v: u32)
    requires -1 <= x0 < 64 && -1 <= x1 < 64 && -1 <= x2 < 64 && -1 <= x3 < 64
  {
    ShiftIn(ShiftIn(ShiftIn(x0 % U32_MODULUS, x1), x2), x3)
  }

  /** The three output bytes of one pass: `(v >> 16) & 0xFF` always, the
      other two only when their digit is not `'='`. A byte the pass does not
      write keeps the zero that `emalloc` filled it with. */
  function DecodeGroup(q: Bytes): (r: Bytes)
    requires IsQuad(q)
    ensures |r| == 3
    ensures q[2] == PAD ==> r[1] == 0
    ensures q[3] == PAD ==> r[2] == 0
  {
    var v := Accumulate(q);
    [v / 0x1_0000 % 256, if q[2] != PAD then v / 256 % 256 else 0, if q[3] != PAD then v % 256 else 0]
  }

  predicate AllDigits(d: Bytes)
  {
    forall k | 0 <= k < |d| :: IsBase64Digit(d[k])
  }

  /** The passes of the decoding loop over whole groups of four. */
  function DecodeGroups(d: Bytes): (r: Bytes)
    requires |d| % 4 == 0 && AllDigits(d)
    ensures |r| == |d| / 4 * 3
    decreases |d|
  {
    if |d| == 0 then []
    else DecodeGroup(d[..4]) + DecodeGroups(d[4..])
  }

  /** Input whose groups are whole and whose padding is at most two digits:
      the shape for which the decoder stays inside its input and output. */
  predicate WellShaped(d: Bytes)
  {
    |d| % 4 == 0 && TrailingPads(d) <= 2
  }

  /** `base64_decode(data)`, with the shape check its index arithmetic needs
      (see `ReadAsWritten` and `WrittenAsWritten`): empty input, a byte that
      is not a digit, or a misshapen input gives the empty slice; otherwise
      `DecodedSize` bytes. */
  function Decode(d: Bytes): (r: Bytes)
    ensures AllDigits(d) && WellShaped(d) && |d| > 0 ==> 0 < |r| == DecodedSize(d)
    ensures !AllDigits(d) || !WellShaped(d) ==> r == []
    ensures |d| == 0 ==> r == []
  {
    if |d| == 0 then []
    else if !AllDigits(d) then []
    else if !WellShaped(d) then []
    else DecodeGroups(d)[..DecodedSize(d)]
  }

  /** The six-bit digits of a 24-bit value put back together. */
  lemma SextetsRecompose(v: nat)
    requires v < 0x100_0000
    ensures v == v / 0x4_0000 % 64 * 0x4_0000 + v / 0x1000 % 64 * 0x1000 + v / 64 % 64 * 64 + v % 64
  {
  }

  /** Decoding the four digits one encoding pass writes gives back the
      pass's bytes, with 0 for the missing ones. */
  lemma DecodeEncodeGroup(data: Bytes, i: nat)
    requires i < |data|
    ensures IsQuad(EncodeGroup(data, i))
    ensures DecodeGroup(EncodeGroup(data, i))
            == [data[i], if i + 1 < |data| then data[i + 1] else 0, if i + 2 < |data| then data[i + 2] else 0]
  {
    var b0, b1, b2 := data[i], Next(data, i + 1), Next(data, i + 2);
    var v := Pack(b0, b1, b2);
    PackLowSextets(b0, b1, b2);
    AccumulateDigits(v, i + 1 < |data|, i + 2 < |data|);
    Unpack(b0, b1, b2);
  }

  /** Missing bytes leave the low digits of a packed group zero. */
  lemma PackLowSextets(b0: byte, b1: byte, b2: byte)
    ensures b2 == 0 ==> Pack(b0, b1, b2) % 64 == 0
    ensures b1 == 0 && b2 == 0 ==> Pack(b0, b1, b2) / 64 % 64 == 0
  {
    var v := Pack(b0, b1, b2);
    if b2 == 0 {
      assert v == (b0 * 0x400 + b1 * 4) * 64;
      if b1 == 0 {
        assert v == (b0 * 64) * 64 * 16;
        assert v / 64 == b0 * 0x400;
        assert b0 * 0x400 == (b0 * 16) * 64;
      }
    }
  }

  /** Decoding the digits `Digits` writes for a 24-bit value accumulates the
      value again, as long as each digit replaced by `'='` was zero. */
  lemma AccumulateDigits(v: nat, notOneFromEnd: bool, notTwoFromEnd: bool)
    requires v < 0x100_0000
    requires !notOneFromEnd ==> v / 64 % 64 == 0
    requires !notTwoFromEnd ==> v % 64 == 0
    ensures IsQuad(Digits(v, notOneFromEnd, notTwoFromEnd))
    ensures Accumulate(Digits(v, notOneFromEnd, notTwoFromEnd)) == v
  {
    var s0, s1, s2, s3 := v / 0x4_0000 % 64, v / 0x1000 % 64, v / 64 % 64, v % 64;
    assert Digits(v, notOneFromEnd, notTwoFromEnd)
        == [DigitCode(s0), DigitCode(s1),
            if notOneFromEnd then DigitCode(s2) else PAD,
            if notTwoFromEnd then DigitCode(s3) else PAD];
    AccumulateSextets(s0, s1, s2, s3, notOneFromEnd, notTwoFromEnd);
    SextetsRecompose(v);
  }

  /** The decoding loop's accumulator over the digits of four six-bit
      values, a zero one possibly written as `'='`. */
  lemma AccumulateSextets(s0: nat, s1: nat, s2: nat, s3: nat, a: bool, b: bool)
    requires s0 < 64 && s1 < 64 && s2 < 64 && s3 < 64
    requires !a ==> s2 == 0
    requires !b ==> s3 == 0
    ensures var q := [DigitCode(s0), DigitCode(s1), if a then DigitCode(s2) else PAD, if b then DigitCode(s3) else PAD];
            IsQuad(q) && Accumulate(q) == s0 * 0x4_0000 + s1 * 0x1000 + s2 * 64 + s3
  {
    var q := [DigitCode(s0), DigitCode(s1), if a then DigitCode(s2) else PAD, if b then DigitCode(s3) else PAD];
    InverseOfDigit(s0);
    InverseOfDigit(s1);
    InverseOfDigit(s2);
    InverseOfDigit(s3);
    var x2 := if q[2] != PAD then InverseOf(q[2]) else 0;
    var x3 := if q[3] != PAD then InverseOf(q[3]) else 0;
    assert x2 == s2 && x3 == s3;
    AccumulateSmall(s0, s1, s2, s3);
  }

  lemma InverseOfDigit(s: nat)
    requires s < 64
    ensures InverseOf(DigitCode(s)) == s
  {
    InversesInvertDigits();
  }

  /** Six-bit values accumulate without wrapping. */
  lemma AccumulateSmall(s0: nat, s1: nat, s2: nat, s3: nat)
    requires s0 < 64 && s1 < 64 && s2 < 64 && s3 < 64
    ensures AccumulateValues(s0, s1, s2, s3) == s0 * 0x4_0000 + s1 * 0x1000 + s2 * 64 + s3
  {
    SmallMod(s0);
    ShiftInSmall(s0, s1);
    ShiftInSmall(s0 * 64 + s1, s2);
    ShiftInSmall(s0 * 0x1000 + s1 * 64 + s2, s3);
  }

  lemma SmallMod(s: nat)
    requires s < 64
    ensures s % U32_MODULUS == s
  {
  }

  /** Below 2^26 the `u32` shift loses nothing. */
  lemma ShiftInSmall(v: u32, x: int)
    requires v < 0x400_0000 && 0 <= x < 64
    ensures ShiftIn(v, x) == v * 64 + x
  {
  }

  function Zeros(k: nat): (r: Bytes)
    ensures |r| == k && forall j | 0 <= j < k :: r[j] == 0
  {
    seq(k, _ => 0)
  }

  /** The `'='` bytes padding the digits encoded from offset `i` on. */
  function PadsFor(n: nat, i: nat): (p: nat)
    requires i < n
    ensures p < 3
  {
    (3 - (n - i) % 3) % 3
  }

  /** Decoding the groups encoded from offset `i` gives back the bytes from
      `i` on, followed by one zero per `'='` of padding. */
  lemma {:induction false} DecodeEncodeFrom(data: Bytes, i: nat)
    requires i < |data|
    ensures |EncodeFrom(data, i)| % 4 == 0
    ensures DecodeGroups(EncodeFrom(data, i)) == data[i..] + Zeros(PadsFor(|data|, i))
    decreases |data| - i
  {
    var q := EncodeGroup(data, i);
    var rest := EncodeFrom(data, i + 3);
    assert EncodeFrom(data, i) == q + rest;
    if i + 3 >= |data| {
      assert q + rest == q;
      DecodeEncodeLast(data, i);
    } else {
      DecodeEncodeFrom(data, i + 3);
      DecodeEncodeGroup(data, i);
      PadsForStep(|data|, i);
      DecodeGroupsCons(q, rest);
      ThreeMore(data, i, Zeros(PadsFor(|data|, i)));
    }
  }

  /** Three bytes in front of the bytes after them. */
  lemma ThreeMore(data: Bytes, i: nat, z: Bytes)
    requires i + 3 <= |data|
    ensures [data[i], data[i + 1], data[i + 2]] + (data[i + 3..] + z) == data[i..] + z
  {
    assert data[i..] == [data[i], data[i + 1], data[i + 2]] + data[i + 3..];
  }

  lemma DecodeEncodeLast(data: Bytes, i: nat)
    requires i < |data| <= i + 3
    ensures |EncodeGroup(data, i)| % 4 == 0
    ensures DecodeGroups(EncodeGroup(data, i)) == data[i..] + Zeros(PadsFor(|data|, i))
  {
    var q := EncodeGroup(data, i);
    DecodeEncodeGroup(data, i);
    assert q[..4] == q && q[4..] == [];
    assert DecodeGroups(q) == DecodeGroup(q);
    PaddedTail(data, i);
  }

  /** The last one to three bytes with the zeros that pad them to three. */
  lemma PaddedTail(data: Bytes, i: nat)
    requires i < |data| <= i + 3
    ensures data[i..] + Zeros(PadsFor(|data|, i))
            == [data[i], if i + 1 < |data| then data[i + 1] else 0, if i + 2 < |data| then data[i + 2] else 0]
  {
    var left := |data| - i;
    if left == 1 {
      assert PadsFor(|data|, i) == 2;
      assert data[i..] + Zeros(2) == [data[i], 0, 0];
    } else if left == 2 {
      assert PadsFor(|data|, i) == 1;
      assert data[i..] + Zeros(1) == [data[i], data[i + 1], 0];
    } else {
      assert PadsFor(|data|, i) == 0;
      assert data[i..] + Zeros(0) == [data[i], data[i + 1], data[i + 2]];
    }
  }

  lemma DecodeGroupsCons(q: Bytes, rest: Bytes)
    requires IsQuad(q) && |rest| % 4 == 0 && AllDigits(rest)
    ensures |q + rest| % 4 == 0 && AllDigits(q + rest)
    ensures DecodeGroups(q + rest) == DecodeGroup(q) + DecodeGroups(rest)
  {
    assert (q + rest)[..4] == q && (q + rest)[4..] == rest;
  }

  /** The digits encoded from offset `i` on end in two `'='` when one byte
      is left over, one when two are, and none otherwise. */
  lemma {:induction false} EncodeFromPads(data: Bytes, i: nat)
    requires i < |data|
    ensures TrailingPads(EncodeFrom(data, i)) == PadsFor(|data|, i)
    decreases |data| - i
  {
    var q := EncodeGroup(data, i);
    var rest := EncodeFrom(data, i + 3);
    assert EncodeFrom(data, i) == q + rest;
    if i + 3 >= |data| {
      assert q + rest == q;
      QuadPads(data, i);
    } else {
      EncodeFromPads(data, i + 3);
      PadsForStep(|data|, i);
      assert |rest| >= 4;
      TrailingPadsAppend(q, rest);
    }
  }

  lemma PadsForStep(n: nat, i: nat)
    requires i + 3 < n
    ensures PadsFor(n, i + 3) == PadsFor(n, i)
  {
    assert n - i == (n - (i + 3)) + 3;
  }

  /** The padding of a final group: two `'='` after one byte, one after two,
      none after three. */
  lemma QuadPads(data: Bytes, i: nat)
    requires i < |data| <= i + 3
    ensures TrailingPads(EncodeGroup(data, i)) == PadsFor(|data|, i)
  {
    var q := EncodeGroup(data, i);
    assert q[..3][..2] == q[..2];
    if i + 1 >= |data| {
      assert TrailingPads(q[..2]) == 0;
      assert TrailingPads(q[..3]) == 1;
    } else if i + 2 >= |data| {
      assert TrailingPads(q[..3]) == 0;
    }
  }

  /** Decoding undoes encoding, for every byte string. */
  lemma DecodeEncode(data: Bytes)
    ensures Decode(Encode(data)) == data
  {
    if |data| > 0 {
      var e := Encode(data);
      DecodeEncodeFrom(data, 0);
      EncodeFromPads(data, 0);
      var p := TrailingPads(e);
      assert WellShaped(e);
      assert DecodedSize(e) == |data|;
      assert DecodeGroups(e)[..|data|] == (data + Zeros(p))[..|data|] == data;
    }
  }

  /** Whether the decoding loop reads input index `k`: it starts a group of
      four at every multiple of 4 below `len` and reads all four digits of
      it, whether or not they lie below `len`. */
  predicate ReadAsWritten(n: nat, k: nat)
  {
    k / 4 * 4 < n
  }

  /** When the length is not a multiple of 4 the last group is read past
      the end of the input; `"QQ"` is read at index 3. */
  lemma DecodeReadsPastEnd(n: nat)
    requires n % 4 != 0
    ensures ReadAsWritten(n, n / 4 * 4 + 3) && n / 4 * 4 + 3 >= n
    ensures ReadAsWritten(2, 3)
  {
  }

  /** Whether the decoding loop writes output index `w` for input `d`: the
      first byte of each group always, the second and third unless the
      group's third or fourth digit is `'='`. */
  predicate WrittenAsWritten(d: Bytes, w: nat)
    requires |d| % 4 == 0
  {
    w < |d| / 4 * 3 && (w % 3 == 0 || d[w / 3 * 4 + 1 + w % 3] != PAD)
  }

  /** The number of bytes the decoder allocates, `len + 1` in `usize`. */
  function AllocationAsWritten(d: Bytes): (bytes: u64)
    requires |d| < U64_MODULUS
    ensures DecodedSize(d) >= 0 ==> bytes == DecodedSize(d) + 1
  {
    (DecodedSize(d) + 1) % U64_MODULUS
  }

  /** With more than two `'='` the decoder writes past its allocation:
      `"AAAA===="` allocates 3 bytes and writes index 3, and `"===="`
      allocates none at all. */
  lemma DecodeOverrunsAsWritten()
    ensures var d: Bytes := [65, 65, 65, 65, 61, 61, 61, 61];
            AllDigits(d) && WrittenAsWritten(d, 3) && AllocationAsWritten(d) == 3
    ensures AllocationAsWritten([61, 61, 61, 61]) == 0
  {
    var d: Bytes := [65, 65, 65, 65, 61, 61, 61, 61];
    assert d[3] != PAD && d[4] == PAD;
    assert TrailingPads(d) == 4;
    var e: Bytes := [61, 61, 61, 61];
    assert e[0] == PAD;
    assert TrailingPads(e) == 4;
  }

  /** On the input `Decode` accepts, every read lies inside the input and
      every write lies below the size, so the terminating NUL survives. */
  lemma DecodeStaysInBounds(d: Bytes)
    requires WellShaped(d) && |d| > 0
    ensures forall k: nat | ReadAsWritten(|d|, k) :: k < |d|
    ensures forall w: nat | WrittenAsWritten(d, w) :: w < DecodedSize(d)
  {
    var g := |d| / 4;
    var p := TrailingPads(d);
    forall w: nat | WrittenAsWritten(d, w)
      ensures w < DecodedSize(d)
    {
      if w >= 3 * g - 3 {
        assert w / 3 == g - 1;
        if w % 3 == 1 {
          assert d[|d| - 2] != PAD;
          assert p <= 1;
        } else if w % 3 == 2 {
          assert d[|d| - 1] != PAD;
          assert p == 0;
        }
      }
    }
  }
}
