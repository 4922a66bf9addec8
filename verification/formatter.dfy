/**
 The `printf`-style conversion specification reader of src/crelude/io.c:
 `parse_formatter` splits `%[flags][width][.precision][length]specifier`
 into its parts, and `formatter_string` puts them back together. The
 grammar is the conversion specification of section 7.21.6.1 of ISO/IEC
 9899:2011, with extra specifiers.

 The parser reads the text it is given as a C string: the caller hands it a
 view that runs to the format string's terminator, so a read past the
 counted characters sees `NUL` (`Common.At`).
 */
module Formats {
  import opened Common

  /** `FORMATTER_FLAGS`, in the order the parser tries them. */
  const FORMATTER_FLAGS: string := ['+', '-', ' ', '#', '0']
  /** `LENGTH_SUBSPECIFIERS`, in the order the parser tries them. */
  const LENGTH_SUBSPECIFIERS: string := ['h', 'l', 'j', 'z', 't', 'L']

  /** `struct Formatter`: the parts as slices of the input, the specifier
      byte, and how many bytes were consumed. */
  datatype Formatter = Formatter(
    flags: string,
    width: string,
    precision: string,
    length: string,
    specifier: char,
    offset: nat)

  /** `isdigit` in the C locale. */
  predicate IsDigit(c: char)
  {
    '0' <= c <= '9'
  }

  /** One pass of `foreach (ss, chars)` from index `i`: each character of
      `chars` in turn is compared with the current one, which is consumed
      on a match. */
  function ScanPass(s: string, i: nat, chars: string, k: nat): (j: nat)
    requires k <= |chars|
    ensures i <= j
    ensures forall m | i <= m < j :: At(s, m) in chars
    ensures j == i ==> At(s, i) !in chars[k..]
    decreases |chars| - k
  {
    if k == |chars| then i
    else ScanPass(s, if At(s, i) == chars[k] then i + 1 else i, chars, k + 1)
  }

  /** The `loop { ... unless (found) break; }` around a pass: passes repeat
      until one consumes nothing. */
  function ScanRun(s: string, i: nat, chars: string): (j: nat)
    requires NUL !in chars && i <= |s|
    ensures i <= j <= |s|
    ensures forall m | i <= m < j :: At(s, m) in chars
    ensures At(s, j) !in chars
    decreases |s| - i
  {
    var j := ScanPass(s, i, chars, 0);
    if j == i then i
    else
      assert At(s, j - 1) in chars;
      ScanRun(s, j, chars)
  }

  /** `while (isdigit(formatter.value[i])) ++i;` */
  function DigitRun(s: string, i: nat): (j: nat)
    requires i <= |s|
    ensures i <= j <= |s|
    ensures forall m | i <= m < j :: IsDigit(At(s, m))
    ensures !IsDigit(At(s, j))
    decreases |s| - i
  {
    if IsDigit(At(s, i)) then DigitRun(s, i + 1) else i
  }

  /** A width or a precision's count: one `'*'`, or a run of digits. */
  function StarOrDigits(s: string, i: nat): (j: nat)
    requires i <= |s|
    ensures i <= j <= |s|
  {
    if At(s, i) == '*' then i + 1 else DigitRun(s, i)
  }

  /** 1 when the text starts with the optional `'%'`. */
  function Start(s: string): (start: nat)
    ensures start <= |s|
  {
    if At(s, 0) == '%' then 1 else 0
  }

  /** `s[i..j]` is the longest run of characters from `chars` at `i`. */
  predicate RunAt(s: string, i: nat, j: nat, chars: string)
  {
    i <= j <= |s| && (forall m | i <= m < j :: At(s, m) in chars) && At(s, j) !in chars
  }

  /** `s[i..j]` is what a width or a count reads at `i`: `"*"` if that is
      the next character, and otherwise the longest run of digits there. */
  predicate CountAt(s: string, i: nat, j: nat)
  {
    i <= j <= |s| &&
    (At(s, i) == '*' ==> j == i + 1) &&
    (At(s, i) != '*' ==> (forall m | i <= m < j :: IsDigit(At(s, m))) && !IsDigit(At(s, j)))
  }

  /** `s[i..j]` is what the precision reads at `i`: nothing without a `'.'`,
      and otherwise the `'.'` itself followed by a count. */
  predicate PrecisionAt(s: string, i: nat, j: nat)
  {
    if At(s, i) == '.' then i < |s| && CountAt(s, i + 1, j) else j == i
  }

  /** The end of the flags: the longest run of `FORMATTER_FLAGS`. */
  function FlagsEnd(s: string, i: nat): (j: nat)
    requires i <= |s|
    ensures RunAt(s, i, j, FORMATTER_FLAGS)
  {
    ScanRun(s, i, FORMATTER_FLAGS)
  }

  /** The end of the length: the longest run of `LENGTH_SUBSPECIFIERS`. */
  function LengthEnd(s: string, i: nat): (j: nat)
    requires i <= |s|
    ensures RunAt(s, i, j, LENGTH_SUBSPECIFIERS)
  {
    ScanRun(s, i, LENGTH_SUBSPECIFIERS)
  }

  /** The end of the width. */
  function WidthEnd(s: string, i: nat): (j: nat)
    requires i <= |s|
    ensures CountAt(s, i, j)
  {
    StarOrDigits(s, i)
  }

  /** The end of the precision, its `'.'` included. */
  function PrecisionEnd(s: string, i: nat): (j: nat)
    requires i <= |s|
    ensures PrecisionAt(s, i, j)
  {
    if At(s, i) == '.' then WidthEnd(s, i + 1) else i
  }

  /** Where the flags (`a`), the width (`b`), the precision (`c`) and the
      length (`d`) end; the specifier is the character at `d`. */
  datatype Bounds = Bounds(a: nat, b: nat, c: nat, d: nat)

  /** The index arithmetic of `parse_formatter`: each part starts where the
      previous one ended and runs as far as its grammar allows. */
  function ParseBounds(s: string): (e: Bounds)
    ensures RunAt(s, Start(s), e.a, FORMATTER_FLAGS)
    ensures CountAt(s, e.a, e.b)
    ensures PrecisionAt(s, e.b, e.c)
    ensures RunAt(s, e.c, e.d, LENGTH_SUBSPECIFIERS)
  {
    var a := FlagsEnd(s, Start(s));
    var b := WidthEnd(s, a);
    var c := PrecisionEnd(s, b);
    var d := LengthEnd(s, c);
    Bounds(a, b, c, d)
  }

  /** `parse_formatter(formatter)`: skip an optional `'%'`, then take the
      flags, the width, the precision (its `'.'` included), the length and
      the one specifier byte, each immediately after the last. */
  function Parse(s: string): (f: Formatter)
  {
    var e := ParseBounds(s);
    Formatter(s[Start(s)..e.a], s[e.a..e.b], s[e.b..e.c], s[e.c..e.d], At(s, e.d), e.d + 1)
  }

  /** Slices at consecutive indices, with the character after them, spell
      the text up to there. */
  lemma PartsSpell(s: string, start: nat, a: nat, b: nat, c: nat, d: nat)
    requires start <= a <= b <= c <= d <= |s|
    ensures Text(s, d + 1) == s[..start] + (s[start..a] + s[a..b] + s[b..c] + s[c..d] + [At(s, d)])
  {
    PrefixSplit(s, start, a);
    PrefixSplit(s, a, b);
    PrefixSplit(s, b, c);
    PrefixSplit(s, c, d);
    assert Text(s, d + 1) == s[..d] + [At(s, d)];
    var p0, p1, p2, p3, p4, z := s[..start], s[start..a], s[a..b], s[b..c], s[c..d], [At(s, d)];
    assert p0 + p1 + p2 + p3 + p4 + z == p0 + (p1 + p2 + p3 + p4 + z);
  }

  lemma PrefixSplit(s: string, i: nat, j: nat)
    requires i <= j <= |s|
    ensures s[..j] == s[..i] + s[i..j]
  {
  }

  /** The first `n` characters the parser can read: the text, then `NUL`s. */
  function Text(s: string, n: nat): (t: string)
    ensures |t| == n
    ensures forall j | 0 <= j < n :: t[j] == At(s, j)
  {
    seq(n, (j: int) requires 0 <= j => At(s, j))
  }

  /** The parts of a formatter after its `'%'`, in print order. */
  function Parts(f: Formatter): string
  {
    f.flags + f.width + f.precision + f.length + [f.specifier]
  }

  /** `formatter_string(formatter)` as written: `'%'`, flags and width, then
      a `'.'` and the precision when the precision is not empty, then the
      length and the specifier. Since the stored precision already starts
      with its `'.'`, that `'.'` appears twice. The NUL pushed after the
      specifier is cut off again by the final `SLICE`. */
  function FormatterString(f: Formatter): (r: string)
    ensures f.precision == [] ==> r == ['%'] + Parts(f)
    ensures f.precision != [] ==> |r| == 2 + |Parts(f)|
  {
    ['%'] + f.flags + f.width + (if f.precision == [] then [] else ['.'] + f.precision)
      + f.length + [f.specifier]
  }

  /** `formatter_string` with the precision appended as stored. */
  function FormatterStringCorrected(f: Formatter): (r: string)
  {
    ['%'] + f.flags + f.width + f.precision + f.length + [f.specifier]
  }

  /** The parts the parser returns spell out, in order, what it consumed. */
  lemma ParseConsumes(s: string)
    ensures var f := Parse(s);
            Text(s, f.offset) == s[..Start(s)] + Parts(f)
  {
    var e := ParseBounds(s);
    PartsSpell(s, Start(s), e.a, e.b, e.c, e.d);
  }

  /** Each part is the longest run the grammar allows where the previous
      part ended. */
  lemma ParseParts(s: string)
    ensures var f := Parse(s);
            var a := Start(s) + |f.flags|;
            var b := a + |f.width|;
            var c := b + |f.precision|;
            var d := c + |f.length|;
            RunAt(s, Start(s), a, FORMATTER_FLAGS) && CountAt(s, a, b) && PrecisionAt(s, b, c)
            && RunAt(s, c, d, LENGTH_SUBSPECIFIERS) && f.offset == d + 1 && f.specifier == At(s, d)
  {
    PartsAtBounds(s, Parse(s), ParseBounds(s));
  }

  /** The parts read at grammatical bounds are as long as the bounds say. */
  lemma PartsAtBounds(s: string, f: Formatter, e: Bounds)
    requires RunAt(s, Start(s), e.a, FORMATTER_FLAGS) && CountAt(s, e.a, e.b)
    requires PrecisionAt(s, e.b, e.c) && RunAt(s, e.c, e.d, LENGTH_SUBSPECIFIERS)
    requires f == Formatter(s[Start(s)..e.a], s[e.a..e.b], s[e.b..e.c], s[e.c..e.d], At(s, e.d), e.d + 1)
    ensures var a := Start(s) + |f.flags|;
            var b := a + |f.width|;
            var c := b + |f.precision|;
            var d := c + |f.length|;
            RunAt(s, Start(s), a, FORMATTER_FLAGS) && CountAt(s, a, b) && PrecisionAt(s, b, c)
            && RunAt(s, c, d, LENGTH_SUBSPECIFIERS) && f.offset == d + 1 && f.specifier == At(s, d)
  {
    assert Start(s) + |f.flags| == e.a;
    assert e.a + |f.width| == e.b;
    assert e.b + |f.precision| == e.c;
    assert e.c + |f.length| == e.d;
  }

  /** Parsing then printing with the corrected printer gives back exactly
      the consumed text, with a `'%'` in front when the input had none. */
  lemma PrintParseCorrected(s: string)
    ensures var f := Parse(s);
            FormatterStringCorrected(f) == (if Start(s) == 1 then Text(s, f.offset) else ['%'] + Text(s, f.offset))
  {
    var f := Parse(s);
    ParseConsumes(s);
    CorrectedFromConsumed(s, f, Text(s, f.offset));
  }

  lemma CorrectedFromConsumed(s: string, f: Formatter, t: string)
    requires t == s[..Start(s)] + Parts(f)
    ensures FormatterStringCorrected(f) == if Start(s) == 1 then t else ['%'] + t
  {
    if Start(s) == 1 {
      assert s[..1] == ['%'];
    } else {
      assert s[..0] == [];
    }
  }

  /** As written, parsing then printing gives back the consumed text, with a
      `'%'` in front when the input had none, exactly when the precision is
      empty. The callers in `io.c` pass the text after the `'%'`. */
  lemma PrintParseAsWritten(s: string)
    ensures var f := Parse(s);
            var reprinted := (if Start(s) == 1 then [] else ['%']) + Text(s, f.offset);
            FormatterString(f) == reprinted <==> f.precision == []
  {
    PrintParseCorrected(s);
  }

  /** `"%.2f"` is printed back as `"%..2f"`. */
  lemma PrecisionDotDoubled(s: string)
    requires s == "%.2f"
    ensures Parse(s) == Formatter([], [], ['.', '2'], [], 'f', 4)
    ensures FormatterString(Parse(s)) == "%..2f"
  {
    var e := ParseBounds(s);
    DotTwoBounds(s, e);
    DotDoubled();
  }

  /** The printer as written puts a second `'.'` before a stored precision. */
  lemma DotDoubled()
    ensures FormatterString(Formatter([], [], ['.', '2'], [], 'f', 4)) == "%..2f"
  {
  }

  /** Where the parts of `"%.2f"` end. */
  lemma DotTwoBounds(s: string, e: Bounds)
    requires s == "%.2f"
    requires RunAt(s, Start(s), e.a, FORMATTER_FLAGS) && CountAt(s, e.a, e.b)
    requires PrecisionAt(s, e.b, e.c) && RunAt(s, e.c, e.d, LENGTH_SUBSPECIFIERS)
    ensures Start(s) == 1 && e == Bounds(1, 1, 3, 3)
    ensures s[1..1] == [] && s[1..3] == ['.', '2'] && s[3..3] == []
  {
    assert At(s, 0) == '%' && At(s, 1) == '.' && At(s, 2) == '2' && At(s, 3) == 'f' && At(s, 4) == NUL;
    assert e.a == 1;
    assert e.b == 1;
    assert IsDigit(At(s, 2)) && !IsDigit(At(s, 3));
    assert e.c == 3;
    assert e.d == 3;
  }
}
