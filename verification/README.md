# crelude core, modelled in Dafny

A model of the sequential core of crelude, a small C support library. Seven
pieces are covered:

- the type-erased dynamic array engine, with its in-place rotation (`memswap`,
  `swap_blocks`, `swap`, `cut`);
- the sized-wrapper macros of `common.h` (`SLICE`, `VIEW`, the constructors,
  `FOR_EACH`);
- the string helpers the hash map uses (`string_eq`, `string_cmp`, the `djb2`
  `hash_bytes`);
- the chained hash map (`associate` with its rehash, `lookup`, `drop`,
  `get_keys`, `has_key`, `empty_map`, `is_empty_map`);
- the Base64 codec of section 4 of RFC 4648 (`base64.c`, `base64.h`);
- the `printf` conversion-specification reader and printer of `io.c`, whose
  grammar is that of section 7.21.6.1 of ISO/IEC 9899:2011 with extra
  specifiers;
- the command-line option parser of `argparse.c`.

Each C component is one module in its own file:

| file | module | models |
|---|---|---|
| `common.dfy` | `Common` | optional values, `byte`/`u32`/`u64`, reading a C string past its counted part |
| `rotation.dfy` | `Rotation` | `memswap`, `swap_blocks` |
| `buffers.dfy` | `Buffers` | `grow`, `resize`, `push`, `insert`, `extend`, `splice`, `pop`, `swap`, `shift`, `cut`, `get`, `set` |
| `views.dfy` | `Views` | `SLICE`, `VIEW`, `INIT`, `STRING`, `SEMPTY`, `AEMPTY`, `IS_EMPTY`, `AMAKE`, `ACOLLECT`, `SCOLLECT`, `FOR_EACH` |
| `strings.dfy` | `Strings` | `string_eq`, `string_cmp`, `hash_bytes` |
| `hashmap.dfy` | `HashMaps` | the hash map |
| `base64.dfy` | `Base64` | the codec and its tables |
| `formatter.dfy` | `Formats` | `parse_formatter`, `formatter_string` |
| `argparse.dfy` | `ArgParsing` | `arginit`, `argreg`, `argparse`, `argparseall_c` |

Representation choices:

- **Arrays.** An array is `Array(items, cap)`: its live elements and its
  capacity. The element width disappears, and one "byte" of the rotation code
  is one element.
- **Hash map.** A map is a sequence of buckets. Bucket `i` is the chain whose
  head sits in slot `i`, followed by its linked nodes. An unpopulated slot is
  an empty chain.
  - Entries carry the hash they were stored under.
  - The hasher is a parameter, and key equality is Dafny equality.
- **Constants that no modelled file defines** become parameters: `WORD_SIZE`,
  `ARRAY_REALLOC_FACTOR`, `HASHMAP_LOAD_THRESHOLD` and `HASHMAP_GROWTH_FACTOR`.
  - `REALLOC_FACTOR` of `common.h:41` is 1.5 and is the default factor.
  - The two hash-map ratios default to 0.85 and 2.
- **Formatter text.** The formatter reads its text as a C string. A read past
  the counted characters sees `NUL`.
- **Option-parser strings.** The parser's strings are the characters before
  their terminator.

Where the code and its own documentation disagree, the model follows the
code:

- **Precision.** The field comment at `io.c:78` says the stored precision has
  no `'.'`, but `parse_formatter` keeps the `'.'` (`io.c:130-136`).
- **`foreach`.** The `FOR_EACH` macro in `common.h:388-393` hands out element
  pointers and no iteration record. Its uses treat it as handing out element
  values, some with an `it` record: `common.c:377-378`, `common.c:411-412`
  (`hash_bytes` adds each element to the hash), `argparse.c:101-112`,
  `io.c:114-115` and `base64.c:62` (each element goes to
  `is_base64_digit`). The model follows the uses everywhere: each use sees
  the element values, in index order.

## Model

| member | source | states |
|---|---|---|
| Rotation.MemSwapAsWritten | src/crelude/common.c:104-122 | `memswap` with the word loop bounded by the word count, as written; keeps both lengths |
| Rotation.MemSwapAsWrittenMissesLastWord | src/crelude/common.c:106-121 | when both blocks hold at least two words of at least two bytes, the last byte of the last whole word is left in place, so the blocks are not exchanged |
| Rotation.MemSwapAsWrittenCounterexample | src/crelude/common.c:110 | on two 4-byte blocks with 2-byte words, the source exchanges only the first word, while the corrected loop exchanges everything |
| Rotation.MemSwap | src/crelude/common.c:104-122 | `memswap` with the loop running over all whole words below `trail`, then the left-over bytes |
| Rotation.MemSwapExchanges | src/crelude/common.c:104-122 | the corrected `memswap` returns the two blocks exchanged, for every word size |
| Rotation.WordLoopExchanges | src/crelude/common.c:109-115 | the word loop run to the end leaves every chunk before `words * w` exchanged and the tail untouched |
| Rotation.ByteLoopExchanges | src/crelude/common.c:116-121 | the byte loop exchanges exactly positions `i .. n - 1` and nothing else |
| Rotation.ExchangeIsMemSwap | src/crelude/common.c:104-122 | exchanging two non-overlapping blocks of one region is `memswap` of the two blocks written back in place |
| Rotation.SwapBlocks | src/crelude/common.c:124-178 | over the corrected `memswap` of the `common.c:110` row, the Gries-Mills block exchange rotates the block: the part after the pivot comes first, then the part before it |
| Rotation.SwapBlocksInverse | src/crelude/common.c:124-178 | over the corrected `memswap`, rotating by `p` and then by `n - p` gives back the original block |
| Buffers.ReallocFactorScale | src/crelude/common.h:41 | truncating `cap * 1.5` equals `cap + cap / 2` |
| Buffers.Grow | src/crelude/common.c:208-221 | the new capacity always leaves room for `count` more elements, never shrinks, and stays the same exactly when `len + count` already fits |
| Buffers.GrowByHalf | src/crelude/common.c:213-216 | with the default factor, an array that needs room grows to `cap + cap / 2 + count` |
| Buffers.Resize | src/crelude/common.c:189-206 | the capacity becomes exactly `cap`, the contents are kept, and the result is the spare room `cap - len` |
| Buffers.Push | src/crelude/common.c:240-250 | a nil element leaves the array alone and reports no growth; otherwise the element is appended after the old contents, the capacity never shrinks, and the result is the capacity increase |
| Buffers.Insert | src/crelude/common.c:252-269 | a nil element changes nothing; otherwise the result is the old prefix, the element at `index`, then the old suffix |
| Buffers.Extend | src/crelude/common.c:271-285 | a nil or empty slice changes nothing; otherwise the slice is appended after the old contents |
| Buffers.Splice | src/crelude/common.c:287-306 | a nil or empty slice changes nothing; otherwise the result is the old prefix, the slice, then the old suffix |
| Buffers.InsertAtEndIsPush | src/crelude/common.c:240-269 | inserting at `len` is pushing |
| Buffers.SpliceAtEndIsExtend | src/crelude/common.c:271-306 | splicing at `len` is extending |
| Buffers.SpliceOneIsInsert | src/crelude/common.c:252-306 | splicing a one-element slice is inserting that element |
| Buffers.Pop | src/crelude/common.c:341-346 | the last element is returned, and what remains followed by it is the old contents; the capacity is kept |
| Buffers.PopAfterPush | src/crelude/common.c:240-346 | popping right after a push returns the pushed element and the old contents |
| Buffers.Swap | src/crelude/common.c:180-187 | over the corrected `memswap`, the contents become `old[p..] + old[..p]`; the capacity is kept |
| Buffers.SwapInverse | src/crelude/common.c:180-187 | over the corrected `memswap`, `swap(n - p)` after `swap(p)` restores the array |
| Buffers.Shift | src/crelude/common.c:348-355 | over the corrected `memswap`, the first element is returned and the rest stays in its original order; the capacity is kept |
| Buffers.CutRange | src/crelude/common.c:313-321 | the two resolved ends come out ordered, `lo <= hi`, and both lie inside the array |
| Buffers.Cut | src/crelude/common.c:308-339 | over the corrected `memswap`, the contents become `old[..lo] + old[hi + 1..]`, `len` drops by `hi - lo + 1`, the capacity is kept, and the removed slice is `old[lo..hi]` in order |
| Buffers.CutThenSpliceRestores | src/crelude/common.c:287-339 | over the corrected `memswap`, splicing the removed slice back at `lo` restores the original contents |
| Buffers.SlotAsWritten | src/crelude/common.c:223-238 | `get`/`set` as written refuse only `index > len`, so the slot at `index == len` is handed out |
| Buffers.SlotAsWrittenCounterexample | src/crelude/common.c:226 | on a full one-element array, the slot handed out at `index == len` lies outside the allocation |
| Buffers.Get | src/crelude/common.c:223-229 | the corrected `get` of the `common.c:226` row: an element is returned exactly for `index < len`, and it is the stored one |
| Buffers.Set | src/crelude/common.c:231-238 | the corrected `set` of the `common.c:226` row: a write succeeds exactly for `index < len` with a non-nil element, and keeps the length and capacity |
| Buffers.GetAfterSet | src/crelude/common.c:223-238 | after a write, reading the written index gives the new element and every other index is unchanged |
| Views.Slice | src/crelude/common.h:321-325 | `SLICE` starts at `start`; its length is `end - start` for `end >= 0` and `len + 1 + end - start` otherwise |
| Views.SliceNonNegative | src/crelude/common.h:321-325 | a non-negative `end` is exclusive: the slice is `obj[start..end]` |
| Views.SliceNegative | src/crelude/common.h:321-325 | an `end` of `-k` drops the last `k - 1` elements |
| Views.SliceToEnd | src/crelude/common.h:321-325 | an `end` of `-1` runs through the last element |
| Views.SliceOfSlice | src/crelude/common.h:321-325 | slicing a slice is slicing the original at the summed offsets |
| Views.View | src/crelude/common.h:327-331 | `VIEW` has length `end - start` and starts at `start`, without negative-index handling |
| Views.ViewIsSlice | src/crelude/common.h:321-331 | where both apply, `VIEW` and `SLICE` agree |
| Views.StringOf | src/crelude/common.h:292-298 | `STRING` counts the initializer's bytes minus the final one |
| Views.StringOfLiteral | src/crelude/common.h:292-298 | for a literal, the counted string is the text without its `NUL` |
| Views.ArrayEmpty | src/crelude/common.h:302-303 | `AEMPTY` has length 0 and capacity 0 |
| Views.Make | src/crelude/common.h:308-313 | `AMAKE` is empty, with capacity `cap` |
| Views.PushOntoFreshArrays | src/crelude/common.c:208-250 | a push onto `AEMPTY` allocates exactly one slot; a push onto a non-empty `AMAKE` allocates nothing |
| Views.ArrayCollect | src/crelude/common.h:343-348 | `ACOLLECT` has `len = cap = count` and holds the first `count` elements |
| Views.SliceCollect | src/crelude/common.h:350-354 | `SCOLLECT` has `len = count` and holds the first `count` elements |
| Views.CollectedArrayIsFull | src/crelude/common.c:208-250 | the first push onto a collected array grows it by `count / 2 + 1` |
| Views.ForEach | src/crelude/common.h:388-393 | a `FOR_EACH` loop whose body folds each element into an accumulator ends with the body applied to every element once, in index order |
| Views.ForEachSeesEach | src/crelude/common.h:388-393 | a walk that records each element it sees records exactly the slice, in order |
| Views.ForEachHashes | src/crelude/common.c:408-414 | the `foreach` walk of `hash_bytes`, with `hash += c + (hash << 5)` as its body, ends with the `djb2` value modulo 2^64 |
| Strings.StringEq | src/crelude/common.c:370-381 | `string_eq` holds exactly when the two strings are equal |
| Strings.StringCmp | src/crelude/common.c:383-405 | `string_cmp` is the lexicographic comparison `Lex`, and its result fits the `i16` it returns |
| Strings.LexAntisymmetric | src/crelude/common.c:383-405 | swapping the arguments negates the result |
| Strings.LexIsStrCmp | src/tests.c:130 | on strings without `NUL`, `string_cmp` equals `strcmp` on their terminated copies |
| Strings.LexZeroIffEqual | src/crelude/common.c:383-405 | on strings without `NUL`, the result is 0 exactly when the strings are equal |
| Strings.LexNulSuffix | src/crelude/common.c:401-403 | a trailing `NUL` compares as equal: `"a\0"` against `"a"` gives 0 |
| Strings.LexLatino | src/tests.c:122-137 | `"Latino"` against `"Latina"` gives `'o' - 'a'`, and the two views cut before the last letter compare equal |
| Strings.HashBytes | src/crelude/common.c:407-415 | `hash_bytes` is the `djb2` value (5381, then `33 h + c` per byte) reduced modulo 2^64 |
| Strings.HashStepIsMod | src/crelude/common.c:412-413 | one wrapping `h += c + (h << 5)` step is `33 h + c` modulo 2^64 |
| Strings.Djb2Concat | src/crelude/common.c:407-415 | hashing a concatenation continues from the hash of its first part |
| HashMaps.Lookup | src/crelude/common.c:590-605 | a found value belongs to an entry with that key somewhere in the map |
| HashMaps.LookupIsFind | src/crelude/common.c:590-605 | in a valid map, looking in the key's bucket finds what a scan of all entries finds |
| HashMaps.KeyInItsBucket | src/crelude/common.c:446-450 | in a valid map, every entry sits in bucket `hash mod cap` |
| HashMaps.Redistribute | src/crelude/common.c:563-584 | repopulation yields exactly `n` buckets; where the entries go is stated by the three lemmas below |
| HashMaps.RedistributePlaces | src/crelude/common.c:565-584 | after repopulation, every entry sits in bucket `hash mod n` |
| HashMaps.RedistributeMultiset | src/crelude/common.c:565-584 | repopulation moves every entry exactly once: the multiset of entries is kept |
| HashMaps.RedistributeFind | src/crelude/common.c:565-584 | repopulation keeps each chain's order, so the first entry for a key stays first |
| HashMaps.Rehash | src/crelude/common.c:538-584 | the rehash keeps `len` and the multiset of entries, and puts each entry in bucket `hash mod n` |
| HashMaps.RehashPreserves | src/crelude/common.c:538-584 | rehashing a valid map gives a valid map with the same lookups |
| HashMaps.Place | src/crelude/common.c:497-529 | an existing key has only its value rewritten and `len` is unchanged; a new key goes to the tail of its chain and `len` grows by one; other buckets are untouched |
| HashMaps.PlaceFound | src/crelude/common.c:504-509 | rewriting an existing key's value keeps the map valid, makes the key look up the new value, and changes no other lookup |
| HashMaps.PlaceNew | src/crelude/common.c:513-529 | appending a new key keeps the map valid, makes the key look up its value, and changes no other lookup |
| HashMaps.PlacePreserves | src/crelude/common.c:492-529 | placing a pair keeps the map valid, makes the key look up the value, and leaves every other lookup alone |
| HashMaps.GrownCapacityExceeds | src/crelude/common.c:531-561 | an overloaded map always gets more buckets than it had, given a growth factor above 1 |
| HashMaps.Associate | src/crelude/common.c:492-588 | afterwards the key looks up the new value and every other lookup is unchanged; `len` grows exactly for a new key; the bucket count changes only for a new key and never shrinks |
| HashMaps.AssociateRehashes | src/crelude/common.c:531-533 | the rehash happens exactly when a new key brings the load factor to the threshold |
| HashMaps.Drop | src/crelude/common.c:607-652 | the result is true exactly when the key was present; an absent key leaves the map unchanged; a present one drops `len` by one; afterwards the key is absent, other lookups are unchanged, and every chain is the old one with the key filtered out, in order |
| HashMaps.DropFound | src/crelude/common.c:629-651 | unlinking the found entry keeps the map valid, removes the key, and changes no other lookup |
| HashMaps.DropMissing | src/crelude/common.c:624-627 | when the key is absent, filtering it out of every chain changes nothing |
| HashMaps.WithoutUnlinks | src/crelude/common.c:629-648 | with distinct keys, unlinking the one entry with the key is filtering the key out of the chain |
| HashMaps.DropAfterAssociate | src/crelude/common.c:607-652 | dropping a key right after associating it succeeds and leaves the length and lookups of dropping it from the original map |
| HashMaps.GetKeys | src/crelude/common.c:654-674 | the corrected collection of the `common.c:666` row: the keys come bucket by bucket and chain by chain; the closing assertion fails exactly when `len` does not count the entries; in a valid map there are `len` keys, pairwise distinct, and they are exactly the keys that look up something |
| HashMaps.GetKeysAsWrittenLosesKeys | src/crelude/common.c:654-674 | with the `arrayof`/`sliceof` layouts of `common.h:48-57`, `get_keys` of a valid map returns `len` all-zero keys, so every key that looks up something and is not the all-zero key is missing from the result |
| HashMaps.HasKey | src/crelude/common.c:676-690 | true exactly when some entry of some chain has the key; in a valid map it agrees with `lookup` |
| HashMaps.IsEmptyMap | src/crelude/common.c:710-721 | true exactly when the map holds no entries; in a valid map, exactly when `len` is 0 |
| HashMaps.EmptyMap | src/crelude/common.c:692-708 | the corrected `empty_map`: no entries, the same bucket count, and `len` 0 |
| HashMaps.EmptyMapClears | src/crelude/common.c:692-708 | the corrected clear gives a valid map in which no key looks up anything |
| HashMaps.EmptyMapAsWritten | src/crelude/common.c:692-708 | `empty_map` as written: the slots are cleared but `len` is kept |
| HashMaps.EmptyMapAsWrittenKeepsLen | src/crelude/common.c:692-708 | after the as-written clear of a non-empty map, `len` no longer counts the entries, so the map is not valid |
| Base64.DigitTable | src/crelude/base64.h:7-9 | 64 digits, then the terminating 0 that the literal's length includes |
| Base64.DigitsSpellAlphabet | src/crelude/base64.h:7-9 | the digit table holds the bytes of the alphabet text, and its length is 65 |
| Base64.DigitsDistinct | src/crelude/base64.h:7-9 | no two digits share a byte |
| Base64.InverseRows | src/crelude/base64.h:11-22 | the 80-entry inverse table agrees, entry by entry, with the digit value of byte `'+' + k` |
| Base64.InversesInvertDigits | src/crelude/base64.h:11-22 | the inverse of digit `i`'s byte is `i`, and every entry that is no digit is -1 |
| Base64.DecodeTable | src/crelude/base64.h:24-36 | `base64_decode_table` builds exactly `BASE64_INVERSES` |
| Base64.IsBase64DigitIff | src/crelude/base64.h:38-45 | `is_base64_digit` accepts exactly the alphabet and `'='` |
| Base64.EncodedSize | src/crelude/base64.c:5-14 | the size is a multiple of 4 and is `4 * ceil(n / 3)` |
| Base64.TrailingPads | src/crelude/base64.c:20-22 | the number of `'='` bytes ending the input, counting all of them |
| Base64.DecodedSize | src/crelude/base64.c:16-25 | at most `len / 4 * 3`, and below 0 exactly when there are more pads than that |
| Base64.Unpack | src/crelude/base64.c:84-88 | the three byte extractions recover the three packed bytes |
| Base64.EncodeGroup | src/crelude/base64.c:37-52 | four alphabet digits per group, the first two never `'='`, the third `'='` exactly after a lone byte, the fourth exactly after one or two bytes |
| Base64.Encode | src/crelude/base64.c:27-55 | the output has `EncodedSize(len)` bytes, all of them digits; empty input gives empty output |
| Base64.EncodeFromPads | src/crelude/base64.c:48-51 | the encoding ends in two `'='` after one final byte, one after two, and none otherwise |
| Base64.InverseOf | src/crelude/base64.c:73-82 | a digit's inverse is its value, and -1 exactly for `'='` |
| Base64.ShiftIn | src/crelude/base64.c:74-82 | `v << 6 \| x` in `u32` keeps the low 26 bits of `v`; a negative `x` gives all ones |
| Base64.DecodeGroup | src/crelude/base64.c:71-89 | three output bytes per group, with zero where the group is padded |
| Base64.Decode | src/crelude/base64.c:57-92 | the corrected decoder of the `base64.c` rows, which rejects misshapen input as `base64.h:58-59` documents: empty input, a non-digit or a misshapen input gives the empty slice; a well-shaped non-empty input gives `DecodedSize` bytes, at least one |
| Base64.DecodeEncodeGroup | src/crelude/base64.c:37-89 | decoding one encoded group gives back its bytes, with zeros for the missing ones |
| Base64.DecodeEncodeFrom | src/crelude/base64.c:37-89 | decoding the groups encoded from offset `i` gives back `data[i..]` followed by the padding zeros |
| Base64.DecodeEncode | src/crelude/base64.c:27-92 | decoding undoes encoding, for every byte string |
| Base64.DecodeReadsPastEnd | src/crelude/base64.c:71-82 | when the length is not a multiple of 4, the loop reads the last group past the end of the input |
| Base64.AllocationAsWritten | src/crelude/base64.c:66-69 | the decoder allocates `DecodedSize + 1` bytes, in `usize` |
| Base64.DecodeOverrunsAsWritten | src/crelude/base64.c:66-88 | `"AAAA===="` allocates 3 bytes and writes index 3; `"===="` allocates none |
| Base64.DecodeStaysInBounds | src/crelude/base64.c:66-89 | on input the corrected decoder accepts, every read lies inside the input and every write below the size |
| Formats.FlagsEnd | src/crelude/io.c:111-122 | the flags are the longest run of flag characters |
| Formats.WidthEnd | src/crelude/io.c:125-128 | the width is one `'*'`, or else the longest run of decimal digits |
| Formats.PrecisionEnd | src/crelude/io.c:130-136 | with a `'.'`, the precision is the `'.'` then one `'*'` or a digit run; without one it is empty |
| Formats.LengthEnd | src/crelude/io.c:138-149 | the length is the longest run of length characters |
| Formats.ParseBounds | src/crelude/io.c:106-152 | each part ends where the grammar says, starting where the previous one ended |
| Formats.ParseParts | src/crelude/io.c:106-162 | the parsed flags, width, precision and length are, in order, the longest runs the grammar allows; the specifier is the next byte, and the offset is just past it |
| Formats.ParseConsumes | src/crelude/io.c:106-162 | the optional `'%'` and the parts spell out exactly the consumed text |
| Formats.FormatterString | src/crelude/io.c:87-104 | `formatter_string` as written prints `'%'` and the parts when the precision is empty, and one byte more otherwise |
| Formats.PrintParseAsWritten | src/crelude/io.c:87-136 | for any text, as the callers at `io.c:178`, `249` and `255` pass it after the `'%'`: printing what was parsed reproduces the consumed text, with a `'%'` added when there was none, exactly when the precision is empty |
| Formats.PrecisionDotDoubled | src/crelude/io.c:94-97 | `"%.2f"` parses with the precision `".2"` and is printed back as `"%..2f"` |
| Formats.PrintParseCorrected | src/crelude/io.c:87-162 | with the corrected printer, printing what was parsed reproduces the consumed text, with a `'%'` added when there was none |
| ArgParsing.Code | src/crelude/argparse.h:10-16 | each result maps to its `ierr`, and only `ARGPARSE_OK` is 0 |
| ArgParsing.CString | src/crelude/common.c:365-368 | the characters before the first `NUL`: a prefix without `NUL`, followed by `NUL` when shorter |
| ArgParsing.IndexOf | src/crelude/argparse.c:69 | `strchr` finds the first occurrence of the character, or none |
| ArgParsing.ArgInit | src/crelude/argparse.c:7-16 | a fresh parser carries the magic, has no templates and empty indexes, awaits nothing, and has consumed nothing |
| ArgParsing.ArgReg | src/crelude/argparse.c:18-46 | registration panics exactly when the parser is not initialised; otherwise it appends one template whose id is the number registered before it, cut to 16 bits, and indexes the short form by its first character after one optional `'-'` and the long form by the text after an optional `"--"`, changing no other index entry |
| ArgParsing.ArgParse | src/crelude/argparse.c:53-139 | templates, indexes and magic never change; the count grows by one exactly on success; a failure leaves the parser unchanged; `ARGPARSE_UNEXPECTED` is returned exactly for a string not starting with `'-'` or `'+'` when nothing is awaited |
| ArgParsing.AwaitedValue | src/crelude/argparse.c:62-66 | an awaited value is recorded, switched on, for the awaited id, whatever the string starts with, and the awaiting state is cleared |
| ArgParsing.LongArgShape | src/crelude/argparse.c:67-72 | in `"--name[=value]"` the first `'='` is the one after the name, and the name and value are read back exactly |
| ArgParsing.LongValue | src/crelude/argparse.c:82-87 | `"--name=value"` for a value-taking option records the value, switched on |
| ArgParsing.LongAwaits | src/crelude/argparse.c:88-92 | `"--name"` for a value-taking option awaits the value and records nothing yet |
| ArgParsing.LongToggle | src/crelude/argparse.c:93-97 | `"--name"`, with or without a value, for a toggle records it on with an empty value |
| ArgParsing.LongUnknown | src/crelude/argparse.c:74-78 | an unregistered long name returns `ARGPARSE_UNKNOWN` and changes nothing |
| ArgParsing.ClusterToggles | src/crelude/argparse.c:98-131 | in `"-xyz"`/`"+xyz"` each toggle before the first unknown or misplaced option is recorded, off exactly after `'+'`; the result is OK, `ARGPARSE_UNKNOWN` or `ARGPARSE_INVALID` accordingly, and no other id changes |
| ArgParsing.ClusterValue | src/crelude/argparse.c:110-125 | a value-taking short option standing alone awaits its value; first in a longer cluster it takes the rest of the string as its value |
| ArgParsing.RegisteredLongValue | src/crelude/argparse.c:40-87 | after registering a value-taking long form, `"--name=value"` records the value under the returned id |
| ArgParsing.RegisteredShortToggle | src/crelude/argparse.c:36-131 | after registering a toggle's short form, giving it alone records it under the returned id, on after `'-'` and off after `'+'` |
| ArgParsing.ParseAll | src/crelude/argparse.c:141-149 | the templates and indexes never change and `ARGPARSE_EXPECTED_ARGUMENT` never comes back; on success the count grows by the number of strings, and on failure by fewer |
| ArgParsing.ParseAllStops | src/crelude/argparse.c:145-146 | once a prefix of the strings has failed, the strings after it are never parsed |
| ArgParsing.ArgParseAll | src/crelude/argparse.c:141-149 | the loop with its early exit computes `ParseAll`, and on success has counted every string |

## Left out

- Allocation, freeing and pointer identity are not modelled. This covers `emalloc`, `REALLOC`, `FREE` and `FREE_INSIDE`, and the node layout accessors.
  - The contents of spare capacity are not modelled either: the zero fill of `resize` and `AMAKE`, and the bytes `cut` leaves behind the new end.
- `INIT` and `SEMPTY` (`common.h:287-291`, `300-301`) only wrap the listed elements or none. `Views.Init` and `Views.SliceEmpty` are those identities, and no property beyond them is claimed.
- Views.Make: does not state that the `cap` allocated elements are zero-filled, because spare capacity has no contents in the model.
- Buffers.Resize: requires `len <= cap`. A resize below `len` would leave `len` pointing past the allocation, and the source never asks for one.
- Buffers.Insert: requires `index <= len`, which the source does not check (`common.c:261-264`); a larger index would move memory past the end.
- Buffers.Splice: requires `index <= len`, which the source does not check (`common.c:297-300`); a larger index would move memory past the end.
- Buffers.Cut: requires the resolved end to be below `len`, which the source asserts at `common.c:314`. It also requires `from < len`, which the source does not check; a larger `from` would rotate memory past the end.
- HashMaps.GetKeys: models the key collection `get_keys` evidently means, with `set` writing into the slice it is handed. With the `arrayof`/`sliceof` layouts of `common.h:48-57`, `set` reads the slice `ks` as an array and writes through the word after it (`common.c:233-236`, `657-666`); that case is the `common.c:666` row under Findings. This `common.h` is evidently not the header `common.c` was built against: its `FOR_EACH` has no `it` record, and `KEYS`, `SWAP` and `SHIFT` are not defined in it.
- Buffers.Swap: assumes `swap` is handed a slice, or an array whose first two fields it reads as one. With the layouts of `common.h:48-57`, an array handed to it, as `tests.c:154-160` appears to do through the undefined `SWAP`/`SHIFT` macros, would have its `cap` read as the data pointer (`common.c:182`).
- Buffers.Shift: assumes the same of `shift`, which reads its argument as a slice (`common.c:350`) before calling `swap`.
- Rotation.MemSwap: the word size `WORD_SIZE` is a parameter `w > 0`, because its definition is not part of this model.
- The pointer-equality shortcuts are not modelled: `string_eq` when both strings share storage, and the same-pointer branch of `string_cmp`. Strings are compared by value.
- Key-kind dispatch in `key_eq` (`strcmp`/`memcmp` by key kind) is not modelled. Keys are compared with Dafny equality, and the hasher is a function parameter.
- HashMaps.Associate: requires `hasher(k) != 0`, because a zero hash marks an empty slot in the source and an entry stored under it would be invisible.
- The floating-point load factor and the `CEIL` of the rehash are replaced by exact rational arithmetic on the `Params` ratios.
- The rehash frees `next` after advancing (`common.c:549-552`), so it frees the node about to be copied rather than the one just copied. The model only states that every entry is moved exactly once, since memory ownership is not modelled.
- HashMaps.Associate: assumes the bucket array's own `len` counter never makes `grow` resize the bucket array (`common.c:523`). Until the first rehash the counter counts the populated slots, so it cannot reach `cap` there. The rehash never updates it (`common.c:563-584`), while `drop` still decrements it when a slot empties (`common.c:634`), so afterwards it drifts and can wrap below 0. Once it does reach `cap`, `grow` resizes the bucket array without moving any entry (`common.c:213-216`), and `bucket_index` then reduces hashes by the new capacity (`common.c:449`), so keys stored earlier can stop being found. The model keeps the bucket count unchanged there.
- `is_empty_map` answers true for a map with no bucket storage at all (`common.c:713`). The model has no such map: every map has at least one bucket.
- `free_map` and `dump_hashmap` are not modelled, because they only free memory or print.
- `usize` overflow is not modelled: lengths, counts, capacities and `string_count` are unbounded. The exceptions are the `u64` hash, the `u32` decode accumulator, the `u16` option ids, and the `usize` decode allocation, where the wrap matters.
- The `NUL` byte that `base64_encode`, `base64_decode` and `formatter_string` write after their counted output is not modelled, since it lies outside the returned length.
- The Base64 encoder reads `data[i + 1]` and `data[i + 2]` past the end before multiplying them by 0 (`base64.c:42-43`). The model reads 0 there.
- The macros `NTH`, `PTR`, `EMPTY`, `GET`, `LOOKUP`, `ASSOCIATE`, `PUSH`, `ANEW`, `MNEW`, `mapof`, `record` and `string_ncmp` are not part of this model. They are given their evident meanings: indexing, the data pointer, the empty slice, map lookup and insertion, append, and a length-bounded comparison.
- Printing and I/O are not modelled: `panic`, the `put` family, and `novel_vsprintf` and the rest of the `printf` family.
- Formats.FormatterString: the buffer capacity `offset + 2` passed to `AMAKE` and the heap allocation are not modelled; only the printed text is.
- Formats.Parse: carries no postcondition of its own. Its properties are stated by `ParseBounds`, `ParseParts` and `ParseConsumes`.
- The error-message strings `argparse` builds with `sprint` are not modelled. Only the status is.
- ArgParsing.ArgParse: never returns `ARGPARSE_EXPECTED_ARGUMENT`. The source declares it but no path returns it, and the model states this.
- ArgParsing.ArgParse: requires `Valid(p)`, meaning every index entry names a registered template. `arginit` and `argreg` establish this, and `ArgReg` states that it is preserved.
- ArgParsing.ArgReg: a panic is the `None` result; `abort` itself is not modelled.
- `argparseall` behind `ENTRY_FUNCTION` and the `argparse_c` wrapper are not modelled separately. `ArgParseAll` takes the strings already converted from C strings.

## Findings

| source | as written | input that shows it | evidently intended | confidence | as-written member | corrected member |
|---|---|---|---|---|---|---|
| src/crelude/common.c:110 | the word loop runs while the byte offset `i` is below the word COUNT `words` | two 4-byte blocks with 2-byte words: only the first word is exchanged, and bytes 2-3 stay put | run while `i < trail`, so every whole word is exchanged | high; not executed | Rotation.MemSwapAsWrittenCounterexample | Rotation.MemSwapExchanges, Rotation.SwapBlocks, Rotation.SwapBlocksInverse, Buffers.Swap, Buffers.SwapInverse, Buffers.Shift, Buffers.Cut, Buffers.CutThenSpliceRestores |
| src/crelude/common.c:226 | `get`/`set` refuse only `index > len` | a full array `[7]` with capacity 1: `get(1)` hands out the slot past the allocation | refuse `index >= len` | high; not executed | Buffers.SlotAsWrittenCounterexample | Buffers.GetAfterSet, Buffers.Get, Buffers.Set |
| src/crelude/io.c:130-136 | the stored precision includes its `'.'`, and `formatter_string` prints another `'.'` before it (`io.c:94-97`) | `"%.2f"` is printed back as `"%..2f"` | store the precision without its `'.'`, as the field comment at `io.c:78` documents, or print the stored precision as it is; either prints `"%.2f"`, and the model corrects the printer | high; not executed | Formats.PrecisionDotDoubled | Formats.PrintParseCorrected |
| src/crelude/common.c:666 | `get_keys` hands its slice `ks` (laid out `{len, value}`) to `set`, which reads it as an array `{len, cap, value}` | a map holding one entry with a non-zero key: the key is copied through the word after `ks`, and the returned slice holds one all-zero key | `set` writes into the slice's own storage, so the slice holds the map's keys | medium, since this `common.h` is evidently not the header `common.c` was built against; not executed | HashMaps.GetKeysAsWrittenLosesKeys | HashMaps.GetKeys |
| src/crelude/common.c:692-708 | `empty_map` zeroes the slots but keeps `len` | a map with one entry: after `empty_map` its `len` is 1 with no entries, so `get_keys` fails its closing assertion | reset `len` to 0 | high; not executed | HashMaps.EmptyMapAsWrittenKeepsLen | HashMaps.EmptyMapClears |
| src/crelude/base64.c:71-82 | every group reads four digits, whether or not they lie within the input | `"QQ"`: the loop reads indices 2 and 3 of a 2-byte input | reject input whose length is not a multiple of 4 | high; not executed | Base64.DecodeReadsPastEnd | Base64.DecodeStaysInBounds, Base64.Decode |
| src/crelude/base64.c:66-88 | the output size subtracts every trailing `'='`, but a group writes its first byte regardless | `"AAAA===="` allocates 3 bytes and writes index 3; `"===="` allocates none at all | reject more than two `'='` | high; not executed | Base64.DecodeOverrunsAsWritten | Base64.DecodeStaysInBounds, Base64.Decode |
