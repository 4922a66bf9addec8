/**
 The sized-wrapper macros of src/crelude/common.h: taking slices and views
 with `SLICE`/`VIEW`, building wrappers with `INIT`, `STRING`, `AMAKE`,
 `SEMPTY`/`AEMPTY`, `ACOLLECT`/`SCOLLECT`, and walking them with `FOR_EACH`.

 A slice (`sliceof(T)`) is its elements, `seq<T>`; a dynamic array is
 `Buffers.Array`. Pointers into shared storage become subsequences.
 */
module Views {
  import opened Common
  import Buffers
  import Strings

  /** The `len` that `SLICE(T, obj, start, end)` computes: a negative `end`
      counts from one past the end of `obj`, so `-1` means "through the end". */
  function SliceLength(objLen: nat, start: int, end: int): int
  {
    (if end < 0 then objLen + 1 else 0) + end - start
  }

  /** A `SLICE` that stays inside `obj`. */
  predicate SliceFits(objLen: nat, start: int, end: int)
  {
    0 <= start && 0 <= SliceLength(objLen, start, end) && start + SliceLength(objLen, start, end) <= objLen
  }

  /** `SLICE(T, obj, start, end)`: the elements of `obj` from `start` on,
      as many as `SliceLength` says. */
  function Slice<T>(obj: seq<T>, start: int, end: int): (r: seq<T>)
    requires SliceFits(|obj|, start, end)
    ensures |r| == SliceLength(|obj|, start, end)
    ensures forall i | 0 <= i < |r| :: r[i] == obj[start + i]
  {
    obj[start..start + SliceLength(|obj|, start, end)]
  }

  /** A non-negative `end` is exclusive. */
  lemma SliceNonNegative<T>(obj: seq<T>, start: nat, end: nat)
    requires start <= end <= |obj|
    ensures SliceFits(|obj|, start, end)
    ensures Slice(obj, start, end) == obj[start..end]
  {
  }

  /** A negative `end` of `-k` drops the last `k - 1` elements; `-1` keeps everything. */
  lemma SliceNegative<T>(obj: seq<T>, start: nat, k: nat)
    requires 1 <= k && start + k <= |obj| + 1
    ensures SliceFits(|obj|, start, -(k as int))
    ensures Slice(obj, start, -(k as int)) == obj[start..|obj| + 1 - k]
  {
  }

  lemma SliceToEnd<T>(obj: seq<T>, start: nat)
    requires start <= |obj|
    ensures SliceFits(|obj|, start, -1)
    ensures Slice(obj, start, -1) == obj[start..]
  {
  }

  /** Slicing a slice is slicing the original at the summed offsets. */
  lemma SliceOfSlice<T>(obj: seq<T>, a: nat, b: nat, c: nat, d: nat)
    requires a <= b <= |obj| && c <= d <= b - a
    ensures SliceFits(|obj|, a, b)
    ensures SliceFits(b - a, c, d)
    ensures SliceFits(|obj|, a + c, a + d)
    ensures Slice(Slice(obj, a, b), c, d) == Slice(obj, a + c, a + d)
  {
  }

  /** `VIEW(T, ptr, start, end)`: the same as `SLICE`, but `end` is always
      an exclusive, non-negative index. */
  function View<T>(storage: seq<T>, start: nat, end: nat): (r: seq<T>)
    requires start <= end <= |storage|
    ensures |r| == end - start
    ensures forall i | 0 <= i < |r| :: r[i] == storage[start + i]
  {
    storage[start..end]
  }

  /** Where both apply, `VIEW` and `SLICE` agree. */
  lemma ViewIsSlice<T>(storage: seq<T>, start: nat, end: nat)
    requires start <= end <= |storage|
    ensures SliceFits(|storage|, start, end)
    ensures View(storage, start, end) == Slice(storage, start, end)
  {
  }

  /** `INIT(T, {...})`: a slice of exactly the listed elements. */
  function Init<T>(elements: seq<T>): (r: seq<T>)
    ensures |r| == |elements|
    ensures forall i | 0 <= i < |r| :: r[i] == elements[i]
  {
    elements
  }

  /** `STRING(...)`/`STR(...)`: the initializer's bytes minus the last one,
      which for a string literal is its terminating NUL. */
  function StringOf(storage: seq<char>): (r: string)
    requires |storage| > 0
    ensures |r| == |storage| - 1
    ensures r + [storage[|storage| - 1]] == storage
  {
    storage[..|storage| - 1]
  }

  /** For a literal the counted string is the text without its NUL. */
  lemma StringOfLiteral(text: string)
    ensures StringOf(text + [NUL]) == text
  {
    assert (text + [NUL])[..|text|] == text;
  }

  /** `SEMPTY(T)`: the empty slice. */
  function SliceEmpty<T>(): (r: seq<T>)
    ensures |r| == 0
  {
    []
  }

  /** `AEMPTY(T)`: the empty array with no allocation. */
  function ArrayEmpty<T>(): (r: Buffers.Array<T>)
    ensures r.Valid() && |r.items| == 0 && r.cap == 0
  {
    Buffers.Array([], 0)
  }

  /** `IS_EMPTY(x)`. */
  predicate IsEmpty<T>(a: Buffers.Array<T>)
  {
    |a.items| == 0
  }

  /** `AMAKE(T, cap)`: an empty array with room for `cap` elements. */
  function Make<T>(cap: nat): (r: Buffers.Array<T>)
    ensures r.Valid() && IsEmpty(r) && r.cap == cap
  {
    Buffers.Array([], cap)
  }

  /** Pushing onto `AEMPTY` allocates exactly one slot; pushing onto an
      `AMAKE` array with room allocates nothing. */
  lemma PushOntoFreshArrays<T>(e: T, cap: nat)
    ensures var r := Buffers.Push(ArrayEmpty<T>(), Some(e), Buffers.REALLOC_FACTOR);
            r.buf.cap == 1 && r.growth == 1 && r.buf.items == [e]
    ensures cap > 0 ==>
            var r := Buffers.Push(Make<T>(cap), Some(e), Buffers.REALLOC_FACTOR);
            r.buf.cap == cap && r.growth == 0 && r.buf.items == [e]
  {
  }

  /** `ACOLLECT(T, count, pointer)`: the first `count` elements behind
      `pointer`, as a full array. */
  function ArrayCollect<T>(count: nat, storage: seq<T>): (r: Buffers.Array<T>)
    requires count <= |storage|
    ensures r.Valid() && |r.items| == count && r.cap == count
    ensures r.items == storage[..count]
  {
    Buffers.Array(storage[..count], count)
  }

  /** `SCOLLECT(T, count, pointer)`. */
  function SliceCollect<T>(count: nat, storage: seq<T>): (r: seq<T>)
    requires count <= |storage|
    ensures |r| == count
    ensures forall i | 0 <= i < count :: r[i] == storage[i]
  {
    storage[..count]
  }

  /** A collected array is full: the next push has to grow it. */
  lemma CollectedArrayIsFull<T>(count: nat, storage: seq<T>, e: T)
    requires count <= |storage|
    ensures Buffers.Push(ArrayCollect(count, storage), Some(e), Buffers.REALLOC_FACTOR).growth
            == count / 2 + 1
  {
    Buffers.ReallocFactorScale(count);
  }

  /** What a `FOR_EACH` body accumulates: `step` applied to each element in
      index order, starting from `init`. */
  function Visit<T, A>(step: (A, T) -> A, init: A, xs: seq<T>): A
  {
    if |xs| == 0 then init else step(Visit(step, init, xs[..|xs| - 1]), xs[|xs| - 1])
  }

  /** `FOR_EACH(x, xs) acc = step(acc, x)`: the element pointer starts at the
      first element and advances while its distance from the start is below
      `len`, so the body sees every element once, in index order. */
  method ForEach<T, A>(xs: seq<T>, init: A, step: (A, T) -> A) returns (acc: A)
    ensures acc == Visit(step, init, xs)
  {
    var offset: nat := 0;
    acc := init;
    while offset < |xs|
      invariant offset <= |xs|
      invariant acc == Visit(step, init, xs[..offset])
    {
      assert xs[..offset + 1][..offset] == xs[..offset];
      acc := step(acc, xs[offset]);
      offset := offset + 1;
    }
    assert xs[..offset] == xs;
  }

  /** A body that appends each element. */
  function Append<T>(seen: seq<T>, x: T): seq<T>
  {
    seen + [x]
  }

  /** A walk that records what it sees records every element once, in
      order. */
  lemma {:induction false} ForEachSeesEach<T>(xs: seq<T>)
    ensures Visit(Append, [], xs) == xs
    decreases |xs|
  {
    if |xs| > 0 {
      ForEachSeesEach(xs[..|xs| - 1]);
      assert xs[..|xs| - 1] + [xs[|xs| - 1]] == xs;
    }
  }

  /** The walk of `hash_bytes` (common.c:408-414): its body
      `hash += c + (hash << 5)` accumulates the `djb2` value modulo 2^64. */
  lemma {:induction false} ForEachHashes(mem: Strings.Bytes)
    ensures Visit(Strings.HashStep, 5381, mem) == Strings.Djb2(mem) % U64_MODULUS
    decreases |mem|
  {
    if |mem| > 0 {
      var init := mem[..|mem| - 1];
      ForEachHashes(init);
      Strings.HashStepIsMod(Strings.Djb2(init), mem[|mem| - 1]);
    }
  }
}
