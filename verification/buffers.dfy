/**
 The type-erased dynamic array engine (src/crelude/common.c:189-355):
 capacity bookkeeping (`grow`, `resize`), insertion (`push`, `insert`,
 `extend`, `splice`), removal (`pop`, `shift`, `cut`), rotation (`swap`)
 and element access (`get`, `set`).

 An array is its live elements plus its capacity. The bytes of spare
 capacity, and the element width, are not modelled.
 */
module Buffers {
  import opened Common
  import Rotation

  /** `arrayof(T)`: `len` is `|items|`. */
  datatype Array<T> = Array(items: seq<T>, cap: nat)
  {
    /** The invariant every operation keeps: live elements fit the allocation. */
    predicate Valid()
    {
      |items| <= cap
    }
  }

  /** `ARRAY_REALLOC_FACTOR` as the ratio `num / den`; it must be at least 1. */
  datatype Factor = Factor(num: nat, den: nat)
  {
    predicate Valid()
    {
      0 < den <= num
    }

    /** `(usize)(cap * ARRAY_REALLOC_FACTOR)`: the product, truncated. */
    function Scale(cap: nat): nat
      requires Valid()
    {
      cap * num / den
    }
  }

  /** `REALLOC_FACTOR` (common.h:41) is 1.5. */
  const REALLOC_FACTOR: Factor := Factor(3, 2)

  /** Truncating `cap * 1.5` is adding half the capacity, rounded down. */
  lemma ReallocFactorScale(cap: nat)
    ensures REALLOC_FACTOR.Scale(cap) == cap + cap / 2
  {
    assert cap * 3 == 2 * cap + cap;
  }

  lemma ScaleAtLeast(f: Factor, cap: nat)
    requires f.Valid()
    ensures cap <= f.Scale(cap)
  {
    var q := cap * f.num / f.den;
    var r := cap * f.num % f.den;
    assert cap * f.num == q * f.den + r;
    MulMono(f.den, f.num, cap);
    assert (q + 1) * f.den == q * f.den + f.den;
    MulMono(q + 1, cap, f.den);
  }

  /** The result of an operation that may reallocate: the new array and
      how much its capacity grew (the C functions' `usize` result). */
  datatype Grown<T> = Grown(buf: Array<T>, growth: nat)

  /** The capacity `grow(self, count, width)` leaves behind
      (common.c:208-221): unchanged when `count` more elements fit, and
      otherwise the scaled old capacity plus `count`. */
  function Grow<T>(a: Array<T>, count: nat, f: Factor): (cap: nat)
    requires a.Valid() && f.Valid()
    ensures |a.items| + count <= cap
    ensures a.cap <= cap
    ensures |a.items| + count <= a.cap <==> cap == a.cap
  {
    if |a.items| + count > a.cap then
      ScaleAtLeast(f, a.cap);
      f.Scale(a.cap) + count
    else
      a.cap
  }

  /** With the 1.5 factor, a full array grows to its capacity plus half of
      it, rounded down, plus the requested room. */
  lemma GrowByHalf<T>(a: Array<T>, count: nat)
    requires a.Valid() && |a.items| + count > a.cap
    ensures Grow(a, count, REALLOC_FACTOR) == a.cap + a.cap / 2 + count
  {
    ReallocFactorScale(a.cap);
  }

  /** `resize(self, cap, width)` (common.c:189-206): the capacity becomes
      exactly `cap`; the result is the spare room `cap - len`. */
  function Resize<T>(a: Array<T>, cap: nat): (r: (Array<T>, nat))
    requires |a.items| <= cap
    ensures r.0.Valid() && r.0.items == a.items && r.0.cap == cap
    ensures |r.0.items| + r.1 == cap
  {
    (Array(a.items, cap), cap - |a.items|)
  }

  /** `push(self, element, width)` (common.c:240-250). A nil element is ignored. */
  function Push<T>(a: Array<T>, element: Option<T>, f: Factor): (r: Grown<T>)
    requires a.Valid() && f.Valid()
    ensures r.buf.Valid() && a.cap <= r.buf.cap
    ensures r.growth == r.buf.cap - a.cap
    ensures element.None? ==> r == Grown(a, 0)
    ensures element.Some? ==> |r.buf.items| == |a.items| + 1 && r.buf.items[..|a.items|] == a.items
    ensures element.Some? ==> r.buf.items[|a.items|] == element.value
  {
    match element
    case None => Grown(a, 0)
    case Some(e) =>
      var cap := Grow(a, 1, f);
      Grown(Array(a.items + [e], cap), cap - a.cap)
  }

  /** `insert(self, index, element, width)` (common.c:252-269): grow by one,
      move the elements from `index` on one place up, write the element
      into the gap. */
  function Insert<T>(a: Array<T>, index: nat, element: Option<T>, f: Factor): (r: Grown<T>)
    requires a.Valid() && f.Valid() && index <= |a.items|
    ensures r.buf.Valid() && a.cap <= r.buf.cap
    ensures r.growth == r.buf.cap - a.cap
    ensures element.None? ==> r == Grown(a, 0)
    ensures element.Some? ==> |r.buf.items| == |a.items| + 1
    ensures element.Some? ==> r.buf.items[index] == element.value
    ensures element.Some? ==> r.buf.items[..index] == a.items[..index]
    ensures element.Some? ==> r.buf.items[index + 1..] == a.items[index..]
  {
    match element
    case None => Grown(a, 0)
    case Some(e) =>
      var cap := Grow(a, 1, f);
      Grown(Array(a.items[..index] + [e] + a.items[index..], cap), cap - a.cap)
  }

  /** `extend(self, slice, width)` (common.c:271-285). A nil or empty slice is ignored. */
  function Extend<T>(a: Array<T>, slice: Option<seq<T>>, f: Factor): (r: Grown<T>)
    requires a.Valid() && f.Valid()
    ensures r.buf.Valid() && a.cap <= r.buf.cap
    ensures r.growth == r.buf.cap - a.cap
    ensures (slice.None? || slice.value == []) ==> r == Grown(a, 0)
    ensures slice.Some? ==> r.buf.items == a.items + slice.value
  {
    match slice
    case None => Grown(a, 0)
    case Some(s) =>
      if |s| == 0 then Grown(a, 0)
      else
        var cap := Grow(a, |s|, f);
        Grown(Array(a.items + s, cap), cap - a.cap)
  }

  /** `splice(self, index, slice, width)` (common.c:287-306): grow by the
      slice's length, move the tail up, copy the slice into the gap. */
  function Splice<T>(a: Array<T>, index: nat, slice: Option<seq<T>>, f: Factor): (r: Grown<T>)
    requires a.Valid() && f.Valid() && index <= |a.items|
    ensures r.buf.Valid() && a.cap <= r.buf.cap
    ensures r.growth == r.buf.cap - a.cap
    ensures (slice.None? || slice.value == []) ==> r == Grown(a, 0)
    ensures slice.Some? ==> |r.buf.items| == |a.items| + |slice.value|
    ensures slice.Some? ==> r.buf.items[..index] == a.items[..index]
    ensures slice.Some? ==> r.buf.items[index..index + |slice.value|] == slice.value
    ensures slice.Some? ==> r.buf.items[index + |slice.value|..] == a.items[index..]
  {
    match slice
    case None => Grown(a, 0)
    case Some(s) =>
      if |s| == 0 then Grown(a, 0)
      else
        var cap := Grow(a, |s|, f);
        Grown(Array(a.items[..index] + s + a.items[index..], cap), cap - a.cap)
  }

  /** Inserting at the end is pushing. */
  lemma InsertAtEndIsPush<T>(a: Array<T>, e: T, f: Factor)
    requires a.Valid() && f.Valid()
    ensures Insert(a, |a.items|, Some(e), f) == Push(a, Some(e), f)
  {
    assert a.items[..|a.items|] + [e] + a.items[|a.items|..] == a.items + [e];
  }

  /** Splicing at the end is extending. */
  lemma SpliceAtEndIsExtend<T>(a: Array<T>, s: seq<T>, f: Factor)
    requires a.Valid() && f.Valid()
    ensures Splice(a, |a.items|, Some(s), f) == Extend(a, Some(s), f)
  {
    assert a.items[..|a.items|] + s + a.items[|a.items|..] == a.items + s;
  }

  /** Splicing a one-element slice is inserting that element. */
  lemma SpliceOneIsInsert<T>(a: Array<T>, index: nat, e: T, f: Factor)
    requires a.Valid() && f.Valid() && index <= |a.items|
    ensures Splice(a, index, Some([e]), f) == Insert(a, index, Some(e), f)
  {
  }

  /** `pop(self, width)` (common.c:341-346): the last element, and the array without it. */
  function Pop<T>(a: Array<T>): (r: (Array<T>, T))
    requires |a.items| > 0
    ensures r.0.items + [r.1] == a.items
    ensures r.0.cap == a.cap
  {
    (Array(a.items[..|a.items| - 1], a.cap), a.items[|a.items| - 1])
  }

  /** Popping what was just pushed gives it back and restores the contents. */
  lemma PopAfterPush<T>(a: Array<T>, e: T, f: Factor)
    requires a.Valid() && f.Valid()
    ensures var pushed := Push(a, Some(e), f).buf;
            Pop(pushed) == (Array(a.items, pushed.cap), e)
  {
    var pushed := Push(a, Some(e), f).buf;
    assert pushed.items[..|pushed.items| - 1] == a.items;
  }

  /** `swap(self, pivot, width)` (common.c:180-187): rotate the array so
      that the elements from `pivot` on come first. */
  function Swap<T>(a: Array<T>, pivot: nat): (r: Array<T>)
    requires pivot <= |a.items|
    ensures r.items == a.items[pivot..] + a.items[..pivot]
    ensures r.cap == a.cap
  {
    Array(Rotation.SwapBlocks(a.items, pivot), a.cap)
  }

  /** `swap(n - p)` undoes `swap(p)`. */
  lemma SwapInverse<T>(a: Array<T>, pivot: nat)
    requires pivot <= |a.items|
    ensures Swap(Swap(a, pivot), |a.items| - pivot) == a
  {
    Rotation.SwapBlocksInverse(a.items, pivot);
  }

  /** `shift(self, width)` (common.c:348-355): rotate the first element to
      the end, then pop it. */
  function Shift<T>(a: Array<T>): (r: (Array<T>, T))
    requires |a.items| > 0
    ensures r.1 == a.items[0]
    ensures r.0.items == a.items[1..]
    ensures r.0.cap == a.cap
  {
    Pop(Swap(a, 1))
  }

  /** The inclusive range `cut` removes, after resolving a negative `upto`
      against the length and ordering the two ends. */
  function CutRange(len: nat, from: nat, upto: int): (r: (nat, nat))
    requires CutAllowed(len, from, upto)
    ensures r.0 <= r.1 < len
  {
    var last := if upto < 0 then len + upto else upto;
    if from > last then (last, from) else (from, last)
  }

  /** What `cut` asserts (the resolved end lies inside the array), and the
      bound on `from` that it relies on without checking. */
  predicate CutAllowed(len: nat, from: nat, upto: int)
  {
    var last := if upto < 0 then len + upto else upto;
    0 <= last < len && from < len
  }

  /** `cut(self, from, upto, width)` (common.c:308-339): rotate the doomed
      range to the end of the tail and shorten the array over it. The
      removed elements are returned in their original order. */
  function Cut<T>(a: Array<T>, from: nat, upto: int): (r: (Array<T>, seq<T>))
    requires CutAllowed(|a.items|, from, upto)
    ensures var (lo, hi) := CutRange(|a.items|, from, upto);
            && r.0.items == a.items[..lo] + a.items[hi + 1..]
            && r.1 == a.items[lo..hi + 1]
            && |r.0.items| == |a.items| - (hi - lo + 1)
            && r.0.cap == a.cap
  {
    var (lo, hi) := CutRange(|a.items|, from, upto);
    var pivot := hi - lo + 1;
    var tail := Rotation.SwapBlocks(a.items[lo..], pivot);
    var kept := |tail| - pivot;
    assert tail[..kept] == a.items[hi + 1..];
    assert tail[kept..] == a.items[lo..hi + 1];
    (Array(a.items[..lo] + tail[..kept], a.cap), tail[kept..])
  }

  /** Splicing the removed range back where it was restores the contents. */
  lemma CutThenSpliceRestores<T>(a: Array<T>, from: nat, upto: int, f: Factor)
    requires a.Valid() && f.Valid() && CutAllowed(|a.items|, from, upto)
    ensures var (lo, _) := CutRange(|a.items|, from, upto);
            var (rest, removed) := Cut(a, from, upto);
            rest.Valid() && lo <= |rest.items| &&
            Splice(rest, lo, Some(removed), f).buf.items == a.items
  {
    var (lo, hi) := CutRange(|a.items|, from, upto);
    var (rest, removed) := Cut(a, from, upto);
    assert rest.items[..lo] == a.items[..lo];
    assert rest.items[lo..] == a.items[hi + 1..];
    var back := Splice(rest, lo, Some(removed), f).buf.items;
    ThreeParts(back, lo, |removed|);
    ThreeParts(a.items, lo, hi + 1 - lo);
  }

  /** A sequence is its prefix, a middle run and its suffix. */
  lemma ThreeParts<T>(s: seq<T>, i: nat, n: nat)
    requires i + n <= |s|
    ensures s == s[..i] + s[i..i + n] + s[i + n..]
  {
  }

  /** `get`/`set` as written (common.c:223-238) refuse only `index > len`:
      the slot at `index == len` is handed out too. */
  datatype Slot = Nil | Live(index: nat) | Spare(index: nat) | OutsideAllocation(index: nat)

  function SlotAsWritten<T>(a: Array<T>, index: nat): (r: Slot)
    requires a.Valid()
    ensures r.Nil? <==> index > |a.items|
  {
    if index > |a.items| then Nil
    else if index < |a.items| then Live(index)
    else if index < a.cap then Spare(index)
    else OutsideAllocation(index)
  }

  /** On a full array the slot `get`/`set` hand out at `index == len` lies
      past the allocation. */
  lemma SlotAsWrittenCounterexample()
    ensures Array([7], 1).Valid()
    ensures SlotAsWritten(Array([7], 1), 1) == OutsideAllocation(1)
  {
  }

  /** `get(self, index, width)` with the bound the callers need: only live elements. */
  function Get<T>(a: Array<T>, index: nat): (r: Option<T>)
    ensures r.Some? <==> index < |a.items|
    ensures r.Some? ==> r.value == a.items[index]
  {
    if index < |a.items| then Some(a.items[index]) else None
  }

  /** `set(self, index, elem, width)` with the same bound; nil elements are refused. */
  function Set<T>(a: Array<T>, index: nat, element: Option<T>): (r: Option<Array<T>>)
    ensures r.Some? <==> index < |a.items| && element.Some?
    ensures r.Some? ==> r.value.cap == a.cap && |r.value.items| == |a.items|
  {
    if index < |a.items| && element.Some? then Some(Array(a.items[index := element.value], a.cap))
    else None
  }

  /** The corrected accessors never reach past the live elements, and `get`
      reads back what `set` wrote while every other element stays. */
  lemma GetAfterSet<T>(a: Array<T>, index: nat, e: T, j: nat)
    requires index < |a.items| && j < |a.items|
    ensures Set(a, index, Some(e)).Some?
    ensures Get(Set(a, index, Some(e)).value, j) == if j == index then Some(e) else Get(a, j)
  {
  }
}
