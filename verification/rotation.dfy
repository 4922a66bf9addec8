/**
 The in-place block exchange behind `swap`, `shift` and `cut`
 (src/crelude/common.c:104-187).

 `memswap` exchanges two equal-length byte blocks, word-sized chunks
 first and the left-over bytes one at a time; `swap_blocks` rotates a
 block around a pivot by the Gries-Mills block exchange. Element width
 disappears: a block is a `seq<T>` and a "byte" is one element.
 */
module Rotation {
  import Common

  /* ---------------------------------------------------------------
     Arithmetic facts about whole words
     --------------------------------------------------------------- */

  /** A chunk that starts below the last whole word ends within it. */
  lemma ChunkFits(c: nat, words: nat, w: nat)
    requires c * w < words * w
    ensures (c + 1) * w <= words * w
  {
    if words <= c {
      Common.MulMono(words, c, w);
    }
    Common.MulMono(c + 1, words, w);
  }

  /** There are at least as many bytes in the whole words as there are words. */
  lemma WordsBelowTrail(words: nat, w: nat)
    requires w > 0
    ensures words <= words * w
  {
    Common.MulMono(1, w, words);
  }

  lemma TrailFits(n: nat, w: nat)
    requires w > 0
    ensures (n / w) * w <= n
  {
  }

  /* ---------------------------------------------------------------
     memswap
     --------------------------------------------------------------- */

  /** One swap of the chunk `[i, i + w)` between `a` and `b`. */
  function SwapChunk<T>(a: seq<T>, b: seq<T>, i: nat, w: nat): (r: (seq<T>, seq<T>))
    requires |a| == |b| && i + w <= |a|
    ensures |r.0| == |a| && |r.1| == |b|
  {
    (a[..i] + b[i..i + w] + a[i + w..], b[..i] + a[i..i + w] + b[i + w..])
  }

  /** The word loop of `memswap`: the chunk at byte offset `c * w` is
      exchanged, for `c = 0, 1, 2, …`, while that offset is below `bound`.
      The source runs it with `bound = words`, the number of whole words;
      the intent needs `bound = words * WORD_SIZE`. */
  function WordLoop<T>(a: seq<T>, b: seq<T>, c: nat, bound: nat, words: nat, w: nat): (r: (seq<T>, seq<T>))
    requires |a| == |b| && words * w <= |a| && bound <= words * w
    ensures |r.0| == |a| && |r.1| == |b|
    decreases bound - c * w
  {
    if c * w >= bound then (a, b)
    else
      ChunkFits(c, words, w);
      var (a', b') := SwapChunk(a, b, c * w, w);
      WordLoop(a', b', c + 1, bound, words, w)
  }

  /** The byte loop of `memswap`: positions `i .. n - 1` are exchanged one at a time. */
  function ByteLoop<T>(a: seq<T>, b: seq<T>, i: nat, n: nat): (r: (seq<T>, seq<T>))
    requires |a| == |b| && n <= |a|
    ensures |r.0| == |a| && |r.1| == |b|
    decreases n - i
  {
    if i >= n then (a, b)
    else ByteLoop(a[i := b[i]], b[i := a[i]], i + 1, n)
  }

  /** `memswap` as written (common.c:104-122): the word loop compares the
      byte offset `i` against the word COUNT `words`. */
  function MemSwapAsWritten<T>(a: seq<T>, b: seq<T>, w: nat): (r: (seq<T>, seq<T>))
    requires |a| == |b| && w > 0
    ensures |r.0| == |a| && |r.1| == |b|
  {
    var words := |a| / w;
    TrailFits(|a|, w);
    WordsBelowTrail(words, w);
    var (a', b') := WordLoop(a, b, 0, words, words, w);
    ByteLoop(a', b', words * w, |a|)
  }

  /** `memswap` with the loop bound the comment describes: every whole
      word below `trail`, then the left-over bytes. */
  function MemSwap<T>(a: seq<T>, b: seq<T>, w: nat): (r: (seq<T>, seq<T>))
    requires |a| == |b| && w > 0
    ensures |r.0| == |a| && |r.1| == |b|
  {
    var words := |a| / w;
    TrailFits(|a|, w);
    var (a', b') := WordLoop(a, b, 0, words * w, words, w);
    ByteLoop(a', b', words * w, |a|)
  }

  /** Moving one exchanged chunk from the unswapped middle to the swapped
      front. */
  lemma SwapChunkStep<T>(a: seq<T>, b: seq<T>, i: nat, w: nat, t: nat)
    requires |a| == |b| && i + w <= t <= |a|
    ensures var a' := SwapChunk(a, b, i, w).0;
            var b' := SwapChunk(b, a, i, w).0;
            a'[..i + w] + b'[i + w..t] + a'[t..] == a[..i] + b[i..t] + a[t..]
  {
    var a', b' := SwapChunk(a, b, i, w).0, SwapChunk(b, a, i, w).0;
    assert a'[..i + w] == a[..i] + b[i..i + w];
    assert b'[i + w..t] == b[i + w..t];
    assert a'[t..] == a[t..];
    assert b[i..t] == b[i..i + w] + b[i + w..t];
  }

  lemma {:induction false} WordLoopExchanges<T>(a: seq<T>, b: seq<T>, c: nat, words: nat, w: nat)
    requires |a| == |b| && words * w <= |a| && c <= words
    ensures var t := words * w;
            c * w <= t &&
            WordLoop(a, b, c, t, words, w) == (a[..c * w] + b[c * w..t] + a[t..], b[..c * w] + a[c * w..t] + b[t..])
    decreases words - c
  {
    var t := words * w;
    Common.MulMono(c, words, w);
    var i := c * w;
    if i < t {
      ChunkFits(c, words, w);
      assert (c + 1) * w == i + w;
      var (a', b') := SwapChunk(a, b, i, w);
      if c + 1 > words {
        Common.MulMono(words, c, w);
      }
      WordLoopExchanges(a', b', c + 1, words, w);
      SwapChunkStep(a, b, i, w, t);
      SwapChunkStep(b, a, i, w, t);
    } else {
      assert a[..i] + b[i..t] + a[t..] == a;
      assert b[..i] + a[i..t] + b[t..] == b;
    }
  }

  lemma {:induction false} ByteLoopExchanges<T>(a: seq<T>, b: seq<T>, i: nat, n: nat)
    requires |a| == |b| && i <= n <= |a|
    ensures ByteLoop(a, b, i, n) == (a[..i] + b[i..n] + a[n..], b[..i] + a[i..n] + b[n..])
    decreases n - i
  {
    if i < n {
      var a', b' := a[i := b[i]], b[i := a[i]];
      ByteLoopExchanges(a', b', i + 1, n);
      SwapOneStep(a, b, i, n);
      SwapOneStep(b, a, i, n);
    } else {
      assert a[..i] + b[i..n] + a[n..] == a;
      assert b[..i] + a[i..n] + b[n..] == b;
    }
  }

  /** Moving one exchanged position from the unswapped middle to the
      swapped front. */
  lemma SwapOneStep<T>(a: seq<T>, b: seq<T>, i: nat, n: nat)
    requires |a| == |b| && i < n <= |a|
    ensures var a' := a[i := b[i]];
            var b' := b[i := a[i]];
            a'[..i + 1] + b'[i + 1..n] + a'[n..] == a[..i] + b[i..n] + a[n..]
  {
    var a', b' := a[i := b[i]], b[i := a[i]];
    assert a'[..i + 1] == a[..i] + [b[i]];
    assert b'[i + 1..n] == b[i + 1..n];
    assert a'[n..] == a[n..];
    assert b[i..n] == [b[i]] + b[i + 1..n];
  }

  /** The corrected `memswap` exchanges the two blocks completely. */
  lemma {:induction false} MemSwapExchanges<T>(a: seq<T>, b: seq<T>, w: nat)
    requires |a| == |b| && w > 0
    ensures MemSwap(a, b, w) == (b, a)
  {
    var words := |a| / w;
    TrailFits(|a|, w);
    var t := words * w;
    WordLoopExchanges(a, b, 0, words, w);
    var (a', b') := WordLoop(a, b, 0, t, words, w);
    assert a' == b[..t] + a[t..] && b' == a[..t] + b[t..];
    ByteLoopExchanges(a', b', t, |a|);
    assert a'[..t] + b'[t..|a|] + a'[|a|..] == b;
    assert b'[..t] + a'[t..|a|] + b'[|a|..] == a;
  }

  /** The word loop never touches a position at or beyond `bound + w - 1`. */
  lemma {:induction false} WordLoopLeavesHigh<T>(a: seq<T>, b: seq<T>, c: nat, bound: nat, words: nat, w: nat, p: nat)
    requires |a| == |b| && words * w <= |a| && bound <= words * w
    requires bound + w <= p + 1 && p < |a|
    ensures WordLoop(a, b, c, bound, words, w).0[p] == a[p]
    decreases bound - c * w
  {
    if c * w < bound {
      ChunkFits(c, words, w);
      var (a', b') := SwapChunk(a, b, c * w, w);
      assert a'[p] == a[p];
      assert (c + 1) * w == c * w + w;
      WordLoopLeavesHigh(a', b', c + 1, bound, words, w, p);
    }
  }

  lemma {:induction false} ByteLoopLeavesLow<T>(a: seq<T>, b: seq<T>, i: nat, n: nat, p: nat)
    requires |a| == |b| && n <= |a| && p < i && p < |a|
    ensures ByteLoop(a, b, i, n).0[p] == a[p]
    decreases n - i
  {
    if i < n {
      ByteLoopLeavesLow(a[i := b[i]], b[i := a[i]], i + 1, n, p);
    }
  }

  /** The source's `memswap` leaves the last byte of the last whole word
      unexchanged whenever the block holds at least two words of at least
      two bytes each. */
  lemma {:induction false} MemSwapAsWrittenMissesLastWord<T>(a: seq<T>, b: seq<T>, w: nat)
    requires |a| == |b| && w >= 2 && |a| >= 2 * w
    ensures var t := (|a| / w) * w;
            0 < t <= |a| && MemSwapAsWritten(a, b, w).0[t - 1] == a[t - 1]
  {
    var n := |a|;
    var words := n / w;
    TrailFits(n, w);
    var t := words * w;
    assert words >= 2;
    assert words + w <= t by {
      assert t - words - w + 1 == (words - 1) * (w - 1);
      Common.MulMono(1, words - 1, w - 1);
    }
    WordsBelowTrail(words, w);
    WordLoopLeavesHigh(a, b, 0, words, words, w, t - 1);
    var (a', b') := WordLoop(a, b, 0, words, words, w);
    ByteLoopLeavesLow(a', b', t, n, t - 1);
  }

  /** A concrete input on which the source's `memswap` fails: two four-byte
      blocks with two-byte words exchange only their first word. */
  lemma MemSwapAsWrittenCounterexample()
    ensures MemSwapAsWritten([1, 2, 3, 4], [5, 6, 7, 8], 2) == ([5, 6, 3, 4], [1, 2, 7, 8])
    ensures MemSwap([1, 2, 3, 4], [5, 6, 7, 8], 2) == ([5, 6, 7, 8], [1, 2, 3, 4])
  {
    var a, b := [1, 2, 3, 4], [5, 6, 7, 8];
    var (a1, b1) := SwapChunk(a, b, 0, 2);
    assert a1 == [5, 6, 3, 4] && b1 == [1, 2, 7, 8];
    assert WordLoop(a, b, 0, 2, 2, 2) == WordLoop(a1, b1, 1, 2, 2, 2) == (a1, b1);
    assert ByteLoop(a1, b1, 4, 4) == (a1, b1);
    MemSwapExchanges(a, b, 2);
  }

  /* ---------------------------------------------------------------
     swap_blocks
     --------------------------------------------------------------- */

  /** The exchange primitive the rotation relies on: the `n`-element blocks
      at `i` and at `j` (not overlapping) trade places, everything else stays. */
  function Exchange<T>(s: seq<T>, i: nat, j: nat, n: nat): (r: seq<T>)
    requires i + n <= j && j + n <= |s|
    ensures |r| == |s|
  {
    s[..i] + s[j..j + n] + s[i + n..j] + s[i..i + n] + s[j + n..]
  }

  /** `memswap` of the blocks at `i` and `j` inside one region, written back
      in place, is the abstract exchange (given the corrected loop bound). */
  lemma ExchangeIsMemSwap<T>(s: seq<T>, i: nat, j: nat, n: nat, w: nat)
    requires i + n <= j && j + n <= |s| && w > 0
    ensures var (x, y) := MemSwap(s[i..i + n], s[j..j + n], w);
            Exchange(s, i, j, n) == s[..i] + x + s[i + n..j] + y + s[j + n..]
  {
    MemSwapExchanges(s[i..i + n], s[j..j + n], w);
  }

  /** Exchanging the first and the last `k` elements of a block. */
  lemma ExchangeEnds<T>(s: seq<T>, k: nat)
    requires 2 * k <= |s|
    ensures Exchange(s, 0, |s| - k, k) == s[|s| - k..] + s[k..|s| - k] + s[..k]
  {
    assert s[..0] == [] && s[|s|..] == [];
  }

  /** The sequence algebra of the branch where the part before the pivot is the smaller one. */
  lemma LeftSmallerStep<T>(block: seq<T>, pivot: nat, swapped: seq<T>, head: seq<T>, rec: seq<T>)
    requires 0 < pivot && 2 * pivot < |block|
    requires swapped == Exchange(block, 0, |block| - pivot, pivot)
    requires head == swapped[..|block| - pivot] && rec == head[pivot..] + head[..pivot]
    ensures rec + swapped[|block| - pivot..] == block[pivot..] + block[..pivot]
  {
    var n := |block|;
    var a, b1, b2 := block[..pivot], block[pivot..n - pivot], block[n - pivot..];
    assert block[pivot..] == b1 + b2;
    assert swapped == (b2 + b1) + a by {
      ExchangeEnds(block, pivot);
    }
    assert swapped[..n - pivot] == b2 + b1 && swapped[n - pivot..] == a by {
      Cuts(b2 + b1, a);
    }
    assert rec == b1 + b2 by {
      Cuts(b2, b1);
    }
  }

  /** The sequence algebra of the branch where the part after the pivot is the smaller one. */
  lemma RightSmallerStep<T>(block: seq<T>, pivot: nat, swapped: seq<T>, tail: seq<T>, rec: seq<T>)
    requires pivot < |block| < 2 * pivot
    requires swapped == Exchange(block, 0, pivot, |block| - pivot)
    requires var k := |block| - pivot; tail == swapped[k..] && rec == tail[pivot - k..] + tail[..pivot - k]
    ensures swapped[..|block| - pivot] + rec == block[pivot..] + block[..pivot]
  {
    var k := |block| - pivot;
    RightExchange(block, pivot);
    RotateRest(block[pivot..], block[k..pivot], block[..k], swapped, rec);
    assert block[..pivot] == block[..k] + block[k..pivot];
  }

  /** Exchanging the first part with the smaller last part `B` of
      `A1 A2 B` gives `B A2 A1`. */
  lemma RightExchange<T>(block: seq<T>, pivot: nat)
    requires pivot < |block| < 2 * pivot
    ensures var k := |block| - pivot;
            Exchange(block, 0, pivot, k) == block[pivot..] + (block[k..pivot] + block[..k])
  {
    ExchangeEnds(block, |block| - pivot);
  }

  /** With `x` in place at the front, rotating the rest `y + z` to `z + y`
      completes `x + z + y`. */
  lemma RotateRest<T>(x: seq<T>, y: seq<T>, z: seq<T>, swapped: seq<T>, rec: seq<T>)
    requires swapped == x + (y + z)
    requires rec == swapped[|x|..][|y|..] + swapped[|x|..][..|y|]
    ensures swapped[..|x|] + rec == x + (z + y)
  {
    Cuts(x, y + z);
    Cuts(y, z);
  }

  /** Cutting a concatenation at the seam gives back its two parts. */
  lemma Cuts<T>(x: seq<T>, y: seq<T>)
    ensures (x + y)[..|x|] == x && (x + y)[|x|..] == y
  {
  }

  /** `swap_blocks(block, pivot)` (common.c:147-178): rotate `block` so that
      the part after the pivot comes first, by the Gries-Mills block
      exchange. The pivot stays fixed while the larger side shrinks. */
  function SwapBlocks<T>(block: seq<T>, pivot: nat): (r: seq<T>)
    requires pivot <= |block|
    ensures r == block[pivot..] + block[..pivot]
    decreases |block|
  {
    var n := |block|;
    if pivot == 0 || pivot == n then
      assert block[..0] == [] && block[n..] == [];
      block
    else if pivot < n - pivot then
      // |A|B1|B2| with |B2| == |A|  =>  |B2|B1|A|, then rotate |B2|B1| at the same pivot.
      var swapped := Exchange(block, 0, n - pivot, pivot);
      var head := swapped[..n - pivot];
      var rec := SwapBlocks(head, pivot);
      LeftSmallerStep(block, pivot, swapped, head, rec);
      rec + swapped[n - pivot..]
    else if pivot > n - pivot then
      // |A1|A2|B| with |A1| == |B|  =>  |B|A2|A1|, then rotate |A2|A1| at pivot - |B|.
      var k := n - pivot;
      var swapped := Exchange(block, 0, pivot, k);
      var tail := swapped[k..];
      var rec := SwapBlocks(tail, pivot - k);
      RightSmallerStep(block, pivot, swapped, tail, rec);
      swapped[..k] + rec
    else
      EqualHalvesStep(block, pivot);
      Exchange(block, 0, pivot, pivot)
  }

  /** With the pivot in the middle, one exchange is the whole rotation. */
  lemma EqualHalvesStep<T>(block: seq<T>, pivot: nat)
    requires 2 * pivot == |block|
    ensures Exchange(block, 0, pivot, pivot) == block[pivot..] + block[..pivot]
  {
    ExchangeEnds(block, pivot);
    assert |block| - pivot == pivot;
    assert block[pivot..pivot] == [];
  }

  /** Rotating by `p` and then by `n - p` restores the block. */
  lemma SwapBlocksInverse<T>(block: seq<T>, pivot: nat)
    requires pivot <= |block|
    ensures SwapBlocks(SwapBlocks(block, pivot), |block| - pivot) == block
  {
    var r := SwapBlocks(block, pivot);
    assert r[|block| - pivot..] == block[..pivot];
    assert r[..|block| - pivot] == block[pivot..];
  }
}
