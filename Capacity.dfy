/**
 * Index arithmetic of ChunkList<T, N>: element `pos` lives in chunk `pos / N`
 * at offset `pos % N`, and max_size() is the size rounded up to a whole number
 * of chunks. Positions and sizes are non-negative, where Dafny's `/` and `%`
 * agree with C++'s.
 */
module Capacity {

  /** d whole chunks of n slots hold at least n slots when d >= 1. */
  lemma {:induction false} WholeChunks(d: nat, n: nat)
    requires d >= 1
    ensures d * n >= n
  {
    if d > 1 {
      WholeChunks(d - 1, n);
      assert d * n == (d - 1) * n + n;
    }
  }

  /** Division is unique: a position written as q * n + r with 0 <= r < n lives in chunk q at offset r. */
  lemma Locate(p: int, q: int, r: int, n: int)
    requires n > 0 && 0 <= r < n && p == q * n + r
    ensures p / n == q && p % n == r
  {
    var q', r' := p / n, p % n;
    assert p == q' * n + r' && 0 <= r' < n;
    if q' > q {
      WholeChunks(q' - q, n);
    } else if q > q' {
      WholeChunks(q - q', n);
    }
  }

  /** k chunks of n slots, counted chunk by chunk (k * n without a product the solver must reason about). */
  function Times(k: nat, n: nat): nat
  {
    if k == 0 then 0 else Times(k - 1, n) + n
  }

  /** Counting chunk by chunk is multiplication. */
  lemma {:induction false} TimesIsProduct(k: nat, n: nat)
    ensures Times(k, n) == k * n
  {
    if k > 0 {
      TimesIsProduct(k - 1, n);
      assert k * n == (k - 1) * n + n;
    }
  }

  /** More chunks hold at least one more chunk's worth of slots. */
  lemma {:induction false} TimesGrows(a: nat, b: nat, n: nat)
    requires a < b
    ensures Times(a, n) + n <= Times(b, n)
  {
    if a + 1 < b {
      TimesGrows(a, b - 1, n);
    }
  }

  /** The chunk that position p falls in: pos / N, by repeated subtraction. */
  function ChunkOf(p: nat, n: nat): nat
    requires n > 0
    decreases p
  {
    if p < n then 0 else ChunkOf(p - n, n) + 1
  }

  /** The offset of position p inside its chunk: pos % N, by repeated subtraction. */
  function OffsetOf(p: nat, n: nat): nat
    requires n > 0
    decreases p
  {
    if p < n then p else OffsetOf(p - n, n)
  }

  /** Every position is its chunk's first slot plus an offset below n. */
  lemma {:induction false} Decompose(p: nat, n: nat)
    requires n > 0
    ensures OffsetOf(p, n) < n && p == Times(ChunkOf(p, n), n) + OffsetOf(p, n)
  {
    if p >= n {
      Decompose(p - n, n);
    }
  }

  /** Offset r of chunk q is the position that falls in chunk q at offset r. */
  lemma {:induction false} Compose(q: nat, r: nat, n: nat)
    requires n > 0 && r < n
    ensures ChunkOf(Times(q, n) + r, n) == q && OffsetOf(Times(q, n) + r, n) == r
  {
    if q > 0 {
      Compose(q - 1, r, n);
    }
  }

  /** A position below k whole chunks lies in one of those chunks. */
  lemma ChunkBelow(p: nat, k: nat, n: nat)
    requires n > 0 && p < Times(k, n)
    ensures ChunkOf(p, n) < k
  {
    Decompose(p, n);
    if ChunkOf(p, n) >= k {
      if ChunkOf(p, n) > k {
        TimesGrows(k, ChunkOf(p, n), n);
      }
    }
  }

  /** The repeated-subtraction chunk and offset are C++'s pos / N and pos % N. */
  lemma Division(p: nat, n: nat)
    requires n > 0
    ensures p / n == ChunkOf(p, n) && p % n == OffsetOf(p, n)
  {
    Decompose(p, n);
    TimesIsProduct(ChunkOf(p, n), n);
    Locate(p, ChunkOf(p, n), OffsetOf(p, n), n);
  }

  /** max_size(): the list size rounded up to a multiple of the chunk capacity. */
  function MaxSize(size: nat, n: nat): (m: nat)
    requires n > 0
    ensures m % n == 0 && size <= m < size + n
  {
    var r := size % n;
    if r == 0 then
      size
    else
      Locate(size + n - r, size / n + 1, 0, n);
      size + n - r
  }
}
