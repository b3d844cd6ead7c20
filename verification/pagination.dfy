/**
 * The page arithmetic of the admin table: `Array.prototype.slice`,
 * `Math.ceil(n / pageSize)` and the slice that forms page `p`.
 */
module Pagination {

  function Min(a: int, b: int): int
  {
    if a <= b then a else b
  }

  /**
   * `xs.slice(lo, hi)` for non-negative bounds: both bounds are clamped to
   * the length, and an empty range gives the empty list.
   */
  function Slice<T>(xs: seq<T>, lo: nat, hi: nat): (r: seq<T>)
    ensures |r| == if lo < Min(hi, |xs|) then Min(hi, |xs|) - lo else 0
    ensures forall i :: 0 <= i < |r| ==> r[i] == xs[lo + i]
  {
    var a := Min(lo, |xs|);
    var b := Min(hi, |xs|);
    if a < b then xs[a..b] else []
  }

  /** `Math.ceil(n / size)`: the number of pages of `size` rows that `n` rows fill. */
  function PageCount(n: nat, size: nat): (t: nat)
    requires size >= 1
    ensures t == 0 <==> n == 0
  {
    (n + size - 1) / size
  }

  /** The page count is the fewest pages that hold every row: `(t-1)*size < n <= t*size`. */
  lemma PageCountBounds(n: nat, size: nat)
    requires size >= 1
    ensures n <= PageCount(n, size) * size
    ensures PageCount(n, size) > 0 ==> (PageCount(n, size) - 1) * size < n
  {
    var q := (n + size - 1) / size;
    var r := (n + size - 1) % size;
    assert n + size - 1 == q * size + r && 0 <= r < size;
    assert (q - 1) * size == q * size - size;
  }

  /** Rows of page `p` (counted from 1) at `size` rows per page: `slice((p-1)*size, (p-1)*size + size)`. */
  function Page<T>(xs: seq<T>, p: nat, size: nat): (r: seq<T>)
    requires p >= 1 && size >= 1
    ensures |r| <= size
  {
    Slice(xs, (p - 1) * size, (p - 1) * size + size)
  }

  /** Page `p` is the rows from `(p-1)*size` up to `p*size` or the end, and empty once it starts past the end. */
  lemma PageRows<T>(xs: seq<T>, p: nat, size: nat)
    requires p >= 1 && size >= 1
    ensures (p - 1) * size < |xs| ==> Page(xs, p, size) == xs[(p - 1) * size..Min(p * size, |xs|)]
    ensures (p - 1) * size >= |xs| ==> Page(xs, p, size) == []
  {
    MulPred(p, size);
  }

  /** Page 1 is `slice(0, size)`: the first `size` rows, or all of them. */
  lemma FirstPage<T>(xs: seq<T>, size: nat)
    requires size >= 1
    ensures Page(xs, 1, size) == Slice(xs, 0, size) == xs[..Min(size, |xs|)]
  {
  }

  lemma MulMono(a: nat, b: nat, c: nat)
    requires a <= b
    ensures a * c <= b * c
  {
    assert b * c - a * c == (b - a) * c;
  }

  /** A page is non-empty exactly when its number is between 1 and the page count. */
  lemma PageNonEmpty<T>(xs: seq<T>, p: nat, size: nat)
    requires p >= 1 && size >= 1
    ensures Page(xs, p, size) != [] <==> p <= PageCount(|xs|, size)
  {
    var t := PageCount(|xs|, size);
    PageCountBounds(|xs|, size);
    PageRows(xs, p, size);
    if p <= t {
      MulMono(p - 1, t - 1, size);
    } else {
      MulMono(t, p - 1, size);
    }
  }

  /** Pages 1 to `k`, one after another. */
  function PagesThrough<T>(xs: seq<T>, size: nat, k: nat): seq<T>
    requires size >= 1
  {
    if k == 0 then [] else PagesThrough(xs, size, k - 1) + Page(xs, k, size)
  }

  lemma MulPred(k: nat, size: nat)
    requires k > 0
    ensures k * size == (k - 1) * size + size
  {
  }

  /** A prefix followed by the slice that starts where it ends is a longer prefix. */
  lemma PrefixThenSlice<T>(xs: seq<T>, lo: nat, hi: nat)
    requires lo <= hi
    ensures xs[..Min(lo, |xs|)] + Slice(xs, lo, hi) == xs[..Min(hi, |xs|)]
  {
  }

  /** Pages 1 to `k` are the first `k * size` rows, or all of them. */
  lemma {:induction false} PagesThroughPrefix<T>(xs: seq<T>, size: nat, k: nat)
    requires size >= 1
    ensures PagesThrough(xs, size, k) == xs[..Min(k * size, |xs|)]
  {
    if k > 0 {
      PagesThroughPrefix(xs, size, k - 1);
      var lo := (k - 1) * size;
      MulPred(k, size);
      PrefixThenSlice(xs, lo, lo + size);
    }
  }

  /** Reading every page from 1 to the page count gives back the whole list, each row once and in order. */
  lemma PagesRebuildAll<T>(xs: seq<T>, size: nat)
    requires size >= 1
    ensures PagesThrough(xs, size, PageCount(|xs|, size)) == xs
  {
    PageCountBounds(|xs|, size);
    PagesThroughPrefix(xs, size, PageCount(|xs|, size));
  }
}
