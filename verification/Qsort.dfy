/** qsort and bsearch of rt/rt_stdlib.c, on width-sized blocks of bytes in the caller's array. */
module Qsort {
  import opened Ordering
  import opened Powers

  type Byte = x: int | 0 <= x < 256

  type Block = seq<Byte>

  // ---- blocks of an array ----

  /** Where block i begins. */
  function Start(i: nat, w: nat): nat { i * w }

  lemma StartNext(i: nat, w: nat)
    ensures Start(i + 1, w) == Start(i, w) + w && Start(0, w) == 0
  {}

  lemma StartOrder(i: nat, j: nat, w: nat)
    requires i <= j
    ensures Start(i, w) <= Start(j, w)
  {
    MulMonotonic(w, i, j);
  }

  /** Block i of n lies in the first n blocks. */
  lemma StartWithin(i: nat, n: nat, w: nat)
    requires i < n
    ensures Start(i, w) + w <= Start(n, w)
  {
    hide Start;
    StartNext(i, w);
    StartOrder(i + 1, n, w);
  }

  function BlockAt(s: seq<Byte>, w: nat, i: nat): Block
    requires Start(i, w) + w <= |s|
  {
    s[Start(i, w)..Start(i, w) + w]
  }

  /** The first n blocks. */
  function Blocks(s: seq<Byte>, w: nat, n: nat): (b: seq<Block>)
    requires Start(n, w) <= |s|
    ensures |b| == n
    decreases n
  {
    if n == 0 then [] else
      StartWithin(n - 1, n, w);
      Blocks(s, w, n - 1) + [BlockAt(s, w, n - 1)]
  }

  lemma {:induction false} BlocksAt(s: seq<Byte>, w: nat, n: nat, i: nat)
    requires Start(n, w) <= |s| && i < n
    ensures Start(i, w) + w <= |s| && Blocks(s, w, n)[i] == BlockAt(s, w, i)
    decreases n
  {
    StartWithin(i, n, w);
    if i < n - 1 {
      StartWithin(n - 1, n, w);
      BlocksAt(s, w, n - 1, i);
    }
  }

  ghost predicate Wide(w: nat, b: seq<Block>) { forall x :: x in b ==> |x| == w }

  lemma BlocksAreWide(s: seq<Byte>, w: nat, n: nat)
    requires Start(n, w) <= |s|
    ensures Wide(w, Blocks(s, w, n))
  {
    hide Start, Blocks;
    forall x | x in Blocks(s, w, n)
      ensures |x| == w
    {
      var i :| 0 <= i < n && Blocks(s, w, n)[i] == x;
      BlocksAt(s, w, n, i);
    }
  }

  // ---- swapping ----

  method RtSwap(a: array<Byte>, p: nat, q: nat, n: nat)
    requires p + n <= a.Length && q + n <= a.Length && (p == q || p + n <= q || q + n <= p)
    modifies a
    ensures a[p..p + n] == old(a[q..q + n]) && a[q..q + n] == old(a[p..p + n])
    ensures forall i :: 0 <= i < a.Length && !(p <= i < p + n) && !(q <= i < q + n) ==> a[i] == old(a[i])
  {
    ghost var s := a[..];
    var k := 0;
    while k < n
      invariant k <= n
      invariant forall i :: p <= i < p + k ==> a[i] == s[i - p + q]
      invariant forall i :: q <= i < q + k ==> a[i] == s[i - q + p]
      invariant forall i :: 0 <= i < a.Length && !(p <= i < p + k) && !(q <= i < q + k) ==> a[i] == s[i]
    {
      a[p + k], a[q + k] := a[q + k], a[p + k];
      k := k + 1;
    }
    assert a[p..p + n] == s[q..q + n] && a[q..q + n] == s[p..p + n];
  }

  /** Swapping the bytes of two blocks swaps the blocks. */
  method SwapBlocks(base: array<Byte>, w: nat, i: nat, j: nat, ghost n: nat)
    requires Start(n, w) <= base.Length && i < n && j < n
    modifies base
    ensures Blocks(base[..], w, n) == Swap(old(Blocks(base[..], w, n)), i, j)
    ensures base[Start(n, w)..] == old(base[Start(n, w)..])
  {
    hide Start, Blocks;
    StartWithin(i, n, w);
    StartWithin(j, n, w);
    StartsApart(i, j, w);
    RtSwap(base, Start(i, w), Start(j, w), w);
    SwapShows(old(base[..]), base[..], w, i, j, n);
  }

  lemma StartsApart(i: nat, j: nat, w: nat)
    ensures i < j ==> Start(i, w) + w <= Start(j, w)
    ensures j < i ==> Start(j, w) + w <= Start(i, w)
  {
    hide Start;
    if i < j { StartWithin(i, j, w); }
    if j < i { StartWithin(j, i, w); }
  }

  lemma SwapShows(s: seq<Byte>, t: seq<Byte>, w: nat, i: nat, j: nat, n: nat)
    requires |s| == |t| && Start(n, w) <= |s| && i < n && j < n
    requires Start(i, w) + w <= Start(n, w) && Start(j, w) + w <= Start(n, w)
    requires BlockAt(t, w, i) == BlockAt(s, w, j) && BlockAt(t, w, j) == BlockAt(s, w, i)
    requires forall k :: 0 <= k < |s| && !(Start(i, w) <= k < Start(i, w) + w) && !(Start(j, w) <= k < Start(j, w) + w) ==>
               t[k] == s[k]
    ensures Blocks(t, w, n) == Swap(Blocks(s, w, n), i, j)
  {
    hide Start, Blocks;
    var b, c := Blocks(s, w, n), Blocks(t, w, n);
    forall k | 0 <= k < n
      ensures c[k] == Swap(b, i, j)[k]
    {
      BlocksAt(s, w, n, k);
      BlocksAt(t, w, n, k);
      BlocksAt(s, w, n, i);
      BlocksAt(s, w, n, j);
      StartsApart(k, i, w);
      StartsApart(k, j, w);
    }
  }

  // ---- sorting ----

  /** cmp of two blocks in place. */
  method CompareAt(base: array<Byte>, w: nat, i: nat, j: nat, cmp: Compare<Block>, ghost n: nat) returns (c: int)
    requires Start(n, w) <= base.Length && i < n && j < n
    ensures c == cmp(Blocks(base[..], w, n)[i], Blocks(base[..], w, n)[j])
  {
    hide Start, Blocks;
    StartWithin(i, n, w);
    StartWithin(j, n, w);
    BlocksAt(base[..], w, n, i);
    BlocksAt(base[..], w, n, j);
    assert base[Start(i, w)..Start(i, w) + w] == BlockAt(base[..], w, i);
    assert base[Start(j, w)..Start(j, w) + w] == BlockAt(base[..], w, j);
    c := cmp(base[Start(i, w)..Start(i, w) + w], base[Start(j, w)..Start(j, w) + w]);
  }

  /** Swap two blocks of the range if the first is less. */
  method SwapIfLess(base: array<Byte>, w: nat, i: nat, j: nat, cmp: Compare<Block>, ghost lo: nat, ghost hi: nat, ghost n: nat)
    requires Start(n, w) <= base.Length && lo <= i < hi <= n && lo <= j < hi
    modifies base
    ensures Perm(old(Blocks(base[..], w, n)), Blocks(base[..], w, n), lo, hi)
    ensures base[Start(n, w)..] == old(base[Start(n, w)..])
  {
    hide Start, Blocks, Swap, Perm;
    ghost var b := Blocks(base[..], w, n);
    PermRefl(b, lo, hi);
    var c := CompareAt(base, w, i, j, cmp, n);
    if c < 0 {
      SwapBlocks(base, w, i, j, n);
      PermSwap(b, i, j, lo, hi);
    }
  }

  /** Sorted but for the block at j, which is in order with those after it. */
  ghost predicate SortedBut(cmp: Compare<Block>, b: seq<Block>, lo: nat, j: nat, hi: nat)
    requires hi <= |b|
  {
    && (forall x, y :: lo <= x < y < hi && x != j && y != j ==> Le(cmp, b[x], b[y]))
    && (forall y :: j < y < hi && j < |b| ==> Le(cmp, b[j], b[y]))
  }

  /** Insertion sort of a short range. */
  method InsertionSort(base: array<Byte>, lo: nat, hi: nat, w: nat, cmp: Compare<Block>, ghost n: nat)
    requires Start(n, w) <= base.Length && lo < hi <= n && Preorder(cmp, b => |b| == w)
    modifies base
    ensures Perm(old(Blocks(base[..], w, n)), Blocks(base[..], w, n), lo, hi) && Sorted(cmp, Blocks(base[..], w, n), lo, hi)
    ensures base[Start(n, w)..] == old(base[Start(n, w)..])
  {
    hide Start, Blocks, Swap, Perm, Preorder;
    ghost var b0 := Blocks(base[..], w, n);
    PermRefl(b0, lo, hi);
    var i := lo + 1;
    while i < hi
      invariant lo < i <= hi
      invariant Perm(b0, Blocks(base[..], w, n), lo, hi) && Sorted(cmp, Blocks(base[..], w, n), lo, i)
      invariant base[Start(n, w)..] == old(base[Start(n, w)..])
    {
      Insert(base, lo, i, hi, w, cmp, n, b0);
      i := i + 1;
    }
  }

  /** Carry block i down to its place among the sorted ones before it. */
  method Insert(base: array<Byte>, lo: nat, i: nat, hi: nat, w: nat, cmp: Compare<Block>, ghost n: nat, ghost b0: seq<Block>)
    requires Start(n, w) <= base.Length && lo < i < hi <= n && Preorder(cmp, b => |b| == w)
    requires Perm(b0, Blocks(base[..], w, n), lo, hi) && Sorted(cmp, Blocks(base[..], w, n), lo, i)
    modifies base
    ensures Perm(b0, Blocks(base[..], w, n), lo, hi) && Sorted(cmp, Blocks(base[..], w, n), lo, i + 1)
    ensures base[Start(n, w)..] == old(base[Start(n, w)..])
  {
    hide Start, Blocks, Perm, Preorder, Swap;
    var j := i;
    var more := true;
    while j > lo && more
      invariant lo <= j <= i
      invariant Perm(b0, Blocks(base[..], w, n), lo, hi)
      invariant SortedBut(cmp, Blocks(base[..], w, n), lo, j, i + 1)
      invariant !more ==> j > lo && Le(cmp, Blocks(base[..], w, n)[j - 1], Blocks(base[..], w, n)[j])
      invariant base[Start(n, w)..] == old(base[Start(n, w)..])
      decreases j, more
    {
      ghost var b := Blocks(base[..], w, n);
      var c := CompareAt(base, w, j, j - 1, cmp, n);
      if c < 0 {
        SwapBlocks(base, w, j, j - 1, n);
        SwapDown(cmp, w, b, lo, j, i + 1, base[..], n);
        PermSwap(b, j, j - 1, lo, hi);
        PermTrans(b0, b, Blocks(base[..], w, n), lo, hi);
        j := j - 1;
      } else {
        more := false;
      }
    }
    InPlace(cmp, w, base[..], lo, j, i + 1, n);
  }

  lemma SwapDown(cmp: Compare<Block>, w: nat, b: seq<Block>, lo: nat, j: nat, hi: nat, s: seq<Byte>, n: nat)
    requires Start(n, w) <= |s| && lo < j < hi <= n == |b| && Preorder(cmp, x => |x| == w)
    requires Blocks(s, w, n) == Swap(b, j, j - 1) && SortedBut(cmp, b, lo, j, hi) && cmp(b[j], b[j - 1]) < 0
    ensures SortedBut(cmp, Blocks(s, w, n), lo, j - 1, hi)
  {
    hide Start, Blocks;
    BlocksAreWide(s, w, n);
    var c := Swap(b, j, j - 1);
    assert |c[j]| == w && |c[j - 1]| == w by { assert c[j] in c && c[j - 1] in c; }
    assert Le(cmp, c[j - 1], c[j]);
  }

  lemma InPlace(cmp: Compare<Block>, w: nat, s: seq<Byte>, lo: nat, j: nat, hi: nat, n: nat)
    requires Start(n, w) <= |s| && lo <= j < hi <= n && Preorder(cmp, x => |x| == w)
    requires SortedBut(cmp, Blocks(s, w, n), lo, j, hi)
    requires j == lo || Le(cmp, Blocks(s, w, n)[j - 1], Blocks(s, w, n)[j])
    ensures Sorted(cmp, Blocks(s, w, n), lo, hi)
  {
    hide Start, Blocks;
    BlocksAreWide(s, w, n);
    var b := Blocks(s, w, n);
    forall x, y | lo <= x < y < hi
      ensures Le(cmp, b[x], b[y])
    {
      assert b[x] in b && b[y] in b && b[j] in b;
      if y == j && x < j - 1 {
        assert b[j - 1] in b && Le(cmp, b[x], b[j - 1]);
      }
    }
  }

  // ---- quicksort ----

  /** The last block as the pivot: in [lo, store) what is less, in [store, i) what is not. */
  ghost predicate Parted(cmp: Compare<Block>, b: seq<Block>, lo: nat, store: nat, i: nat, last: nat)
    requires last < |b| && i <= |b|
  {
    && (forall k :: lo <= k < store && k < |b| ==> cmp(b[k], b[last]) < 0)
    && (forall k :: store <= k < i ==> !(cmp(b[k], b[last]) < 0))
  }

  /** Median of three, partition around it; the pivot ends at store. */
  method Partition(base: array<Byte>, lo: nat, hi: nat, w: nat, cmp: Compare<Block>, ghost n: nat) returns (store: nat)
    requires Start(n, w) <= base.Length && lo + 8 <= hi <= n && Preorder(cmp, b => |b| == w)
    modifies base
    ensures lo <= store < hi
    ensures Perm(old(Blocks(base[..], w, n)), Blocks(base[..], w, n), lo, hi)
    ensures Split(cmp, Blocks(base[..], w, n), lo, store, hi)
    ensures base[Start(n, w)..] == old(base[Start(n, w)..])
  {
    hide Start, Blocks, Perm, Preorder, Swap;
    ghost var b0 := Blocks(base[..], w, n);
    Median(base, lo, hi, w, cmp, n);
    var last := hi - 1;
    store := lo;
    var i := lo;
    while i < last
      invariant lo <= store <= i <= last
      invariant Perm(b0, Blocks(base[..], w, n), lo, hi) && Parted(cmp, Blocks(base[..], w, n), lo, store, i, last)
      invariant base[Start(n, w)..] == old(base[Start(n, w)..])
    {
      ghost var b := Blocks(base[..], w, n);
      var c := CompareAt(base, w, i, last, cmp, n);
      if c < 0 {
        SwapBlocks(base, w, i, store, n);
        PartMore(cmp, b, lo, store, i, last);
        PermSwap(b, i, store, lo, hi);
        PermTrans(b0, b, Blocks(base[..], w, n), lo, hi);
        store := store + 1;
      }
      i := i + 1;
    }
    ghost var b := Blocks(base[..], w, n);
    SwapBlocks(base, w, store, last, n);
    PartDone(cmp, w, b, base[..], lo, store, last, n);
    PermSwap(b, store, last, lo, hi);
    PermTrans(b0, b, Blocks(base[..], w, n), lo, hi);
  }

  /** The median of the first, the middle and the last block, swapped to the end. */
  method Median(base: array<Byte>, lo: nat, hi: nat, w: nat, cmp: Compare<Block>, ghost n: nat)
    requires Start(n, w) <= base.Length && lo + 8 <= hi <= n
    modifies base
    ensures Perm(old(Blocks(base[..], w, n)), Blocks(base[..], w, n), lo, hi)
    ensures base[Start(n, w)..] == old(base[Start(n, w)..])
  {
    hide Start, Blocks, Perm;
    ghost var b0 := Blocks(base[..], w, n);
    var mid, last := lo + (hi - lo) / 2, hi - 1;
    SwapIfLess(base, w, mid, lo, cmp, lo, hi, n);
    ghost var b1 := Blocks(base[..], w, n);
    SwapIfLess(base, w, last, lo, cmp, lo, hi, n);
    ghost var b2 := Blocks(base[..], w, n);
    SwapIfLess(base, w, mid, last, cmp, lo, hi, n);
    PermTrans(b0, b1, b2, lo, hi);
    PermTrans(b0, b2, Blocks(base[..], w, n), lo, hi);
  }

  lemma PartMore(cmp: Compare<Block>, b: seq<Block>, lo: nat, store: nat, i: nat, last: nat)
    requires lo <= store <= i < last < |b| && Parted(cmp, b, lo, store, i, last) && cmp(b[i], b[last]) < 0
    ensures Parted(cmp, Swap(b, i, store), lo, store + 1, i + 1, last)
  {}

  lemma PartDone(cmp: Compare<Block>, w: nat, b: seq<Block>, s: seq<Byte>, lo: nat, store: nat, last: nat, n: nat)
    requires Start(n, w) <= |s| && lo <= store <= last < n == |b| && Preorder(cmp, x => |x| == w)
    requires Parted(cmp, b, lo, store, last, last) && Blocks(s, w, n) == Swap(b, store, last)
    ensures Split(cmp, Blocks(s, w, n), lo, store, last + 1)
  {
    hide Start, Blocks;
    BlocksAreWide(s, w, n);
    var c := Blocks(s, w, n);
    assert c[store] == b[last] && c[last] == b[store];
    forall k | lo <= k < store
      ensures Le(cmp, c[k], c[store])
    {
      assert c[k] == b[k] && c[k] in c && c[store] in c;
    }
    forall k | store < k < last + 1
      ensures Le(cmp, c[store], c[k])
    {
      if k < last { assert c[k] == b[k]; }
    }
  }

  /** Sorts the blocks in [lo, hi); depth is how deep the recursion went. Recursing into the smaller side only,
      it goes no deeper than the logarithm of the number of blocks. */
  method RtQsort(base: array<Byte>, lo: nat, hi: nat, w: nat, cmp: Compare<Block>, ghost n: nat) returns (ghost depth: nat)
    requires Start(n, w) <= base.Length && lo <= hi <= n && Preorder(cmp, b => |b| == w)
    modifies base
    ensures Perm(old(Blocks(base[..], w, n)), Blocks(base[..], w, n), lo, hi) && Sorted(cmp, Blocks(base[..], w, n), lo, hi)
    ensures base[Start(n, w)..] == old(base[Start(n, w)..])
    ensures Pow(2, depth) <= if hi - lo > 1 then hi - lo else 1
    decreases hi - lo
  {
    hide Start, Blocks, Perm, Preorder, Pow, Split;
    ghost var b0 := Blocks(base[..], w, n);
    PermRefl(b0, lo, hi);
    PowZero(2);
    depth := 0;
    var a, b := lo, hi;
    while a + 1 < b
      invariant lo <= a <= b <= hi
      invariant Perm(b0, Blocks(base[..], w, n), lo, hi)
      invariant OrderedAround(cmp, Blocks(base[..], w, n), lo, a, b, hi)
      invariant base[Start(n, w)..] == old(base[Start(n, w)..])
      invariant Pow(2, depth) <= if hi - lo > 1 then hi - lo else 1
      decreases b - a
    {
      if b - a < 8 {
        SortShort(base, a, b, w, cmp, n, lo, hi, b0);
        return;
      }
      ghost var d;
      a, b, d := SortSmaller(base, a, b, w, cmp, n, lo, hi, b0);
      if d > depth { depth := d; }
    }
  }

  method SortShort(base: array<Byte>, a: nat, b: nat, w: nat, cmp: Compare<Block>, ghost n: nat, ghost lo: nat,
                   ghost hi: nat, ghost b0: seq<Block>)
    requires Start(n, w) <= base.Length && lo <= a < b <= hi <= n && Preorder(cmp, x => |x| == w)
    requires Perm(b0, Blocks(base[..], w, n), lo, hi) && OrderedAround(cmp, Blocks(base[..], w, n), lo, a, b, hi)
    modifies base
    ensures Perm(b0, Blocks(base[..], w, n), lo, hi) && Sorted(cmp, Blocks(base[..], w, n), lo, hi)
    ensures base[Start(n, w)..] == old(base[Start(n, w)..])
  {
    hide Start, Blocks, Perm, Preorder;
    ghost var c := Blocks(base[..], w, n);
    InsertionSort(base, a, b, w, cmp, n);
    ghost var e := Blocks(base[..], w, n);
    PermWiden(c, e, a, b, lo, hi) by { PermIs(c, e, a, b); PermIs(b0, c, lo, hi); }
    PermTrans(b0, c, e, lo, hi);
    AroundPerm(cmp, c, e, lo, a, b, hi) by { PermIs(c, e, a, b); }
  }

  lemma PermIs<T>(s: seq<T>, t: seq<T>, lo: nat, hi: nat)
    requires Perm(s, t, lo, hi)
    ensures lo <= hi <= |s| == |t|
  {}

  /** Partition [a, b), sort the smaller side, and leave the larger to be sorted. */
  method SortSmaller(base: array<Byte>, a: nat, b: nat, w: nat, cmp: Compare<Block>, ghost n: nat, ghost lo: nat,
                     ghost hi: nat, ghost b0: seq<Block>)
    returns (a': nat, b': nat, ghost d: nat)
    requires Start(n, w) <= base.Length && lo <= a && a + 8 <= b <= hi <= n && Preorder(cmp, x => |x| == w)
    requires Perm(b0, Blocks(base[..], w, n), lo, hi) && OrderedAround(cmp, Blocks(base[..], w, n), lo, a, b, hi)
    modifies base
    ensures a <= a' <= b' <= b && b' - a' < b - a
    ensures Perm(b0, Blocks(base[..], w, n), lo, hi) && OrderedAround(cmp, Blocks(base[..], w, n), lo, a', b', hi)
    ensures base[Start(n, w)..] == old(base[Start(n, w)..])
    ensures Pow(2, d) <= hi - lo
    decreases b - a, 0
  {
    hide Start, Blocks, Perm, Preorder, Pow, Split, OrderedAround, Sorted;
    ghost var c := Blocks(base[..], w, n);
    var store := Partition(base, a, b, w, cmp, n);
    ghost var e := Blocks(base[..], w, n);
    PermIs(b0, c, lo, hi);
    PermWiden(c, e, a, b, lo, hi);
    PermTrans(b0, c, e, lo, hi);
    AroundPerm(cmp, c, e, lo, a, b, hi);
    BlocksAreWide(base[..], w, n);
    if store - a < b - (store + 1) {
      d := RtQsort(base, a, store, w, cmp, n);
      SortedLeft(cmp, x => |x| == w, e, Blocks(base[..], w, n), lo, a, store, b, hi);
      PermWiden(e, Blocks(base[..], w, n), a, store, lo, hi);
      a', b' := store + 1, b;
    } else {
      d := RtQsort(base, store + 1, b, w, cmp, n);
      SortedRight(cmp, x => |x| == w, e, Blocks(base[..], w, n), lo, a, store, b, hi);
      PermWiden(e, Blocks(base[..], w, n), store + 1, b, lo, hi);
      a', b' := a, store;
    }
    PermTrans(b0, e, Blocks(base[..], w, n), lo, hi);
    OneDeeper(d);
    d := d + 1;
  }

  lemma OneDeeper(d: nat)
    ensures Pow(2, d + 1) == 2 * Pow(2, d)
  {}

  /** For every total preorder: a sorted permutation of the blocks, and no byte past them changed. */
  method Qsort(base: array<Byte>, count: nat, width: nat, cmp: Compare<Block>) returns (ghost depth: nat)
    requires Start(count, width) <= base.Length && Preorder(cmp, b => |b| == width)
    modifies base
    ensures multiset(Blocks(base[..], width, count)) == multiset(old(Blocks(base[..], width, count)))
    ensures Sorted(cmp, Blocks(base[..], width, count), 0, count)
    ensures base[Start(count, width)..] == old(base[Start(count, width)..])
    ensures Pow(2, depth) <= if count > 1 then count else 1
  {
    hide Start, Blocks, Pow;
    ghost var b0 := Blocks(base[..], width, count);
    PowZero(2);
    depth := 0;
    if count > 1 && width > 0 {
      depth := RtQsort(base, 0, count, width, cmp, count);
      ghost var b := Blocks(base[..], width, count);
      assert b0[0..count] == b0 && b[0..count] == b;
    } else if width == 0 {
      NoBytes(base[..], cmp, count);
    }
  }

  /** Blocks of no bytes are all alike. */
  lemma NoBytes(s: seq<Byte>, cmp: Compare<Block>, n: nat)
    requires Start(n, 0) <= |s| && Preorder(cmp, b => |b| == 0)
    ensures Sorted(cmp, Blocks(s, 0, n), 0, n)
  {
    hide Start, Blocks;
    BlocksAreWide(s, 0, n);
    var b := Blocks(s, 0, n);
    forall i, j | 0 <= i < j < n
      ensures Le(cmp, b[i], b[j])
    {
      assert b[i] in b && b[j] in b;
      assert b[i] == [] && b[j] == [];
      assert Le(cmp, [], []) || Le(cmp, [], []);
    }
  }

  // ---- searching ----

  /** key compares with the blocks as their order says: those before it first, then its matches, then the rest. */
  ghost predicate Searchable(cmp: Compare<Block>, key: Block, b: seq<Block>) {
    forall i, j :: 0 <= i < j < |b| ==>
      && (cmp(key, b[j]) > 0 ==> cmp(key, b[i]) > 0)
      && (cmp(key, b[i]) < 0 ==> cmp(key, b[j]) < 0)
  }

  /** A matching block, exactly when there is one. */
  method Bsearch(key: Block, base: array<Byte>, count: nat, width: nat, cmp: Compare<Block>) returns (found: int)
    requires Start(count, width) <= base.Length && Searchable(cmp, key, Blocks(base[..], width, count))
    ensures found == -1 || 0 <= found < count
    ensures found >= 0 ==> cmp(key, Blocks(base[..], width, count)[found]) == 0
    ensures found == -1 <==> forall i :: 0 <= i < count ==> cmp(key, Blocks(base[..], width, count)[i]) != 0
  {
    hide Start, Blocks;
    ghost var b := Blocks(base[..], width, count);
    var lo, hi := 0, count;
    while lo < hi
      invariant 0 <= lo <= hi <= count
      invariant forall i :: 0 <= i < lo ==> cmp(key, b[i]) != 0
      invariant forall i :: hi <= i < count ==> cmp(key, b[i]) != 0
    {
      var mid := lo + (hi - lo) / 2;
      StartWithin(mid, count, width);
      BlocksAt(base[..], width, count, mid);
      assert base[Start(mid, width)..Start(mid, width) + width] == BlockAt(base[..], width, mid);
      var c := cmp(key, base[Start(mid, width)..Start(mid, width) + width]);
      if c == 0 {
        return mid;
      }
      if c < 0 {
        hi := mid;
      } else {
        lo := mid + 1;
      }
    }
    return -1;
  }

  /** After qsort, bsearch works for every key that the comparison places consistently among the blocks. */
  lemma SortedIsSearchable(cmp: Compare<Block>, ok: Block -> bool, key: Block, b: seq<Block>)
    requires Preorder(cmp, ok) && ok(key) && (forall x :: x in b ==> ok(x)) && Sorted(cmp, b, 0, |b|)
    requires forall x, y :: ok(x) && ok(y) ==> (cmp(x, y) < 0 <==> cmp(y, x) > 0)
    ensures Searchable(cmp, key, b)
  {
    forall i, j | 0 <= i < j < |b|
      ensures cmp(key, b[j]) > 0 ==> cmp(key, b[i]) > 0
      ensures cmp(key, b[i]) < 0 ==> cmp(key, b[j]) < 0
    {
      assert b[i] in b && b[j] in b && Le(cmp, b[i], b[j]);
    }
  }

  /** Turning a comparison round turns its sign. */
  ghost predicate Opposed(cmp: Compare<Block>, width: nat) {
    forall x: Block, y: Block :: |x| == width && |y| == width ==> (cmp(x, y) < 0 <==> cmp(y, x) > 0)
  }

  ghost predicate Matches(cmp: Compare<Block>, key: Block, b: seq<Block>) { exists x :: x in b && cmp(key, x) == 0 }

  lemma MatchesAt(cmp: Compare<Block>, key: Block, a: seq<Block>, b: seq<Block>)
    requires multiset(a) == multiset(b)
    ensures Matches(cmp, key, a) <==> exists i :: 0 <= i < |b| && cmp(key, b[i]) == 0
  {
    if Matches(cmp, key, a) {
      var x :| x in a && cmp(key, x) == 0;
      assert x in multiset(a);
      assert x in b;
    }
    if i :| 0 <= i < |b| && cmp(key, b[i]) == 0 {
      assert b[i] in multiset(b);
      assert b[i] in a;
    }
  }

  lemma SortedForKey(cmp: Compare<Block>, key: Block, width: nat, b: seq<Block>)
    requires Preorder(cmp, b => |b| == width) && |key| == width && Opposed(cmp, width)
    requires Sorted(cmp, b, 0, |b|) && forall i :: 0 <= i < |b| ==> |b[i]| == width
    ensures Searchable(cmp, key, b)
  {
    SortedIsSearchable(cmp, b => |b| == width, key, b);
  }

  /** Sort, then search: a matching block is found exactly when there was one before. */
  method SortThenSearch(key: Block, base: array<Byte>, count: nat, width: nat, cmp: Compare<Block>) returns (found: int)
    requires Start(count, width) <= base.Length && Preorder(cmp, b => |b| == width)
    requires |key| == width && Opposed(cmp, width)
    modifies base
    ensures found == -1 || (0 <= found < count && cmp(key, Blocks(base[..], width, count)[found]) == 0)
    ensures found != -1 <==> Matches(cmp, key, old(Blocks(base[..], width, count)))
  {
    hide Start, Blocks, Pow, Sorted, Searchable, Preorder, Opposed, Matches;
    ghost var was := Blocks(base[..], width, count);
    ghost var _ := Qsort(base, count, width, cmp);
    ghost var now := Blocks(base[..], width, count);
    BlocksAreWide(base[..], width, count);
    SortedForKey(cmp, key, width, now);
    MatchesAt(cmp, key, was, now);
    found := Bsearch(key, base, count, width, cmp);
    assert |now| == count && now == Blocks(base[..], width, count);
    if found != -1 {
      assert cmp(key, now[found]) == 0;
    } else {
      assert forall i :: 0 <= i < count ==> cmp(key, now[i]) != 0;
    }
  }
}
