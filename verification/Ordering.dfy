/** Sorted ranges and permutations of sequences, for a comparison that is a total preorder. */
module Ordering {
  /** As in C: negative, zero or positive. */
  type Compare<!T> = (T, T) -> int

  predicate Le<T>(cmp: Compare<T>, x: T, y: T) { !(cmp(y, x) < 0) }

  /** Total and transitive on the values that satisfy ok. */
  ghost predicate Preorder<T(!new)>(cmp: Compare<T>, ok: T -> bool) {
    && (forall x, y :: ok(x) && ok(y) ==> Le(cmp, x, y) || Le(cmp, y, x))
    && (forall x, y, z :: ok(x) && ok(y) && ok(z) && Le(cmp, x, y) && Le(cmp, y, z) ==> Le(cmp, x, z))
  }

  ghost predicate Sorted<T>(cmp: Compare<T>, s: seq<T>, lo: nat, hi: nat)
    requires hi <= |s|
  {
    forall i, j :: lo <= i < j < hi ==> Le(cmp, s[i], s[j])
  }

  /** The same outside [lo, hi), the same values inside. */
  ghost predicate Perm<T>(s: seq<T>, t: seq<T>, lo: nat, hi: nat) {
    && lo <= hi <= |s| == |t|
    && s[..lo] == t[..lo] && s[hi..] == t[hi..]
    && multiset(s[lo..hi]) == multiset(t[lo..hi])
  }

  function Swap<T>(s: seq<T>, i: nat, j: nat): seq<T>
    requires i < |s| && j < |s|
  {
    s[i := s[j]][j := s[i]]
  }

  lemma PermRefl<T>(s: seq<T>, lo: nat, hi: nat)
    requires lo <= hi <= |s|
    ensures Perm(s, s, lo, hi)
  {}

  lemma PermTrans<T>(s: seq<T>, t: seq<T>, u: seq<T>, lo: nat, hi: nat)
    requires Perm(s, t, lo, hi) && Perm(t, u, lo, hi)
    ensures Perm(s, u, lo, hi)
  {}

  lemma PermSwap<T>(s: seq<T>, i: nat, j: nat, lo: nat, hi: nat)
    requires lo <= i < hi <= |s| && lo <= j < hi
    ensures Perm(s, Swap(s, i, j), lo, hi)
  {
    var t := Swap(s, i, j);
    assert t[lo..hi] == s[lo..hi][i - lo := s[j]][j - lo := s[i]];
    assert t[..lo] == s[..lo] && t[hi..] == s[hi..];
  }

  /** A permutation of a part is one of the whole. */
  lemma PermWiden<T>(s: seq<T>, t: seq<T>, lo: nat, hi: nat, lo': nat, hi': nat)
    requires Perm(s, t, lo, hi) && lo' <= lo && hi <= hi' <= |s|
    ensures Perm(s, t, lo', hi')
  {
    Outside(s, t, lo, hi);
    assert s[lo'..hi'] == s[lo'..lo] + s[lo..hi] + s[hi..hi'];
    assert t[lo'..hi'] == t[lo'..lo] + t[lo..hi] + t[hi..hi'];
    assert s[lo'..lo] == t[lo'..lo] && s[hi..hi'] == t[hi..hi'];
    assert s[..lo'] == t[..lo'] && s[hi'..] == t[hi'..];
  }

  lemma Outside<T>(s: seq<T>, t: seq<T>, lo: nat, hi: nat)
    requires Perm(s, t, lo, hi)
    ensures forall i :: 0 <= i < lo || hi <= i < |s| ==> s[i] == t[i]
  {
    forall i | 0 <= i < lo || hi <= i < |s|
      ensures s[i] == t[i]
    {
      if i < lo {
        assert s[..lo][i] == t[..lo][i];
      } else {
        assert s[hi..][i - hi] == t[hi..][i - hi];
      }
    }
  }

  /** A value of the permuted range was there before. */
  lemma Origin<T>(s: seq<T>, t: seq<T>, lo: nat, hi: nat, i: nat) returns (k: nat)
    requires Perm(s, t, lo, hi) && lo <= i < hi
    ensures lo <= k < hi && s[k] == t[i]
  {
    assert t[i] == t[lo..hi][i - lo];
    assert t[i] in multiset(t[lo..hi]);
    assert t[i] in s[lo..hi];
    var m :| 0 <= m < hi - lo && s[lo..hi][m] == t[i];
    k := lo + m;
  }

  // ---- what the sort has done so far ----

  /** Within [lo, hi) every pair is in order unless both are in [a, b). */
  ghost predicate OrderedAround<T>(cmp: Compare<T>, s: seq<T>, lo: nat, a: nat, b: nat, hi: nat)
    requires hi <= |s|
  {
    forall i, j :: lo <= i < j < hi && (i < a || j >= b) ==> Le(cmp, s[i], s[j])
  }

  /** Permuting what is still unordered keeps the rest in order. */
  lemma AroundPerm<T>(cmp: Compare<T>, s: seq<T>, t: seq<T>, lo: nat, a: nat, b: nat, hi: nat)
    requires lo <= a <= b <= hi <= |s| && Perm(s, t, a, b) && OrderedAround(cmp, s, lo, a, b, hi)
    ensures OrderedAround(cmp, t, lo, a, b, hi)
  {
    Outside(s, t, a, b);
    forall i, j | lo <= i < j < hi && (i < a || j >= b)
      ensures Le(cmp, t[i], t[j])
    {
      var i', j' := i, j;
      if a <= i < b { i' := Origin(s, t, a, b, i); }
      if a <= j < b { j' := Origin(s, t, a, b, j); }
      assert Le(cmp, s[i'], s[j']);
    }
  }

  /** p splits [a, b): nothing above it before, nothing below it after. */
  ghost predicate Split<T>(cmp: Compare<T>, s: seq<T>, a: nat, p: nat, b: nat)
    requires a <= p < b <= |s|
  {
    && (forall i :: a <= i < p ==> Le(cmp, s[i], s[p]))
    && (forall i :: p < i < b ==> Le(cmp, s[p], s[i]))
  }

  /** The left of the split sorted: only the right is still unordered. */
  lemma SortedLeft<T(!new)>(cmp: Compare<T>, ok: T -> bool, s: seq<T>, t: seq<T>, lo: nat, a: nat, p: nat, b: nat, hi: nat)
    requires lo <= a <= p < b <= hi <= |s| && Preorder(cmp, ok) && (forall x :: x in s ==> ok(x))
    requires OrderedAround(cmp, s, lo, a, b, hi) && Split(cmp, s, a, p, b)
    requires Perm(s, t, a, p) && Sorted(cmp, t, a, p)
    ensures OrderedAround(cmp, t, lo, p + 1, b, hi)
  {
    PermWiden(s, t, a, p, a, b);
    AroundPerm(cmp, s, t, lo, a, b, hi);
    Outside(s, t, a, p);
    forall i, j | lo <= i < j < hi && (i < p + 1 || j >= b)
      ensures Le(cmp, t[i], t[j])
    {
      if a <= i && j < b {
        if i < p {
          var i' := Origin(s, t, a, p, i);
          assert s[i'] in s && s[p] in s;
          if j >= p {
            assert Le(cmp, s[i'], s[p]);
            if j > p { assert s[j] in s && Le(cmp, s[p], s[j]); }
          }
        }
      }
    }
  }

  lemma SortedRight<T(!new)>(cmp: Compare<T>, ok: T -> bool, s: seq<T>, t: seq<T>, lo: nat, a: nat, p: nat, b: nat, hi: nat)
    requires lo <= a <= p < b <= hi <= |s| && Preorder(cmp, ok) && (forall x :: x in s ==> ok(x))
    requires OrderedAround(cmp, s, lo, a, b, hi) && Split(cmp, s, a, p, b)
    requires Perm(s, t, p + 1, b) && Sorted(cmp, t, p + 1, b)
    ensures OrderedAround(cmp, t, lo, a, p, hi)
  {
    PermWiden(s, t, p + 1, b, a, b);
    AroundPerm(cmp, s, t, lo, a, b, hi);
    Outside(s, t, p + 1, b);
    forall i, j | lo <= i < j < hi && (i < a || j >= p)
      ensures Le(cmp, t[i], t[j])
    {
      if a <= i && j < b {
        if j > p {
          var j' := Origin(s, t, p + 1, b, j);
          assert s[j'] in s && s[p] in s;
          if i <= p {
            assert Le(cmp, s[p], s[j']);
            if i < p { assert s[i] in s && Le(cmp, s[i], s[p]); }
          }
        }
      }
    }
  }
}
