/** sqrt of rt/rt_math.c: a bitwise integer square root of the scaled significand, rounded by its remainder. */
module Sqrt {
  import opened Powers
  import opened Words
  import opened Binary64

  // ---- the 128-bit square ----

  /** v^2 as a pair of words. */
  method Sq128(v: nat) returns (hi: Word, lo: Word)
    requires v < 0x40_0000_0000_0000
    ensures hi * W64 + lo == v * v
  {
    var a, c := v / W32, v % W32;
    SquareParts(v, a, c);
    var cross: Word := a * c;
    var l: Word := c * c;
    var h := a * a;
    var l2 := (l + cross * 0x2_0000_0000 % W64) % W64;
    if l2 < l {
      h := h + 1;
    }
    lo := l2;
    CrossParts(a * a, cross, l, l2, h);
    hi := h + cross / 0x8000_0000;
  }

  lemma SquareParts(v: nat, a: nat, c: nat)
    requires v < 0x40_0000_0000_0000 && a == v / W32 && c == v % W32
    ensures a * c < 0x40_0000_0000_0000 && c * c < W64 && a * a < 0x1000_0000_0000
    ensures v * v == a * a * W64 + a * c * 0x2_0000_0000 + c * c
  {
    assert a < 0x40_0000 && c < W32 && v == a * W32 + c;
    MulBounds(a, 0x40_0000 - 1, c, W32 - 1);
    MulBounds(c, W32 - 1, c, W32 - 1);
    MulBounds(a, 0x40_0000 - 1, a, 0x40_0000 - 1);
    SquareOfSum(a, c, v);
  }

  lemma SquareOfSum(a: nat, c: nat, v: nat)
    requires v == a * W32 + c
    ensures v * v == a * a * W64 + a * c * 0x2_0000_0000 + c * c
  {
    var x := a * W32;
    assert v * v == x * x + 2 * (x * c) + c * c;
    assert x * x == a * a * (W32 * W32);
    assert x * c == (a * c) * W32;
  }

  /** The shifted cross term splits over the two words, and the carry is the wrap of the low one. */
  lemma CrossParts(h0: nat, cross: nat, l: nat, l2: nat, h: nat)
    requires h0 < 0x1000_0000_0000 && cross < 0x40_0000_0000_0000 && l < W64
    requires l2 == (l + cross * 0x2_0000_0000 % W64) % W64 && h == h0 + if l2 < l then 1 else 0
    ensures h + cross / 0x8000_0000 < W64
    ensures (h + cross / 0x8000_0000) * W64 + l2 == h0 * W64 + cross * 0x2_0000_0000 + l
  {
    var q, r := cross / 0x8000_0000, cross % 0x8000_0000;
    DivModUnique(cross * 0x2_0000_0000, W64, q, r * 0x2_0000_0000);
    var low := r * 0x2_0000_0000;
    assert l + low == l2 + if l2 < l then W64 else 0;
  }

  // ---- the integer square root ----

  /** root holds the bits above i of the root of t. */
  ghost predicate RootSoFar(root: nat, i: nat, t: nat) {
    && root % Pow(2, i) == 0 && root + Pow(2, i) <= Pow(2, 54)
    && root * root <= t < (root + Pow(2, i)) * (root + Pow(2, i))
  }

  /** One bit: keep it if the square still fits. */
  lemma RootStep(root: nat, i: nat, t: nat)
    requires RootSoFar(root, i + 1, t)
    ensures var p := Pow(2, i);
            && Or(root, p) == root + p && root + p < Pow(2, 54)
            && RootSoFar(if (root + p) * (root + p) <= t then root + p else root, i, t)
  {
    var p := Pow(2, i);
    assert Pow(2, i + 1) == 2 * p;
    OrDisjoint(root, p, i + 1);
    EvenMultiple(root, p);
  }

  lemma EvenMultiple(root: nat, p: nat)
    requires p > 0 && root % (2 * p) == 0
    ensures root % p == 0 && (root + p) % p == 0
  {
    var q := root / (2 * p);
    assert root == 2 * p * q == p * (2 * q);
    ExactMultiple(2 * q, p);
    assert root + p == p * (2 * q + 1);
    ExactMultiple(2 * q + 1, p);
  }

  /** The root of t = hi:lo, rounded down. */
  method FloorRoot(hi: Word, lo: Word) returns (root: nat)
    requires hi * W64 + lo < Pow(2, 54) * Pow(2, 54)
    ensures root < 0x40_0000_0000_0000
    ensures root * root <= hi * W64 + lo < (root + 1) * (root + 1)
  {
    ghost var t := hi * W64 + lo;
    root := 0;
    Pow2To64();
    var i := 54;
    hide Pow;
    while i > 0
      invariant 0 <= i <= 54 && RootSoFar(root, i, t)
    {
      i := i - 1;
      RootStep(root, i, t);
      var bit := Or(root, Pow(2, i));
      var thi, tlo := Sq128(bit);
      if thi < hi || (thi == hi && tlo <= lo) {
        root := bit;
      }
    }
    RootDone(root, t);
  }

  lemma RootDone(root: nat, t: nat)
    requires RootSoFar(root, 0, t)
    ensures root < Pow(2, 54) && root * root <= t < (root + 1) * (root + 1)
  {
    assert Pow(2, 0) == 1;
  }

  // ---- rounding by the remainder ----

  /** root is the integer nearest to the root of t; no root of an integer is halfway between two. */
  predicate RoundedRoot(root: nat, t: nat) {
    (2 * root - 1) * (2 * root - 1) < 4 * t < (2 * root + 1) * (2 * root + 1)
  }

  lemma RoundByRemainder(root: nat, t: nat)
    requires root * root <= t < (root + 1) * (root + 1)
    ensures root > 0 ==> RoundedRoot(if t - root * root > root then root + 1 else root, t)
  {
    var s := root * root;
    assert (root + 1) * (root + 1) == s + 2 * root + 1;
    assert (2 * root - 1) * (2 * root - 1) == 4 * s - 4 * root + 1;
    assert (2 * root + 1) * (2 * root + 1) == 4 * s + 4 * root + 1;
    assert (2 * root + 3) * (2 * root + 3) == 4 * s + 12 * root + 9;
    var up := root + 1;
    assert 2 * up - 1 == 2 * root + 1 && 2 * up + 1 == 2 * root + 3;
  }

  /** Word subtraction with borrow. */
  lemma BorrowSub(hi: Word, lo: Word, rhi: Word, rlo: Word)
    requires rhi * W64 + rlo <= hi * W64 + lo
    ensures rhi <= hi
    ensures ((hi - rhi) - if lo < rlo then 1 else 0) * W64 + (lo - rlo) % W64 == hi * W64 + lo - (rhi * W64 + rlo)
    ensures (hi - rhi) - (if lo < rlo then 1 else 0) >= 0
  {
    if lo < rlo {
      assert (lo - rlo) % W64 == lo - rlo + W64;
    }
  }

  /** The root of t = hi:lo, rounded to the nearest integer. */
  method NearestRoot(hi: Word, lo: Word) returns (root: nat)
    requires 0 < hi * W64 + lo < Pow(2, 54) * Pow(2, 54)
    ensures root <= 0x40_0000_0000_0000 && RoundedRoot(root, hi * W64 + lo)
  {
    root := FloorRoot(hi, lo);
    ghost var t := hi * W64 + lo;
    var rhi, rlo := Sq128(root);
    BorrowSub(hi, lo, rhi, rlo);
    RoundByRemainder(root, t);
    assert t - root * root <= 2 * root by { assert (root + 1) * (root + 1) == root * root + 2 * root + 1; }
    var remLo := (lo - rlo) % W64;
    var remHi := (hi - rhi) % W64;
    if lo < rlo {
      remHi := (remHi - 1) % W64;
    }
    SmallRemainder(hi, lo, rhi, rlo, remHi, remLo, t - root * root);
    if remHi > 0 || remLo > root {
      root := root + 1;
    }
  }

  lemma SmallRemainder(hi: Word, lo: Word, rhi: Word, rlo: Word, remHi: nat, remLo: nat, rem: nat)
    requires rhi <= hi && rem == hi * W64 + lo - (rhi * W64 + rlo) && rem < W64
    requires remLo == (lo - rlo) % W64
    requires remHi == if lo < rlo then ((hi - rhi) % W64 - 1) % W64 else (hi - rhi) % W64
    ensures remHi == 0 && remLo == rem
  {
    BorrowSub(hi, lo, rhi, rlo);
  }

  // ---- what correctly rounded means for a root ----

  /** The least real that rounds to k: half a unit below, a quarter where the unit below is halved. */
  ghost function LowEdge(k: nat): real { if k == TWO52 then k as real - 0.25 else k as real - 0.5 }

  ghost function Sq(x: real): real { x * x }

  /** x is strictly between the squares of the points where rounding to k * 2^f begins and ends. */
  ghost predicate RootRounds(x: real, k: nat, f: int) {
    Sq(Times(LowEdge(k), Scale2(f))) < x < Sq(Times(k as real + 0.5, Scale2(f)))
  }

  /** The root of x, whatever it is exactly, is closer to k * 2^f than to any other double. */
  lemma RootIsClosest(x: real, k: nat, f: int, s: real, k': nat, f': int)
    requires Canonical(k, f) && RootRounds(x, k, f) && s >= 0.0 && Sq(s) == x
    requires k' < TWO53 && Value(k', f') != Value(k, f)
    ensures Gap(s, k, f) < Gap(s, k', f')
  {
    hide Scale2;
    var u := Scale2(f);
    var lo, hi := Times(LowEdge(k), u), Times(k as real + 0.5, u);
    TimesOrder(0.0, LowEdge(k), u);
    TimesOrder(0.0, k as real + 0.5, u);
    TimesMinus(0.0, 0.0, u);
    SqOrder(lo, s);
    SqOrder(s, hi);
    hide Times, RootRounds;
    if f <= f' {
      ValueAtLower(k', f', f);
      ApartAbove(s, k, u, k' * Pow(2, f' - f));
    } else {
      ValueBelow(k', f', f);
      ApartBelow(s, k, u, Value(k', f'));
    }
  }

  lemma SqOrder(a: real, b: real)
    requires a >= 0.0 && b >= 0.0 && Sq(a) < Sq(b)
    ensures a < b
  {
    assert Sq(b) - Sq(a) == (b - a) * (b + a);
  }

  lemma ApartAbove(s: real, k: nat, u: real, j: nat)
    requires u > 0.0 && Times(LowEdge(k), u) < s < Times(k as real + 0.5, u) && Times(j as real, u) != Times(k as real, u)
    ensures RAbs(s - Times(k as real, u)) < RAbs(s - Times(j as real, u))
  {
    hide Times;
    var x := k as real;
    TimesMinus(x + 0.5, x, u);
    TimesMinus(x, LowEdge(k), u);
    TimesMinus(j as real, x, u);
    TimesMinus(x, j as real, u);
    var half := Times(0.5, u);
    TimesOrder(0.25, 0.5, u);
    TimesMinus(1.0, 0.5, u);
    TimesOrder(x + 0.5, x, u);
    if j > k {
      TimesOrder(j as real - x, 1.0, u);
    } else {
      assert j != k;
      TimesOrder(x - j as real, 1.0, u);
    }
  }

  lemma ApartBelow(s: real, k: nat, u: real, v: real)
    requires u > 0.0 && k >= TWO52 && Times(LowEdge(k), u) < s < Times(k as real + 0.5, u)
    requires v <= Times(TWO52 as real - 0.5, u)
    ensures RAbs(s - Times(k as real, u)) < RAbs(s - v)
  {
    hide Times;
    var x, t := k as real, TWO52 as real;
    TimesMinus(x + 0.5, x, u);
    TimesMinus(x, LowEdge(k), u);
    TimesMinus(LowEdge(k), t - 0.5, u);
    TimesOrder(0.25, 0.5, u);
    TimesMinus(0.5, 0.25, u);
    if k == TWO52 {
      assert LowEdge(k) - (t - 0.5) == 0.25 && x - LowEdge(k) == 0.25;
    } else {
      TimesOrder(LowEdge(k) - (t - 0.5), 0.5, u);
    }
  }

  // ---- exponents ----

  lemma {:induction false} Scale2Square(h: int)
    ensures Scale2(2 * h) == Sq(Scale2(h))
    decreases if h < 0 then 0 - h else h
  {
    hide Scale2;
    if h > 0 {
      Scale2Square(h - 1);
      Scale2Succ(h - 1);
      Scale2Succ(2 * h - 2);
      Scale2Succ(2 * h - 1);
    } else if h < 0 {
      Scale2Square(h + 1);
      Scale2Succ(h);
      Scale2Succ(2 * h);
      Scale2Succ(2 * h + 1);
    } else {
      ScaleZero();
    }
  }

  lemma ScaleZero()
    ensures Scale2(0) == 1.0
  {
    assert Pow(2, 0) == 1;
  }

  /** The significand with its exponent made even. */
  function Evened(m: nat, e: int): (nat, int) { if e % 2 == 1 then (2 * m, e - 1) else (m, e) }

  /** m * 2^e is the 106-bit target in units of the square of 2^h. */
  lemma TargetIs(m: nat, e: int, h: int)
    requires h == (Evened(m, e).1 - 52) / 2
    ensures Value(m, e) == Times((Evened(m, e).0 * TWO52) as real, Sq(Scale2(h)))
  {
    hide Scale2, Times;
    var d := e - 2 * h;
    assert d == 52 || d == 53;
    Pow2To64();
    ValueAtLower(m, e, 2 * h);
    Scale2Square(h);
    hide Pow;
    assert m * Pow(2, d) == Evened(m, e).0 * TWO52;
  }

  lemma RootRange(root: nat, n: nat)
    requires TWO52 <= n < 2 * TWO53 && RoundedRoot(root, n * TWO52)
    ensures TWO52 <= root <= TWO53
  {
    var r := 2 * root;
    assert TWO53 * TWO53 <= 4 * (n * TWO52) < 2 * TWO53 * (2 * TWO53);
    if root < TWO52 {
      MulBounds(r + 1, TWO53, r + 1, TWO53);
    }
    if root > TWO53 {
      MulBounds(2 * TWO53, r - 1, 2 * TWO53, r - 1);
    }
  }

  lemma SqTimes(a: real, u: real)
    ensures Sq(Times(a, u)) == Times(Sq(a), Sq(u))
  {}

  /** Rounding the root of the target to an integer rounds the root of x to a double. */
  lemma RootRoundsIs(n: nat, root: nat, h: int, x: real)
    requires TWO52 <= n < 2 * TWO53 && RoundedRoot(root, n * TWO52) && x == Times((n * TWO52) as real, Sq(Scale2(h)))
    ensures var (k, f) := Renorm(root, h); Canonical(k, f) && RootRounds(x, k, f)
  {
    RootRange(root, n);
    var (k, f) := Renorm(root, h);
    var u, tgt := Scale2(h), (n * TWO52) as real;
    EdgeScales(root, h);
    hide Scale2, Times, RoundedRoot;
    var lo := if root == TWO52 then LowEdge(root) else root as real - 0.5;
    BracketReal(root, n, lo);
    assert Sq(u) > 0.0 by { assert u * u > 0.0; }
    SqTimes(lo, u);
    SqTimes(root as real + 0.5, u);
    TimesOrder(Sq(lo), tgt, Sq(u));
    TimesOrder(tgt, Sq(root as real + 0.5), Sq(u));
    SqGrows(Times(root as real + 0.5, u), Times(k as real + 0.5, Scale2(f))) by {
      TimesMinus(0.0, 0.0, u);
      TimesOrder(0.0, root as real + 0.5, u);
    }
  }

  lemma SqGrows(a: real, b: real)
    requires 0.0 <= a <= b
    ensures Sq(a) <= Sq(b)
  {
    assert Sq(b) - Sq(a) == (b - a) * (b + a);
  }

  /** Renormalising keeps the lower edge and does not lower the upper one. */
  lemma EdgeScales(root: nat, h: int)
    requires TWO52 <= root <= TWO53
    ensures var (k, f) := Renorm(root, h);
            && Times(LowEdge(k), Scale2(f)) == Times(if root == TWO52 then LowEdge(root) else root as real - 0.5, Scale2(h))
            && Times(root as real + 0.5, Scale2(h)) <= Times(k as real + 0.5, Scale2(f))
  {
    hide Scale2;
    Scale2Succ(h);
    var u := Scale2(h);
    if root == TWO53 {
      assert (TWO52 as real - 0.25) * (2.0 * u) == (TWO53 as real - 0.5) * u;
      assert (TWO52 as real + 0.5) * (2.0 * u) == (TWO53 as real + 1.0) * u;
      TimesOrder(root as real + 0.5, root as real + 1.0, u);
    }
  }

  lemma BracketReal(root: nat, n: nat, lo: real)
    requires TWO52 <= n && RoundedRoot(root, n * TWO52) && root >= TWO52
    requires lo == if root == TWO52 then LowEdge(root) else root as real - 0.5
    ensures Sq(lo) < (n * TWO52) as real < Sq(root as real + 0.5)
  {
    var t, r := n * TWO52, root as real;
    RealMul(2 * root - 1, 2 * root - 1);
    RealMul(2 * root + 1, 2 * root + 1);
    assert 4.0 * Sq(r - 0.5) == ((2 * root - 1) * (2 * root - 1)) as real by {
      assert (2 * root - 1) as real == 2.0 * r - 1.0;
    }
    assert 4.0 * Sq(r + 0.5) == ((2 * root + 1) * (2 * root + 1)) as real by {
      assert (2 * root + 1) as real == 2.0 * r + 1.0;
    }
    if root == TWO52 {
      RealMul(root, root);
      MulMonotonic(TWO52, TWO52, n);
      assert Sq(r) <= t as real;
      assert Sq(r) - Sq(r - 0.25) == 0.25 * (r + r - 0.25);
    }
  }

  // ---- the function ----

  /** m * 2^e with m in [2^52, 2^53) as bits. */
  function MakeFromMant(m: nat, e: int): nat
    requires 0 < e + 1075 < 0x7FF
  {
    Or((e + 1075) * TWO52, m % TWO52)
  }

  lemma MadeFromMant(m: nat, e: int)
    requires Canonical(m, e) && 0 < e + 1075 < 0x7FF
    ensures Unpack(MakeFromMant(m, e)) == Finite(false, m, e)
  {
    Pow2To64();
    ExactMultiple(e + 1075, TWO52);
    OrDisjoint((e + 1075) * TWO52, m % TWO52, 52);
    UnpackFields(false, e + 1075, m % TWO52);
  }

  lemma SplitTarget(m: nat)
    requires TWO52 <= m < 2 * TWO53
    ensures m / 0x1000 < W64 && m / 0x1000 * W64 + m * TWO52 % W64 == m * TWO52
    ensures 0 < m * TWO52 < Pow(2, 54) * Pow(2, 54)
  {
    Pow2To64();
    var q, r := m / 0x1000, m % 0x1000;
    assert m * TWO52 == q * W64 + r * TWO52;
  }

  /** The fields of a positive normal double. */
  lemma NormalFields(b: nat)
    requires b < TWO63 && Unpack(b).Finite? && Unpack(b).m >= TWO52
    ensures Or(TWO52, b % TWO52) == Unpack(b).m && b / TWO52 % 0x800 - 1075 == Unpack(b).e2
    ensures Canonical(Unpack(b).m, Unpack(b).e2) && -1074 <= Unpack(b).e2 <= 971
  {
    Pow2To64();
    ExactMultiple(1, TWO52);
    OrDisjoint(TWO52, b % TWO52, 52);
  }

  /** The root of a positive normal double. */
  method SqrtNormal(b: nat) returns (r: nat)
    requires b < TWO63 && Unpack(b).Finite? && Unpack(b).m >= TWO52
    ensures var Finite(_, m, e) := Unpack(b);
            var d := Unpack(r);
            && r < INF_BITS && d.Finite? && !d.neg && Canonical(d.m, d.e2) && RootRounds(Value(m, e), d.m, d.e2)
            && e - 55 <= 2 * d.e2 <= e - 49
  {
    hide Unpack, Or;
    NormalFields(b);
    ghost var Finite(_, m0, e0) := Unpack(b);
    var m, exp := Or(TWO52, b % TWO52), b / TWO52 % 0x800 - 1075;
    if exp % 2 == 1 {
      m, exp := m * 2 % W64, exp - 1;
    }
    r := SqrtEven(m, exp, m0, e0);
  }

  /** From the significand with an even exponent. */
  method SqrtEven(m: nat, exp: int, ghost m0: nat, ghost e0: int) returns (r: nat)
    requires Canonical(m0, e0) && -1074 <= e0 <= 971 && (m, exp) == Evened(m0, e0)
    ensures var d := Unpack(r);
            && r < INF_BITS && d.Finite? && !d.neg && Canonical(d.m, d.e2) && RootRounds(Value(m0, e0), d.m, d.e2)
            && e0 - 55 <= 2 * d.e2 <= e0 - 49
  {
    hide RoundedRoot, RootRounds, Scale2, Value, Unpack, Pow, Or, MakeFromMant;
    SplitTarget(m);
    var root := NearestRoot(m / 0x1000, m * TWO52 % W64);
    var rexp := (exp - 52) / 2;
    RootRange(root, m);
    TargetIs(m0, e0, rexp);
    RootRoundsIs(m, root, rexp, Value(m0, e0));
    if root >= TWO53 {
      root, rexp := root / 2, rexp + 1;
    }
    MadeFromMant(root, rexp);
    MadeBelowInf(root, rexp);
    r := MakeFromMant(root, rexp);
  }

  lemma MadeBelowInf(m: nat, e: int)
    requires Canonical(m, e) && 0 < e + 1075 < 0x7FF
    ensures MakeFromMant(m, e) < INF_BITS
  {
    Pow2To64();
    ExactMultiple(e + 1075, TWO52);
    OrDisjoint((e + 1075) * TWO52, m % TWO52, 52);
  }

  // ---- every double ----

  /** A significand below 2^52 shifted up to it: what multiplying a denormal into the normal range gives. */
  function Normalise(m: nat, e: int): (nat, int)
    requires 0 < m < TWO53
    decreases TWO52 - m
  {
    if m >= TWO52 then (m, e) else Normalise(2 * m, e - 1)
  }

  lemma {:induction false} NormaliseKeeps(m: nat, e: int, j: nat)
    requires 0 < m < TWO53 && m * Pow(2, j) >= TWO52
    ensures var (k, f) := Normalise(m, e); Canonical(k, f) && e - j <= f <= e && Value(k, f) == Value(m, e)
    decreases TWO52 - m
  {
    if m < TWO52 {
      assert j > 0 by { assert Pow(2, 0) == 1; }
      MulAssoc(m, 2, Pow(2, j - 1));
      NormaliseKeeps(2 * m, e - 1, j - 1);
      ValueTwice(m, e);
    }
  }

  lemma ValueTwice(m: nat, e: int)
    ensures Value(2 * m, e - 1) == Value(m, e)
  {
    hide Scale2;
    Scale2Succ(e - 1);
  }

  /** Multiplying the argument by 2^(2c) multiplies the root by 2^c. */
  lemma RootScales(m: nat, e: int, k: nat, f: int, c: nat)
    requires RootRounds(Value(m, e + 2 * c), k, f)
    ensures RootRounds(Value(m, e), k, f - c)
  {
    hide Scale2;
    var u, v, p := Scale2(f), Scale2(f - c), Scale2(c);
    ScaleSum(f - c, c);
    ScaleSum(e, 2 * c);
    Scale2Square(c);
    var lo, hi, x, y := LowEdge(k), k as real + 0.5, Value(m, e + 2 * c), Value(m, e);
    hide LowEdge;
    ScaledSq(lo, v, p, u);
    ScaledSq(hi, v, p, u);
    assert x == Times(y, Sq(p)) by {
      assert Scale2(e + 2 * c) == Times(Scale2(e), Sq(p));
      TimesAssoc(m as real, Scale2(e), Sq(p));
    }
    hide Times, Value;
    assert Sq(p) > 0.0 by { assert p * p > 0.0; }
    TimesOrder(Sq(Times(lo, v)), y, Sq(p));
    TimesOrder(y, Sq(Times(hi, v)), Sq(p));
  }

  lemma ScaledSq(a: real, v: real, p: real, u: real)
    requires u == Times(v, p)
    ensures Sq(Times(a, u)) == Times(Sq(Times(a, v)), Sq(p))
  {
    var y := a * v;
    assert a * u == y * p;
  }

  lemma ScaleSum(e: int, c: nat)
    ensures Scale2(e + c) == Times(Scale2(e), Scale2(c))
  {
    hide Pow;
    assert Scale2(c) == Pow(2, c) as real;
    hide Scale2;
    Scale2Up(e, c);
    var u, v := Scale2(e), Scale2(c);
    assert Times(v, u) == Times(u, v);
  }

  const DENORMAL := -1074

  /** For a positive finite argument the double closest to its root, with no tie; the others as they are, or NaN
      below zero. Multiplying a denormal by 2^108, and the root by 2^-54, is exact: both products are normal. */
  method Sqrt(b: nat) returns (r: nat)
    requires b < 2 * TWO63
    ensures Unpack(b).NotANumber? || Unpack(b) == Infinite(false) ==> r == b
    ensures Unpack(b) == Infinite(true) ==> r == NAN_BITS
    ensures Unpack(b).Finite? && Unpack(b).m == 0 ==> r == b
    ensures Unpack(b).Finite? && Unpack(b).m > 0 && Unpack(b).neg ==> r == NAN_BITS
    ensures Unpack(b).Finite? && Unpack(b).m > 0 && !Unpack(b).neg ==>
              var x, d := Unpack(b), Unpack(r);
              d.Finite? && !d.neg && Canonical(d.m, d.e2) && RootRounds(Value(x.m, x.e2), d.m, d.e2)
  {
    hide RootRounds, Value;
    var x := Unpack(b);
    if x == Infinite(true) || (x.Finite? && x.m > 0 && x.neg) {
      return NAN_BITS;
    }
    if x.NotANumber? || x.Infinite? || x.m == 0 {
      return b;
    }
    if b / TWO52 % 0x800 == 0 {
      r := SqrtDenormal(x.m);
    } else {
      r := SqrtNormal(b);
    }
  }

  method SqrtDenormal(m: nat) returns (r: nat)
    requires 0 < m < TWO52
    ensures var d := Unpack(r);
            d.Finite? && !d.neg && Canonical(d.m, d.e2) && RootRounds(Value(m, DENORMAL), d.m, d.e2)
  {
    hide RootRounds, Value, Unpack, Pow, MakeFromMant, Normalise;
    assert m * Pow(2, 52) >= TWO52 by {
      Pow2To64();
      MulMonotonic(TWO52, 1, m);
    }
    NormaliseKeeps(m, DENORMAL + 108, 52);
    var (k, f) := Normalise(m, DENORMAL + 108);
    MadeFromMant(k, f);
    MadeBelowInf(k, f);
    var y := SqrtNormal(MakeFromMant(k, f));
    var d := Unpack(y);
    RootScales(m, DENORMAL, d.m, d.e2, 54);
    MadeFromMant(d.m, d.e2 - 54);
    r := MakeFromMant(d.m, d.e2 - 54);
  }

}
