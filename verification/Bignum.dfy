/** The base 10^9 bignum shared by rt_format.c (Bn) and rt_scan.c (Sbn): a fixed buffer of
    100 limbs, little endian, updated in place through 64-bit intermediates. */
module Bignum {
  import opened Powers
  import opened Decimal

  const BASE := 1_000_000_000

  // The buffers hold exactly 100 limbs. The bound is given by a type, not a literal, so that the
  // verifier treats Pow(BASE, CAP) as a symbol instead of multiplying out 900 digits.
  type Capacity = c: nat | 99 < c < 101 witness 100
  const CAP: Capacity

  // 64-bit unsigned words. Assigning to one obliges the proof to show no wrap-around happens.
  type u64 = x: int | 0 <= x < 0x1_0000_0000_0000_0000

  /** What the first limbs denote. */
  ghost function Val(s: seq<int>): int {
    if s == [] then 0 else Val(s[..|s| - 1]) + s[|s| - 1] * Pow(BASE, |s| - 1)
  }

  ghost predicate Limbs(s: seq<int>) { forall i :: 0 <= i < |s| ==> 0 <= s[i] < BASE }

  lemma PowStep(i: nat)
    ensures Pow(BASE, i + 1) == BASE * Pow(BASE, i)
  {
  }

  lemma ValSnoc(s: seq<int>, x: int)
    ensures Val(s + [x]) == Val(s) + x * Pow(BASE, |s|)
  {
    assert (s + [x])[..|s|] == s;
  }

  lemma {:induction false} ValBounds(s: seq<int>)
    requires Limbs(s)
    ensures 0 <= Val(s) < Pow(BASE, |s|)
  {
    if s != [] {
      var u, p := s[..|s| - 1], Pow(BASE, |s| - 1);
      ValBounds(u);
      MulMonotonic(p, s[|s| - 1], BASE - 1);
      MulMonotonic(p, 0, s[|s| - 1]);
      assert p * (BASE - 1) + p == Pow(BASE, |s|);
    }
  }

  /** A zero limb on top adds nothing. */
  lemma ValDropZero(s: seq<int>)
    requires s != [] && s[|s| - 1] == 0
    ensures Val(s) == Val(s[..|s| - 1])
  {
  }

  lemma ValTop(s: seq<int>)
    requires Limbs(s) && s != [] && s[|s| - 1] != 0
    ensures Pow(BASE, |s| - 1) <= Val(s) < Pow(BASE, |s|)
  {
    ValBounds(s);
    ValBounds(s[..|s| - 1]);
    MulMonotonic(Pow(BASE, |s| - 1), 1, s[|s| - 1]);
  }

  /** Where one carry step goes: the limb written at i and the carry out of it. */
  lemma CarryStep(i: nat, t: int)
    ensures t * Pow(BASE, i) == t % BASE * Pow(BASE, i) + t / BASE * Pow(BASE, i + 1)
  {
    var p := Pow(BASE, i);
    assert t == t % BASE + t / BASE * BASE;
    assert (t / BASE * BASE) * p == t / BASE * (BASE * p);
    assert (t % BASE + t / BASE * BASE) * p == t % BASE * p + (t / BASE * BASE) * p;
  }

  /** Truncating a carry that no longer fits drops a multiple of BASE^CAP. */
  lemma TruncateMod(v: int, c: int, full: int)
    requires full == v + c * Pow(BASE, CAP) && 0 <= v < Pow(BASE, CAP)
    ensures v == full % Pow(BASE, CAP)
  {
    DivModUnique(full, Pow(BASE, CAP), c, v);
  }

  class Big {
    var limb: array<int>
    var n: nat

    /** Limbs in range, and no leading zero limb unless the buffer is full: what an overflow leaves behind. */
    ghost predicate Sound()
      reads this, limb
      ensures Sound() ==> n <= limb.Length
    {
      && limb.Length == CAP
      && n <= CAP
      && Limbs(limb[..n])
      && (0 < n < CAP ==> limb[n - 1] != 0)
    }

    /** Sound, and no leading zero limb at all, so that n orders values. */
    ghost predicate Valid()
      reads this, limb
      ensures Valid() ==> n <= limb.Length && Sound()
    {
      && limb.Length == CAP
      && n <= CAP
      && Limbs(limb[..n])
      && (n > 0 ==> limb[n - 1] != 0)
    }

    ghost function Value(): int
      reads this, limb
      requires n <= limb.Length
    {
      Val(limb[..n])
    }

    lemma InRange()
      requires Sound()
      ensures 0 <= Value() < Pow(BASE, CAP) && n <= CAP
    {
      ValBounds(limb[..n]);
      PowMonotonic(BASE, n, CAP);
    }

    /** Without a leading zero limb a sound buffer is canonical. */
    lemma Canonical()
      requires Valid()
      ensures Sound()
    {}

    constructor Zero()
      ensures Valid() && Value() == 0 && fresh(limb)
    {
      limb := new int[CAP](_ => 0);
      n := 0;
    }

    /** Struct assignment: an independent copy. */
    constructor Copy(b: Big)
      requires b.Sound()
      ensures Sound() && Value() == b.Value() && n == b.n && fresh(limb) && (b.Valid() ==> Valid())
    {
      limb := new int[CAP](i requires 0 <= i < CAP && b.limb.Length == CAP reads b, b.limb => b.limb[i]);
      n := b.n;
      new;
      assert limb[..n] == b.limb[..n];
    }

    /** sbn_is_zero: no limbs in use, which without a leading zero limb means zero. */
    method IsZero() returns (z: bool)
      requires Sound()
      ensures z == (n == 0)
      ensures Valid() ==> z == (Value() == 0)
    {
      z := n == 0;
      if n > 0 && Valid() {
        ValTop(limb[..n]);
      }
    }

    method FromU64(v: u64)
      requires limb.Length == CAP
      modifies this, limb
      ensures Valid() && Value() == v && limb == old(limb)
    {
      hide Val, Pow, Weighted;
      n := 0;
      var r: u64 := v;
      ghost var s := [];
      WeightedEmpty(v);
      while r != 0
        invariant limb == old(limb) && limb.Length == CAP && n <= 3
        invariant s == limb[..n] && Limbs(s) && Weighted(s, r) == v
        invariant n > 0 && r == 0 ==> s[n - 1] != 0
        invariant n == 1 ==> r < 20_000_000_000
        invariant n == 2 ==> r < 20
        invariant n == 3 ==> r == 0
        decreases r
      {
        CarryPush(s, r);
        s := s + [r % BASE];
        limb[n] := r % BASE;
        n := n + 1;
        assert limb[..n] == s;
        r := r / BASE;
      }
      WeightedZero(s);
    }

    /** The shared limb loop of sbn_push_digit, sbn_mul_small, bn_shl and bn_mul_pow10. What does
        not fit the buffer is cut off: the result is exact modulo BASE^CAP. */
    method MulAdd(m: int, d: int)
      requires Sound() && 0 < m <= 0x1_0000_0000 && 0 <= d < m
      modifies this, limb
      ensures Sound() && limb == old(limb) && n >= old(n)
      ensures Value() == (old(Value()) * m + d) % Pow(BASE, CAP)
      ensures old(Valid()) && old(Value()) * m + d < Pow(BASE, CAP) ==> Valid()
      ensures old(Value()) * m + d >= Pow(BASE, CAP) ==> n == CAP
    {
      hide Val, Pow, MulInv;
      ghost var s0, s := limb[..n], [];
      ghost var lead := n > 0 ==> limb[n - 1] != 0;
      var carry: u64 := d;
      MulStart(m, d);
      var i := 0;
      while i < n
        invariant 0 <= i <= n == old(n) && limb == old(limb) && |s| == i
        invariant 0 <= carry < m
        invariant limb[..i] == s && Limbs(s)
        invariant forall k :: i <= k < n ==> limb[k] == s0[k]
        invariant MulInv(s, carry, s0[..i], m, d)
        invariant lead && i == n > 0 ==> s[n - 1] != 0 || carry != 0
      {
        var l := limb[i];
        assert l == s0[i];
        PrefixSnoc(s0, i);
        MulWord(l, carry, m);
        var t: u64 := l * m + carry;
        MulStep(s, s0[..i], l, carry, m, d, t);
        s := s + [t % BASE];
        limb[i] := t % BASE;
        assert limb[..i + 1] == s;
        carry := t / BASE;
        i := i + 1;
      }
      assert s0[..n] == s0 && limb[..n] == s;
      MulDone(s, carry, s0, m, d);
      PushCarry(carry, old(Value()) * m + d, lead);
    }

    /** The carry loop that closes every multiplication pass; lead says that no zero limb leads so far. */
    method PushCarry(c: u64, ghost full: int, ghost lead: bool)
      requires limb.Length == CAP && n <= CAP && Limbs(limb[..n])
      requires Weighted(limb[..n], c) == full
      requires lead && c == 0 && n > 0 ==> limb[n - 1] != 0
      requires n < CAP ==> lead
      modifies this, limb
      ensures Sound() && limb == old(limb) && n >= old(n)
      ensures Value() == full % Pow(BASE, CAP)
      ensures lead && full < Pow(BASE, CAP) ==> Valid()
      ensures full >= Pow(BASE, CAP) ==> n == CAP
    {
      hide Val, Pow, Weighted;
      var carry: u64 := c;
      ghost var s := limb[..n];
      while carry != 0 && n < CAP
        invariant limb == old(limb) && n <= CAP && s == limb[..n] && Limbs(s)
        invariant Weighted(s, carry) == full
        invariant lead && carry == 0 && n > 0 ==> s[n - 1] != 0
        invariant n >= old(n) && (n < CAP ==> lead)
        decreases carry
      {
        CarryPush(s, carry);
        s := s + [carry % BASE];
        limb[n] := carry % BASE;
        n := n + 1;
        assert limb[..n] == s;
        carry := carry / BASE;
      }
      CarryOut(s, carry, full);
    }

    /** sbn_push_digit: b = b*10 + d. */
    method PushDigit(d: int)
      requires Sound() && 0 <= d < 10
      modifies this, limb
      ensures Sound() && limb == old(limb) && n >= old(n)
      ensures Value() == (old(Value()) * 10 + d) % Pow(BASE, CAP)
      ensures old(Valid()) && old(Value()) * 10 + d < Pow(BASE, CAP) ==> Valid() && Value() == old(Value()) * 10 + d
      ensures old(Value()) * 10 + d >= Pow(BASE, CAP) ==> n == CAP
    {
      ValBounds(limb[..n]);
      if Value() * 10 + d < Pow(BASE, CAP) { DivModUnique(Value() * 10 + d, Pow(BASE, CAP), 0, Value() * 10 + d); }
      MulAdd(10, d);
    }

    /** sbn_mul_small (sbn_double for m = 2). */
    method MulSmall(m: int)
      requires Sound() && 0 < m <= 0x1_0000_0000
      modifies this, limb
      ensures Sound() && limb == old(limb) && n >= old(n)
      ensures Value() == old(Value()) * m % Pow(BASE, CAP)
      ensures old(Valid()) && old(Value()) * m < Pow(BASE, CAP) ==> Valid() && Value() == old(Value()) * m
      ensures old(Value()) * m >= Pow(BASE, CAP) ==> n == CAP
    {
      ValBounds(limb[..n]);
      MulMonotonic(m, 0, Value());
      if Value() * m < Pow(BASE, CAP) { DivModUnique(Value() * m, Pow(BASE, CAP), 0, Value() * m); }
      MulAdd(m, 0);
    }

    /** bn_shl: b *= 2^k, at most 29 bits a pass. */
    method Shl(k: nat)
      requires Valid() && Value() * Pow(2, k) < Pow(BASE, CAP)
      modifies this, limb
      ensures Valid() && Value() == old(Value()) * Pow(2, k) && limb == old(limb)
    {
      var j := k;
      ghost var v0 := Value();
      ValBounds(limb[..n]);
      while j > 0
        invariant 0 <= j <= k && limb == old(limb) && Valid()
        invariant Value() * Pow(2, j) == v0 * Pow(2, k)
      {
        var step := if j > 29 then 29 else j;
        PowAdd(2, step, j - step);
        PowMonotonic(2, step, 29);
        Pow2To29();
        ghost var v := Value();
        ValBounds(limb[..n]);
        StepFits(v, Pow(2, step), Pow(2, j - step), v0 * Pow(2, k));
        MulSmall(Pow(2, step));
        j := j - step;
      }
    }

    /** The power of ten one pass of bn_mul_pow10 multiplies by. */
    static method Pow10Word(step: nat) returns (mul: u64)
      requires step <= 9
      ensures mul == Pow(10, step) <= BASE
    {
      mul := 1;
      for i := 0 to step
        invariant mul == Pow(10, i)
      {
        PowMonotonic(10, i, 8);
        assert Pow(10, 8) == 100_000_000;
        mul := mul * 10;
      }
      PowMonotonic(10, step, 9);
      assert Pow(10, 9) == BASE;
    }

    /** bn_mul_pow10: b *= 10^k, nine digits a pass. */
    method MulPow10(k: nat)
      requires Valid() && Value() * Pow(10, k) < Pow(BASE, CAP)
      modifies this, limb
      ensures Valid() && Value() == old(Value()) * Pow(10, k) && limb == old(limb)
    {
      var j := k;
      ghost var v0 := Value();
      while j > 0
        invariant 0 <= j <= k && limb == old(limb) && Valid()
        invariant Value() * Pow(10, j) == v0 * Pow(10, k)
      {
        var step := if j > 9 then 9 else j;
        var mul := Pow10Word(step);
        PowAdd(10, step, j - step);
        ghost var v := Value();
        ValBounds(limb[..n]);
        StepFits(v, Pow(10, step), Pow(10, j - step), v0 * Pow(10, k));
        MulSmall(mul);
        j := j - step;
      }
    }

    /** bn_shr: b /= 2^k; the result says whether a nonzero bit fell out. */
    method Shr(k: nat) returns (sticky: bool)
      requires Valid()
      modifies this, limb
      ensures Valid() && limb == old(limb)
      ensures Value() == old(Value()) / Pow(2, k)
      ensures sticky == (old(Value()) % Pow(2, k) != 0)
    {
      hide Val, Pow;
      sticky := false;
      var j := k;
      ghost var v0 := Value();
      ValBounds(limb[..n]);
      assert Pow(2, 0) == 1 by { PowZero(2); }
      ghost var done: nat := 0;
      while j > 0
        invariant 0 <= j && done + j == k && limb == old(limb) && Valid()
        invariant Value() == v0 / Pow(2, done)
        invariant sticky == (v0 % Pow(2, done) != 0)
      {
        var step := if j > 29 then 29 else j;
        var rem := ShrStep(step);
        PowAdd(2, done, step);
        ShrCompose(v0, Pow(2, done), Pow(2, step));
        sticky := sticky || rem != 0;
        j := j - step;
        done := done + step;
      }
    }

    /** One pass of bn_shr, most significant limb first. */
    method ShrStep(step: nat) returns (rem: u64)
      requires Valid() && step <= 29
      modifies this, limb
      ensures Valid() && limb == old(limb)
      ensures Value() == old(Value()) / Pow(2, step) && rem == old(Value()) % Pow(2, step)
    {
      hide Val, Pow, ShrInv;
      rem := 0;
      ghost var p, s0, q := Pow(2, step), limb[..n], [];
      PowMonotonic(2, step, 29);
      Pow2To29();
      var i := n;
      assert limb[..n] == s0[..i] == s0;
      ShrStart(s0, p);
      while i > 0
        invariant 0 <= i <= n == old(n) && limb == old(limb)
        invariant 0 <= rem < p
        invariant |q| == n - i && Limbs(q) && limb[..n] == s0[..i] + q
        invariant ShrInv(s0, q, s0[..i], rem, p)
      {
        i := i - 1;
        var l := limb[i];
        assert l == s0[i];
        PrefixSnoc(s0, i);
        MulMonotonic(BASE, rem, p - 1);
        var t: u64 := rem * BASE + l;
        QuotientBound(t, p, BASE);
        var x, r := t / Pow(2, step), t % Pow(2, step);
        ShrWord(s0, s0[..i], l, rem, t, p, q);
        q := [x] + q;
        limb[i] := x;
        assert limb[..n] == s0[..i] + q;
        rem := r;
      }
      assert limb[..n] == q;
      assert s0[..0] == [];
      ShrDone(s0, q, rem, p);
      Trim();
    }

    /** The loop that ends sbn_sub and bn_shr: drop zero limbs from the top. */
    method Trim()
      requires limb.Length == CAP && n <= CAP && Limbs(limb[..n])
      modifies this
      ensures Valid() && limb == old(limb) && Value() == old(Value())
    {
      while n > 0 && limb[n - 1] == 0
        invariant n <= CAP && limb == old(limb) && Limbs(limb[..n])
        invariant Val(limb[..n]) == old(Value())
      {
        ValDropZero(limb[..n]);
        assert limb[..n][..n - 1] == limb[..n - 1];
        n := n - 1;
      }
    }

    /** sbn_cmp: the limb counts first, then the values. Without leading zeros that is the order of values. */
    method Cmp(b: Big) returns (c: int)
      requires Sound() && b.Sound()
      ensures c == if n < b.n || (n == b.n && Value() < b.Value()) then -1
        else if n > b.n || Value() > b.Value() then 1 else 0
      ensures Valid() && b.Valid() ==>
        c == if Value() < b.Value() then -1 else if Value() > b.Value() then 1 else 0
    {
      if n != b.n {
        if Valid() && b.Valid() { OrderByLength(limb[..n], b.limb[..b.n]); }
        return if n < b.n then -1 else 1;
      }
      var i := n;
      while i > 0
        invariant 0 <= i <= n
        invariant forall k :: i <= k < n ==> limb[k] == b.limb[k]
      {
        i := i - 1;
        if limb[i] != b.limb[i] {
          OrderByLimb(limb[..n], b.limb[..n], i);
          return if limb[i] < b.limb[i] then -1 else 1;
        }
      }
      assert limb[..n] == b.limb[..n];
      return 0;
    }

    /** sbn_sub: a -= b, exact for a >= b. Otherwise a last borrow is lost: the result is exact modulo BASE^n. */
    method Sub(b: Big)
      requires Sound() && b.Sound() && b != this && b.limb != limb && b.n <= n
      modifies this, limb
      ensures Valid() && limb == old(limb)
      ensures Value() == (old(Value()) - b.Value()) % Pow(BASE, old(n))
      ensures b.Value() <= old(Value()) ==> Value() == old(Value()) - b.Value()
    {
      hide Val, Pow, SubInv, Limbs;
      ghost var s0, t0, s, t := limb[..n], b.limb[..b.n], [], [];
      SubStart();
      assert s0[..0] == [];
      var borrow := 0;
      var i := 0;
      while i < n
        invariant 0 <= i <= n == old(n) && limb == old(limb) && |s| == i
        invariant 0 <= borrow <= 1
        invariant limb[..i] == s && Limbs(s)
        invariant forall k :: i <= k < n ==> limb[k] == s0[k]
        invariant b.limb[..b.n] == t0
        invariant |t| == (if i < b.n then i else b.n) && t == t0[..|t|]
        invariant SubInv(s, borrow, s0[..i], t)
      {
        var y := if i < b.n then b.limb[i] else 0;
        var l := limb[i];
        assert l == s0[i];
        PrefixSnoc(s0, i);
        LimbAt(s0, i);
        if i < b.n { LimbAt(t0, i); }
        var d := l - borrow - y;
        ghost var borrow0 := borrow;
        if d < 0 {
          d := d + BASE;
          borrow := 1;
        } else {
          borrow := 0;
        }
        LimbsSnoc(s, d);
        SubStep(s, s0[..i], t, i < b.n, l, borrow0, y, d, borrow);
        s := s + [d];
        if i < b.n {
          assert y == b.limb[..b.n][i];
          PrefixSnoc(t0, i);
          t := t + [y];
        }

        limb[i] := d;
        assert limb[..i + 1] == s;
        i := i + 1;
      }
      assert limb[..n] == s;
      assert s0[..n] == s0 && t == t0;
      SubDone(s, borrow, s0, t0);
      Trim();
    }
  }

  /** A prefix of the result together with the carry that stands at its end. */
  ghost function Weighted(s: seq<int>, carry: int): int {
    Val(s) + carry * Pow(BASE, |s|)
  }

  lemma WeightedEmpty(carry: int)
    ensures Weighted([], carry) == carry && Val([]) == 0
  {
    assert Pow(BASE, 0) == 1;
  }

  lemma WeightedZero(s: seq<int>)
    ensures Weighted(s, 0) == Val(s)
  {
  }

  lemma CarryPush(s: seq<int>, carry: int)
    ensures Weighted(s + [carry % BASE], carry / BASE) == Weighted(s, carry)
  {
    ValSnoc(s, carry % BASE);
    CarryStep(|s|, carry);
  }

  /** What remains after the carry loop, whether it emptied the carry or ran out of room. */
  lemma CarryOut(s: seq<int>, carry: int, full: int)
    requires Limbs(s) && |s| <= CAP && carry >= 0 && (carry == 0 || |s| == CAP)
    requires Weighted(s, carry) == full
    ensures Val(s) == full % Pow(BASE, CAP)
    ensures full < Pow(BASE, CAP) ==> carry == 0
    ensures full >= Pow(BASE, CAP) ==> |s| == CAP
  {
    ValBounds(s);
    PowMonotonic(BASE, |s|, CAP);
    TruncateMod(Val(s), carry, full);
    if carry != 0 {
      MulMonotonic(Pow(BASE, CAP), 1, carry);
    }
  }

  /** The pass so far: s is what the limbs s0 became, and carry stands above it. */
  ghost predicate MulInv(s: seq<int>, carry: int, s0: seq<int>, m: int, d: int) {
    Weighted(s, carry) == Val(s0) * m + d
  }

  lemma MulStart(m: int, d: int)
    ensures MulInv([], d, [], m, d)
  {
    WeightedEmpty(d);
  }

  lemma MulDone(s: seq<int>, carry: int, s0: seq<int>, m: int, d: int)
    requires MulInv(s, carry, s0, m, d)
    ensures Weighted(s, carry) == Val(s0) * m + d
  {
  }

  lemma MulIdentity(v: int, v0: int, p: int, l: int, carry: int, m: int, d: int, q: int, r: int)
    requires l * m + carry == q * BASE + r
    requires v + carry * p == v0 * m + d
    ensures v + r * p + q * (BASE * p) == (v0 + l * p) * m + d
  {
    assert (l * m + carry) * p == (q * BASE + r) * p;
    assert (l * m + carry) * p == (l * p) * m + carry * p;
    assert (q * BASE + r) * p == q * (BASE * p) + r * p;
    assert (v0 + l * p) * m == v0 * m + (l * p) * m;
  }

  /** The word a multiplication pass computes fits 64 bits and leaves a carry below m. */
  lemma MulWord(l: int, carry: int, m: int)
    requires 0 <= l < BASE && 0 <= carry < m <= 0x1_0000_0000
    ensures var t := l * m + carry;
      0 <= t < BASE * m < 0x1_0000_0000_0000_0000 && 0 <= t / BASE < m && (l != 0 ==> t != 0)
  {
    MulMonotonic(m, l, BASE - 1);
    MulMonotonic(m, 0, l);
    QuotientBound(l * m + carry, BASE, m);
    if l != 0 { MulMonotonic(m, 1, l); }
  }

  /** One limb of a multiplication pass. */
  lemma MulStep(s: seq<int>, s0: seq<int>, l: int, carry: int, m: int, d: int, t: int)
    requires |s| == |s0| && t == l * m + carry
    requires MulInv(s, carry, s0, m, d)
    ensures MulInv(s + [t % BASE], t / BASE, s0 + [l], m, d)
  {
    ValSnoc(s, t % BASE);
    ValSnoc(s0, l);
    MulIdentity(Val(s), Val(s0), Pow(BASE, |s|), l, carry, m, d, t / BASE, t % BASE);
  }

  /** The subtraction so far: s is what is left of s0 - t, a borrow standing above it. */
  ghost predicate SubInv(s: seq<int>, borrow: int, s0: seq<int>, t: seq<int>) {
    Weighted(s, -borrow) == Val(s0) - Val(t)
  }

  lemma PrefixSnoc(s: seq<int>, i: nat)
    requires i < |s|
    ensures s[..i + 1] == s[..i] + [s[i]]
  {
  }

  lemma LimbAt(s: seq<int>, i: nat)
    requires Limbs(s) && i < |s|
    ensures 0 <= s[i] < BASE
  {
  }

  lemma LimbsSnoc(s: seq<int>, x: int)
    requires Limbs(s) && 0 <= x < BASE
    ensures Limbs(s + [x])
  {
  }

  lemma SubStart()
    ensures SubInv([], 0, [], []) && Limbs([])
  {
    WeightedEmpty(0);
  }

  lemma SubDone(s: seq<int>, borrow: int, s0: seq<int>, t: seq<int>)
    requires Limbs(s) && Limbs(t) && 0 <= borrow <= 1 && SubInv(s, borrow, s0, t)
    requires Limbs(s0) && |s| == |s0|
    ensures Val(s) == (Val(s0) - Val(t)) % Pow(BASE, |s|)
    ensures Val(t) <= Val(s0) ==> Val(s) == Val(s0) - Val(t)
  {
    hide Val, Pow;
    ValBounds(s);
    ValBounds(s0);
    ValBounds(t);
    var p, diff := Pow(BASE, |s|), Val(s0) - Val(t);
    DivModUnique(diff, p, 0 - borrow, Val(s));
    if diff >= 0 { DivModUnique(diff, p, 0, diff); }
  }

  lemma SubIdentity(p: int, d: int, l: int, borrow0: int, y: int, borrow: int)
    requires d == l - borrow0 - y + borrow * BASE
    ensures d * p + (-borrow) * (BASE * p) == l * p + (-borrow0) * p - y * p
  {
    assert (l - borrow0 - y + borrow * BASE) * p == l * p + (-borrow0) * p - y * p + borrow * (BASE * p);
  }

  /** One limb of a subtraction. */
  lemma SubStep(s: seq<int>, s0: seq<int>, t: seq<int>, more: bool,
                l: int, borrow0: int, y: int, d: int, borrow: int)
    requires |s| == |s0| && (if more then |t| == |s| else y == 0)
    requires SubInv(s, borrow0, s0, t)
    requires d == l - borrow0 - y + borrow * BASE
    ensures SubInv(s + [d], borrow, s0 + [l], if more then t + [y] else t)
  {
    hide Val, Pow;
    ValSnoc(s, d);
    ValSnoc(s0, l);
    ValSnoc(t, y);
    PowStep(|s|);
    SubIdentity(Pow(BASE, |s|), d, l, borrow0, y, borrow);
  }

  lemma StepFits(v: int, s: int, rest: int, total: int)
    requires v >= 0 && s > 0 && rest > 0 && v * (s * rest) == total
    ensures (v * s) * rest == total && v * s <= total
  {
    MulMonotonic(s, 0, v);
    MulMonotonic(v * s, 1, rest);
  }

  /** Dividing in two passes, and when the passes leave something behind. */
  lemma ShrCompose(v: int, a: int, b: int)
    requires v >= 0 && a > 0 && b > 0
    ensures v / (a * b) == v / a / b
    ensures (v % (a * b) != 0) == (v % a != 0 || v / a % b != 0)
  {
    var q, r := v / a, v % a;
    var q2, r2 := q / b, q % b;
    var p := a * b;
    Regrouped(v, a, b, p, q, r, q2, r2);
    DivModUnique(v, p, q2, r2 * a + r);
  }

  lemma Regrouped(v: int, a: int, b: int, p: int, q: int, r: int, q2: int, r2: int)
    requires a > 0 && b > 0 && p == a * b && v == q * a + r && q == q2 * b + r2 && 0 <= r < a && 0 <= r2 < b
    ensures p > 0 && v == q2 * p + (r2 * a + r) && 0 <= r2 * a + r < p
    ensures r2 * a + r != 0 <==> r != 0 || r2 != 0
  {
    assert (q2 * b + r2) * a == q2 * p + r2 * a;
    MulMonotonic(a, r2, b - 1);
    MulMonotonic(a, 0, r2);
    assert (b - 1) * a == p - a;
    if r2 > 0 { MulMonotonic(a, 1, r2); }
  }

  lemma QuotientBound(t: int, p: int, b: int)
    requires p > 0 && 0 <= t < p * b
    ensures 0 <= t / p < b && 0 <= t % p < p
  {
    if t / p >= b { MulMonotonic(p, b, t / p); }
  }

  /** What limbs standing at positions i, i+1, ... denote. */
  ghost function ShiftedVal(q: seq<int>, i: nat): int {
    if q == [] then 0 else q[0] * Pow(BASE, i) + ShiftedVal(q[1..], i + 1)
  }

  lemma {:induction false} ShiftedSnoc(q: seq<int>, x: int, i: nat)
    ensures ShiftedVal(q + [x], i) == ShiftedVal(q, i) + x * Pow(BASE, i + |q|)
  {
    if q != [] {
      ShiftedSnoc(q[1..], x, i + 1);
      assert (q + [x])[1..] == q[1..] + [x];
    }
  }

  lemma {:induction false} ShiftedIsVal(q: seq<int>)
    ensures ShiftedVal(q, 0) == Val(q)
  {
    if q != [] {
      var u := q[..|q| - 1];
      ShiftedIsVal(u);
      ShiftedSnoc(u, q[|q| - 1], 0);
      assert q == u + [q[|q| - 1]];
    }
  }

  /** The division so far: q are the quotient limbs above s, rem what stands above s undivided. */
  ghost predicate ShrInv(s0: seq<int>, q: seq<int>, s: seq<int>, rem: int, p: int) {
    Val(s0) == p * ShiftedVal(q, |s|) + Weighted(s, rem)
  }

  lemma ShrStart(s: seq<int>, p: int)
    ensures ShrInv(s, [], s, 0, p)
  {
  }

  lemma ShrDone(s0: seq<int>, q: seq<int>, rem: int, p: int)
    requires p > 0 && 0 <= rem < p && ShrInv(s0, q, [], rem, p)
    ensures Val(q) == Val(s0) / p && rem == Val(s0) % p
  {
    hide Val, Pow;
    ShiftedIsVal(q);
    WeightedEmpty(rem);
    DivModUnique(Val(s0), p, Val(q), rem);
  }

  /** One limb moves by w: the undivided word l + rem*BASE splits into quotient and remainder. */
  lemma ShrIdentity(w: int, l: int, rem: int, p: int, k: int, r: int, v: int, sv: int)
    requires rem * BASE + l == k * p + r
    ensures p * (k * w + sv) + (v + r * w) == p * sv + ((v + l * w) + rem * (BASE * w))
  {
    assert p * (k * w + sv) == p * (k * w) + p * sv;
    assert (rem * BASE + l) * w == l * w + rem * (BASE * w);
    assert (k * p + r) * w == p * (k * w) + r * w;
  }

  /** One limb of a division pass. */
  lemma ShrWord(s0: seq<int>, s: seq<int>, l: int, rem: int, t: int, p: int, q: seq<int>)
    requires p > 0 && t == rem * BASE + l
    requires ShrInv(s0, q, s + [l], rem, p)
    ensures ShrInv(s0, [t / p] + q, s, t % p, p)
  {
    hide Val, Pow;
    ValSnoc(s, l);
    PowStep(|s|);
    assert ([t / p] + q)[1..] == q;
    ShrIdentity(Pow(BASE, |s|), l, rem, p, t / p, t % p, Val(s), ShiftedVal(q, |s| + 1));
  }

  lemma OrderByLength(s: seq<int>, t: seq<int>)
    requires Limbs(s) && Limbs(t) && |s| != |t|
    requires s != [] ==> s[|s| - 1] != 0
    requires t != [] ==> t[|t| - 1] != 0
    ensures |s| < |t| <==> Val(s) < Val(t)
    ensures |s| > |t| <==> Val(s) > Val(t)
  {
    ValBounds(s);
    ValBounds(t);
    if |s| < |t| {
      ValTop(t);
      PowMonotonic(BASE, |s|, |t| - 1);
    } else {
      ValTop(s);
      PowMonotonic(BASE, |t|, |s| - 1);
    }
  }

  lemma {:induction false} OrderByLimb(s: seq<int>, t: seq<int>, i: nat)
    requires Limbs(s) && Limbs(t) && i < |s| == |t| && s[i] != t[i]
    requires forall k :: i < k < |s| ==> s[k] == t[k]
    ensures s[i] < t[i] <==> Val(s) < Val(t)
    ensures s[i] > t[i] <==> Val(s) > Val(t)
  {
    var n := |s| - 1;
    if i < n {
      OrderByLimb(s[..n], t[..n], i);
    } else {
      ValBounds(s[..n]);
      ValBounds(t[..n]);
      assert s[..n] == s[..|s| - 1] && t[..n] == t[..|t| - 1];
      if s[n] < t[n] {
        LimbGap(Pow(BASE, n), Val(s[..n]), s[n], Val(t[..n]), t[n]);
      } else {
        LimbGap(Pow(BASE, n), Val(t[..n]), t[n], Val(s[..n]), s[n]);
      }
    }
  }

  lemma LimbGap(p: int, a: int, x: int, b: int, y: int)
    requires 0 <= a < p && 0 <= b < p && x < y
    ensures a + x * p < b + y * p
  {
    MulMonotonic(p, x + 1, y);
  }
}
