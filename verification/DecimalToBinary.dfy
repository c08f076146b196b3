/** The numeric half of strtod (rt_scan.c): an exact decimal N * 10^k, held in bignums, becomes the
    53-bit significand and exponent of the nearest double. */
module DecimalToBinary {
  import opened Powers
  import opened Rounding
  import opened Binary64
  import opened Bignum
  import opened Bounds

  /** One rounding bit and a sticky flag below the significand decide half-to-even. */
  function FromBits(q: nat, sticky: bool): nat {
    if q % 2 == 1 && (sticky || q / 2 % 2 == 1) then q / 2 + 1 else q / 2
  }

  lemma BitsRound(a: nat, d: nat, q: nat, r: nat)
    requires d > 0 && 2 * a == q * d + r && r < d
    ensures FromBits(q, r != 0) == Rne(a, d)
  {
    hide Rne;
    var k, b := q / 2, q % 2;
    var x := a - k * d;
    assert q * d == 2 * (k * d) + b * d by { assert q == 2 * k + b; }
    if b == 0 { assert b * d == 0; } else { assert b * d == d; }
    RneOffset(a, d, k, x);
  }

  /** The loop multiplying by ten k times. What no longer fits is cut off: the scaled number is exact if and only if
      it is below 10^900. */
  method ScaleTen(b: Big, k: nat)
    requires b.Sound()
    modifies b, b.limb
    ensures b.Sound() && b.limb == old(b.limb)
    ensures b.Value() == old(b.Value()) * Pow(10, k) % Pow(BASE, CAP)
    ensures b.Value() == old(b.Value()) * Pow(10, k) <==> old(b.Value()) * Pow(10, k) < Pow(BASE, CAP)
    ensures old(b.Valid()) && old(b.Value()) * Pow(10, k) < Pow(BASE, CAP) ==> b.Valid()
    ensures old(b.Value()) * Pow(10, k) >= Pow(BASE, CAP) ==> b.n == CAP
  {
    hide Val, Pow, Big.Valid, Big.Sound, Big.Value;
    b.InRange();
    var i := 0;
    ghost var v0, room := b.Value(), Pow(BASE, CAP);
    TenthPower(v0, 0);
    while i < k
      invariant 0 <= i <= k && b.limb == old(b.limb) && b.Sound()
      invariant b.Value() == v0 * Pow(10, i) % room
      invariant old(b.Valid()) && v0 * Pow(10, i) < room ==> b.Valid()
      invariant v0 * Pow(10, i) >= room ==> b.n == CAP
    {
      b.InRange();
      TenthPower(v0, i);
      ModTimes(v0 * Pow(10, i), 10, room);
      SmallMod(v0 * Pow(10, i), room);
      b.MulSmall(10);
      i := i + 1;
    }
    b.InRange();
    SmallMod(v0 * Pow(10, k), room);
  }

  lemma TenthPower(v: nat, i: nat)
    ensures v * Pow(10, i + 1) == v * Pow(10, i) * 10 && v * Pow(10, i) <= v * Pow(10, i + 1) && v * Pow(10, 0) == v
  {
    TenTimes(v, i);
    assert Pow(10, 0) == 1;
    MulMonotonic(Pow(10, i), 0, v);
  }

  lemma TenTimes(v: int, i: nat)
    ensures v * Pow(10, i + 1) == v * Pow(10, i) * 10
  {
    assert Pow(10, i + 1) == 10 * Pow(10, i);
  }

  method PowerOfTen(k: nat) returns (b: Big)
    requires Pow(10, k) < Pow(BASE, CAP)
    ensures fresh(b) && fresh(b.limb) && b.Valid() && b.Value() == Pow(10, k)
  {
    hide Val, Pow, Big.Valid, Big.Sound, Big.Value;
    b := new Big.Zero();
    BufferHolds(1);
    b.PushDigit(1);
    ScaleTen(b, k);
    assert 1 * Pow(10, k) == Pow(10, k);
  }

  lemma BufferHolds(d: int)
    requires d < 100
    ensures d < Pow(BASE, CAP)
  {
    BufferDigits();
    PowMonotonic(10, 2, 9 * CAP);
    assert Pow(10, 2) == 100;
  }

  /** lo = 2^52 * denom, by 52 doublings. */
  method Shifted52(denom: Big) returns (lo: Big)
    requires denom.Valid() && denom.Value() > 0 && TWO52 * denom.Value() < Pow(BASE, CAP)
    ensures fresh(lo) && fresh(lo.limb) && lo.Valid() && lo.Value() == TWO52 * denom.Value()
  {
    hide Val, Pow, Big.Valid, Big.Sound, Big.Value;
    lo := new Big.Copy(denom);
    ghost var v := denom.Value();
    Pow2To54();
    PowZero(2);
    for i := 0 to 52
      invariant lo.Valid() && lo.Value() == Pow(2, i) * v
      invariant fresh(lo) && fresh(lo.limb)
    {
      DoubledTo52(i, v);
      lo.MulSmall(2);
    }
  }

  lemma DoubledTo52(i: nat, v: nat)
    requires i < 52
    ensures Pow(2, i) * v * 2 == Pow(2, i + 1) * v <= TWO52 * v
  {
    Pow2To54();
    PowMonotonic(2, i + 1, 52);
    MulMonotonic(v, Pow(2, i + 1), Pow(2, 52));
    Doubling(i + 1);
  }

  /** Below 2^52: double the numerator until it reaches lo. One that has all its limbs compares above lo. */
  method RaiseNumerator(big: Big, lo: Big, ghost n: nat) returns (e2: int)
    requires big.Sound() && lo.Valid() && lo.n < CAP && big != lo && big.limb != lo.limb
    requires big.n == CAP || (big.Valid() && n > 0 && big.Value() == n && 0 < 2 * lo.Value() < Pow(BASE, CAP))
    modifies big, big.limb
    ensures big.limb == old(big.limb) && big.Sound() && AtLeast(big, lo) && e2 <= 0
    ensures old(big.n) == CAP ==>
      e2 == 0 && big.n == CAP && big.Value() == old(big.Value()) && (old(big.Valid()) ==> big.Valid())
    ensures old(big.n) < CAP ==>
      big.Valid() && big.Value() == n * P2(-e2) && (e2 < 0 ==> big.Value() < 2 * lo.Value())
  {
    hide Val, Pow, Big.Valid, Big.Sound, Big.Value, AtLeast, P2;
    e2 := 0;
    ghost var full, l := big.n == CAP, lo.Value();
    big.InRange();
    P2Step(n, 0);
    var c := big.Cmp(lo);
    CmpSays(big, lo, c);
    while c < 0
      invariant big.limb == old(big.limb) && big.Sound() && lo.Valid() && lo.Value() == l
      invariant e2 <= 0 && (c < 0 <==> !AtLeast(big, lo))
      invariant full ==> c >= 0 && e2 == 0 && big.n == old(big.n) && big.Value() == old(big.Value())
      invariant full && old(big.Valid()) ==> big.Valid()
      invariant !full ==> big.Valid() && big.Value() == n * P2(-e2) && (e2 < 0 ==> big.Value() < 2 * l)
      invariant !full ==> big.Value() > 0
      decreases l - big.Value()
    {
      AtLeastIsOrder(big, lo);
      P2Step(n, -e2);
      big.MulSmall(2);
      e2 := e2 - 1;
      c := big.Cmp(lo);
      CmpSays(big, lo, c);
    }
  }

  /** At 2^53 or above: double the bounds, cut off or not, until big does not compare at least as large as hi, which it does
      not by the time the bound is Bound(d, top). */
  method RaiseBounds(big: Big, lo: Big, hi: Big, ghost d: nat, ghost top: nat) returns (e2: nat)
    requires big.Sound() && lo != hi && lo.limb != hi.limb
    requires big != lo && big != hi && big.limb != lo.limb && big.limb != hi.limb
    requires Stands(lo, TWO52 * d) && Stands(hi, Bound(d, 0))
    requires !GoesOn(big.n == CAP, big.Value(), Bound(d, top)) && AtLeast(big, lo)
    modifies lo, lo.limb, hi, hi.limb
    ensures lo.limb == old(lo.limb) && e2 <= top
    ensures Stands(lo, TWO52 * (d * P2(e2))) && AtLeast(big, lo)
    ensures !GoesOn(big.n == CAP, big.Value(), Bound(d, e2))
    ensures forall j: nat :: j < e2 ==> GoesOn(big.n == CAP, big.Value(), Bound(d, j))
  {
    hide Val, Pow, Big.Valid, Big.Sound, Big.Value, Stands, GoesOn, AtLeast, P2, Bound;
    e2 := 0;
    big.InRange();
    P2Step(d, 0);
    BoundIs(d, 0);
    StandsSound(lo, TWO52 * d);
    StandsSound(hi, Bound(d, 0));
    var c := big.Cmp(hi);
    CmpSays(big, hi, c);
    Compared(big, hi, Bound(d, 0));
    while c >= 0
      invariant lo.limb == old(lo.limb) && hi.limb == old(hi.limb) && e2 <= top
      invariant big.Sound() && big.Value() == old(big.Value()) && big.n == old(big.n)
      invariant Stands(hi, Bound(d, e2)) && Stands(lo, TWO52 * (d * P2(e2)))
      invariant Bound(d, e2) == 2 * (TWO52 * (d * P2(e2)))
      invariant lo.Sound() && AtLeast(big, lo)
      invariant c >= 0 <==> GoesOn(big.n == CAP, big.Value(), Bound(d, e2))
      invariant forall j: nat :: j < e2 ==> GoesOn(big.n == CAP, big.Value(), Bound(d, j))
      decreases top - e2
    {
      P2Step(d, e2);
      BoundStep(d, e2);
      BoundIs(d, e2 + 1);
      DoubleBound(lo, TWO52 * (d * P2(e2)));
      StandsSound(lo, Bound(d, e2));
      Compared(big, lo, Bound(d, e2));
      DoubleBound(hi, Bound(d, e2));
      e2 := e2 + 1;
      StandsSound(hi, Bound(d, e2));
      c := big.Cmp(hi);
      CmpSays(big, hi, c);
      Compared(big, hi, Bound(d, e2));
    }
  }

  /** 54 bits of big/lo by restoring long division; what is left over is the sticky bit. The first bit is 1 whatever the
      buffers hold. */
  method LongDivide(rem: Big, lo: Big) returns (q: u64, inexact: bool)
    requires rem.Sound() && lo.Sound() && rem != lo && rem.limb != lo.limb && AtLeast(rem, lo)
    modifies rem, rem.limb
    ensures rem.limb == old(rem.limb)
    ensures TWO53 <= q < 2 * TWO53
    ensures old(rem.Valid()) && lo.Valid() && 0 < lo.Value() <= old(rem.Value()) < 2 * lo.Value() < Pow(BASE, CAP) ==>
      IsQuotient(old(rem.Value()), lo.Value(), q, inexact)
  {
    hide IsQuotient, Val, Pow, Big.Valid, Big.Sound, Big.Value, AtLeast, Divided, Bits54;
    q := 0;
    var bit := 0;
    ghost var a, d := rem.Value(), lo.Value();
    ghost var intact := rem.Valid() && lo.Valid() && 0 < d <= a < 2 * d < Pow(BASE, CAP);
    DivideStart(a, d);
    while bit < 54
      invariant 0 <= bit <= 54 && rem.limb == old(rem.limb) && rem.Sound()
      invariant lo.Sound() && lo.Value() == d
      invariant bit == 0 ==> AtLeast(rem, lo)
      invariant Bits54(bit, q)
      invariant intact ==> rem.Valid() && lo.Valid() && Divided(a, d, bit, q, rem.Value())
    {
      BitStep(bit, q);
      ghost var q0, r0 := q, rem.Value();
      q := q * 2;
      var one := SubtractIfAtLeast(rem, lo);
      if one { q := q + 1; }
      if intact { DivideStep(a, d, bit, q0, r0, q, rem.Value()); }
      if bit < 53 { rem.MulSmall(2); }
      bit := bit + 1;
    }
    AllBits(q);
    if intact { DivideEnd(a, d, q, rem.Value()); }
    var z := rem.IsZero();
    inexact := !z;
  }

  /** One bit of the quotient: lo goes into rem once or not at all. */
  method SubtractIfAtLeast(rem: Big, lo: Big) returns (one: bool)
    requires rem.Sound() && lo.Sound() && rem != lo && rem.limb != lo.limb
    modifies rem, rem.limb
    ensures rem.limb == old(rem.limb) && rem.Sound()
    ensures one == old(AtLeast(rem, lo))
    ensures old(rem.Valid()) && lo.Valid() ==>
      && rem.Valid() && one == (old(rem.Value()) >= lo.Value())
      && rem.Value() == old(rem.Value()) - if one then lo.Value() else 0
  {
    hide Val, Pow, Big.Valid, Big.Sound, Big.Value, AtLeast;
    var c := rem.Cmp(lo);
    CmpSays(rem, lo, c);
    one := c >= 0;
    if one { rem.Sub(lo); }
  }

  /** q is 2^53 * a/d cut to an integer, inexact whether that lost something. */
  ghost predicate IsQuotient(a: int, d: int, q: int, inexact: bool) {
    var left := a * TWO53 - q * d;
    0 <= left < d && inexact == (left != 0)
  }

  /** That many bits, of which the first is 1. */
  ghost predicate Bits54(bit: nat, q: int) { 0 <= q < Pow(2, bit) && (bit > 0 ==> 2 * q >= Pow(2, bit)) }

  lemma BitStep(bit: nat, q: int)
    requires bit < 54 && Bits54(bit, q)
    ensures 0 <= 2 * q + 1 < 2 * TWO53
    ensures bit > 0 ==> Bits54(bit + 1, 2 * q)
    ensures Bits54(bit + 1, 2 * q + 1)
  {
    hide Pow;
    Doubling(bit + 1);
    PowZero(2);
    PowMonotonic(2, bit + 1, 54);
    Pow2To54();
  }

  lemma AllBits(q: int)
    requires Bits54(54, q)
    ensures TWO53 <= q < 2 * TWO53
  {
    hide Pow;
    Pow2To54();
  }

  /** After that many bits of the quotient a/d: what is left, doubled for the next bit unless it was the last. */
  ghost predicate Divided(a: int, d: int, bit: nat, q: int, r: int) {
    if bit < 54 then a * Pow(2, bit) == q * 2 * d + r && 0 <= r < 2 * d else a * TWO53 == q * d + r && 0 <= r < d
  }

  lemma DivideStart(a: int, d: int)
    ensures Bits54(0, 0)
    ensures 0 < d <= a < 2 * d ==> Divided(a, d, 0, 0, a)
  {
    PowZero(2);
  }

  lemma DivideEnd(a: int, d: int, q: int, r: int)
    requires Divided(a, d, 54, q, r)
    ensures IsQuotient(a, d, q, r != 0)
  {}

  lemma DivideStep(a: int, d: int, bit: nat, q0: int, r0: int, q: int, r1: int)
    requires bit < 54 && Divided(a, d, bit, q0, r0)
    requires if r0 >= d then q == q0 * 2 + 1 && r1 == r0 - d else q == q0 * 2 && r1 == r0
    ensures 0 <= r1 < d && Divided(a, d, bit + 1, q, if bit < 53 then r1 * 2 else r1)
  {
    hide Pow;
    var p := Pow(2, bit);
    Doubling(bit + 1);
    Pow2To54();
    assert (q0 * 2 + 1) * d == q0 * 2 * d + d;
    assert a * p == q * d + r1;
    if bit < 53 {
      assert a * (2 * p) == 2 * (a * p);
      assert q * 2 * d == 2 * (q * d);
    }
  }

  /** (m, f) is n/d cut to 54 bits and rounded half to even by the last of them, a digit lost before counting as more. */
  ghost predicate Settles(n: nat, d: nat, sticky: bool, m: nat, f: int)
    requires d > 0
  {
    exists e: int :: Normalised(n, d, e) && (m, f) == Renorm(Cut(n, d, sticky, e), e)
  }

  function Cut(n: nat, d: nat, sticky: bool, e: int): nat
    requires d > 0
  {
    MulMonotonic(d, 1, P2(e));
    var a, s := n * P2(-e), d * P2(e);
    FromBits(2 * a / s, sticky || 2 * a % s != 0)
  }

  lemma CutRange(n: nat, d: nat, sticky: bool, e: int)
    requires d > 0 && Normalised(n, d, e)
    ensures TWO52 <= Cut(n, d, sticky, e) <= TWO53
  {
    hide P2, FromBits;
    MulMonotonic(d, 1, P2(e));
    var a, s := n * P2(-e), d * P2(e);
    DivMod(2 * a, s);
    FirstBit(a, s, 2 * a / s, 2 * a % s);
    FromBitsRange(2 * a / s, sticky || 2 * a % s != 0);
  }

  lemma FirstBit(a: nat, s: nat, q: nat, r: nat)
    requires s > 0 && 2 * a == q * s + r && r < s && TWO52 * s <= a < TWO53 * s
    ensures TWO53 <= q < 2 * TWO53
  {
    if q < TWO53 { MulMonotonic(s, q + 1, TWO53); }
    if q >= 2 * TWO53 { MulMonotonic(s, 2 * TWO53, q); }
  }

  lemma FromBitsRange(q: nat, sticky: bool)
    requires TWO53 <= q < 2 * TWO53
    ensures TWO52 <= FromBits(q, sticky) <= TWO53
  {}

  /** With nothing lost before, that is the correct rounding. */
  lemma CutIsRounded(n: nat, d: nat, e: int)
    requires d > 0
    ensures Cut(n, d, false, e) == RoundAt(n, d, e)
  {
    hide Rne, FromBits;
    MulMonotonic(d, 1, P2(e));
    var a, s := n * P2(-e), d * P2(e);
    DivMod(2 * a, s);
    BitsRound(a, s, 2 * a / s, 2 * a % s);
  }

  lemma SettlesRounds(n: nat, d: nat, m: nat, f: int)
    requires d > 0 && Settles(n, d, false, m, f)
    ensures RoundsTo(n, d, m, f)
  {
    hide Cut, RoundAt, Normalised;
    var e: int :| Normalised(n, d, e) && (m, f) == Renorm(Cut(n, d, false, e), e);
    CutIsRounded(n, d, e);
  }

  /** n/d lies beyond the largest double. */
  ghost predicate Beyond(n: nat, d: nat) { exists e: int :: e > 971 && Normalised(n, d, e) }

  /** The conversion after the digits are read. With nothing cut off the result is N * 10^k rounded in its binade;
      otherwise number and result are both beyond the largest double. */
  method Convert(big: Big, k: int, sticky: bool) returns (mant: u64, e2: int)
    requires big.Valid() && big.Value() > 0 && -400 <= k <= 350
    requires Stops(big.Value(), k)
    modifies big, big.limb
    ensures TWO52 <= mant < TWO53
    ensures FitsBuffer(old(big.Value()), k) ==>
      Settles(Numer(old(big.Value()), k), Denom(k), sticky, mant, e2)
    ensures !FitsBuffer(old(big.Value()), k) ==> e2 > 971 && Beyond(Numer(old(big.Value()), k), Denom(k))
  {
    hide Val, Pow, Big.Valid, Big.Sound, Big.Value, P2, FromBits, Cut, Numer, Denom, Normalised, FitsBuffer, Stops, Beyond;
    ghost var fits, n, d := FitsBuffer(big.Value(), k), Numer(big.Value(), k), Denom(k);
    var lo, e := Normalise(big, k);
    ghost var a := big.Value();
    var q, inexact := LongDivide(big, lo);
    if fits { Bits(n, d, e, sticky, a, q, inexact); }
    mant, e2 := RoundBits(q, sticky || inexact, e);
  }

  /** Builds N * 10^max(k,0) and the scaled denominator and brings the quotient into [1, 2). */
  method Normalise(big: Big, k: int) returns (lo: Big, e: int)
    requires big.Valid() && big.Value() > 0 && -400 <= k <= 350
    requires Stops(big.Value(), k)
    modifies big, big.limb
    ensures big.limb == old(big.limb) && big.Sound() && lo.Sound() && fresh(lo) && fresh(lo.limb) && AtLeast(big, lo)
    ensures FitsBuffer(old(big.Value()), k) ==>
      var n, d := Numer(old(big.Value()), k), Denom(k);
      && big.Valid() && lo.Valid() && d * P2(e) > 0 && Normalised(n, d, e)
      && big.Value() == n * P2(-e) && lo.Value() == TWO52 * (d * P2(e))
      && 0 < lo.Value() <= big.Value() < 2 * lo.Value() < Pow(BASE, CAP)
    ensures !FitsBuffer(old(big.Value()), k) ==> e > 971 && Beyond(Numer(old(big.Value()), k), Denom(k))
  {
    hide Val, Pow, Big.Valid, Big.Sound, Big.Value, P2, Numer, Denom, Normalised, Bound, FitsBuffer, Stops, Stands, GoesOn,
         AtLeast, Beyond;
    ghost var fits, n, d := FitsBuffer(big.Value(), k), Numer(big.Value(), k), Denom(k);
    ghost var top := StopsAt(big.Value(), k);
    if !fits { OutsideFills(big.Value(), k); }
    var hi;
    lo, hi := Prepare(big, k);
    P2Step(n, 0);
    BoundStep(d, 0);
    StartsIntact(lo, TWO52 * d);
    StartsIntact(hi, Bound(d, 0));
    big.InRange();
    var down := RaiseNumerator(big, lo, n);
    ghost var last := if down < 0 then 0 else top;
    RaisedSame(big, lo, old(big.Value()), k, down);
    var up := RaiseBounds(big, lo, hi, d, last);
    e := down + up;
    StandsSound(lo, TWO52 * (d * P2(up)));
    if fits {
      BoundOrder(d, up, last);
      Bracketed(n, d, down, up, big, lo);
    } else {
      FullGoesFar(k, big.Value(), up);
    }
  }

  /** Without an intact bound above it the number has all its limbs and is beyond every double. */
  lemma OutsideFills(n: nat, k: int)
    requires k >= -400 && !FitsBuffer(n, k)
    ensures Fills(n, k) && Beyond(Numer(n, k), Denom(k))
  {
    hide Pow, P2, Numer, Denom, FitsBuffer, Bound;
    var u, d := Numer(n, k), Denom(k);
    if 2 * u < Pow(BASE, CAP) { HalfFits(n, k); }
    PowStrict(BASE, CAP - 1, CAP);
    var e := NormalisedExists(u, d);
    if e <= 971 {
      FarAbove(k);
      NormalisedBelow(u, d, e, 971);
    }
  }

  lemma NormalisedBelow(n: nat, d: nat, e: int, t: nat)
    requires d > 0 && t > 0 && e <= t && Normalised(n, d, e)
    ensures n < TWO53 * (d * Pow(2, t))
  {
    hide Pow;
    MulMonotonic(n, 1, P2(-e));
    PowMonotonic(2, 0, t);
    PowZero(2);
    if e > 0 { PowMonotonic(2, e, t); }
    MulMonotonic(d, P2(e), Pow(2, t));
  }

  lemma FullGoesFar(k: int, b: nat, j: nat)
    requires k >= -400 && !GoesOn(true, b, Bound(Denom(k), j))
    ensures j > 971
  {
    hide Pow, Denom;
    if j <= 971 {
      FarAbove(k);
      PowMonotonic(2, j, 971);
      MulMonotonic(Denom(k), Pow(2, j), Pow(2, 971));
    }
  }

  /** A numerator raised to below hi stops the other loop at once. */
  lemma LowStops(big: Big, lo: Big, d: nat)
    requires big.Valid() && lo.Valid() && lo.Value() == TWO52 * d && 2 * lo.Value() < Pow(BASE, CAP - 1)
    requires 0 <= big.Value() < 2 * lo.Value()
    ensures !GoesOn(big.n == CAP, big.Value(), Bound(d, 0))
  {
    hide Pow, Big.Value, Big.Valid;
    CountIsSize(big);
    PowZero(2);
  }

  /** A numerator that was raised is passed by the first bound, as it was before; one that was not is the number itself. */
  lemma RaisedSame(big: Big, lo: Big, n: nat, k: int, down: int)
    requires down <= 0 && big.Sound()
    requires lo.Valid() && lo.Value() == TWO52 * Denom(k) && 2 * lo.Value() < Pow(BASE, CAP - 1)
    requires Fills(n, k) ==> down == 0 && big.n == CAP && big.Value() == Held(n, k)
    requires !Fills(n, k) ==>
      big.Valid() && big.Value() == Numer(n, k) * P2(-down) && (down < 0 ==> big.Value() < 2 * lo.Value())
    ensures down == 0 ==> (big.n == CAP <==> Fills(n, k)) && big.Value() == Held(n, k)
    ensures down < 0 ==> !GoesOn(big.n == CAP, big.Value(), Bound(Denom(k), 0))
    ensures down < 0 ==> !GoesOn(Fills(n, k), Held(n, k), Bound(Denom(k), 0))
  {
    hide Pow, Numer, Denom, P2, Big.Valid, Big.Sound, Big.Value;
    big.InRange();
    PowStrict(BASE, CAP - 1, CAP);
    if !Fills(n, k) {
      SmallMod(Numer(n, k), Pow(BASE, CAP));
      P2Step(Numer(n, k), 0);
      CountIsSize(big);
    }
    if down < 0 {
      PowZero(2);
      MulMonotonic(Numer(n, k), 1, P2(-down));
      LowStops(big, lo, Denom(k));
    }
  }

  /** Both loops done with nothing cut off: the quotient stands in its binade. */
  lemma Bracketed(n: nat, d: nat, down: int, up: nat, big: Big, lo: Big)
    requires d > 0 && down <= 0 && (down < 0 ==> up == 0) && Bound(d, up) < Pow(BASE, CAP)
    requires big.Valid() && big.Value() == n * P2(-down) && Stands(lo, TWO52 * (d * P2(up))) && lo.Sound()
    requires AtLeast(big, lo) && !GoesOn(big.n == CAP, big.Value(), Bound(d, up))
    ensures var e := down + up;
      && lo.Valid() && d * P2(e) > 0 && Normalised(n, d, e)
      && big.Value() == n * P2(-e) && lo.Value() == TWO52 * (d * P2(e))
      && 0 < lo.Value() <= big.Value() < 2 * lo.Value() < Pow(BASE, CAP)
  {
    hide Pow, P2, Normalised, Bound, Big.Valid, Big.Value, AtLeast;
    BoundIs(d, up);
    SmallMod(Bound(d, up), Pow(BASE, CAP));
    MulMonotonic(d, 1, P2(up));
    assert 0 <= TWO52 * (d * P2(up)) < Pow(BASE, CAP);
    AtLeastIsOrder(big, lo);
    BracketIsNormalised(n, d, down, up, big.Value(), lo.Value());
  }

  lemma BracketIsNormalised(n: nat, d: nat, down: int, up: int, a: int, l: int)
    requires d > 0 && down <= 0 <= up && (down < 0 ==> up == 0)
    requires a == n * P2(-down) && l == TWO52 * (d * P2(up)) && l <= a < 2 * l
    ensures var e := down + up;
      d * P2(e) > 0 && a == n * P2(-e) && l == TWO52 * (d * P2(e)) && Normalised(n, d, e)
  {
    var e := down + up;
    assert P2(-e) == P2(-down) && P2(e) == P2(up);
    MulMonotonic(d, 1, P2(e));
  }

  /** N = big * 10^max(k,0), cut off at the capacity, lo = 2^52 * denom and hi = 2 * lo. */
  method Prepare(big: Big, k: int) returns (lo: Big, hi: Big)
    requires big.Valid() && big.Value() > 0 && -400 <= k <= 350
    modifies big, big.limb
    ensures big.limb == old(big.limb) && big.Sound() && big.Value() == Held(old(big.Value()), k)
    ensures big.n == CAP <==> Fills(old(big.Value()), k)
    ensures Numer(old(big.Value()), k) < Pow(BASE, CAP) ==> big.Valid() && big.Value() == Numer(old(big.Value()), k) > 0
    ensures fresh(lo) && fresh(lo.limb) && fresh(hi) && fresh(hi.limb) && lo != hi && lo.limb != hi.limb
    ensures lo.Valid() && lo.Value() == TWO52 * Denom(k) > 0 && lo.n < CAP
    ensures hi.Valid() && hi.Value() == 2 * lo.Value() < Pow(BASE, CAP - 1) < Pow(BASE, CAP)
  {
    hide Val, Pow, Big.Valid, Big.Sound, Big.Value, Numer, Denom;
    ghost var room, u := Pow(BASE, CAP), Numer(big.Value(), k);
    NumerDenom(big.Value(), k);
    DenominatorFits(k);
    ScaleTen(big, if k > 0 then k else 0);
    SmallMod(u, room);
    if u < room { CountIsSize(big); }
    var denom := PowerOfTen(if k < 0 then -k else 0);
    lo := Shifted52(denom);
    CountIsSize(lo);
    hi := new Big.Copy(lo);
    hi.MulSmall(2);
  }

  /** Rounding the 54 bits, half to even, and the step to the next binade. */
  method RoundBits(q: u64, round: bool, e: int) returns (mant: u64, e2: int)
    requires TWO53 <= q < 2 * TWO53
    ensures (mant as nat, e2) == Renorm(FromBits(q, round), e) && TWO52 <= mant < TWO53
  {
    mant, e2 := q / 2, e;
    if q % 2 == 1 && (round || mant % 2 == 1) {
      mant := mant + 1;
    }
    if mant == TWO53 {
      mant := mant / 2;
      e2 := e2 + 1;
    }
  }

  /** What the 54 bits say about n/d, where the division was by 2^52 * d in the binade. */
  lemma Bits(n: nat, d: nat, e: int, sticky: bool, a: nat, q: nat, inexact: bool)
    requires d > 0 && Normalised(n, d, e) && a == n * P2(-e)
    requires IsQuotient(a, TWO52 * (d * P2(e)), q, inexact)
    ensures FromBits(q, sticky || inexact) == Cut(n, d, sticky, e)
  {
    hide FromBits, Normalised;
    MulMonotonic(d, 1, P2(e));
    var s := d * P2(e);
    var r := 2 * a - q * s;
    assert q * (TWO52 * s) == TWO52 * (q * s);
    assert 0 <= r < s;
    DivModUnique(2 * a, s, q, r);
  }
}
