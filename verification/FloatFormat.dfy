/** printf's %e, %f and %g (rt_format.c): exact digits, rounding in the digit buffer, layout. */
module FloatFormat {
  import opened Powers
  import opened Decimal
  import opened Rounding
  import opened Binary64
  import opened Bignum
  import opened Bounds
  import opened DecimalToBinary

  const DIG_SIZE := 800
  const BODY_SIZE := 832

  // ---- integers ----

  /** rt_utoa in base ten: digits come out backwards and are turned around. */
  method Utoa(v: nat) returns (s: string)
    ensures s == Dec(v)
  {
    if v == 0 {
      return "0";
    }
    var r := v;
    s := "";
    DecDenotes(v);
    while r != 0
      invariant r != 0 ==> Dec(v) == Dec(r) + s
      invariant r == 0 ==> Dec(v) == s
    {
      assert r < 10 ==> Dec(r) == [DigitChar(r)];
      s := [DigitChar(r % 10)] + s;
      r := r / 10;
    }
  }

  /** bn_digits: the top limb, then every other limb padded to nine digits. */
  method BigDigits(b: Big) returns (s: string)
    requires b.Valid() && b.Value() >= 0
    ensures s == Dec(b.Value())
  {
    if b.n == 0 {
      return "0";
    }
    ghost var l := b.limb[..b.n];
    var i := b.n - 1;
    s := Utoa(b.limb[i]);
    TopValue(l, i);
    while i > 0
      invariant 0 <= i < b.n
      invariant HighValue(l, i) > 0 && s == Dec(HighValue(l, i))
    {
      i := i - 1;
      var d9 := Utoa(b.limb[i]);
      DecLength9(b.limb[i]);
      assert l[i] == b.limb[i];
      HighStep(l, i);
      s := s + Zeros(9 - |d9|) + d9;
    }
    HighAll(l);
  }

  /** The limbs from i upwards, read as a number of their own. */
  ghost function HighValue(l: seq<int>, i: nat): int
    decreases |l| - i
  {
    if i >= |l| then 0 else l[i] + BASE * HighValue(l, i + 1)
  }

  lemma {:induction false} HighPositive(l: seq<int>, i: nat)
    requires Limbs(l) && i < |l| && l[|l| - 1] != 0
    ensures HighValue(l, i) > 0
    decreases |l| - i
  {
    if i + 1 < |l| { HighPositive(l, i + 1); }
  }

  lemma TopValue(l: seq<int>, i: nat)
    requires Limbs(l) && i + 1 == |l| && l[i] != 0
    ensures HighValue(l, i) == l[i] > 0
  {
    assert HighValue(l, i + 1) == 0;
  }

  lemma DecLength9(v: int)
    requires 0 <= v < BASE
    ensures 1 <= |Dec(v)| <= 9 && Zeros(9 - |Dec(v)|) + Dec(v) == Pad(v, 9)
  {
    assert Pow(10, 9) == BASE;
    DecLength(v, 9);
    DecDenotes(v);
    var s := Zeros(9 - |Dec(v)|) + Dec(v);
    ZerosAreZero(9 - |Dec(v)|);
    NatOfConcat(Zeros(9 - |Dec(v)|), Dec(v));
    PadUnique(s);
  }

  lemma HighStep(l: seq<int>, i: nat)
    requires Limbs(l) && i + 1 < |l| && l[|l| - 1] != 0
    ensures HighValue(l, i) > 0 && HighValue(l, i + 1) > 0
    ensures Dec(HighValue(l, i)) == Dec(HighValue(l, i + 1)) + Pad(l[i], 9)
  {
    HighPositive(l, i);
    HighPositive(l, i + 1);
    assert Pow(10, 9) == BASE;
    DecSplit(HighValue(l, i + 1), l[i], 9);
  }

  lemma {:induction false} HighIsShifted(l: seq<int>, i: nat)
    requires i <= |l|
    ensures ShiftedVal(l[i..], i) == HighValue(l, i) * Pow(BASE, i)
    decreases |l| - i
  {
    if i < |l| {
      HighIsShifted(l, i + 1);
      assert l[i..][1..] == l[i + 1..];
      var h, p := HighValue(l, i + 1), Pow(BASE, i);
      assert h * Pow(BASE, i + 1) == BASE * h * p by { assert Pow(BASE, i + 1) == BASE * p; }
      assert (l[i] + BASE * h) * p == l[i] * p + BASE * h * p;
    }
  }

  lemma HighAll(l: seq<int>)
    ensures HighValue(l, 0) == Val(l)
  {
    HighIsShifted(l, 0);
    ShiftedIsVal(l);
    assert l[0..] == l;
    assert Pow(BASE, 0) == 1;
  }

  // ---- exact digits ----

  /** xn/xd is exactly n * 10^-t. */
  predicate Denotes(n: nat, t: int, xn: nat, xd: nat) {
    xn * Pow(10, Max0(t)) == n * Pow(10, Max0(-t)) * xd
  }

  /** m * 2^e2 as a quotient. */
  function Num(m: nat, e2: int): nat { m * P2(e2) }

  function Den(e2: int): (d: nat)
    ensures d > 0
  {
    P2(-e2)
  }

  /** The scaled mantissa stays inside the 100 limbs. Every e2 from -884 up qualifies. */
  predicate FitsDigits(m: nat, e2: int) { e2 >= 0 || m * Pow(10, -e2) < Pow(BASE, CAP) }

  lemma FitsFrom884(m: nat, e2: int)
    requires m < TWO53 && e2 >= -884
    ensures FitsDigits(m, e2)
  {
    hide Pow;
    if e2 < 0 {
      BufferDigits();
      TenTo16();
      PowAdd(10, 16, -e2);
      MulMonotonic(Pow(10, -e2), m + 1, Pow(10, 16));
      PowMonotonic(10, 16 - e2, 9 * CAP);
    }
  }

  lemma TenTo16()
    ensures Pow(10, 8) == 100_000_000 && Pow(10, 16) == 10_000_000_000_000_000
  {
    assert Pow(10, 8) == 100_000_000;
    PowAdd(10, 8, 8);
  }

  /** A decimal numeral for a finite double: no leading zero, no trailing zero, exact. */
  ghost predicate ExactDecimal(s: string, decpt: int, m: nat, e2: int) {
    && AllDigits(s) && s != "" && s[0] != '0'
    && Denotes(NatOf(s), |s| - decpt, Num(m, e2), Den(e2))
  }

  /** rt_exact_digits: |x| = 0.D1...Dn * 10^decpt, exactly. */
  method ExactDigits(m: u64, e2: int, dig: array<char>) returns (len: nat, decpt: int)
    requires 0 < m < TWO53 && e2 <= 971 && FitsDigits(m, e2) && dig.Length == DIG_SIZE
    modifies dig
    ensures 1 <= len <= 646 && ExactDecimal(dig[..len], decpt, m, e2)
  {
    hide Val, Pow, Big.Valid, Big.Value, Dec, NatOf;
    var b := new Big.Zero();
    b.FromU64(m);
    var frac := 0;
    if e2 >= 0 {
      DoubleFits(m, e2);
      b.Shl(e2);
    } else {
      b.MulPow10(0 - e2);
      FiveFactor(m, 0 - e2);
      var sticky := b.Shr(0 - e2);
      frac := 0 - e2;
    }
    ghost var v: nat := if e2 >= 0 then m * Pow(2, e2) else m * Pow(5, 0 - e2);
    ValuePositive(m, e2);
    var s := BigDigits(b);
    DecDenotes(v);
    DigitCount(m, e2, v);
    len := StoreStripped(s, dig);
    decpt := |s| - frac;
    StrippedExact(s, len, frac, m, e2, v);
  }

  /** Copy the digits into the buffer and drop trailing zeros. */
  method StoreStripped(s: string, dig: array<char>) returns (len: nat)
    requires 1 <= |s| < dig.Length
    modifies dig
    ensures 1 <= len <= |s| && dig[..len] == s[..len] && s[..len] + Zeros(|s| - len) == s
  {
    var i := 0;
    while i < |s|
      invariant 0 <= i <= |s| && dig[..i] == s[..i]
    {
      dig[i] := s[i];
      i := i + 1;
    }
    len := |s|;
    while len > 1 && dig[len - 1] == '0'
      invariant 1 <= len <= |s| && dig[..len] == s[..len]
      invariant s[..len] + Zeros(|s| - len) == s
    {
      assert s[..len][len - 1] == '0';
      assert s[..len] == s[..len - 1] + "0";
      assert "0" + Zeros(|s| - len) == Zeros(|s| - len + 1);
      len := len - 1;
    }
  }

  lemma ValuePositive(m: nat, e2: int)
    requires m > 0
    ensures e2 >= 0 ==> m * Pow(2, e2) > 0
    ensures e2 < 0 ==> m * Pow(5, 0 - e2) > 0
  {
    if e2 >= 0 { MulMonotonic(Pow(2, e2), 1, m); } else { MulMonotonic(Pow(5, 0 - e2), 1, m); }
  }

  lemma FiveFactor(m: nat, k: nat)
    ensures m * Pow(10, k) / Pow(2, k) == m * Pow(5, k)
    ensures m * Pow(10, k) == m * Pow(5, k) * Pow(2, k)
  {
    PowProduct(5, 2, k);
    DivModUnique(m * Pow(10, k), Pow(2, k), m * Pow(5, k), 0);
  }

  lemma DoubleFits(m: nat, e2: int)
    requires m < TWO53 && 0 <= e2 <= 971
    ensures m * Pow(2, e2) < Pow(10, 316) < Pow(BASE, CAP)
  {
    hide Pow;
    TwoBelowTen();
    PowMonotonic(2, e2, 974);
    MulStrict(m, TWO53, Pow(2, e2), Pow(2, 974));
  }

  lemma TwoBelowTen()
    ensures TWO53 * Pow(2, 974) <= Pow(10, 316) < Pow(BASE, CAP)
  {
    hide Pow;
    Pow2To54();
    PowAdd(2, 53, 974);
    SmallPowers();
    PowPow(2, 13, 79);
    PowBaseMonotonic(8192, 10000, 79);
    PowPow(10, 4, 79);
    BufferDigits();
    PowStrict(10, 316, 9 * CAP);
  }

  lemma SmallPowers()
    ensures Pow(2, 13) == 8192 && Pow(10, 4) == 10000 && Pow(5, 10) == 9765625 && Pow(10, 7) == 10000000
  {
  }

  /** The digits fit their buffer. */
  lemma DigitCount(m: nat, e2: int, v: nat)
    requires 0 < m < TWO53 && e2 <= 971 && FitsDigits(m, e2)
    requires v == if e2 >= 0 then m * Pow(2, e2) else m * Pow(5, 0 - e2)
    ensures 1 <= |Dec(v)| <= 646
  {
    hide Pow, Dec;
    DecDenotes(v);
    if e2 >= 0 {
      DoubleFits(m, e2);
      DecLength(v, 316);
    } else {
      FractionFits(m, 0 - e2);
      DecLength(v, 646);
    }
  }

  lemma FractionFits(m: nat, k: nat)
    requires 0 < m < TWO53 && m * Pow(10, k) < Pow(BASE, CAP)
    ensures m * Pow(5, k) < Pow(10, 646)
  {
    hide Pow;
    BufferDigits();
    MulMonotonic(Pow(10, k), 1, m);
    PowOrder(10, k, 9 * CAP);
    PowMonotonic(5, k, 900);
    FiveBelowTen();
    MulStrict(m, TWO53, Pow(5, k), Pow(5, 900));
  }

  lemma FiveBelowTen()
    ensures TWO53 * Pow(5, 900) <= Pow(10, 646)
  {
    hide Pow;
    SmallPowers();
    TenTo16();
    PowPow(5, 10, 90);
    PowBaseMonotonic(9765625, 10000000, 90);
    PowPow(10, 7, 90);
    PowAdd(10, 16, 630);
    MulBounds(TWO53, Pow(10, 16), Pow(5, 900), Pow(10, 630));
  }

  lemma StrippedExact(s: string, len: nat, frac: nat, m: nat, e2: int, v: nat)
    requires AllDigits(s) && NatOf(s) == v > 0 && 1 <= len <= |s| && s[0] != '0'
    requires s[..len] + Zeros(|s| - len) == s
    requires frac == (if e2 >= 0 then 0 else 0 - e2)
    requires v == if e2 >= 0 then m * Pow(2, e2) else m * Pow(5, 0 - e2)
    ensures ExactDecimal(s[..len], |s| - frac, m, e2)
  {
    hide Pow, NatOf;
    var z := |s| - len;
    AppendZeros(s[..len], z);
    var n := NatOf(s[..len]);
    PowZero(10);
    PowZero(2);
    if e2 >= 0 {
      assert Denotes(n, 0 - z, Num(m, e2), Den(e2));
    } else {
      FiveFactor(m, frac);
      StrippedFraction(n, z, m, frac, Pow(2, frac));
    }
  }

  lemma StrippedFraction(n: nat, z: nat, m: nat, k: nat, p: nat)
    requires m * Pow(10, k) == n * Pow(10, z) * p
    ensures Denotes(n, k - z, m, p)
  {
    hide Pow;
    PowZero(10);
    if k >= z {
      PowAdd(10, z, k - z);
      CancelLeft(m, Pow(10, k - z), Pow(10, z), n, 1, p, Pow(10, k), Pow(10, z));
    } else {
      PowAdd(10, k, z - k);
      CancelLeft(m, 1, Pow(10, k), n, Pow(10, z - k), p, Pow(10, k), Pow(10, z));
    }
  }

  lemma CancelLeft(m: int, a: int, q: int, n: int, b: int, p: int, w: int, v: int)
    requires q > 0 && w == q * a && v == q * b && m * w == n * v * p
    ensures m * a == n * b * p
  {
    assert n * (q * b) * p == n * b * p * q;
    assert m * (q * a) == m * (a * q);
    CancelTen(m, a, n * b * p, q);
  }

  lemma CancelTen(m: int, a: int, b: int, c: int)
    requires m * (a * c) == b * c
    requires c > 0
    ensures m * a == b
  {
    assert m * (a * c) == (m * a) * c;
    assert (m * a - b) * c == 0;
    if m * a - b > 0 { MulMonotonic(c, 1, m * a - b); } else if m * a - b < 0 { MulMonotonic(c, m * a - b, -1); }
  }
}
