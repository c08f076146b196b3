/** The numbers and the bounds of strtod (rt_scan.c): N * 10^k as a quotient, the powers of two it is compared with, what
    is left of either in a buffer of 900 digits, and when the loop that doubles the bounds stops. */
module Bounds {
  import opened Powers
  import opened Rounding
  import opened Binary64
  import opened Bignum

  function Max0(k: int): nat { if k > 0 then k else 0 }

  /** The exact value of N * 10^k as a quotient. */
  function Numer(n: nat, k: int): nat { n * Pow(10, Max0(k)) }

  function Denom(k: int): (d: nat)
    ensures d > 0
  {
    Pow(10, Max0(-k))
  }

  /** The upper bound of strtod after j doublings, when nothing is cut off. */
  function Bound(d: nat, j: nat): nat { TWO53 * (d * Pow(2, j)) }

  /** Some bound above the number fits the 900-digit buffer: everything strtod scales stays inside. */
  ghost predicate FitsBuffer(n: nat, k: int) { exists j: nat :: Numer(n, k) < Bound(Denom(k), j) < Pow(BASE, CAP) }

  /** What the buffer holds of the scaled number, and whether all its limbs are in use. */
  function Held(n: nat, k: int): nat { Numer(n, k) % Pow(BASE, CAP) }

  predicate Fills(n: nat, k: int) { Numer(n, k) >= Pow(BASE, CAP - 1) }

  /** Does the loop go on at a bound that would be h if nothing were cut off? full says that the number has all its
      limbs, so that only the limbs are compared once the bound has them all too. */
  predicate GoesOn(full: bool, b: int, h: nat) {
    if full then h < Pow(BASE, CAP - 1) || h % Pow(BASE, CAP) <= b else h <= b
  }

  /** The loop that doubles the bounds stops. */
  ghost predicate Stops(n: nat, k: int) { exists j: nat :: !GoesOn(Fills(n, k), Held(n, k), Bound(Denom(k), j)) }

  /** What the buffer holds of the scaled number is not within 2^900 of the capacity. */
  predicate Answers(n: nat, k: int) { Held(n, k) < Pow(BASE, CAP) - Pow(2, 9 * CAP) }

  lemma BufferDigits()
    ensures Pow(BASE, CAP) == Pow(10, 9 * CAP)
  {
    assert Pow(10, 9) == BASE;
    PowPow(10, 9, CAP);
  }

  lemma NineDigits()
    ensures Pow(10, 9) == BASE
  {}

  /** 2^54 * 10^400 is far from needing the last limb. */
  lemma DenominatorFits(k: int)
    requires k >= -400
    ensures 2 * TWO53 * Denom(k) < Pow(BASE, CAP - 1) < Pow(BASE, CAP)
  {
    hide Pow;
    NineDigits();
    PowPow(10, 9, CAP - 1);
    PowAdd(10, 9, 9);
    PowAdd(10, 18, Max0(-k));
    MulMonotonic(Denom(k), 2 * TWO53 + 1, Pow(10, 18));
    PowMonotonic(10, 18 + Max0(-k), 9 * (CAP - 1));
    PowStrict(BASE, CAP - 1, CAP);
  }

  lemma NumerDenom(n: nat, k: int)
    requires n > 0
    ensures Numer(n, k) == n * Pow(10, if k > 0 then k else 0) > 0
    ensures Denom(k) == Pow(10, if k < 0 then -k else 0)
  {
    MulMonotonic(Pow(10, Max0(k)), 1, n);
  }

  lemma SmallMod(v: nat, room: nat)
    requires room > 0
    ensures v % room < room && (v < room ==> v % room == v)
  {
    DivMod(v, room);
    if v < room { DivModUnique(v, room, 0, v); }
  }

  /** Cutting off before multiplying does not matter. */
  lemma ModTimes(v: nat, m: nat, room: nat)
    requires room > 0
    ensures v % room * m % room == v * m % room
  {
    DivMod(v, room);
    var q, r := v / room, v % room;
    DivMod(r * m, room);
    var q1, r1 := r * m / room, r * m % room;
    assert (q * m + q1) * room == q * room * m + q1 * room;
    assert v * m == q * room * m + r * m;
    DivModUnique(v * m, room, q * m + q1, r1);
  }

  lemma BoundStep(d: nat, j: nat)
    ensures Bound(d, j + 1) == 2 * Bound(d, j) && Bound(d, 0) == TWO53 * d
  {
    assert Pow(2, 0) == 1;
    assert d * Pow(2, j + 1) == 2 * (d * Pow(2, j));
  }

  lemma BoundIs(d: nat, j: nat)
    ensures Bound(d, j) == 2 * (TWO52 * (d * P2(j)))
  {
    if j == 0 { assert Pow(2, 0) == 1; }
  }

  lemma BoundOrder(d: nat, i: nat, j: nat)
    requires d > 0
    ensures i <= j ==> Bound(d, i) <= Bound(d, j)
    ensures i >= j ==> Bound(d, i) >= Bound(d, j)
  {
    if i <= j {
      PowMonotonic(2, i, j);
      MulMonotonic(d, Pow(2, i), Pow(2, j));
    }
    if i >= j {
      PowMonotonic(2, j, i);
      MulMonotonic(d, Pow(2, j), Pow(2, i));
    }
  }

  lemma BoundPositive(d: nat, j: nat)
    requires d > 0
    ensures Bound(d, j) >= TWO53 * d > 0
  {
    PowMonotonic(2, 0, j);
    MulMonotonic(d, 1, Pow(2, j));
  }

  // ---- with nothing cut off ----

  /** Below half the buffer there is always such a bound. */
  lemma HalfFits(n: nat, k: int)
    requires k >= -400 && 2 * Numer(n, k) < Pow(BASE, CAP)
    ensures FitsBuffer(n, k)
  {
    hide Bound, Pow, Numer, Denom;
    DenominatorFits(k);
    BoundStep(Denom(k), 0);
    var j := FirstAbove(Numer(n, k), Denom(k), 0, Pow(BASE, CAP));
  }

  lemma FirstAbove(b: nat, d: nat, i: nat, room: nat) returns (j: nat)
    requires d > 0 && 2 * b < room && Bound(d, i) < room
    ensures b < Bound(d, j) < room
    decreases b - Bound(d, i)
  {
    hide Bound;
    BoundPositive(d, i);
    BoundStep(d, i);
    if b < Bound(d, i) { j := i; } else { j := FirstAbove(b, d, i + 1, room); }
  }

  /** For a positive exponent: the scaled number is below the largest power of two that fits. */
  lemma FitsBelowLargestPower(n: nat, k: int, t: nat)
    requires k > 0 && t >= 53 && Pow(2, t) < Pow(BASE, CAP) <= Pow(2, t + 1)
    ensures FitsBuffer(n, k) <==> Numer(n, k) < Pow(2, t)
  {
    hide Pow, Numer;
    assert Denom(k) == 1 by { PowZero(10); }
    Pow2To54();
    if FitsBuffer(n, k) {
      var j: nat :| Numer(n, k) < Bound(1, j) < Pow(BASE, CAP);
      PowAdd(2, 53, j);
      if 53 + j > t { PowMonotonic(2, t + 1, 53 + j); } else { PowMonotonic(2, 53 + j, t); }
    }
    if Numer(n, k) < Pow(2, t) {
      PowAdd(2, 53, t - 53);
      assert Bound(1, t - 53) == Pow(2, t);
    }
  }

  /** It stops with the bounds intact exactly when some bound above the number fits the buffer. */
  lemma StopsIntactIff(n: nat, k: int)
    requires Numer(n, k) < Pow(BASE, CAP)
    ensures FitsBuffer(n, k) <==>
      exists j: nat :: Bound(Denom(k), j) < Pow(BASE, CAP) &&
        !GoesOn(Numer(n, k) >= Pow(BASE, CAP - 1), Numer(n, k), Bound(Denom(k), j))
  {
    hide Pow, Bound, Numer, Denom;
    var room, b, d := Pow(BASE, CAP), Numer(n, k), Denom(k);
    if FitsBuffer(n, k) {
      var j: nat :| b < Bound(d, j) < room;
      SmallMod(Bound(d, j), room);
      assert !GoesOn(b >= Pow(BASE, CAP - 1), b, Bound(d, j));
    }
    if j: nat :| Bound(d, j) < room && !GoesOn(b >= Pow(BASE, CAP - 1), b, Bound(d, j)) {
      SmallMod(Bound(d, j), room);
    }
  }

  // ---- whatever is cut off ----

  /** A bound above the number that fits stops the loop. */
  lemma FitsStops(n: nat, k: int) returns (j: nat)
    requires FitsBuffer(n, k)
    ensures Numer(n, k) < Bound(Denom(k), j) < Pow(BASE, CAP)
    ensures !GoesOn(Fills(n, k), Held(n, k), Bound(Denom(k), j))
  {
    hide Pow, Bound, Numer, Denom;
    j :| Numer(n, k) < Bound(Denom(k), j) < Pow(BASE, CAP);
    SmallMod(Numer(n, k), Pow(BASE, CAP));
    SmallMod(Bound(Denom(k), j), Pow(BASE, CAP));
  }

  lemma FittingStops(n: nat, k: int)
    requires FitsBuffer(n, k)
    ensures Stops(n, k)
  {
    hide GoesOn, Bound, FitsBuffer;
    var j := FitsStops(n, k);
  }

  /** A bound that stops the loop, one that fits if there is one. */
  lemma StopsAt(n: nat, k: int) returns (j: nat)
    requires Stops(n, k)
    ensures !GoesOn(Fills(n, k), Held(n, k), Bound(Denom(k), j))
    ensures FitsBuffer(n, k) ==> Numer(n, k) < Bound(Denom(k), j) < Pow(BASE, CAP)
  {
    hide Pow, Bound, Numer, Denom, GoesOn;
    if FitsBuffer(n, k) { j := FitsStops(n, k); } else { j :| !GoesOn(Fills(n, k), Held(n, k), Bound(Denom(k), j)); }
  }

  /** While the number does not have all the limbs, the loop stops. */
  lemma NotFullStops(b: nat, d: nat)
    requires d > 0
    ensures exists j: nat :: !GoesOn(false, b, Bound(d, j))
  {
    hide Bound;
    var j := FirstAbove(b, d, 0, 2 * b + Bound(d, 0) + 1);
    assert !GoesOn(false, b, Bound(d, j));
  }

  /** A number this close to the capacity is never passed: the bounds are powers of two, and what is left of one that is
      cut off is a multiple of 2^900. */
  lemma NeverStops(b: nat, j: nat)
    requires b >= Pow(BASE, CAP) - Pow(2, 9 * CAP)
    ensures GoesOn(true, b, Bound(1, j))
  {
    hide Pow;
    var e := 9 * CAP;
    var room, p := Pow(BASE, CAP), Pow(2, e);
    Pow2To54();
    PowAdd(2, 53, j);
    var h := Pow(2, 53 + j);
    assert Bound(1, j) == h;
    if 53 + j < e {
      PowMonotonic(2, 53 + j, e);
      TwoBelowTop();
      PowStrict(2, 53 + j, e);
    } else {
      BufferDigits();
      PowProduct(2, 5, e);
      PowAdd(2, e, 53 + j - e);
      var x, y := Pow(2, 53 + j - e), Pow(5, e);
      CommonFactor(p, x, y);
    }
  }

  lemma CommonFactor(p: nat, x: nat, y: nat)
    requires p > 0 && y > 0
    ensures p * y > 0 && p * x % (p * y) <= p * y - p
  {
    MulMonotonic(p, 1, y);
    DivMod(x, y);
    var q, r := x / y, x % y;
    assert p * x == q * (p * y) + p * r by { assert x == q * y + r; assert p * (q * y + r) == q * (p * y) + p * r; }
    MulMonotonic(p, r + 1, y);
    MulMonotonic(p, 0, r);
    assert p * (r + 1) == p * r + p;
    DivModUnique(p * x, p * y, q, p * r);
  }

  lemma TwoBelowTop()
    ensures Pow(2, 9 * CAP) <= Pow(BASE, CAP - 1)
  {
    hide Pow;
    assert Pow(2, 3) == 8 by { EightIs(); }
    PowPow(2, 3, 300);
    PowBaseMonotonic(8, 10, 300);
    assert Pow(10, 9) == BASE by { NineDigits(); }
    PowPow(10, 9, CAP - 1);
    PowMonotonic(10, 300, 9 * (CAP - 1));
  }

  lemma EightIs()
    ensures Pow(2, 3) == 8
  {}

  /** The powers of two come round to -1 modulo every power of five. */
  lemma {:induction false} Cycle(n: nat) returns (c: int)
    requires n > 0
    ensures Pow(2, 2 * Pow(5, n - 1)) + 1 == Pow(5, n) * c && c > 0
  {
    hide Pow;
    if n == 1 {
      FiveIs();
      c := 1;
    } else {
      var b := Cycle(n - 1);
      c := NextCycle(n - 2, b);
    }
  }

  lemma NextCycle(m: nat, b: int) returns (c: int)
    requires Pow(2, 2 * Pow(5, m)) + 1 == Pow(5, m + 1) * b
    ensures Pow(2, 2 * Pow(5, m + 1)) + 1 == Pow(5, m + 2) * c && c > 0
  {
    hide Pow;
    PowOnce(5, m);
    PowOnce(5, m + 1);
    var x, y, z := Pow(2, 2 * Pow(5, m)), Pow(5, m + 1), Pow(5, m);
    PowPow(2, 2 * z, 5);
    FifthPower(x);
    c := FifthPlusOne(x, y, z, b);
    assert 2 * z * 5 == 2 * y;
    if c <= 0 { MulMonotonic(5 * y, c, 0); }
  }

  lemma FiveIs()
    ensures Pow(5, 0) == 1 && Pow(5, 1) == 5 && Pow(2, 2) == 4
  {}

  lemma PowOnce(x: nat, n: nat)
    ensures Pow(x, n + 1) == x * Pow(x, n) && Pow(x, 0) == 1
  {}

  lemma FifthPower(x: nat)
    ensures Pow(x, 5) == x * (x * (x * (x * x)))
  {
    hide Pow;
    PowOnce(x, 4);
    PowOnce(x, 3);
    PowOnce(x, 2);
    PowOnce(x, 1);
    PowOnce(x, 0);
  }

  /** If y = 5z divides x + 1, then 5y divides x^5 + 1. */
  lemma FifthPlusOne(x: int, y: int, z: int, b: int) returns (c: int)
    requires y == 5 * z && x + 1 == y * b
    ensures x * (x * (x * (x * x))) + 1 == (5 * y) * c
  {
    var w, v := x + 1, z * b;
    var t := w * w * w * v - w * w * w + 2 * w * w - 2 * w + 1;
    c := b * t;
    assert w == 5 * v;
    FifthIdentity(w, v, t);
    assert 5 * w * t == (5 * y) * (b * t);
  }

  lemma FifthIdentity(w: int, v: int, t: int)
    requires w == 5 * v && t == w * w * w * v - w * w * w + 2 * w * w - 2 * w + 1
    ensures (w - 1) * ((w - 1) * ((w - 1) * ((w - 1) * (w - 1)))) + 1 == 5 * w * t
  {
    var a := (w - 1) * (w - 1);
    assert a == w * w - 2 * w + 1;
    var w2, w3 := w * w, w * w * w;
    var a3 := (w - 1) * a;
    assert a3 == w3 - 3 * w2 + 3 * w - 1;
    var a4 := (w - 1) * a3;
    assert w * w3 == w3 * w;
    assert a4 == w * w3 - 4 * w3 + 6 * w2 - 4 * w + 1;
    var a5 := (w - 1) * a4;
    assert a5 == w * (w * w3) - 5 * (w * w3) + 10 * w3 - 10 * w2 + 5 * w - 1;
    assert w * (w * w3) == 5 * (w * (w3 * v));
    assert w * t == w * (w3 * v) - w * w3 + 2 * w3 - 2 * w2 + w;
  }

  /** Below that a bound comes that leaves exactly 10^900 - 2^900 in the buffer. */
  lemma SmallerStops(b: nat)
    requires b < Pow(BASE, CAP) - Pow(2, 9 * CAP)
    ensures exists j: nat :: !GoesOn(true, b, Bound(1, j))
  {
    hide Pow;
    var e := 9 * CAP;
    var room, p := Pow(BASE, CAP), Pow(2, e);
    BufferDigits();
    PowProduct(2, 5, e);
    var c := Cycle(e);
    var x := 2 * Pow(5, e - 1);
    PowAdd(2, e, x);
    Pow2To54();
    var j := e + x - 53;
    PowAdd(2, 53, j);
    assert Bound(1, j) == Pow(2, e + x);
    Remainder(p, Pow(5, e), c, Pow(2, x));
    TwoBelowTop();
    PowStrict(BASE, CAP - 1, CAP);
    MulMonotonic(room, 0, c - 1);
    assert Bound(1, j) == room * (c - 1) + (room - p);
    assert !GoesOn(true, b, Bound(1, j));
  }

  lemma Remainder(p: nat, q: nat, c: int, w: nat)
    requires p > 0 && q > 0 && c > 0 && w + 1 == q * c
    ensures p * q > 0 && p * w == p * q * (c - 1) + (p * q - p)
    ensures p * w % (p * q) == p * q - p
  {
    MulMonotonic(p, 1, q);
    assert p * (q * c) == p * q * c;
    assert p * w == p * (q * c) - p;
    assert p * q * c == p * q * (c - 1) + p * q;
    DivModUnique(p * w, p * q, c - 1, p * q - p);
  }

  /** A full buffer stops the loop if and only if it is not within 2^900 of the capacity. */
  lemma FullStopsIff(b: nat)
    requires b < Pow(BASE, CAP)
    ensures (exists j: nat :: !GoesOn(true, b, Bound(1, j))) <==> b < Pow(BASE, CAP) - Pow(2, 9 * CAP)
  {
    hide Pow, Bound, GoesOn;
    if b < Pow(BASE, CAP) - Pow(2, 9 * CAP) {
      SmallerStops(b);
    } else {
      forall j: nat ensures GoesOn(true, b, Bound(1, j)) { NeverStops(b, j); }
    }
  }

  /** For a positive exponent, in terms of the number: the loop stops if and only if what the buffer holds of it is not that
      close to the capacity. */
  lemma StopsIff(n: nat, k: int)
    requires k > 0
    ensures Stops(n, k) <==> Answers(n, k)
  {
    hide Pow, Bound, Numer, Denom, GoesOn;
    var b, room := Held(n, k), Pow(BASE, CAP);
    SmallMod(Numer(n, k), room);
    assert Denom(k) == 1 by { DenomOne(k); }
    if Fills(n, k) {
      FullStopsIff(b);
    } else {
      TwoBelowTop();
      PowStrict(BASE, CAP - 1, CAP);
      NotFullStops(b, 1);
    }
  }

  /** Beyond the buffer is far beyond the largest double. */
  lemma FarAbove(k: int)
    requires k >= -400
    ensures TWO53 * (Denom(k) * Pow(2, 971)) < Pow(10, 742) < Pow(BASE, CAP - 1)
  {
    hide Pow;
    NineDigits();
    PowPow(10, 9, CAP - 1);
    assert Pow(2, 3) == 8 by { EightIs(); }
    PowPow(2, 3, 324);
    PowBaseMonotonic(8, 10, 324);
    PowMonotonic(2, 971, 972);
    PowAdd(10, 9, 9);
    var d, two := Denom(k), Pow(2, 971);
    PowAdd(10, Max0(-k), 324);
    MulMonotonic(d, two, Pow(10, 324));
    var x := Max0(-k) + 324;
    MulMonotonic(TWO53, d * two, Pow(10, x));
    PowAdd(10, 18, x);
    MulStrict(TWO53, Pow(10, 18), Pow(10, x), Pow(10, x));
    PowMonotonic(10, 18 + x, 742);
    PowStrict(10, 742, 9 * (CAP - 1));
  }

  lemma DenomOne(k: int)
    requires k > 0
    ensures Denom(k) == 1
  {
    PowZero(10);
  }

  // ---- a bound in a bignum ----

  /** A bound that would be h if nothing were cut off. */
  ghost predicate Stands(hi: Big, h: nat)
    reads hi, hi.limb
  {
    && hi.Sound() && hi.Value() == h % Pow(BASE, CAP)
    && (if h < Pow(BASE, CAP) then hi.Valid() && hi.Value() == h else hi.n == CAP)
  }

  lemma StandsSound(hi: Big, h: nat)
    requires Stands(hi, h)
    ensures hi.Sound()
  {}

  lemma StartsIntact(hi: Big, h: nat)
    requires hi.Valid() && hi.Value() == h < Pow(BASE, CAP)
    ensures Stands(hi, h)
  {
    SmallMod(h, Pow(BASE, CAP));
  }

  lemma CountIsSize(b: Big)
    requires b.Valid()
    ensures b.n == CAP <==> b.Value() >= Pow(BASE, CAP - 1)
    ensures b.Value() < Pow(BASE, b.n)
  {
    hide Val, Pow;
    ValBounds(b.limb[..b.n]);
    if b.n == CAP { ValTop(b.limb[..b.n]); } else { PowMonotonic(BASE, b.n, CAP - 1); }
  }

  /** What sbn_cmp calls at least as large: more limbs, or as many and no smaller a value. */
  ghost predicate AtLeast(a: Big, b: Big)
    requires a.Sound() && b.Sound()
    reads a, a.limb, b, b.limb
  {
    a.n > b.n || (a.n == b.n && a.Value() >= b.Value())
  }

  lemma AtLeastIsOrder(a: Big, b: Big)
    requires a.Valid() && b.Valid()
    ensures AtLeast(a, b) <==> a.Value() >= b.Value()
  {
    hide Val, Pow;
    if a.n != b.n { OrderByLength(a.limb[..a.n], b.limb[..b.n]); }
  }

  lemma Compared(big: Big, hi: Big, h: nat)
    requires big.Sound() && Stands(hi, h) && big.Value() >= 0
    ensures AtLeast(big, hi) <==> GoesOn(big.n == CAP, big.Value(), h)
  {
    hide Val, Pow, Big.Value, AtLeast;
    if h < Pow(BASE, CAP) {
      CountIsSize(hi);
    } else {
      PowMonotonic(BASE, CAP - 1, CAP);
    }
    ComparedBy(big, hi);
    if big.n < CAP {
      Fewer(big);
      CountIsSize(big);
      PowMonotonic(BASE, big.n, CAP);
      if h < Pow(BASE, CAP) { AtLeastIsOrder(big, hi); }
    }
  }

  lemma ComparedBy(a: Big, b: Big)
    requires a.Sound() && b.Sound()
    ensures a.n > b.n ==> AtLeast(a, b)
    ensures a.n < b.n ==> !AtLeast(a, b)
    ensures a.n == b.n ==> (AtLeast(a, b) <==> a.Value() >= b.Value())
  {}

  /** What the answer of sbn_cmp says. */
  lemma CmpSays(a: Big, b: Big, c: int)
    requires a.Sound() && b.Sound()
    requires c == if a.n < b.n || (a.n == b.n && a.Value() < b.Value()) then -1
        else if a.n > b.n || a.Value() > b.Value() then 1 else 0
    ensures c >= 0 <==> AtLeast(a, b)
    ensures c >= 0 ==> b.n <= a.n
  {}

  lemma Fewer(b: Big)
    requires b.Sound() && b.n < CAP
    ensures b.Valid()
  {}

  lemma DoubledStands(h: nat, v: int)
    requires v == h % Pow(BASE, CAP)
    ensures v * 2 % Pow(BASE, CAP) == (2 * h) % Pow(BASE, CAP)
    ensures h < Pow(BASE, CAP) ==> v == h
    ensures 2 * h < Pow(BASE, CAP) ==> v * 2 == 2 * h && 2 * h % Pow(BASE, CAP) == 2 * h
  {
    hide Pow;
    ModTimes(h, 2, Pow(BASE, CAP));
    SmallMod(h, Pow(BASE, CAP));
    SmallMod(2 * h, Pow(BASE, CAP));
  }

  method DoubleBound(hi: Big, ghost h: nat)
    requires Stands(hi, h)
    modifies hi, hi.limb
    ensures Stands(hi, 2 * h) && hi.limb == old(hi.limb)
  {
    hide Val, Pow, Big.Value, Big.Valid, Big.Sound;
    DoubledStands(h, hi.Value());
    hi.MulSmall(2);
  }
}
