/** The unsigned __int128 support of src/C99/Runtime.hs: 128-bit arithmetic on two 64-bit words. */
module U128 {
  import opened Powers
  import opened Words

  datatype Pair = Pair(lo: Word, hi: Word)

  const W128: nat := 0x1_0000_0000_0000_0000_0000_0000_0000_0000

  function Value(a: Pair): (v: nat)
    ensures v < W128
  {
    a.hi * W64 + a.lo
  }

  // ---- sum and difference ----

  method Add(a: Pair, b: Pair) returns (r: Pair)
    ensures Value(r) == (Value(a) + Value(b)) % W128
  {
    var lo := (a.lo + b.lo) % W64;
    var hi := (a.hi + b.hi + if lo < a.lo then 1 else 0) % W64;
    LowSum(a.lo, b.lo, lo);
    HighSum(a.hi + b.hi + (if lo < a.lo then 1 else 0), lo, Value(a) + Value(b));
    r := Pair(lo, hi);
  }

  /** The carry shows in the wrapped sum. */
  lemma LowSum(x: Word, y: Word, s: nat)
    requires s == (x + y) % W64
    ensures x + y == s + if s < x then W64 else 0
  {}

  lemma HighSum(h: int, lo: Word, v: int)
    requires v == h * W64 + lo
    ensures h % W64 * W64 + lo == v % W128
  {
    var q, r := h / W64, h % W64;
    assert h == q * W64 + r;
    assert v == q * W128 + (r * W64 + lo);
  }

  method Sub(a: Pair, b: Pair) returns (r: Pair)
    ensures Value(r) == (Value(a) - Value(b)) % W128
  {
    var lo := (a.lo - b.lo) % W64;
    var hi := (a.hi - b.hi - if a.lo < b.lo then 1 else 0) % W64;
    HighSum(a.hi - b.hi - (if a.lo < b.lo then 1 else 0), lo, Value(a) - Value(b));
    r := Pair(lo, hi);
  }

  method Neg(a: Pair) returns (r: Pair)
    ensures (Value(r) + Value(a)) % W128 == 0
  {
    r := Sub(Pair(0, 0), a);
  }

  // ---- shifts ----

  method Shl(a: Pair, count: int) returns (r: Pair)
    ensures Value(r) == Value(a) * Pow(2, count % 128) % W128
  {
    hide Pow, Or, ShiftLeft, ShiftRight;
    var k := count % 128;
    if k == 0 {
      PowOne();
      return a;
    }
    if k >= 64 {
      ShlFar(a, k);
      return Pair(0, ShiftLeft(a.lo, k - 64));
    }
    ShlNear(a, k);
    r := Pair(ShiftLeft(a.lo, k), Or(ShiftLeft(a.hi, k), ShiftRight(a.lo, 64 - k)));
  }

  method Shr(a: Pair, count: int) returns (r: Pair)
    ensures Value(r) == Value(a) / Pow(2, count % 128)
  {
    hide Pow, Or, ShiftLeft, ShiftRight;
    var k := count % 128;
    if k == 0 {
      PowOne();
      return a;
    }
    if k >= 64 {
      ShrFar(a, k);
      return Pair(ShiftRight(a.hi, k - 64), 0);
    }
    ShrNear(a, k);
    r := Pair(Or(ShiftRight(a.lo, k), ShiftLeft(a.hi, 64 - k)), ShiftRight(a.hi, k));
  }

  lemma PowOne()
    ensures Pow(2, 0) == 1
  {}

  /** 2^k and 2^(64 - k) multiply to a word. */
  lemma PowSplit(k: nat)
    requires k <= 64
    ensures Pow(2, k) * Pow(2, 64 - k) == W64
  {
    Pow2To64();
    PowAdd(2, k, 64 - k);
  }

  lemma ShlFar(a: Pair, k: nat)
    requires 64 <= k < 128
    ensures ShiftLeft(a.lo, k - 64) * W64 == Value(a) * Pow(2, k) % W128
  {
    hide Pow;
    Pow2To64();
    PowAdd(2, 64, k - 64);
    assert 64 + (k - 64) == k;
    var p := Pow(2, k - 64);
    FarShift(a.hi, a.lo, p);
    assert Value(a) * Pow(2, k) == (a.hi * W64 + a.lo) * (W64 * p);
  }

  lemma FarShift(hi: nat, lo: nat, p: nat)
    ensures lo * p % W64 * W64 == (hi * W64 + lo) * (W64 * p) % W128
  {
    var q, r := lo * p / W64, lo * p % W64;
    assert (hi * W64 + lo) * (W64 * p) == hi * p * W128 + lo * p * W64;
    assert lo * p * W64 == q * W128 + r * W64;
    DivModUnique((hi * W64 + lo) * (W64 * p), W128, hi * p + q, r * W64);
  }

  lemma ShlNear(a: Pair, k: nat)
    requires 0 < k < 64
    ensures Or(ShiftLeft(a.hi, k), ShiftRight(a.lo, 64 - k)) < W64
    ensures Or(ShiftLeft(a.hi, k), ShiftRight(a.lo, 64 - k)) * W64 + ShiftLeft(a.lo, k) == Value(a) * Pow(2, k) % W128
  {
    hide Pow, Or, ShiftLeft, ShiftRight;
    PowSplit(k);
    var p, c := Pow(2, k), Pow(2, 64 - k);
    assert 64 - (64 - k) == k;
    var lr := RightParts(a.lo, 64 - k);
    var hr := RightParts(a.hi, 64 - k);
    var lq, hq := ShiftRight(a.lo, 64 - k), ShiftRight(a.hi, 64 - k);
    LeftParts(a.hi, hq, hr, k);
    LeftParts(a.lo, lq, lr, k);
    OrDisjoint(hr * p, lq, k);
    JoinWords(a.hi, a.lo, p, c, hq, hr, lq, lr);
  }

  lemma QuotientBelow(x: nat, c: nat, p: nat)
    requires c > 0 && x < c * p
    ensures x / c < p
  {
    var q := x / c;
    assert x == q * c + x % c;
    if q >= p { MulMonotonic(c, p, q); }
  }

  lemma Room(r: nat, p: nat, c: nat)
    requires r < c && p * c == W64
    ensures r * p + p <= W64
  {
    MulMonotonic(p, r + 1, c);
  }

  lemma JoinWords(hi: nat, lo: nat, p: nat, c: nat, hq: nat, hr: nat, lq: nat, lr: nat)
    requires p * c == W64 && hi == hq * c + hr && lo == lq * c + lr && hr * p + lq < W64 && lr * p < W64
    ensures (hr * p + lq) * W64 + lr * p == (hi * W64 + lo) * p % W128
  {
    assert hi * p == hq * (p * c) + hr * p && lo * p == lq * (p * c) + lr * p;
    Distribute(hi * p, lo * p, hi, lo, p);
    WordsOf((hi * W64 + lo) * p, hq, hr * p, lq, lr * p);
  }

  lemma Distribute(x: nat, y: nat, hi: nat, lo: nat, p: nat)
    requires x == hi * p && y == lo * p
    ensures (hi * W64 + lo) * p == x * W64 + y
  {}

  lemma WordsOf(n: nat, hq: nat, hr: nat, lq: nat, lr: nat)
    requires n == (hq * W64 + hr) * W64 + lq * W64 + lr && hr + lq < W64 && lr < W64
    ensures (hr + lq) * W64 + lr == n % W128
  {
    assert n == hq * W128 + ((hr + lq) * W64 + lr);
  }

  lemma ShrFar(a: Pair, k: nat)
    requires 64 <= k < 128
    ensures ShiftRight(a.hi, k - 64) == Value(a) / Pow(2, k)
  {
    hide Pow;
    Pow2To64();
    PowAdd(2, 64, k - 64);
    assert 64 + (k - 64) == k;
    var p := Pow(2, k - 64);
    FarQuotient(a.hi, a.lo, p, a.hi / p, a.hi % p);
    QuotientSmaller(a.hi, p);
  }

  lemma FarQuotient(hi: nat, lo: nat, p: nat, q: nat, r: nat)
    requires p > 0 && lo < W64 && hi == q * p + r && r < p
    ensures W64 * p > 0 && (hi * W64 + lo) / (W64 * p) == q
  {
    var n := q * p;
    assert hi * W64 + lo == n * W64 + (r * W64 + lo);
    assert q * (W64 * p) == n * W64;
    DivModUnique(hi * W64 + lo, W64 * p, q, r * W64 + lo);
  }

  /** A word cut at bit k. */
  lemma RightParts(x: Word, k: nat) returns (r: nat)
    requires k <= 64
    ensures r < Pow(2, k) && x == ShiftRight(x, k) * Pow(2, k) + r && ShiftRight(x, k) < Pow(2, 64 - k)
  {
    hide Pow;
    PowSplit(k);
    r := Cut(x, Pow(2, k), Pow(2, 64 - k));
  }

  lemma Cut(x: nat, p: nat, c: nat) returns (r: nat)
    requires p > 0 && x < p * c
    ensures r < p && x == x / p * p + r && x / p < c
  {
    r := x % p;
    QuotientBelow(x, p, c);
  }

  /** Its low part moves up, clear of the low bits. */
  lemma LeftParts(x: Word, q: nat, r: nat, k: nat)
    requires k <= 64 && r < Pow(2, 64 - k) && x == q * Pow(2, 64 - k) + r
    ensures ShiftLeft(x, k) == r * Pow(2, k) && ShiftLeft(x, k) % Pow(2, k) == 0
    ensures ShiftLeft(x, k) + Pow(2, k) <= W64
  {
    PowSplit(k);
    hide Pow;
    var p, c := Pow(2, k), Pow(2, 64 - k);
    MovedParts(x, p, c, q, r);
    ExactMultiple(r, p);
    assert r * p == p * r;
    Room(r, p, c);
  }

  lemma MovedParts(x: nat, p: nat, c: nat, q: nat, r: nat)
    requires p > 0 && p * c == W64 && r < c && x == q * c + r
    ensures x * p % W64 == r * p
  {
    assert x * p == q * (p * c) + r * p;
    Room(r, p, c);
    DivModUnique(x * p, W64, q, r * p);
  }

  lemma ShrNear(a: Pair, k: nat)
    requires 0 < k < 64
    ensures Or(ShiftRight(a.lo, k), ShiftLeft(a.hi, 64 - k)) < W64
    ensures ShiftRight(a.hi, k) * W64 + Or(ShiftRight(a.lo, k), ShiftLeft(a.hi, 64 - k)) == Value(a) / Pow(2, k)
  {
    hide Pow, Or, ShiftLeft, ShiftRight;
    PowSplit(k);
    var p, c := Pow(2, k), Pow(2, 64 - k);
    var lr := RightParts(a.lo, k);
    var hr := RightParts(a.hi, k);
    var lq, hq := ShiftRight(a.lo, k), ShiftRight(a.hi, k);
    assert 64 - (64 - k) == k;
    LeftParts(a.hi, hq, hr, 64 - k);
    OrSwap(lq, hr * c);
    OrDisjoint(hr * c, lq, 64 - k);
    NearShiftBack(a.hi, a.lo, p, c, hq, hr, lq, lr);
  }

  lemma NearShiftBack(hi: nat, lo: nat, p: nat, c: nat, hq: nat, hr: nat, lq: nat, lr: nat)
    requires p > 0 && p * c == W64 && hi == hq * p + hr && lo == lq * p + lr && lr < p
    ensures hq * W64 + (lq + hr * c) == (hi * W64 + lo) / p
  {
    var n := hq * W64 + (lq + hr * c);
    assert hq * p * W64 == hq * W64 * p && hr * (p * c) == hr * c * p;
    assert hi * W64 + lo == n * p + lr;
    DivModUnique(hi * W64 + lo, p, n, lr);
  }

  lemma {:induction false} OrSwap(a: nat, b: nat)
    ensures Or(a, b) == Or(b, a)
    decreases a + b
  {
    if a != 0 && b != 0 {
      OrSwap(a / 2, b / 2);
    }
  }

  // ---- product ----

  /** The high word of the product of two words, from four half products; no carry is lost. */
  method UMulHi64(a: Word, b: Word) returns (h: Word)
    ensures h == a * b / W64
  {
    MulBounds(a, W64 - 1, b, W64 - 1);
    var a0, a1, b0, b1 := a % W32, a / W32, b % W32, b / W32;
    HalfProduct(a0, b0);
    HalfProduct(a1, b0);
    HalfProduct(a0, b1);
    HalfProduct(a1, b1);
    FourProducts(a, b, a0, a1, b0, b1);
    h := HighWord(a0 * b0, a1 * b0, a0 * b1, a1 * b1, a * b);
  }

  lemma HalfProduct(x: nat, y: nat)
    requires x < W32 && y < W32
    ensures x * y <= (W32 - 1) * (W32 - 1)
  {
    MulBounds(x, W32 - 1, y, W32 - 1);
  }

  /** The sums of the half products, each of which fits a word. */
  method HighWord(ll: nat, hl: nat, lh: nat, hh: nat, ghost p: nat) returns (h: nat)
    requires ll <= (W32 - 1) * (W32 - 1) && hl <= (W32 - 1) * (W32 - 1) && lh <= (W32 - 1) * (W32 - 1)
    requires p == hh * W64 + (hl + lh) * W32 + ll
    ensures h == p / W64
  {
    var t: Word := ll;
    var k := t / W32;
    t := hl + k;
    var w1, w2 := t % W32, t / W32;
    t := lh + w1;
    k := t / W32;
    h := hh + w2 + k;
    HighOfFour(ll, hl, lh, hh, p);
  }

  lemma FourProducts(a: nat, b: nat, a0: nat, a1: nat, b0: nat, b1: nat)
    requires a == a1 * W32 + a0 && b == b1 * W32 + b0
    ensures a * b == a1 * b1 * W64 + (a1 * b0 + a0 * b1) * W32 + a0 * b0
  {
    var x, y := a1 * W32, b1 * W32;
    assert a * b == x * y + x * b0 + a0 * y + a0 * b0;
    assert x * y == (a1 * b1) * (W32 * W32);
    assert x * b0 == (a1 * b0) * W32;
    assert a0 * y == (a0 * b1) * W32;
  }

  lemma HighOfFour(ll: nat, hl: nat, lh: nat, hh: nat, p: nat)
    requires ll < W64 && p == hh * W64 + (hl + lh) * W32 + ll
    ensures var t := hl + ll / W32; var u := lh + t % W32; hh + t / W32 + u / W32 == p / W64
  {
    var t := hl + ll / W32;
    var u := lh + t % W32;
    assert (hl + lh) * W32 + ll == (t / W32 + u / W32) * W64 + (u % W32) * W32 + ll % W32;
  }

  method Mul(a: Pair, b: Pair) returns (r: Pair)
    ensures Value(r) == Value(a) * Value(b) % W128
  {
    var lo := a.lo * b.lo % W64;
    var h := UMulHi64(a.lo, b.lo);
    var hi := (h + a.lo * b.hi + a.hi * b.lo) % W64;
    ProductWords(a, b, h, lo);
    HighSum(h + a.lo * b.hi + a.hi * b.lo, lo, (h + a.lo * b.hi + a.hi * b.lo) * W64 + lo);
    r := Pair(lo, hi);
  }

  lemma ProductWords(a: Pair, b: Pair, h: nat, lo: nat)
    requires h == a.lo * b.lo / W64 && lo == a.lo * b.lo % W64
    ensures Value(a) * Value(b) % W128 == ((h + a.lo * b.hi + a.hi * b.lo) * W64 + lo) % W128
  {
    var al, ah, bl, bh := a.lo, a.hi, b.lo, b.hi;
    var x, y := ah * W64, bh * W64;
    assert Value(a) * Value(b) == x * y + x * bl + al * y + al * bl;
    assert x * y == ah * bh * W128 && x * bl == ah * bl * W64 && al * y == al * bh * W64;
    var v := (h + al * bh + ah * bl) * W64 + lo;
    SameModulo(Value(a) * Value(b), v, ah * bh);
  }

  lemma SameModulo(m: int, n: int, k: int)
    requires m == k * W128 + n
    ensures m % W128 == n % W128
  {}

  // ---- comparison ----

  method Less(a: Pair, b: Pair) returns (r: bool)
    ensures r <==> Value(a) < Value(b)
  {
    if a.hi != b.hi {
      return a.hi < b.hi;
    }
    r := a.lo < b.lo;
  }

  // ---- quotient and remainder ----

  /** The bits of n from i up have been divided: q holds the quotient of n / 2^i in its bits from i up, and
      r what is left. */
  ghost predicate Divided(n: nat, d: nat, q: Pair, r: nat, i: nat) {
    && Value(q) % Pow(2, i) == 0 && r < d
    && n / Pow(2, i) == Value(q) / Pow(2, i) * d + r
    && (i >= 64 ==> q.lo == 0 && q.hi % Pow(2, i - 64) == 0)
    && (i < 64 ==> q.lo % Pow(2, i) == 0)
  }

  /** Bit i of n. */
  method Bit(n: Pair, i: nat) returns (b: nat)
    requires i < 128
    ensures b == Value(n) / Pow(2, i) % 2
  {
    hide Pow, ShiftRight;
    if i >= 64 {
      ShrFar(n, i);
      b := ShiftRight(n.hi, i - 64) % 2;
    } else {
      LowBit(n, i);
      b := ShiftRight(n.lo, i) % 2;
    }
  }

  lemma LowBit(n: Pair, i: nat)
    requires i < 64
    ensures ShiftRight(n.lo, i) % 2 == Value(n) / Pow(2, i) % 2
  {
    PowSplit(i);
    var p, h := Pow(2, i), Pow(2, 63 - i);
    assert Pow(2, 64 - i) == 2 * h;
    hide Pow;
    LowQuotient(n.hi, n.lo, p, h);
  }

  lemma LowQuotient(hi: nat, lo: nat, p: nat, h: nat)
    requires p > 0 && p * (2 * h) == W64
    ensures lo / p >= 0 && (hi * W64 + lo) / p % 2 == lo / p % 2
  {
    QuotientSmaller(lo, p);
    var q, r := lo / p, lo % p;
    assert lo == q * p + r;
    var x := hi * h;
    assert hi * (p * (2 * h)) == 2 * x * p;
    var y := 2 * x;
    assert (y + q) * p == y * p + q * p;
    DivModUnique(hi * W64 + lo, p, y + q, r);
  }

  /** One more bit of n below the remainder; the word shift loses nothing while the result is below 2^128. */
  method ShiftIn(r: Pair, b: nat) returns (s: Pair)
    requires b < 2 && 2 * Value(r) + b < W128
    ensures Value(s) == 2 * Value(r) + b
  {
    hide Or;
    var top := r.lo / 0x8000_0000_0000_0000;
    OrBit(r.hi * 2 % W64, top);
    OrBit(r.lo * 2 % W64, b);
    s := Pair(Or(r.lo * 2 % W64, b), Or(r.hi * 2 % W64, top));
  }

  lemma OrBit(x: nat, b: nat)
    requires x % 2 == 0 && b < 2
    ensures Or(x, b) == x + b
  {
    assert Pow(2, 1) == 2;
    OrDisjoint(x, b, 1);
  }

  /** r - d, for d up to r. */
  method SubBorrow(r: Pair, d: Pair) returns (s: Pair)
    requires Value(d) <= Value(r)
    ensures Value(s) == Value(r) - Value(d)
  {
    var borrow := if r.lo < d.lo then 1 else 0;
    s := Pair((r.lo - d.lo) % W64, (r.hi - d.hi - borrow) % W64);
  }

  /** Set bit i of the quotient. */
  method SetBit(q: Pair, i: nat) returns (s: Pair)
    requires i < 128
    requires i >= 64 ==> q.lo == 0 && q.hi % Pow(2, i - 63) == 0
    requires i < 64 ==> q.lo % Pow(2, i + 1) == 0
    ensures Value(s) == Value(q) + Pow(2, i)
    ensures i >= 64 ==> s.lo == 0 && s.hi == q.hi + Pow(2, i - 64)
    ensures i < 64 ==> s.hi == q.hi && s.lo == q.lo + Pow(2, i)
  {
    hide Pow, Or;
    if i >= 64 {
      HighBitFits(q.hi, i - 64);
      PowFar(i);
      s := Pair(q.lo, Or(q.hi, Pow(2, i - 64)));
    } else {
      HighBitFits(q.lo, i);
      s := Pair(Or(q.lo, Pow(2, i)), q.hi);
    }
  }

  lemma PowFar(i: nat)
    requires i >= 64
    ensures Pow(2, i) == Pow(2, i - 64) * W64
  {
    hide Pow;
    Pow2To64();
    PowAdd(2, 64, i - 64);
    assert 64 + (i - 64) == i;
  }

  lemma HighBitFits(x: Word, j: nat)
    requires j < 64 && x % Pow(2, j + 1) == 0
    ensures Or(x, Pow(2, j)) == x + Pow(2, j) && x + Pow(2, j) < W64
  {
    hide Or;
    PowSplit(j + 1);
    var p, c := Pow(2, j), Pow(2, 63 - j);
    assert Pow(2, j + 1) == 2 * p && 64 - (j + 1) == 63 - j;
    hide Pow;
    OrDisjoint(x, p, j + 1);
    RoomForBit(x, 2 * p, c);
  }

  lemma RoomForBit(x: nat, w: nat, c: nat)
    requires w > 0 && x < W64 && w * c == W64 && x % w == 0
    ensures x + w <= W64
  {
    var q := x / w;
    assert x == q * w;
    if q >= c { MulMonotonic(w, c, q); }
    MulMonotonic(w, q + 1, c);
  }

  /** One bit of long division. */
  method DivStep(n: Pair, d: Pair, q: Pair, r: Pair, i: nat) returns (q': Pair, r': Pair)
    requires i < 128 && Value(d) > 0 && Divided(Value(n), Value(d), q, Value(r), i + 1)
    ensures Divided(Value(n), Value(d), q', Value(r'), i)
  {
    hide Pow, Value, Divided;
    StepFacts(Value(n), Value(d), q, Value(r), i);
    var b := Bit(n, i);
    r' := ShiftIn(r, b);
    q' := q;
    PairOrder(r', d);
    if r'.hi > d.hi || (r'.hi == d.hi && r'.lo >= d.lo) {
      r' := SubBorrow(r', d);
      q' := SetBit(q, i);
    }
    StepDone(Value(n), Value(d), q, Value(r), i, b, q', Value(r'));
  }

  lemma PairOrder(a: Pair, b: Pair)
    ensures Value(a) >= Value(b) <==> a.hi > b.hi || (a.hi == b.hi && a.lo >= b.lo)
  {}

  /** The remainder is at most the part of n that has been divided, so shifting a bit in keeps it a 128-bit value. */
  lemma StepFacts(n: nat, d: nat, q: Pair, r: nat, i: nat)
    requires i < 128 && n < W128 && d > 0 && Divided(n, d, q, r, i + 1)
    ensures n / Pow(2, i) == 2 * (n / Pow(2, i + 1)) + n / Pow(2, i) % 2
    ensures 2 * r + n / Pow(2, i) % 2 < W128
    ensures i >= 64 ==> q.lo == 0 && q.hi % Pow(2, i - 63) == 0
    ensures i < 64 ==> q.lo % Pow(2, i + 1) == 0
  {
    HalfQuotient(n, i);
    var p := Pow(2, i);
    var y := Value(q) / Pow(2, i + 1);
    QuotientSmaller(Value(q), Pow(2, i + 1));
    MulMonotonic(d, 0, y);
    assert r <= n / Pow(2, i + 1);
    QuotientSmaller(n, p);
    if i == 63 { assert q.lo % Pow(2, 64) == 0 by { Pow2To64(); } }
  }

  lemma HalfQuotient(n: nat, i: nat)
    ensures n / Pow(2, i) == 2 * (n / Pow(2, i + 1)) + n / Pow(2, i) % 2
  {
    var p := Pow(2, i);
    assert Pow(2, i + 1) == 2 * p;
    hide Pow;
    var x, s := n / p, n % p;
    var h, b := x / 2, x % 2;
    assert n == x * p + s;
    assert n == h * (2 * p) + (b * p + s);
    DivModUnique(n, 2 * p, h, b * p + s);
  }

  lemma StepDone(n: nat, d: nat, q: Pair, r: nat, i: nat, b: nat, q': Pair, r': nat)
    requires i < 128 && n < W128 && d > 0 && Divided(n, d, q, r, i + 1) && b == n / Pow(2, i) % 2
    requires 2 * r + b >= d ==> r' == 2 * r + b - d && Value(q') == Value(q) + Pow(2, i)
    requires 2 * r + b >= d && i >= 64 ==> q'.lo == 0 && q'.hi == q.hi + Pow(2, i - 64)
    requires 2 * r + b >= d && i < 64 ==> q'.lo == q.lo + Pow(2, i)
    requires 2 * r + b < d ==> r' == 2 * r + b && q' == q
    ensures Divided(n, d, q', r', i)
  {
    HalfQuotient(n, i);
    var p := Pow(2, i);
    assert Pow(2, i + 1) == 2 * p;
    StepWords(q, i);
    hide Pow;
    var y := Value(q) / (2 * p);
    var up := if 2 * r + b >= d then 1 else 0;
    ShiftQuotient(Value(q), p, y, up, Value(q'));
    AddQuotient(y, d, 2 * r + b, up, r');
  }

  lemma ShiftQuotient(v: nat, p: nat, y: nat, up: nat, v': nat)
    requires p > 0 && v % (2 * p) == 0 && y == v / (2 * p) && v' == v + up * p && up <= 1
    ensures v' / p == 2 * y + up && v' % p == 0
  {
    assert v == y * (2 * p);
    var z := 2 * y + up;
    assert v' == z * p;
    DivModUnique(v', p, z, 0);
  }

  lemma AddQuotient(y: nat, d: nat, s: nat, up: nat, r': nat)
    requires up <= 1 && r' == s - up * d
    ensures (2 * y + up) * d + r' == 2 * (y * d) + s
  {}

  lemma StepWords(q: Pair, i: nat)
    requires i < 128 && (i + 1 >= 64 ==> q.lo == 0 && q.hi % Pow(2, i + 1 - 64) == 0)
    requires i + 1 < 64 ==> q.lo % Pow(2, i + 1) == 0
    ensures i >= 64 ==> q.hi % Pow(2, i - 64) == 0 && (q.hi + Pow(2, i - 64)) % Pow(2, i - 64) == 0
    ensures i < 64 ==> q.lo % Pow(2, i) == 0 && (q.lo + Pow(2, i)) % Pow(2, i) == 0
  {
    if i >= 64 {
      HalvedMultiple(q.hi, i - 64);
    } else {
      if i == 63 { ExactMultiple(0, Pow(2, 64)); }
      HalvedMultiple(q.lo, i);
    }
  }

  lemma HalvedMultiple(x: nat, j: nat)
    requires x % Pow(2, j + 1) == 0
    ensures x % Pow(2, j) == 0 && (x + Pow(2, j)) % Pow(2, j) == 0
  {
    var p := Pow(2, j);
    var q := x / Pow(2, j + 1);
    assert Pow(2, j + 1) == 2 * p;
    hide Pow;
    assert x == q * (2 * p) == p * (2 * q);
    ExactMultiple(2 * q, p);
    assert x + p == p * (2 * q + 1);
    ExactMultiple(2 * q + 1, p);
  }

  /** Long division, one bit of n at a time, for every divisor but zero, which gives zeros. */
  method DivMod(n: Pair, d: Pair) returns (q: Pair, rem: Pair)
    ensures Value(d) == 0 ==> Value(q) == 0 && Value(rem) == 0
    ensures Value(d) > 0 ==> Value(n) == Value(q) * Value(d) + Value(rem) && Value(rem) < Value(d)
  {
    q, rem := Pair(0, 0), Pair(0, 0);
    if d.lo == 0 && d.hi == 0 {
      return;
    }
    DivStart(n, d);
    var i := 128;
    while i > 0
      invariant 0 <= i <= 128 && Divided(Value(n), Value(d), q, Value(rem), i)
    {
      i := i - 1;
      q, rem := DivStep(n, d, q, rem, i);
    }
    DivEnd(n, d, q, rem);
  }

  lemma DivStart(n: Pair, d: Pair)
    requires Value(d) > 0
    ensures Divided(Value(n), Value(d), Pair(0, 0), 0, 128)
  {
    hide Pow;
    Pow2To64();
    PowAdd(2, 64, 64);
    ZeroDivided(Value(n), Value(d));
  }

  lemma ZeroDivided(n: nat, d: nat)
    requires n < Pow(2, 128) && d > 0
    ensures Divided(n, d, Pair(0, 0), 0, 128)
  {
    var p, z := Pow(2, 128), Pow(2, 64);
    hide Pow;
    DivModUnique(n, p, 0, n);
    DivModUnique(0, p, 0, 0);
    DivModUnique(0, z, 0, 0);
  }

  lemma DivEnd(n: Pair, d: Pair, q: Pair, rem: Pair)
    requires Divided(Value(n), Value(d), q, Value(rem), 0)
    ensures Value(n) == Value(q) * Value(d) + Value(rem) && Value(rem) < Value(d)
  {
    PowOne();
  }

  method Div(a: Pair, b: Pair) returns (q: Pair)
    ensures Value(q) == if Value(b) == 0 then 0 else Value(a) / Value(b)
  {
    var rem;
    q, rem := DivMod(a, b);
    if Value(b) > 0 {
      DivModUnique(Value(a), Value(b), Value(q), Value(rem));
    }
  }

  method Mod(a: Pair, b: Pair) returns (r: Pair)
    ensures Value(r) == if Value(b) == 0 then 0 else Value(a) % Value(b)
  {
    var q;
    q, r := DivMod(a, b);
    if Value(b) > 0 {
      DivModUnique(Value(a), Value(b), Value(q), Value(r));
    }
  }
}
