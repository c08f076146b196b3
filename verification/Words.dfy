/** 64-bit words as naturals: wrap-around, and bitwise or. */
module Words {
  import opened Powers

  const W32: nat := 0x1_0000_0000
  const W64: nat := 0x1_0000_0000_0000_0000

  type Word = x: nat | x < W64

  /** Bit by bit. */
  function Or(a: nat, b: nat): nat
    decreases a + b
  {
    if a == 0 then b else if b == 0 then a
    else (if a % 2 == 1 || b % 2 == 1 then 1 else 0) + 2 * Or(a / 2, b / 2)
  }

  /** Fields that do not overlap add up. */
  lemma {:induction false} OrDisjoint(a: nat, b: nat, k: nat)
    requires a % Pow(2, k) == 0 && b < Pow(2, k)
    ensures Or(a, b) == a + b
    decreases k
  {
    if a != 0 && b != 0 {
      assert k > 0;
      EvenParts(a, k);
      assert b / 2 < Pow(2, k - 1);
      OrDisjoint(a / 2, b / 2, k - 1);
    }
  }

  lemma EvenParts(a: nat, k: nat)
    requires k > 0 && a % Pow(2, k) == 0
    ensures a % 2 == 0 && (a / 2) % Pow(2, k - 1) == 0
  {
    var p := Pow(2, k - 1);
    var q := a / Pow(2, k);
    assert a == Pow(2, k) * q;
    assert a == 2 * (p * q) by { MulAssoc(2, p, q); }
    ExactMultiple(q, p);
  }

  lemma ExactMultiple(q: nat, p: nat)
    requires p > 0
    ensures (p * q) % p == 0
  {
    DivModUnique(p * q, p, q, 0);
  }

  lemma Pow2To64()
    ensures Pow(2, 32) == W32 && Pow(2, 64) == W64 && Pow(2, 52) == 0x10_0000_0000_0000
    ensures Pow(2, 53) == 0x20_0000_0000_0000 && Pow(2, 54) == 0x40_0000_0000_0000
  {
    Pow2To29();
    assert Pow(2, 2) == 4 && Pow(2, 1) == 2 && Pow(2, 3) == 8;
    PowAdd(2, 29, 3);
    PowAdd(2, 32, 32);
    PowAdd(2, 10, 10);
    PowAdd(2, 20, 32);
    PowAdd(2, 1, 52);
    PowAdd(2, 2, 52);
  }

  /** x << k in a word: bits past the top are lost. */
  function ShiftLeft(x: Word, k: nat): Word { x * Pow(2, k) % W64 }

  /** x >> k. */
  function ShiftRight(x: Word, k: nat): Word {
    QuotientSmaller(x, Pow(2, k));
    x / Pow(2, k)
  }

  lemma QuotientSmaller(x: nat, p: nat)
    requires p > 0
    ensures 0 <= x / p <= x
  {
    var q := x / p;
    assert x == q * p + x % p;
    if q > x { MulMonotonic(q, 1, p); }
  }
}
