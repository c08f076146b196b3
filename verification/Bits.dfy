/** Naturals bit by bit: shifts, masks and the bitwise operations. */
module Bits {
  import opened Powers
  import opened Words

  /** Bit i. */
  function Bit(x: nat, i: nat): bool
    decreases i
  {
    if i == 0 then x % 2 == 1 else Bit(x / 2, i - 1)
  }

  /** x >> k. */
  function High(x: nat, k: nat): nat
    decreases k
  {
    if k == 0 then x else High(x / 2, k - 1)
  }

  /** The low k bits. */
  function Low(x: nat, k: nat): nat
    decreases k
  {
    if k == 0 then 0 else x % 2 + 2 * Low(x / 2, k - 1)
  }

  /** x << k, nothing lost. */
  function Shift(x: nat, k: nat): nat
    decreases k
  {
    if k == 0 then x else 2 * Shift(x, k - 1)
  }

  /** k ones. */
  function Ones(k: nat): nat
    decreases k
  {
    if k == 0 then 0 else 1 + 2 * Ones(k - 1)
  }

  /** The complement in n bits. */
  function Not(x: nat, n: nat): nat
    decreases n
  {
    if n == 0 then 0 else (1 - x % 2) + 2 * Not(x / 2, n - 1)
  }

  function And(a: nat, b: nat): nat
    decreases a + b
  {
    if a == 0 || b == 0 then 0 else (if a % 2 == 1 && b % 2 == 1 then 1 else 0) + 2 * And(a / 2, b / 2)
  }

  function Xor(a: nat, b: nat): nat
    decreases a + b
  {
    if a == 0 then b else if b == 0 then a
    else (if a % 2 != b % 2 then 1 else 0) + 2 * Xor(a / 2, b / 2)
  }

  // ---- their bits ----

  lemma {:induction false} BitZero(i: nat)
    ensures !Bit(0, i)
    decreases i
  {
    if i > 0 { BitZero(i - 1); }
  }

  lemma {:induction false} BitAnd(a: nat, b: nat, i: nat)
    ensures Bit(And(a, b), i) <==> Bit(a, i) && Bit(b, i)
    decreases i
  {
    if a == 0 || b == 0 {
      BitZero(i);
    } else if i > 0 {
      BitAnd(a / 2, b / 2, i - 1);
    }
  }

  lemma {:induction false} BitOr(a: nat, b: nat, i: nat)
    ensures Bit(Or(a, b), i) <==> Bit(a, i) || Bit(b, i)
    decreases i
  {
    BitZero(i);
    if a != 0 && b != 0 && i > 0 {
      BitOr(a / 2, b / 2, i - 1);
    }
  }

  lemma {:induction false} BitNot(x: nat, n: nat, i: nat)
    ensures Bit(Not(x, n), i) <==> i < n && !Bit(x, i)
    decreases i
  {
    if n == 0 {
      BitZero(i);
    } else if i > 0 {
      assert Not(x, n) / 2 == Not(x / 2, n - 1);
      BitNot(x / 2, n - 1, i - 1);
    }
  }

  lemma {:induction false} BitOnes(k: nat, i: nat)
    ensures Bit(Ones(k), i) <==> i < k
    decreases i
  {
    if k == 0 {
      BitZero(i);
    } else if i > 0 {
      assert Ones(k) / 2 == Ones(k - 1);
      BitOnes(k - 1, i - 1);
    }
  }

  lemma {:induction false} BitShift(x: nat, k: nat, i: nat)
    ensures Bit(Shift(x, k), i) <==> i >= k && Bit(x, i - k)
    decreases k
  {
    if k > 0 {
      assert Shift(x, k) / 2 == Shift(x, k - 1) && Shift(x, k) % 2 == 0;
      if i > 0 { BitShift(x, k - 1, i - 1); }
    }
  }

  lemma {:induction false} BitHigh(x: nat, k: nat, i: nat)
    ensures Bit(High(x, k), i) <==> Bit(x, i + k)
    decreases k
  {
    if k > 0 { BitHigh(x / 2, k - 1, i); }
  }

  lemma {:induction false} BitLow(x: nat, k: nat, i: nat)
    ensures Bit(Low(x, k), i) <==> i < k && Bit(x, i)
    decreases i
  {
    if k == 0 {
      BitZero(i);
    } else if i > 0 {
      assert Low(x, k) / 2 == Low(x / 2, k - 1);
      BitLow(x / 2, k - 1, i - 1);
    }
  }

  /** x has n bits. */
  predicate Fits(x: nat, n: nat) { High(x, n) == 0 }

  /** Numbers of n bits are determined by them. */
  lemma {:induction false} SameBits(x: nat, y: nat, n: nat)
    requires Fits(x, n) && Fits(y, n) && forall i :: 0 <= i < n ==> Bit(x, i) == Bit(y, i)
    ensures x == y
    decreases n
  {
    if n > 0 {
      assert Bit(x, 0) == Bit(y, 0);
      forall i | 0 <= i < n - 1
        ensures Bit(x / 2, i) == Bit(y / 2, i)
      {
        assert Bit(x, i + 1) == Bit(y, i + 1);
      }
      SameBits(x / 2, y / 2, n - 1);
    }
  }

  lemma {:induction false} FitsLow(x: nat, k: nat, n: nat)
    requires k <= n
    ensures Fits(Low(x, k), n)
    decreases n
  {
    if k == 0 {
      FitsZero(n);
    } else {
      assert Low(x, k) / 2 == Low(x / 2, k - 1);
      FitsLow(x / 2, k - 1, n - 1);
    }
  }

  lemma {:induction false} FitsZero(n: nat)
    ensures Fits(0, n)
    decreases n
  {
    if n > 0 { FitsZero(n - 1); }
  }

  lemma {:induction false} FitsOr(a: nat, b: nat, n: nat)
    requires Fits(a, n) && Fits(b, n)
    ensures Fits(Or(a, b), n)
    decreases n
  {
    if n > 0 && a != 0 && b != 0 {
      FitsOr(a / 2, b / 2, n - 1);
    }
  }

  lemma {:induction false} FitsAnd(a: nat, b: nat, n: nat)
    requires Fits(a, n) || Fits(b, n)
    ensures Fits(And(a, b), n)
    decreases n
  {
    FitsZero(n);
    if n > 0 && a != 0 && b != 0 {
      FitsAnd(a / 2, b / 2, n - 1);
    }
  }

  // ---- their values ----

  lemma {:induction false} LowIsMod(x: nat, k: nat)
    ensures Low(x, k) == x % Pow(2, k)
    decreases k
  {
    if k == 0 {
      assert Pow(2, 0) == 1;
    } else {
      LowIsMod(x / 2, k - 1);
      var h := Pow(2, k - 1);
      assert Pow(2, k) == 2 * h;
      hide Pow;
      HalfMod(x, h);
    }
  }

  lemma HalfMod(x: nat, h: nat)
    requires h > 0
    ensures x % (2 * h) == 2 * (x / 2 % h) + x % 2
  {
    var q, r := x / 2 / h, x / 2 % h;
    assert x / 2 == q * h + r;
    assert 2 * (q * h) == q * (2 * h);
    DivModUnique(x, 2 * h, q, 2 * r + x % 2);
  }

  lemma {:induction false} FitsBelow(x: nat, n: nat)
    ensures Fits(x, n) <==> x < Pow(2, n)
    decreases n
  {
    if n > 0 { FitsBelow(x / 2, n - 1); }
  }

  /** Flipping bit k of a number of k + 1 bits. */
  lemma {:induction false} XorTop(x: nat, k: nat)
    requires x < 2 * Pow(2, k)
    ensures Xor(x, Pow(2, k)) == if x < Pow(2, k) then x + Pow(2, k) else x - Pow(2, k)
    decreases k
  {
    var p := Pow(2, k);
    if k > 0 && x > 0 {
      var h := Pow(2, k - 1);
      assert p == 2 * h && p / 2 == h && p % 2 == 0;
      XorTop(x / 2, k - 1);
    } else if x > 0 {
      assert p == 1;
    }
  }
}
