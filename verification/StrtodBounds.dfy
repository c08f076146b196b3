/** Which texts strtod (rt_scan.c) answers at all: all but those on which the loop that doubles the bounds runs on for
    ever, its bounds cut off before one of them is above the number. */
module StrtodBounds {
  import opened Powers
  import opened Decimal
  import opened Rounding
  import opened Binary64
  import opened Bignum
  import opened Bounds
  import opened DecimalToBinary
  import opened Strtod

  /**
   * At most limit rounds of the loop, whatever is cut off: it stops within them exactly when a bound that is not above
   * the number no longer comes.
   */
  method RaiseBoundsAtMost(big: Big, lo: Big, hi: Big, limit: nat, ghost d: nat) returns (e2: nat, stopped: bool)
    requires big.Sound() && lo.Sound() && Stands(hi, Bound(d, 0)) && lo != hi && lo.limb != hi.limb
    requires big != lo && big != hi && big.limb != lo.limb && big.limb != hi.limb
    modifies lo, lo.limb, hi, hi.limb
    ensures big.Sound() && big.Value() == old(big.Value()) >= 0 && big.n == old(big.n)
    ensures stopped <==> exists j: nat :: j <= limit && !GoesOn(big.n == CAP, big.Value(), Bound(d, j))
    ensures stopped ==> !GoesOn(big.n == CAP, big.Value(), Bound(d, e2))
    ensures forall j: nat :: j < e2 ==> GoesOn(big.n == CAP, big.Value(), Bound(d, j))
  {
    hide Val, Pow, Big.Value, Big.Valid, Big.Sound, Stands, GoesOn, AtLeast, Bound;
    e2 := 0;
    big.InRange();
    StandsSound(hi, Bound(d, 0));
    var c := big.Cmp(hi);
    CmpSays(big, hi, c);
    Compared(big, hi, Bound(d, 0));
    while c >= 0 && e2 < limit
      invariant lo.Sound() && lo.limb == old(lo.limb) && hi.limb == old(hi.limb)
      invariant big.Sound() && big.Value() == old(big.Value()) && big.n == old(big.n)
      invariant Stands(hi, Bound(d, e2)) && e2 <= limit
      invariant c >= 0 <==> GoesOn(big.n == CAP, big.Value(), Bound(d, e2))
      invariant forall j: nat :: j < e2 ==> GoesOn(big.n == CAP, big.Value(), Bound(d, j))
      decreases limit - e2
    {
      BoundStep(d, e2);
      lo.MulSmall(2);
      DoubleBound(hi, Bound(d, e2));
      e2 := e2 + 1;
      StandsSound(hi, Bound(d, e2));
      c := big.Cmp(hi);
      CmpSays(big, hi, c);
      Compared(big, hi, Bound(d, e2));
    }
    stopped := c < 0;
  }

  /** strtod answers s with at most limit rounds of that loop. */
  ghost predicate AnswersWithin(s: string, limit: nat) {
    var i := SpaceEnd(s, 0);
    var j, num := SignEnd(s, i), Lex(s, i);
    var n, k := Collected(num.whole + num.frac), Scale(num);
    IsInf(s, j) || IsNan(s, j) || n == 0 || k > 350 || k < -400 || StopsWithin(n, k, limit)
  }

  ghost predicate StopsWithin(n: nat, k: int, limit: nat) {
    exists j: nat :: j <= limit && !GoesOn(Fills(n, k), Held(n, k), Bound(Denom(k), j))
  }

  /** strtod on any text, given up after limit rounds of the loop. */
  method StrtodWithin(s: string, limit: nat) returns (answered: bool)
    ensures answered <==> AnswersWithin(s, limit)
  {
    hide Val, Pow, Big.Value, Big.Valid, Big.Sound, Digits, SpaceEnd, Collected, Dropped, Exponent, AllDigits, StopsWithin;
    var i := SkipSpace(s);
    ghost var num := Lex(s, i);
    if At(s, i) == '+' || At(s, i) == '-' {
      i := i + 1;
    }
    if IsInf(s, i) || IsNan(s, i) {
      return true;
    }
    var big, j, decExp, any, sticky := CollectDigits(s, i);
    if !any {
      NothingCollected();
      return true;
    }
    var ev, end := ReadExponent(s, j);
    decExp := decExp + ev;
    assert decExp == Scale(num);
    var z := big.IsZero();
    if z || decExp > 350 || decExp < -400 {
      answered := true;
    } else {
      big.InRange();
      answered := ConvertWithin(big, decExp, limit);
    }
  }

  /** The conversion, given up after limit rounds. */
  method ConvertWithin(big: Big, k: int, limit: nat) returns (stopped: bool)
    requires big.Valid() && big.Value() > 0 && -400 <= k <= 350
    modifies big, big.limb
    ensures stopped <==> StopsWithin(old(big.Value()), k, limit)
  {
    hide Val, Pow, Big.Value, Big.Valid, Big.Sound, Stands, GoesOn, Bound, AtLeast, Numer, Denom, P2;
    ghost var n, d, u := big.Value(), Denom(k), Numer(big.Value(), k);
    var lo, hi := Prepare(big, k);
    P2Step(u, 0);
    BoundStep(d, 0);
    StartsIntact(hi, Bound(d, 0));
    big.InRange();
    PowStrict(BASE, CAP - 1, CAP);
    NumerDenom(n, k);
    var down := RaiseNumerator(big, lo, u);
    RaisedSame(big, lo, n, k, down);
    var e2;
    e2, stopped := RaiseBoundsAtMost(big, lo, hi, limit, d);
  }

  /** Which texts strtod answers: with a positive exponent exactly those of which the buffer does not hold something within
      2^900 of its capacity, otherwise all. */
  lemma AnswersIff(s: string)
    ensures var i := SpaceEnd(s, 0);
      var j, num := SignEnd(s, i), Lex(s, i);
      (exists limit :: AnswersWithin(s, limit)) <==>
        (!IsInf(s, j) && !IsNan(s, j) && 0 < Scale(num) <= 350 ==> Answers(Collected(num.whole + num.frac), Scale(num)))
  {
    hide Lex, IsInf, IsNan, SpaceEnd, SignEnd, Collected, Scale, Answers, Stops, StopsWithin, FitsBuffer;
    var i := SpaceEnd(s, 0);
    var num := Lex(s, i);
    var n, k := Collected(num.whole + num.frac), Scale(num);
    if n == 0 || IsInf(s, SignEnd(s, i)) || IsNan(s, SignEnd(s, i)) {
      ZeroAnswers(k);
      assert AnswersWithin(s, 0);
    } else if -400 <= k <= 350 {
      if k > 0 {
        StopsIff(n, k);
      } else {
        DigitsFit(num.whole, num.frac, k);
        FittingStops(n, k);
      }
      StopsInTime(n, k);
      if limit: nat :| StopsWithin(n, k, limit) { assert AnswersWithin(s, limit); }
      if limit: nat :| AnswersWithin(s, limit) { assert StopsWithin(n, k, limit); }
    } else {
      assert AnswersWithin(s, 0);
    }
  }

  lemma ZeroAnswers(k: int)
    ensures Answers(0, k)
  {
    hide Pow;
    TwoBelowTop();
    PowStrict(BASE, CAP - 1, CAP);
    assert Numer(0, k) == 0 by { NothingScaled(k); }
    SmallMod(0, Pow(BASE, CAP));
  }

  lemma NothingScaled(k: int)
    ensures Numer(0, k) == 0
  {}

  lemma StopsInTime(n: nat, k: int)
    ensures Stops(n, k) <==> exists limit: nat :: StopsWithin(n, k, limit)
  {
    hide GoesOn, Bound, Fills, Held, Denom;
    if Stops(n, k) {
      var j: nat :| !GoesOn(Fills(n, k), Held(n, k), Bound(Denom(k), j));
      assert StopsWithin(n, k, j);
    }
  }

  // ---- an input on which it never does ----

  /** 780 nines and e120: this is 10^900 - 10^120, just inside the buffer. */
  lemma NinesFill()
    ensures var v := NatOf(Nines(MAX_DIGITS)) * Pow(10, 120);
      Pow(BASE, CAP) - Pow(2, 9 * CAP) <= v < Pow(BASE, CAP) && v >= Pow(BASE, CAP - 1) && v >= TWO53
  {
    hide Pow;
    NinesValue(MAX_DIGITS);
    var a, b := Pow(10, MAX_DIGITS), Pow(10, 120);
    PowAdd(10, MAX_DIGITS, 120);
    BufferDigits();
    assert (a - 1) * b == a * b - b;
    PowMonotonic(10, 0, 120);
    PowZero(10);
    PowBaseMonotonic(10, 16, 120);
    assert Pow(2, 4) == 16 by { SixteenIs(); }
    PowPow(2, 4, 120);
    PowMonotonic(2, 480, 9 * CAP);
    assert Pow(10, 9) == BASE by { NineDigits(); }
    PowAdd(10, 9 * (CAP - 1), 9);
    PowPow(10, 9, CAP - 1);
    PowMonotonic(10, 120, 9 * (CAP - 1));
    PowMonotonic(10, 18, 120);
    PowAdd(10, 9, 9);
  }

  lemma SixteenIs()
    ensures Pow(2, 4) == 16
  {}

  lemma NinesText()
    ensures var t := Nines(MAX_DIGITS) + "e" + "" + "120";
      && Lex(t, 0) == Numeral(false, Nines(MAX_DIGITS), "", 120, |t|)
      && SpaceEnd(t, 0) == 0 && SignEnd(t, 0) == 0 && !IsInf(t, 0) && !IsNan(t, 0)
  {
    hide Lex, IsInf, IsNan, SpaceEnd, SignEnd;
    LexWhole(Nines(MAX_DIGITS), "", "120");
    assert "120"[..2] == "12" && "12"[..1] == "1" && "1"[..0] == "";
    assert ExpValue("1") == 1 && ExpValue("12") == 12 && ExpValue("120") == 120;
  }

  /** However large the limit, strtod does not answer that text, where infinity is right. */
  lemma NinesRunOn(limit: nat)
    ensures !AnswersWithin(Nines(MAX_DIGITS) + "e" + "" + "120", limit)
  {
    hide Pow, Lex, NatOf, Collected, IsInf, IsNan, SpaceEnd, SignEnd, Numer, Denom, Bound, GoesOn;
    var s := Nines(MAX_DIGITS) + "e" + "" + "120";
    NinesText();
    NinesFill();
    NinesKept();
    var n := NatOf(Nines(MAX_DIGITS));
    OneAsDenominator(n);
    SmallMod(Numer(n, 120), Pow(BASE, CAP));
    AnswersIff(s);
  }

  lemma OneAsDenominator(n: nat)
    ensures Denom(120) == 1 && TWO53 == 2 * TWO52 && Numer(n, 120) == n * Pow(10, 120)
  {
    PowZero(10);
  }

  lemma NinesKept()
    ensures Nines(MAX_DIGITS) + "" == Nines(MAX_DIGITS)
    ensures Collected(Nines(MAX_DIGITS)) == NatOf(Nines(MAX_DIGITS))
  {
    hide NatOf;
    assert Nines(MAX_DIGITS)[..MAX_DIGITS] == Nines(MAX_DIGITS);
  }
}
