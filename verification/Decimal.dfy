/** Decimal numerals: the shortest numeral of a natural, zero padding, and reading back. */
module Decimal {
  import opened Powers

  predicate IsDigit(c: char) { '0' <= c <= '9' }

  predicate AllDigits(s: string) { forall i :: 0 <= i < |s| ==> IsDigit(s[i]) }

  function DigitOf(c: char): (d: nat)
    requires IsDigit(c)
    ensures d < 10
  {
    c as int - '0' as int
  }

  function DigitChar(d: nat): (c: char)
    requires d < 10
    ensures IsDigit(c) && DigitOf(c) == d
  {
    ('0' as int + d) as char
  }

  /** The number a digit string denotes (zero for the empty one). */
  function NatOf(s: string): nat
    requires AllDigits(s)
  {
    if s == "" then 0 else 10 * NatOf(s[..|s| - 1]) + DigitOf(s[|s| - 1])
  }

  /** The numeral of n without leading zeros. */
  function Dec(n: nat): string {
    if n < 10 then [DigitChar(n)] else Dec(n / 10) + [DigitChar(n % 10)]
  }

  /** The low k decimal digits of n. */
  function Pad(n: nat, k: nat): string {
    if k == 0 then "" else Pad(n / 10, k - 1) + [DigitChar(n % 10)]
  }

  function Zeros(k: nat): (s: string)
    ensures |s| == k && forall i :: 0 <= i < k ==> s[i] == '0'
  {
    seq(k, _ => '0')
  }

  lemma NatOfSnoc(s: string, c: char)
    requires AllDigits(s) && IsDigit(c)
    ensures AllDigits(s + [c]) && NatOf(s + [c]) == 10 * NatOf(s) + DigitOf(c)
  {
    assert (s + [c])[..|s|] == s;
  }

  lemma {:induction false} NatOfConcat(s: string, t: string)
    requires AllDigits(s) && AllDigits(t)
    ensures AllDigits(s + t) && NatOf(s + t) == NatOf(s) * Pow(10, |t|) + NatOf(t)
  {
    hide NatOf, Pow;
    if t == "" {
      assert s + t == s;
      NoDigits(NatOf(s));
    } else {
      var u := t[..|t| - 1];
      NatOfConcat(s, u);
      assert t == u + [t[|u|]] && s + t == s + u + [t[|u|]];
      NatOfSnoc(u, t[|u|]);
      NatOfSnoc(s + u, t[|u|]);
      Tenfold(NatOf(s), |u|);
    }
  }

  lemma NoDigits(a: nat)
    ensures NatOf("") == 0 && a * Pow(10, 0) == a
  {}

  lemma Tenfold(a: nat, k: nat)
    ensures a * Pow(10, k + 1) == 10 * (a * Pow(10, k))
  {
    var p := Pow(10, k);
    assert Pow(10, k + 1) == 10 * p;
  }

  lemma {:induction false} NatOfBound(s: string)
    requires AllDigits(s)
    ensures NatOf(s) < Pow(10, |s|)
  {
    if s != "" {
      NatOfBound(s[..|s| - 1]);
    }
  }

  /** A nonzero leading digit fixes the order of magnitude. */
  lemma NatOfLead(s: string)
    requires AllDigits(s) && s != "" && s[0] != '0'
    ensures Pow(10, |s| - 1) <= NatOf(s) < Pow(10, |s|)
  {
    NatOfBound(s);
    NatOfConcat(s[..1], s[1..]);
    assert s[..1] + s[1..] == s;
    assert s[..1][..0] == "";
    assert NatOf(s[..1]) == 10 * NatOf("") + DigitOf(s[0]) >= 1;
    MulMonotonic(Pow(10, |s| - 1), 1, NatOf(s[..1]));
  }

  lemma {:induction false} ZerosAreZero(k: nat)
    ensures AllDigits(Zeros(k)) && NatOf(Zeros(k)) == 0
  {
    if k != 0 {
      ZerosAreZero(k - 1);
      assert Zeros(k)[..k - 1] == Zeros(k - 1);
    }
  }

  lemma AppendZeros(s: string, k: nat)
    requires AllDigits(s)
    ensures AllDigits(s + Zeros(k)) && NatOf(s + Zeros(k)) == NatOf(s) * Pow(10, k)
  {
    ZerosAreZero(k);
    NatOfConcat(s, Zeros(k));
  }

  /** The numeral denotes its number and has no superfluous leading zero. */
  lemma {:induction false} DecDenotes(n: nat)
    ensures AllDigits(Dec(n)) && Dec(n) != "" && NatOf(Dec(n)) == n
    ensures n > 0 ==> Dec(n)[0] != '0'
  {
    if n >= 10 {
      DecDenotes(n / 10);
      NatOfSnoc(Dec(n / 10), DigitChar(n % 10));
    } else {
      assert Dec(n)[..0] == "";
    }
  }

  lemma {:induction false} PadDenotes(n: nat, k: nat)
    requires n < Pow(10, k)
    ensures |Pad(n, k)| == k && AllDigits(Pad(n, k)) && NatOf(Pad(n, k)) == n
  {
    if k != 0 {
      PadDenotes(n / 10, k - 1);
      NatOfSnoc(Pad(n / 10, k - 1), DigitChar(n % 10));
    }
  }

  /** A digit string of a given length is determined by what it denotes. */
  lemma {:induction false} PadUnique(s: string)
    requires AllDigits(s)
    ensures Pad(NatOf(s), |s|) == s
  {
    if s != "" {
      PadUnique(s[..|s| - 1]);
      assert s == s[..|s| - 1] + [s[|s| - 1]];
    }
  }

  /** A digit string without a leading zero is the numeral of what it denotes. */
  lemma {:induction false} DecUnique(s: string)
    requires AllDigits(s) && s != ""
    requires s[0] != '0' || |s| == 1
    ensures Dec(NatOf(s)) == s
  {
    var u := s[..|s| - 1];
    assert s == u + [s[|s| - 1]];
    if |s| == 1 {
      assert u == "";
    } else {
      DecUnique(u);
      NatOfLead(u);
    }
  }

  lemma {:induction false} DecLength(n: nat, k: nat)
    requires k > 0 && n < Pow(10, k)
    ensures |Dec(n)| <= k
  {
    if n >= 10 {
      DecLength(n / 10, k - 1);
    }
  }

  /** Splitting a numeral at a decimal position. */
  lemma DecSplit(h: nat, l: nat, k: nat)
    requires h > 0 && l < Pow(10, k)
    ensures Dec(h * Pow(10, k) + l) == Dec(h) + Pad(l, k)
  {
    DecDenotes(h);
    PadDenotes(l, k);
    NatOfConcat(Dec(h), Pad(l, k));
    DecUnique(Dec(h) + Pad(l, k));
  }

  function Nines(k: nat): (s: string)
    ensures |s| == k && AllDigits(s)
  {
    seq(k, _ => '9')
  }

  lemma {:induction false} NinesValue(k: nat)
    ensures NatOf(Nines(k)) + 1 == Pow(10, k)
  {
    if k > 0 {
      NinesValue(k - 1);
      assert Nines(k)[..k - 1] == Nines(k - 1);
    }
  }
}
