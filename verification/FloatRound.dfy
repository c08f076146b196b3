/** Rounding in the digit buffer (rt_round_up and rt_round_digits in rt_format.c). */
module FloatRound {
  import opened Powers
  import opened Decimal
  import opened Rounding

  /** rt_round_up: one more in the last place; 99..9 becomes 100..0, one digit longer. */
  method RoundUp(dig: array<char>, len: nat) returns (newLen: nat)
    requires 1 <= len < dig.Length && AllDigits(dig[..len])
    modifies dig
    ensures newLen == len || newLen == len + 1
    ensures AllDigits(dig[..newLen]) && NatOf(dig[..newLen]) == NatOf(old(dig[..len])) + 1
    ensures newLen == len ==> (old(dig[0]) != '0' ==> dig[0] != '0')
    ensures newLen == len + 1 ==> dig[..newLen] == "1" + Zeros(len)
  {
    hide NatOf;
    ghost var s := dig[..len];
    var i := len;
    while i > 0 && dig[i - 1] == '9'
      invariant 0 <= i <= len && dig[..i] == s[..i] && dig[i..len] == Zeros(len - i)
      invariant s[i..] == Nines(len - i)
    {
      i := i - 1;
      dig[i] := '0';
      assert s[i] == '9';
      assert s[i..] == "9" + s[i + 1..];
      assert dig[i..len] == "0" + Zeros(len - i - 1);
    }
    if i == 0 {
      assert s == Nines(len) by { assert s[0..] == s; }
      assert dig[..len] == Zeros(len) by { assert dig[0..len] == dig[..len]; }
      ShiftInOne(dig, len);
      AllNines(len);
      return len + 1;
    }
    var c := dig[i - 1];
    assert c == s[i - 1];
    dig[i - 1] := DigitChar(DigitOf(c) + 1);
    assert dig[..len] == s[..i - 1] + [DigitChar(DigitOf(c) + 1)] + Zeros(len - i);
    assert s == s[..i - 1] + [c] + Nines(len - i) by { assert s[..i] == s[..i - 1] + [c]; assert s == s[..i] + s[i..]; }
    CarryIn(s[..i - 1], c, len - i);
    return len;
  }

  /** Makes room for the carry out of an all-nines buffer, whose digits are zeros by now. */
  method ShiftInOne(dig: array<char>, len: nat)
    requires len < dig.Length && dig[..len] == Zeros(len)
    modifies dig
    ensures dig[..len + 1] == "1" + Zeros(len)
  {
    assert forall k :: 0 <= k < len ==> dig[k] == dig[..len][k];
    var j := len;
    while j > 0
      invariant 0 <= j <= len
      invariant forall k :: 0 <= k < j || j < k <= len ==> dig[k] == '0'
    {
      dig[j] := dig[j - 1];
      j := j - 1;
    }
    dig[0] := '1';
  }

  lemma AllNines(k: nat)
    ensures AllDigits("1" + Zeros(k)) && NatOf("1" + Zeros(k)) == NatOf(Nines(k)) + 1 == Pow(10, k)
  {
    NinesValue(k);
    AppendZeros("1", k);
    assert "1"[..0] == "";
    assert NatOf("1") == 1;
  }

  lemma CarryIn(u: string, c: char, k: nat)
    requires AllDigits(u) && IsDigit(c) && c != '9'
    ensures var d := DigitChar(DigitOf(c) + 1);
      && AllDigits(u + [d] + Zeros(k)) && AllDigits(u + [c] + Nines(k))
      && NatOf(u + [d] + Zeros(k)) == NatOf(u + [c] + Nines(k)) + 1
  {
    hide NatOf, Pow;
    var d := DigitChar(DigitOf(c) + 1);
    NatOfSnoc(u, c);
    NatOfSnoc(u, d);
    AppendZeros(u + [d], k);
    NatOfConcat(u + [c], Nines(k));
    NinesValue(k);
    OneMore(NatOf(u + [c]), Pow(10, k));
  }

  lemma OneMore(x: int, p: int)
    ensures (x + 1) * p == x * p + p
  {
  }

  // ---- what rounding at a digit means ----

  /** Half-even rounding of the digits s to the first keep of them; s has more than keep digits. */
  function RoundedPrefix(s: string, keep: nat): nat
    requires AllDigits(s) && keep <= |s|
  {
    Rne(NatOf(s), Pow(10, |s| - keep))
  }

  /** The rounding decision taken on characters is the arithmetic one. */
  predicate RoundsUp(s: string, keep: nat)
    requires AllDigits(s) && keep < |s|
  {
    || s[keep] > '5'
    || (s[keep] == '5' && (s[keep + 1..] != Zeros(|s| - keep - 1) || (keep > 0 && DigitOf(s[keep - 1]) % 2 == 1)))
  }

  lemma RoundsUpIs(s: string, keep: nat)
    requires AllDigits(s) && keep < |s|
    ensures RoundedPrefix(s, keep) == NatOf(s[..keep]) + (if RoundsUp(s, keep) then 1 else 0)
  {
    hide Rne, Pow, NatOf;
    var q, rest, f, h := NatOf(s[..keep]), s[keep + 1..], DigitOf(s[keep]), Pow(10, |s| - keep - 1);
    SplitAt(s, keep);
    TenStep(|s| - keep);
    NatOfBound(rest);
    RestZero(rest);
    LastParity(s[..keep]);
    LeadDigit(f, h, NatOf(rest));
    RneOffset(NatOf(s), 10 * h, q, f * h + NatOf(rest));
  }

  lemma SplitAt(s: string, keep: nat)
    requires AllDigits(s) && keep < |s|
    ensures NatOf(s) == NatOf(s[..keep]) * Pow(10, |s| - keep)
                      + (DigitOf(s[keep]) * Pow(10, |s| - keep - 1) + NatOf(s[keep + 1..]))
  {
    hide Pow, NatOf;
    var rest := s[keep + 1..];
    assert s == s[..keep] + s[keep..] && s[keep..] == [s[keep]] + rest;
    NatOfConcat(s[..keep], s[keep..]);
    NatOfConcat([s[keep]], rest);
    SingleDigit(s[keep]);
  }

  lemma SingleDigit(c: char)
    requires IsDigit(c)
    ensures NatOf([c]) == DigitOf(c)
  {
    assert [c][..0] == "";
  }

  lemma TenStep(k: nat)
    requires k > 0
    ensures Pow(10, k) == 10 * Pow(10, k - 1)
  {
  }

  lemma RestZero(rest: string)
    requires AllDigits(rest)
    ensures NatOf(rest) == 0 <==> rest == Zeros(|rest|)
  {
    ZerosAreZero(|rest|);
    PadUnique(rest);
    PadUnique(Zeros(|rest|));
  }

  lemma LastParity(s: string)
    requires AllDigits(s)
    ensures NatOf(s) % 2 == if s == "" then 0 else DigitOf(s[|s| - 1]) % 2
  {
  }

  /** Where a leading digit f and a rest r < h stand relative to the midpoint 5h. */
  lemma LeadDigit(f: int, h: int, r: int)
    requires 0 <= f < 10 && 0 <= r < h
    ensures 0 <= f * h + r < 10 * h
    ensures f > 5 ==> 2 * (f * h + r) > 10 * h
    ensures f < 5 ==> 2 * (f * h + r) < 10 * h
    ensures f == 5 ==> 2 * (f * h + r) == 10 * h + 2 * r
  {
    MulMonotonic(h, f, 9);
    MulMonotonic(h, 0, f);
    if f > 5 { MulMonotonic(h, 6, f); } else if f < 5 { MulMonotonic(h, f, 4); }
  }

  /** The state of the buffer after rounding to keep digits. */
  ghost predicate Rounded(s: string, decpt: int, keep: int, t: string, decpt': int)
    requires AllDigits(s)
  {
    if keep >= |s| then t == s && decpt' == decpt
    else if keep >= 1 then
      && AllDigits(t) && |t| == keep && t[0] != '0'
      && ((decpt' == decpt && NatOf(t) == RoundedPrefix(s, keep))
          || (decpt' == decpt + 1 && NatOf(t) == Pow(10, keep - 1) && RoundedPrefix(s, keep) == Pow(10, keep)))
    else if RoundedPrefix(s, 0) == 1 then t == "1" && decpt' == decpt + 1
    else t == "0" && decpt' == decpt && RoundedPrefix(s, 0) == 0
  }

  /** Is some digit from a position on not a zero? */
  method AnyNonzero(dig: array<char>, from: nat, len: nat) returns (found: bool)
    requires from <= len <= dig.Length
    ensures found <==> dig[from..len] != Zeros(len - from)
  {
    found := false;
    var i := from;
    while i < len
      invariant from <= i <= len && dig[from..i] == Zeros(i - from)
    {
      assert dig[from..i + 1] == dig[from..i] + [dig[i]];
      if dig[i] != '0' {
        assert dig[from..len][i - from] != '0';
        return true;
      }
      i := i + 1;
    }
  }

  /** One more in the last of k digits, or a digit 1 before none; a rollover keeps k digits and moves the point. */
  method Increment(dig: array<char>, k: nat, decpt: int) returns (newLen: nat, newDecpt: int)
    requires k < dig.Length && AllDigits(dig[..k]) && (k > 0 ==> dig[0] != '0')
    modifies dig
    ensures k == 0 ==> newLen == 1 && dig[..1] == "1" && newDecpt == decpt + 1
    ensures k > 0 ==> newLen == k && AllDigits(dig[..k]) && dig[0] != '0'
    ensures k > 0 && newDecpt == decpt ==> NatOf(dig[..k]) == NatOf(old(dig[..k])) + 1
    ensures k > 0 && newDecpt != decpt ==>
              newDecpt == decpt + 1 && NatOf(dig[..k]) == Pow(10, k - 1) && NatOf(old(dig[..k])) + 1 == Pow(10, k)
  {
    hide NatOf, Pow;
    if k == 0 {
      dig[0] := '1';
      return 1, decpt + 1;
    }
    var l := RoundUp(dig, k);
    newLen, newDecpt := k, decpt;
    if l > k {
      newDecpt := decpt + 1;
      AllNines(k);
      AllNines(k - 1);
      assert dig[..k] == dig[..k + 1][..k] == "1" + Zeros(k - 1);
      dig[k] := '\0';
    }
  }

  /** rt_round_digits. */
  method RoundDigits(dig: array<char>, len: nat, decpt: int, keep: int) returns (newLen: nat, newDecpt: int)
    requires 1 <= len < dig.Length && AllDigits(dig[..len]) && (dig[0] != '0' || keep >= len)
    modifies dig
    ensures 1 <= newLen <= len && Rounded(old(dig[..len]), decpt, keep, dig[..newLen], newDecpt)
  {
    hide NatOf, Rne, Pow;
    ghost var s := dig[..len];
    if keep >= len {
      return len, decpt;
    }
    var k := if keep < 0 then 0 else keep;
    var first := dig[k];
    var restNonzero := AnyNonzero(dig, k + 1, len);
    assert dig[k + 1..len] == s[k + 1..] && dig[..k] == s[..k];
    var up := first > '5' || (first == '5' && (restNonzero || (k > 0 && DigitOf(dig[k - 1]) % 2 == 1)));
    RoundsUpIs(s, k);
    EmptyValue();
    newLen, newDecpt := k, decpt;
    if up {
      newLen, newDecpt := Increment(dig, k, decpt);
    } else if k == 0 {
      dig[0] := '0';
      newLen := 1;
    }
  }

  lemma EmptyValue()
    ensures NatOf("") == 0
  {
  }
}
