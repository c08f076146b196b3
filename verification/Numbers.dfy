/** Names inside numbers: src/C99/Preprocess.hs looks for a name wherever a letter stands, section 6.4.8 of
    ISO/IEC 9899:1999 makes the letters that follow digits part of the number. */
module Numbers {
  import Decimal
  import opened Options
  import opened MacroText
  import opened Macros
  import opened ExpandProof
  import opened Painting
  import opened Arguments
  import opened ArgumentCases

  /** Digits and points. */
  predicate Numeric(d: string) { forall k :: 0 <= k < |d| ==> Decimal.IsDigit(d[k]) || d[k] == '.' }

  lemma {:induction false} DigitsWalk(active: set<string>, t: Table, at: Place, d: string, s: string)
    requires t.WellKeyed() && Numeric(d)
    ensures Go(active, t, at, d + s) == d + Go(active, t, at, s)
  {
    hide Go;
    if d == "" {
      assert d + s == s && d + Go(active, t, at, s) == Go(active, t, at, s);
    } else {
      assert d + s == [d[0]] + (d[1..] + s);
      GoStep(active, t, at, d[0], d[1..] + s);
      DigitsWalk(active, t, at, d[1..], s);
      assert [d[0]] + (d[1..] + Go(active, t, at, s)) == d + Go(active, t, at, s);
    }
  }

  /** The letters that end a number are taken for a name. */
  lemma SuffixIsName(active: set<string>, t: Table, at: Place, d: string, i: string, r: string)
    requires t.WellKeyed() && Numeric(d) && IsName(i) && (r == "" || !IsIdentCont(r[0]))
    ensures Go(active, t, at, d + (i + r)) == d + Ident(active, t, at, i, r)
  {
    hide Go, Ident, SpanIdent;
    DigitsWalk(active, t, at, d, i + r);
    NameAtFront(i, r);
    GoName(active, t, at, i + r);
  }

  lemma NameAtFront(i: string, r: string)
    requires IsName(i) && (r == "" || !IsIdentCont(r[0]))
    ensures SpanIdent(i + r) == (i, r) && i + r != "" && IsIdentStart((i + r)[0])
  {
    hide SpanIdent;
    SpanNameBlank(i, r);
    assert (i + r)[0] == i[0];
  }

  /**
   * The number stays as it is, as the standard has it, unless the letters name an object-like macro that can be replaced:
   * then exactly when that expands to the letters themselves.
   */
  lemma NumberStaysIff(active: set<string>, t: Table, at: Place, d: string, i: string, r: string)
    requires t.WellKeyed() && Numeric(d) && IsName(i) && (r == "" || !IsIdentCont(r[0]))
    requires i != "__FILE__" && i != "__LINE__"
    ensures !Live(active, t, i) || (t.Find(i).value.func && !StartsCall(r)) ==>
      Go(active, t, at, d + (i + r)) == d + i + Go(active, t, at, r)
    ensures Live(active, t, i) && !t.Find(i).value.func ==>
      (Go(active, t, at, d + (i + r)) == d + i + Go(active, t, at, r)
       <==> Expand(active + {i}, t, at, Substituted(t.Find(i).value, []), false) == i)
  {
    hide Go, Ident, Expand, Substituted, SpanIdent;
    SuffixIsName(active, t, at, d, i, r);
    var z := Go(active, t, at, r);
    assert d + (i + z) == d + i + z;
    if !Live(active, t, i) {
      IdentQuiet(active, t, at, i, r);
    } else {
      IdentParts(active, t, at, i, r);
      if !t.Find(i).value.func {
        var x := Expand(active + {i}, t, at, Substituted(t.Find(i).value, []), false);
        Middle(d, x, i, z);
      }
    }
  }

  const SUFFIX: Table := EMPTY.Define(Macro("L", false, false, [], "5", false))

  /** With L defined as 5 the number 10L comes out as 105. */
  lemma TenL(at: Place)
    ensures SUFFIX.WellKeyed() && Go({}, SUFFIX, at, "10L") == "105"
  {
    hide Go, Ident, SpanIdent, Candidate, EndsInComment, Expand, Substituted, Subst;
    LoneIdent('L');
    var m := SUFFIX.Find("L").value;
    assert m == Macro("L", false, false, [], "5", false);
    assert "10" + ("L" + "") == "10L" && "5" + "" == "5" && "10" + "5" == "105";
    SuffixIsName({}, SUFFIX, at, "10", "L", "");
    IdentParts({}, SUFFIX, at, "L", "");
    PlainBody(m, "", m.body);
    SubstitutedIs(m);
    FiveStays(at);
    GoParts({}, SUFFIX, at, "");
  }

  lemma FiveStays(at: Place)
    ensures SUFFIX.WellKeyed() && Expand({} + {"L"}, SUFFIX, at, "5", false) == "5"
  {
    hide Go;
    NoCandidate({}, SUFFIX);
    CleanStep({}, SUFFIX, '5', "");
    assert ['5'] + "" == "5";
  }
}
