/** The text scanners of src/C99/Preprocess.hs: identifiers, literals, comments, argument lists. */
module MacroText {
  import opened Options
  import Decimal

  predicate IsIdentStart(c: char) { 'a' <= c <= 'z' || 'A' <= c <= 'Z' || c == '_' }

  predicate IsIdentCont(c: char) { IsIdentStart(c) || Decimal.IsDigit(c) }

  predicate IsSpaceTab(c: char) { c == ' ' || c == '\t' }

  predicate IsQuote(c: char) { c == '"' || c == '\'' }

  /** The classes character by character. */
  lemma CharacterClasses(c: char)
    ensures IsQuote(c) <==> c in "\"'"
    ensures IsSpaceTab(c) <==> c in " \t"
    ensures IsIdentStart(c) <==>
      c in "_" || c in "abcdefghijklm" || c in "nopqrstuvwxyz" || c in "ABCDEFGHIJKLM" || c in "NOPQRSTUVWXYZ"
    ensures IsIdentCont(c) <==> IsIdentStart(c) || c in "0123456789"
  {
    Alphabet(c);
  }

  lemma Alphabet(c: char)
    ensures c in "abcdefghijklm" <==> 'a' <= c <= 'm'
    ensures c in "nopqrstuvwxyz" <==> 'n' <= c <= 'z'
    ensures c in "ABCDEFGHIJKLM" <==> 'A' <= c <= 'M'
    ensures c in "NOPQRSTUVWXYZ" <==> 'N' <= c <= 'Z'
  {}

  /** r is what is left of s after some of its front. */
  predicate Suffix(r: string, s: string) { |r| <= |s| && r == s[|s| - |r|..] }

  /** How many opening parentheses there are. */
  function Parens(s: string): nat { if s == "" then 0 else (if s[0] == '(' then 1 else 0) + Parens(s[1..]) }

  lemma {:induction false} SuffixParens(r: string, s: string)
    requires Suffix(r, s)
    ensures Parens(r) <= Parens(s)
    decreases |s|
  {
    if |r| < |s| { SuffixParens(r, s[1..]); }
  }

  lemma {:induction false} ParensConcat(a: string, b: string)
    ensures Parens(a + b) == Parens(a) + Parens(b)
  {
    if a == "" {
      assert a + b == b;
    } else {
      ParensConcat(a[1..], b);
      assert (a + b)[1..] == a[1..] + b;
    }
  }

  // ---- scanners: each gives what it took and what is left ----

  /** span isIdentCont. */
  function SpanIdent(s: string): (r: (string, string))
    ensures r.0 + r.1 == s && Suffix(r.1, s)
    ensures forall i :: 0 <= i < |r.0| ==> IsIdentCont(r.0[i])
    ensures r.1 != "" ==> !IsIdentCont(r.1[0])
  {
    if s == "" || !IsIdentCont(s[0]) then ("", s)
    else var (a, r) := SpanIdent(s[1..]); ([s[0]] + a, r)
  }

  function DropSpaces(s: string): (r: string)
    ensures Suffix(r, s)
    ensures r != "" ==> !IsSpaceTab(r[0])
  {
    if s != "" && IsSpaceTab(s[0]) then DropSpaces(s[1..]) else s
  }

  /** readIdent. */
  function ReadIdent(s: string): (Option<string>, string) {
    if s != "" && IsIdentStart(s[0]) then var (i, r) := SpanIdent(s); (Some(i), r) else (None, s)
  }

  /** The rest of a literal: a backslash guards the next character; an open literal takes everything. */
  function ScanLit(q: char, s: string): (r: (string, string))
    ensures r.0 + r.1 == s && Suffix(r.1, s)
  {
    if s == "" then ("", "")
    else if s[0] == '\\' && |s| > 1 then
      var (a, r) := ScanLit(q, s[2..]); (s[..2] + a, r)
    else if s[0] == '\\' then (s, "")
    else if s[0] == q then ([s[0]], s[1..])
    else var (a, r) := ScanLit(q, s[1..]); ([s[0]] + a, r)
  }

  lemma {:induction false} LitCloses(q: char, s: string)
    requires ScanLit(q, s).1 != ""
    ensures var l := ScanLit(q, s).0; l != "" && l[|l| - 1] == q
    decreases |s|
  {
    if s[0] == '\\' && |s| > 1 {
      LitCloses(q, s[2..]);
    } else if s[0] != '\\' && s[0] != q {
      LitCloses(q, s[1..]);
    }
  }

  /** The rest of a block comment. An open comment leaves its last character behind. */
  function ScanBlockComment(s: string): (r: (string, string))
    ensures r.0 + r.1 == s && Suffix(r.1, s)
  {
    if |s| >= 2 && s[0] == '*' && s[1] == '/' then (s[..2], s[2..])
    else if |s| >= 2 then var (a, r) := ScanBlockComment(s[1..]); ([s[0]] + a, r)
    else ("", s)
  }

  /** As above, for a line that begins inside the comment: an open comment takes the whole line. */
  function ScanOpenComment(s: string): (r: (string, string))
    ensures r.0 + r.1 == s && Suffix(r.1, s)
  {
    if |s| >= 2 && s[0] == '*' && s[1] == '/' then (s[..2], s[2..])
    else if s == "" then ("", "")
    else var (a, r) := ScanOpenComment(s[1..]); ([s[0]] + a, r)
  }

  /** One argument: up to a comma or a closing parenthesis that is not inside parentheses or a literal. */
  function ScanArg(s: string, d: nat): (r: (string, string))
    ensures Suffix(r.1, s)
    decreases |s|
  {
    if s == "" then ("", "")
    else
      var c := s[0];
      if IsQuote(c) then
        var (lit, r1) := ScanLit(c, s[1..]);
        var (a, r2) := ScanArg(r1, d);
        ([c] + lit + a, r2)
      else if c == '(' then var (a, r) := ScanArg(s[1..], d + 1); ([c] + a, r)
      else if c == ')' then
        if d == 0 then ("", s) else var (a, r) := ScanArg(s[1..], d - 1); ([c] + a, r)
      else if c == ',' && d == 0 then ("", s)
      else var (a, r) := ScanArg(s[1..], d); ([c] + a, r)
  }

  function CollectArgs(s: string): (r: (seq<string>, string))
    ensures Suffix(r.1, s)
    decreases |s|
  {
    var (arg, s') := ScanArg(s, 0);
    var a := DropSpaces(arg);
    if s' != "" && s'[0] == ',' then var (more, r) := CollectArgs(s'[1..]); ([a] + more, r)
    else if s' != "" && s'[0] == ')' then ([a], s'[1..])
    else ([a], s')
  }

  /** The argument list of a call, past its opening parenthesis. */
  function ScanArgs(s: string): (r: (seq<string>, string))
    ensures Suffix(r.1, s)
  {
    if s != "" && s[0] == ')' then ([], s[1..]) else CollectArgs(s)
  }
}
