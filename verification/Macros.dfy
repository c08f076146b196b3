/** The macro table, substitution and expansion of src/C99/Preprocess.hs. */
module Macros {
  import opened Options
  import opened MacroText
  import Decimal

  datatype Macro = Macro(name: string, func: bool, variadic: bool, params: seq<string>, body: string, predef: bool)

  /** User macros shadow predefined ones. names holds every name that might expand; #undef leaves it alone. */
  datatype Table = Table(user: map<string, Macro>, pre: map<string, Macro>, names: set<string>) {
    function Find(n: string): Option<Macro> {
      if n in user then Some(user[n]) else if n in pre then Some(pre[n]) else None
    }

    function Define(m: Macro): Table {
      var t := this.(names := names + {m.name});
      if m.predef then t.(pre := pre[m.name := m]) else t.(user := user[m.name := m])
    }

    function Undef(n: string): Table { this.(user := user - {n}) }

    function Names(): set<string> { user.Keys + pre.Keys }

    /** A macro is filed under its own name. */
    ghost predicate WellKeyed() {
      (forall n :: n in user ==> user[n].name == n) && (forall n :: n in pre ==> pre[n].name == n)
    }

    /** The candidate scan can trust names. */
    ghost predicate Known() { WellKeyed() && Names() <= names && "__FILE__" in names && "__LINE__" in names }
  }

  const EMPTY: Table := Table(map[], map[], {"__FILE__", "__LINE__"})

  datatype Edit = Define(m: Macro) | Undef(n: string)

  function Apply(t: Table, e: Edit): Table { if e.Define? then t.Define(e.m) else t.Undef(e.n) }

  function ApplyAll(t: Table, es: seq<Edit>): Table
    decreases |es|
  {
    if es == [] then t else ApplyAll(Apply(t, es[0]), es[1..])
  }

  /** After any run of #define and #undef the candidate names still cover every macro. */
  lemma {:induction false} EditsKeepKnown(t: Table, es: seq<Edit>)
    requires t.Known()
    ensures ApplyAll(t, es).Known()
    decreases |es|
  {
    if es != [] {
      EditKeepsKnown(t, es[0]);
      EditsKeepKnown(Apply(t, es[0]), es[1..]);
    }
  }

  lemma EditKeepsKnown(t: Table, e: Edit)
    requires t.Known()
    ensures Apply(t, e).Known()
  {}

  /** What a name stands for after a run of edits: the last one that concerns it decides. */
  function Latest(t: Table, es: seq<Edit>, n: string): Option<Macro> {
    if es == [] then t.Find(n)
    else
      var e := es[|es| - 1];
      if e.Define? && e.m.name == n then Some(e.m)
      else if e.Undef? && e.n == n then (if n in t.pre then Some(t.pre[n]) else None)
      else Latest(t, es[..|es| - 1], n)
  }

  /** Source directives never lose a predefined macro: #undef brings it back into sight. */
  lemma {:induction false} EditsDecide(t: Table, es: seq<Edit>, n: string)
    requires forall i :: 0 <= i < |es| && es[i].Define? ==> !es[i].m.predef
    ensures ApplyAll(t, es).Find(n) == Latest(t, es, n) && ApplyAll(t, es).pre == t.pre
    decreases |es|
  {
    if es != [] {
      var front, e := es[..|es| - 1], es[|es| - 1];
      EditsDecide(t, front, n);
      ApplyLast(t, es);
    }
  }

  lemma {:induction false} ApplyLast(t: Table, es: seq<Edit>)
    requires es != []
    ensures ApplyAll(t, es) == Apply(ApplyAll(t, es[..|es| - 1]), es[|es| - 1])
    decreases |es|
  {
    if |es| > 1 {
      ApplyLast(Apply(t, es[0]), es[1..]);
      assert es[1..][..|es| - 2] == es[..|es| - 1][1..];
    }
  }

  // ---- substituting arguments into a body ----

  function Escape(s: string): string {
    if s == "" then ""
    else
      (if s[0] == '\\' || s[0] == '"' then ['\\', s[0]] else if s[0] == '\r' then "" else [s[0]]) + Escape(s[1..])
  }

  function Stringify(arg: string): string { "\"" + Escape(arg) + "\"" }

  /** The first parameter of that name. */
  function ParamIndex(params: seq<string>, n: string): (r: Option<nat>)
    ensures r.Some? ==> r.value < |params|
  {
    if params == [] then None
    else if params[0] == n then Some(0)
    else match ParamIndex(params[1..], n) case None => None case Some(k) => Some(k + 1)
  }

  predicate Punct(c: char) { c in "+-*/%<>=&|!^#." }

  /** Would these two characters lex as one token if they met? */
  predicate Fuses(a: char, b: char) {
    (IsIdentCont(a) && IsIdentCont(b)) || (Decimal.IsDigit(a) && b == '.') || (a == '.' && Decimal.IsDigit(b)) || (Punct(a) && Punct(b))
  }

  function TrimEnd(s: string): (r: string)
    ensures r <= s
  {
    if s != "" && IsSpaceTab(s[|s| - 1]) then TrimEnd(s[..|s| - 1]) else s
  }

  function Joined(args: seq<string>): string {
    if args == [] then "" else if |args| == 1 then args[0] else args[0] + "," + Joined(args[1..])
  }

  /** Puts a spliced text after what has been built, kept apart where the two would fuse. */
  function Splice(fuse: bool, text: string, acc: string): string {
    if acc != "" && text != "" && !fuse && Fuses(acc[|acc| - 1], text[0]) then acc + " " + text else acc + text
  }

  /** acc is what has been built; spliced says an argument ended it, fuse that ## did. */
  function Subst(m: Macro, args: seq<string>, spliced: bool, fuse: bool, acc: string, s: string): string
    decreases |s|
  {
    if s == "" then acc
    else if |s| >= 2 && s[0] == '#' && s[1] == '#' then
      Subst(m, args, false, true, TrimEnd(acc), DropSpaces(s[2..]))
    else if s[0] == '#' then
      var r1 := DropSpaces(s[1..]);
      if r1 != "" && IsIdentStart(r1[0]) then
        var (p, r2) := SpanIdent(r1);
        match ParamIndex(m.params, p)
        case Some(k) =>
          if k < |args| then Subst(m, args, true, false, Splice(fuse, Stringify(args[k]), acc), r2)
          else Subst(m, args, true, false, acc, r2)
        case None => Subst(m, args, true, false, acc, r2)
      else Subst(m, args, true, false, acc, r1)
    else if IsIdentStart(s[0]) then
      var (i, r) := SpanIdent(s);
      var k := ParamIndex(m.params, i);
      if k.Some? && k.value < |args| then Subst(m, args, true, false, Splice(fuse, args[k.value], acc), r)
      else if m.variadic && i == "__VA_ARGS__" then
        var more := if |m.params| <= |args| then args[|m.params|..] else [];
        Subst(m, args, true, false, Splice(fuse, Joined(more), acc), r)
      else Subst(m, args, false, false, acc + i, r)
    else if spliced && acc != "" && Fuses(acc[|acc| - 1], s[0]) then
      Subst(m, args, false, false, acc + " " + [s[0]], s[1..])
    else Subst(m, args, false, false, acc + [s[0]], s[1..])
  }

  function Substituted(m: Macro, args: seq<string>): string { Subst(m, args, false, false, "", m.body) }

  // ---- expansion ----

  datatype Place = Place(file: string, line: nat)

  function Spelled(n: nat): string { (if n < 10 then "" else Spelled(n / 10)) + ["0123456789"[n % 10]] }

  function Forward(path: string): string {
    if path == "" then "" else [if path[0] == '\\' then '/' else path[0]] + Forward(path[1..])
  }

  /** Could i be replaced here? */
  predicate Live(active: set<string>, t: Table, i: string) {
    i == "__FILE__" || i == "__LINE__" || (t.Find(i).Some? && i !in active)
  }

  /** Does some identifier of the text, inside literals and comments too, satisfy Live? */
  predicate Candidate(active: set<string>, t: Table, s: string)
    decreases |s|
  {
    if s == "" then false
    else if IsIdentStart(s[0]) then var (i, r) := SpanIdent(s); Live(active, t, i) || Candidate(active, t, r)
    else Candidate(active, t, s[1..])
  }

  /** The name a replacement ends by calling, when an argument list is waiting in the text after it. */
  function PendingCall(active: set<string>, t: Table, ex: string, after: string): (r: Option<string>)
    ensures r.Some? ==> forall i :: 0 <= i < |r.value| ==> IsIdentCont(r.value[i])
  {
    var (n, tl) := SpanIdent(DropSpaces(ex));
    var r0 := DropSpaces(after);
    if n != "" && IsIdentStart(n[0]) && DropSpaces(tl) == "" && n !in active && t.Find(n).Some? &&
      t.Find(n).value.func && r0 != "" && r0[0] == '(' then Some(n) else None
  }

  lemma {:induction false} IdentHasNoParens(i: string)
    requires forall k :: 0 <= k < |i| ==> IsIdentCont(i[k])
    ensures Parens(i) == 0
  {
    if i != "" { IdentHasNoParens(i[1..]); }
  }

  /**
   * Expansion of one line. That this is a definition at all is the termination of the program: each rescan
   * paints one more name of the table, a call whose replacement names another call has used up an opening
   * parenthesis, and every other step shortens the text.
   */
  function Expand(active: set<string>, t: Table, at: Place, s: string, inComment: bool): string
    requires t.WellKeyed()
    decreases t.Names() - active, Parens(s), |s|, 2
  {
    if !Candidate({}, t, s) then s else Rescan(active, t, at, s, inComment)
  }

  /** Expansion without the candidate scan. */
  function Rescan(active: set<string>, t: Table, at: Place, s: string, inComment: bool): string
    requires t.WellKeyed()
    decreases t.Names() - active, Parens(s), |s|, 1
  {
    if inComment then
      var (c, r) := ScanOpenComment(s);
      SuffixParens(r, s);
      c + Go(active, t, at, r)
    else Go(active, t, at, s)
  }

  function Go(active: set<string>, t: Table, at: Place, s: string): string
    requires t.WellKeyed()
    decreases t.Names() - active, Parens(s), |s|, 0, 1
  {
    if s == "" then ""
    else if |s| >= 2 && s[0] == '/' && s[1] == '/' then s
    else if |s| >= 2 && s[0] == '/' && s[1] == '*' then
      var (c, r) := ScanBlockComment(s[2..]);
      SuffixParens(r, s);
      s[..2] + c + Go(active, t, at, r)
    else if IsQuote(s[0]) then
      var (l, r) := ScanLit(s[0], s[1..]);
      SuffixParens(r, s);
      [s[0]] + l + Go(active, t, at, r)
    else if IsIdentStart(s[0]) then
      var (i, r) := SpanIdent(s);
      SuffixParens(r, s);
      Ident(active, t, at, i, r)
    else
      SuffixParens(s[1..], s);
      [s[0]] + Go(active, t, at, s[1..])
  }

  /** An identifier and the text after it. */
  function Ident(active: set<string>, t: Table, at: Place, i: string, r: string): string
    requires t.WellKeyed() && i != ""
    decreases t.Names() - active, Parens(r), |i| + |r|, 0, 0
  {
    if i == "__FILE__" then "\"" + Forward(at.file) + "\"" + Go(active, t, at, r)
    else if i == "__LINE__" then Spelled(at.line) + Go(active, t, at, r)
    else if i in active || t.Find(i).None? then i + Go(active, t, at, r)
    else
      var m := t.Find(i).value;
      Shrinks(active, t, i);
      if !m.func then
        Expand(active + {m.name}, t, at, Substituted(m, []), false) + Go(active, t, at, r)
      else
        var r0 := DropSpaces(r);
        if r0 != "" && r0[0] == '(' then
          var (args, r2) := ScanArgs(r0[1..]);
          var ex := Expand(active + {m.name}, t, at, Substituted(m, args), false);
          CallUsesParen(r, r2);
          match PendingCall(active, t, ex, r2)
          case Some(n) =>
            IdentHasNoParens(n);
            ParensConcat(n, r2);
            Go(active, t, at, n + r2)
          case None => ex + Go(active, t, at, r2)
        else i + Go(active, t, at, r)
  }

  lemma Shrinks(active: set<string>, t: Table, i: string)
    requires t.WellKeyed() && i !in active && t.Find(i).Some?
    ensures t.Find(i).value.name == i && t.Names() - (active + {i}) < t.Names() - active
  {
    assert i in t.Names() - active;
  }

  lemma CallUsesParen(r: string, r2: string)
    requires DropSpaces(r) != "" && DropSpaces(r)[0] == '(' && Suffix(r2, DropSpaces(r)[1..])
    ensures Parens(r2) < Parens(r)
  {
    SuffixParens(DropSpaces(r), r);
    SuffixParens(r2, DropSpaces(r)[1..]);
  }
}
