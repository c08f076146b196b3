/** A whole call of a function-like macro in src/C99/Preprocess.hs: its argument list taken apart and its body put together. */
module Calls {
  import opened Options
  import opened MacroText
  import opened Macros
  import opened Substitution

  /** A text whose literals are closed and whose parentheses match. */
  datatype Text = Nil | Plain(c: char, rest: Text) | Literal(q: char, body: string, rest: Text) | Group(inside: Text, rest: Text)

  /** Does the inside of a literal stay clear of the quote that closes it? */
  predicate Shut(q: char, s: string) {
    if s == "" then true
    else if s[0] == '\\' then |s| > 1 && Shut(q, s[2..])
    else s[0] != q && Shut(q, s[1..])
  }

  /** commas says whether a comma may stand outside parentheses. */
  predicate Balanced(t: Text, commas: bool) {
    match t
    case Nil => true
    case Plain(c, rest) => !IsQuote(c) && c != '(' && c != ')' && (c == ',' ==> commas) && Balanced(rest, commas)
    case Literal(q, inside, rest) => IsQuote(q) && Shut(q, inside) && Balanced(rest, commas)
    case Group(inside, rest) => Balanced(inside, true) && Balanced(rest, commas)
  }

  function Spell(t: Text): string {
    match t
    case Nil => ""
    case Plain(c, rest) => [c] + Spell(rest)
    case Literal(q, inside, rest) => [q] + (inside + [q] + Spell(rest))
    case Group(inside, rest) => "(" + (Spell(inside) + (")" + Spell(rest)))
  }

  /** The arguments of a call between commas, up to the closing parenthesis. */
  function ListText(args: seq<Text>): string
    requires args != []
  {
    Spell(args[0]) + (if |args| == 1 then ")" else "," + ListText(args[1..]))
  }

  /** The arguments as the program keeps them: without blanks in front. */
  function Given(args: seq<Text>): seq<string> { seq(|args|, i requires 0 <= i < |args| => DropSpaces(Spell(args[i]))) }

  lemma {:induction false} LiteralScanned(q: char, inside: string, s: string)
    requires IsQuote(q) && Shut(q, inside)
    ensures ScanLit(q, inside + [q] + s) == (inside + [q], s)
    decreases |inside|
  {
    var whole := inside + [q] + s;
    if inside == "" {
      assert whole == [q] + s && whole[1..] == s && "" + [q] == [q];
    } else {
      var n := if inside[0] == '\\' then 2 else 1;
      LiteralScanned(q, inside[n..], s);
      LiteralParts(q, inside, s, n);
    }
  }

  lemma LiteralParts(q: char, inside: string, s: string, n: nat)
    requires n <= |inside|
    ensures var whole := inside + [q] + s;
      whole[n..] == inside[n..] + [q] + s && whole[..n] == inside[..n] && inside[..n] + (inside[n..] + [q]) == inside + [q]
  {
    assert inside == inside[..n] + inside[n..];
  }

  /** A balanced text is passed over whole. */
  lemma {:induction false} BalancedScanned(t: Text, d: nat, s: string)
    requires Balanced(t, d > 0)
    ensures ScanArg(Spell(t) + s, d) == (Spell(t) + ScanArg(s, d).0, ScanArg(s, d).1)
    decreases t
  {
    hide ScanArg;
    match t
    case Nil =>
      assert "" + s == s && "" + ScanArg(s, d).0 == ScanArg(s, d).0;
    case Plain(c, rest) =>
      BalancedScanned(rest, d, s);
      CharScanned(c, Spell(rest), s, d);
    case Literal(q, body, rest) =>
      BalancedScanned(rest, d, s);
      QuoteScanned(q, body, Spell(rest), s, d);
    case Group(inside, rest) =>
      BalancedScanned(rest, d, s);
      BalancedScanned(inside, d + 1, ")" + (Spell(rest) + s));
      GroupScanned(Spell(inside), Spell(rest), s, d);
  }

  lemma CharScanned(c: char, rest: string, s: string, d: nat)
    requires !IsQuote(c) && c != '(' && c != ')' && (c == ',' ==> d > 0)
    requires ScanArg(rest + s, d) == (rest + ScanArg(s, d).0, ScanArg(s, d).1)
    ensures ScanArg([c] + rest + s, d) == ([c] + rest + ScanArg(s, d).0, ScanArg(s, d).1)
  {
    hide ScanArg;
    CharFirst(c, rest + s, d);
    OneBefore(c, rest, s);
    OneBefore(c, rest, ScanArg(s, d).0);
  }

  lemma CharFirst(c: char, r: string, d: nat)
    requires !IsQuote(c) && c != '(' && c != ')' && (c == ',' ==> d > 0)
    ensures ScanArg([c] + r, d) == ([c] + ScanArg(r, d).0, ScanArg(r, d).1)
  {
    assert ([c] + r)[1..] == r;
  }

  lemma OneBefore(c: char, rest: string, s: string)
    ensures [c] + rest + s == [c] + (rest + s)
  {}

  lemma QuoteScanned(q: char, body: string, rest: string, s: string, d: nat)
    requires IsQuote(q) && Shut(q, body)
    requires ScanArg(rest + s, d) == (rest + ScanArg(s, d).0, ScanArg(s, d).1)
    ensures ScanArg([q] + (body + [q] + rest) + s, d) ==
      ([q] + (body + [q] + rest) + ScanArg(s, d).0, ScanArg(s, d).1)
  {
    hide ScanLit, ScanArg;
    LiteralScanned(q, body, rest + s);
    QuoteFirst(q, body + [q] + (rest + s), d);
    Nested(q, body, rest, s);
    Nested(q, body, rest, ScanArg(s, d).0);
  }

  lemma QuoteFirst(q: char, r: string, d: nat)
    requires IsQuote(q)
    ensures var (lit, r1) := ScanLit(q, r);
      ScanArg([q] + r, d) == ([q] + lit + ScanArg(r1, d).0, ScanArg(r1, d).1)
  {
    hide ScanLit;
    assert ([q] + r)[1..] == r;
  }

  lemma Nested(q: char, body: string, rest: string, s: string)
    ensures [q] + (body + [q] + rest) + s == [q] + (body + [q] + (rest + s)) == [q] + (body + [q]) + (rest + s)
  {}

  lemma GroupScanned(inside: string, rest: string, s: string, d: nat)
    requires ScanArg(inside + (")" + (rest + s)), d + 1) ==
      (inside + ScanArg(")" + (rest + s), d + 1).0, ScanArg(")" + (rest + s), d + 1).1)
    requires ScanArg(rest + s, d) == (rest + ScanArg(s, d).0, ScanArg(s, d).1)
    ensures ScanArg("(" + (inside + (")" + rest)) + s, d) ==
      ("(" + (inside + (")" + rest)) + ScanArg(s, d).0, ScanArg(s, d).1)
  {
    Opened(inside + (")" + (rest + s)), d);
    Ended(rest + s, d);
    Regroup(inside, rest, s);
    Regroup(inside, rest, ScanArg(s, d).0);
  }

  lemma Opened(r: string, d: nat)
    ensures ScanArg("(" + r, d) == ("(" + ScanArg(r, d + 1).0, ScanArg(r, d + 1).1)
  {
    assert ("(" + r)[1..] == r && "(" == ['('];
  }

  lemma Ended(r: string, d: nat)
    ensures ScanArg(")" + r, d + 1) == (")" + ScanArg(r, d).0, ScanArg(r, d).1)
  {
    assert (")" + r)[1..] == r && ")" == [')'];
  }

  lemma Regroup(inside: string, rest: string, s: string)
    ensures "(" + (inside + (")" + rest)) + s == "(" + (inside + (")" + (rest + s)))
  {}

  /** The list of a call is taken apart at its own commas, one argument for each, and the rest is left. */
  lemma {:induction false} ListCollected(args: seq<Text>, r: string)
    requires args != [] && forall a :: a in args ==> Balanced(a, false)
    ensures CollectArgs(ListText(args) + r) == (Given(args), r)
    decreases |args|
  {
    hide ScanArg, Spell, DropSpaces, CollectArgs, ListText, Balanced;
    var a := args[0];
    if |args| == 1 {
      OneCollected(a, ")" + r);
      OneText(args, r);
      LastTaken(Spell(a), r);
      assert Given(args) == [DropSpaces(Spell(a))];
    } else {
      var more := ListText(args[1..]) + r;
      ListCollected(args[1..], r);
      OneCollected(a, "," + more);
      MoreText(args, r);
      FirstTaken(Spell(a), more);
      assert Given(args) == [DropSpaces(Spell(a))] + Given(args[1..]);
    }
  }

  lemma OneText(args: seq<Text>, r: string)
    requires |args| == 1
    ensures ListText(args) + r == Spell(args[0]) + (")" + r)
  {}

  lemma MoreText(args: seq<Text>, r: string)
    requires |args| > 1
    ensures ListText(args) + r == Spell(args[0]) + ("," + (ListText(args[1..]) + r))
  {
    hide Spell;
    Around(Spell(args[0]), ListText(args[1..]), r);
  }

  lemma Around(a: string, b: string, r: string)
    ensures a + ("," + b) + r == a + ("," + (b + r))
  {}

  lemma LastTaken(a: string, r: string)
    requires ScanArg(a + (")" + r), 0) == (a, ")" + r)
    ensures CollectArgs(a + (")" + r)) == ([DropSpaces(a)], r)
  {
    hide ScanArg, DropSpaces;
    assert (")" + r)[1..] == r;
  }

  lemma FirstTaken(a: string, more: string)
    requires ScanArg(a + ("," + more), 0) == (a, "," + more)
    ensures CollectArgs(a + ("," + more)) == ([DropSpaces(a)] + CollectArgs(more).0, CollectArgs(more).1)
  {
    hide ScanArg, DropSpaces;
    assert ("," + more)[1..] == more;
  }

  lemma OneCollected(a: Text, s: string)
    requires Balanced(a, false) && s != "" && (s[0] == ',' || s[0] == ')')
    ensures ScanArg(Spell(a) + s, 0) == (Spell(a), s)
  {
    BalancedScanned(a, 0, s);
    assert ScanArg(s, 0) == ("", s);
    assert Spell(a) + "" == Spell(a);
  }

  /** With nothing at all between the parentheses there are no arguments; otherwise there is one more than there are commas. */
  lemma ListRead(args: seq<Text>, r: string)
    requires args != [] && forall a :: a in args ==> Balanced(a, false)
    ensures ScanArgs(ListText(args) + r) == (if args == [Nil] then [] else Given(args), r)
  {
    hide CollectArgs, ListText, Spell, Given, Balanced;
    ListCollected(args, r);
    if args == [Nil] {
      NothingText(r);
    } else {
      FirstIsNot(args, r);
    }
  }

  lemma NothingText(r: string)
    ensures ListText([Nil]) + r == ")" + r && (")" + r)[1..] == r
  {
    assert "" + ")" == ")";
  }

  lemma FirstIsNot(args: seq<Text>, r: string)
    requires args != [] && args != [Nil] && Balanced(args[0], false)
    ensures var s := ListText(args) + r; s != "" && s[0] != ')'
  {
    if args[0].Nil? {
      assert |args| > 1;
      MoreText(args, r);
    } else {
      var s := ListText(args) + r;
      assert s[0] == Spell(args[0])[0];
    }
  }

  /** A call: the text of its arguments, the body as its items, and what the program goes on to expand. */
  lemma CallBecomes(active: set<string>, t: Table, at: Place, i: string, blank: string, args: seq<Text>, items: seq<Item>,
      r: string)
    requires t.WellKeyed() && i != "" && Live(active, t, i) && i != "__FILE__" && i != "__LINE__"
    requires var m := t.Find(i).value;
      m.func && Written(m, items) && m.body == Body(m, items) && (m.variadic ==> "__VA_ARGS__" !in m.params)
    requires Blank(blank) && args != [] && forall a :: a in args ==> Balanced(a, false)
    ensures
      var m := t.Find(i).value;
      var given := if args == [Nil] then [] else Given(args);
      var ex := Expand(active + {i}, t, at, Replacement(m, given, items), false);
      Ident(active, t, at, i, blank + ("(" + (ListText(args) + r))) ==
        match PendingCall(active, t, ex, r) case Some(n) => Go(active, t, at, n + r) case None => ex + Go(active, t, at, r)
  {
    hide Go, Expand, ListText, Written, Body, Replacement, Given, Balanced, PendingCall, DropSpaces, Substituted;
    var list := ListText(args) + r;
    ListRead(args, r);
    SubstitutedIs(t.Find(i).value, if args == [Nil] then [] else Given(args), items);
    BlankDropped(blank, "(" + list);
    CallWalk(active, t, at, i, blank + ("(" + list), list);
  }

  lemma CallWalk(active: set<string>, t: Table, at: Place, i: string, s: string, list: string)
    requires t.WellKeyed() && i != "" && Live(active, t, i) && i != "__FILE__" && i != "__LINE__" && t.Find(i).value.func
    requires DropSpaces(s) == "(" + list
    ensures
      var (args, r) := ScanArgs(list);
      var ex := Expand(active + {i}, t, at, Substituted(t.Find(i).value, args), false);
      Ident(active, t, at, i, s) ==
        match PendingCall(active, t, ex, r) case Some(n) => Go(active, t, at, n + r) case None => ex + Go(active, t, at, r)
  {
    hide Go, Expand, PendingCall, ScanArgs, DropSpaces, Substituted;
    assert ("(" + list)[1..] == list;
  }
}
