/** What src/C99/Preprocess.hs makes of a macro's body, told from the body written out as a list of items. */
module Substitution {
  import opened Options
  import opened MacroText
  import opened Macros
  import opened Arguments
  import Painting

  // ---- bodies ----

  /** A character that begins no identifier; an identifier that is no parameter; the parameter at j; the arguments behind the
      named ones; # and the parameter at j; ##; and # before anything else. */
  datatype Item =
    | Char(c: char)
    | Name(w: string)
    | Param(j: nat)
    | Rest
    | Quote(blank: string, j: nat)
    | Paste(blank: string)
    | Lost(blank: string, w: string)

  predicate Blank(s: string) { forall i :: 0 <= i < |s| ==> IsSpaceTab(s[i]) }

  predicate IsIdent(w: string) { w != "" && IsIdentStart(w[0]) && forall i :: 0 <= i < |w| ==> IsIdentCont(w[i]) }

  /** No identifier goes on into r. */
  predicate Ends(r: string) { r == "" || !IsIdentCont(r[0]) }

  /** The parameter at j, if its name is not taken by an earlier one. */
  predicate Names(m: Macro, j: nat) {
    j < |m.params| && IsIdent(m.params[j]) && forall i :: 0 <= i < j ==> m.params[i] != m.params[j]
  }

  function Spelling(m: Macro, it: Item): string {
    match it
    case Char(c) => [c]
    case Name(w) => w
    case Param(j) => if j < |m.params| then m.params[j] else ""
    case Rest => "__VA_ARGS__"
    case Quote(blank, j) => "#" + blank + (if j < |m.params| then m.params[j] else "")
    case Paste(blank) => "##" + blank
    case Lost(blank, w) => "#" + blank + w
  }

  /** May the item stand before next? */
  predicate Fits(m: Macro, it: Item, next: string) {
    match it
    case Char(c) => !IsIdentStart(c) && c != '#'
    case Name(w) => IsIdent(w) && w !in m.params && !(m.variadic && w == "__VA_ARGS__") && Ends(next)
    case Param(j) => Names(m, j) && Ends(next)
    case Rest => m.variadic && Ends(next)
    case Quote(blank, j) => Blank(blank) && Names(m, j) && Ends(next)
    case Paste(blank) => Blank(blank) && (next == "" || !IsSpaceTab(next[0]))
    case Lost(blank, w) =>
      Blank(blank) &&
      if w != "" then IsIdent(w) && w !in m.params && Ends(next)
      else next == "" || (!IsSpaceTab(next[0]) && !IsIdentStart(next[0]) && (blank == "" ==> next[0] != '#'))
  }

  function Body(m: Macro, items: seq<Item>): string {
    if items == [] then "" else Spelling(m, items[0]) + Body(m, items[1..])
  }

  predicate Written(m: Macro, items: seq<Item>) {
    items == [] || (Fits(m, items[0], Body(m, items[1..])) && Written(m, items[1..]))
  }

  // ---- what they become ----

  /** The arguments between commas. */
  function Commas(args: seq<string>): string {
    if args == [] then "" else (if |args| == 1 then "" else Commas(args[..|args| - 1]) + ",") + args[|args| - 1]
  }

  /** What an item stands for. A parameter the call has no argument for stands for itself. */
  function Value(m: Macro, args: seq<string>, it: Item): string {
    match it
    case Char(c) => [c]
    case Name(w) => w
    case Param(j) => if j < |args| then args[j] else Spelling(m, it)
    case Rest => if |m.params| <= |args| then Commas(args[|m.params|..]) else ""
    case Quote(_, j) => if j < |args| then Stringify(args[j]) else ""
    case _ => ""
  }

  /** Does the item put an argument here? */
  predicate Splices(args: seq<string>, it: Item) {
    it.Rest? || ((it.Param? || it.Quote?) && it.j < |args|)
  }

  /** May a space come between an item and the one before it? Around an argument only, and not behind ##. */
  predicate Apart(args: seq<string>, before: Option<Item>, it: Item) {
    && !(before.Some? && before.value.Paste?)
    && (Splices(args, it) ||
        (it.Char? && before.Some? && (Splices(args, before.value) || before.value.Quote? || before.value.Lost?)))
  }

  /** A space goes between two characters that would fuse. */
  function Put(acc: string, text: string, apart: bool): string {
    if apart && acc != "" && text != "" && Fuses(acc[|acc| - 1], text[0]) then acc + " " + text else acc + text
  }

  function After(m: Macro, args: seq<string>, acc: string, before: Option<Item>, it: Item): string {
    if it.Paste? then TrimEnd(acc) else Put(acc, Value(m, args, it), Apart(args, before, it))
  }

  function Last(items: seq<Item>): Option<Item> { if items == [] then None else Some(items[|items| - 1]) }

  /** The replacement: the items' values one after the other. */
  function Replacement(m: Macro, args: seq<string>, items: seq<Item>): string {
    if items == [] then ""
    else
      var front := items[..|items| - 1];
      After(m, args, Replacement(m, args, front), Last(front), items[|items| - 1])
  }

  // ---- the program does that ----

  /** What the walk remembers of the item before. */
  predicate Spliced(args: seq<string>, before: Option<Item>) {
    before.Some? && (Splices(args, before.value) || before.value.Quote? || before.value.Lost?)
  }

  predicate Pasted(before: Option<Item>) { before.Some? && before.value.Paste? }

  lemma {:induction false} BlankDropped(blank: string, next: string)
    requires Blank(blank) && (next == "" || !IsSpaceTab(next[0]))
    ensures DropSpaces(blank + next) == next
  {
    if blank == "" {
      assert blank + next == next;
    } else {
      assert (blank + next)[1..] == blank[1..] + next;
      BlankDropped(blank[1..], next);
    }
  }

  lemma {:induction false} ParamFound(params: seq<string>, j: nat)
    requires j < |params| && forall i :: 0 <= i < j ==> params[i] != params[j]
    ensures ParamIndex(params, params[j]) == Some(j)
  {
    if j > 0 {
      assert params[0] != params[j];
      ParamFound(params[1..], j - 1);
    }
  }

  lemma {:induction false} NoParam(params: seq<string>, w: string)
    requires w !in params
    ensures ParamIndex(params, w) == None
  {
    if params != [] { NoParam(params[1..], w); }
  }

  lemma {:induction false} JoinedIs(args: seq<string>)
    ensures Joined(args) == Commas(args)
  {
    if |args| > 1 {
      var last := args[|args| - 1];
      JoinedIs(args[1..]);
      assert args[1..][..|args| - 2] == args[1..|args| - 1] == args[..|args| - 1][1..];
      JoinedIs(args[1..|args| - 1]);
      JoinedIs(args[..|args| - 1]);
      var mid := Commas(args[1..|args| - 1]);
      if |args| > 2 { assert args[0] + "," + (mid + "," + last) == args[0] + "," + mid + "," + last; }
    }
  }

  /** # and ## as the walk meets them. */
  lemma HashWalk(m: Macro, args: seq<string>, sp: bool, fu: bool, acc: string, s: string)
    requires s != "" && s[0] == '#'
    ensures |s| >= 2 && s[1] == '#' ==>
      Subst(m, args, sp, fu, acc, s) == Subst(m, args, false, true, TrimEnd(acc), DropSpaces(s[2..]))
    ensures !(|s| >= 2 && s[1] == '#') ==>
      var r1 := DropSpaces(s[1..]);
      var (p, r2) := SpanIdent(r1);
      if r1 == "" || !IsIdentStart(r1[0]) then
        Subst(m, args, sp, fu, acc, s) == Subst(m, args, true, false, acc, r1)
      else
        var k := ParamIndex(m.params, p);
        Subst(m, args, sp, fu, acc, s) ==
          Subst(m, args, true, false, if k.Some? && k.value < |args| then Splice(fu, Stringify(args[k.value]), acc) else acc, r2)
  {
    hide DropSpaces, SpanIdent, ParamIndex, Splice, Stringify, TrimEnd;
  }

  /** An identifier as the walk meets it. */
  lemma NameWalk(m: Macro, args: seq<string>, sp: bool, fu: bool, acc: string, s: string)
    requires s != "" && IsIdentStart(s[0])
    ensures
      var (i, r) := SpanIdent(s);
      var k := ParamIndex(m.params, i);
      Subst(m, args, sp, fu, acc, s) ==
        if k.Some? && k.value < |args| then Subst(m, args, true, false, Splice(fu, args[k.value], acc), r)
        else if m.variadic && i == "__VA_ARGS__" then
          Subst(m, args, true, false,
            Splice(fu, Joined(if |m.params| <= |args| then args[|m.params|..] else []), acc), r)
        else Subst(m, args, false, false, acc + i, r)
  {
    hide DropSpaces, SpanIdent, ParamIndex, Splice, Stringify, TrimEnd, Joined;
  }

  /** Any other character. */
  lemma CharWalk(m: Macro, args: seq<string>, sp: bool, fu: bool, acc: string, s: string)
    requires s != "" && !IsIdentStart(s[0]) && s[0] != '#'
    ensures Subst(m, args, sp, fu, acc, s) == Subst(m, args, false, false, Put(acc, [s[0]], sp), s[1..])
  {
    hide SpanIdent, ParamIndex, Splice, Stringify, TrimEnd, Joined, Fuses;
    assert acc + " " + [s[0]] == acc + (" " + [s[0]]);
  }

  /** One item. */
  lemma ItemWalk(m: Macro, args: seq<string>, acc: string, before: Option<Item>, it: Item, next: string)
    requires Fits(m, it, next) && (m.variadic ==> "__VA_ARGS__" !in m.params)
    ensures Subst(m, args, Spliced(args, before), Pasted(before), acc, Spelling(m, it) + next) ==
      Subst(m, args, Spliced(args, Some(it)), Pasted(Some(it)), After(m, args, acc, before, it), next)
  {
    match it
    case Char(c) => CharStep(m, args, acc, before, c, next);
    case Name(w) => NameStep(m, args, acc, before, it, next);
    case Param(j) => NameStep(m, args, acc, before, it, next);
    case Rest => NameStep(m, args, acc, before, it, next);
    case Quote(blank, j) => QuoteStep(m, args, acc, before, blank, m.params[j], it, next);
    case Paste(blank) => PasteStep(m, args, acc, before, blank, next);
    case Lost(blank, w) => QuoteStep(m, args, acc, before, blank, w, it, next);
  }

  lemma CharStep(m: Macro, args: seq<string>, acc: string, before: Option<Item>, c: char, next: string)
    requires Fits(m, Char(c), next)
    ensures Subst(m, args, Spliced(args, before), Pasted(before), acc, [c] + next) ==
      Subst(m, args, false, false, After(m, args, acc, before, Char(c)), next)
  {
    hide Subst, Put;
    CharWalk(m, args, Spliced(args, before), Pasted(before), acc, [c] + next);
    assert ([c] + next)[1..] == next;
  }

  lemma PasteStep(m: Macro, args: seq<string>, acc: string, before: Option<Item>, blank: string, next: string)
    requires Fits(m, Paste(blank), next)
    ensures Subst(m, args, Spliced(args, before), Pasted(before), acc, "##" + blank + next) ==
      Subst(m, args, false, true, TrimEnd(acc), next)
  {
    hide Subst, TrimEnd, DropSpaces;
    var s := "##" + blank + next;
    HashWalk(m, args, Spliced(args, before), Pasted(before), acc, s);
    assert s[2..] == blank + next;
    BlankDropped(blank, next);
  }

  lemma NameStep(m: Macro, args: seq<string>, acc: string, before: Option<Item>, it: Item, next: string)
    requires (it.Name? || it.Param? || it.Rest?) && Fits(m, it, next) && (m.variadic ==> "__VA_ARGS__" !in m.params)
    ensures Subst(m, args, Spliced(args, before), Pasted(before), acc, Spelling(m, it) + next) ==
      Subst(m, args, Splices(args, it), false, After(m, args, acc, before, it), next)
  {
    hide Subst, SpanIdent, ParamIndex, Joined, Commas, Fuses;
    var w := Spelling(m, it);
    assert IsIdent(w) by { if it.Rest? { RestIsIdent(); } }
    Painting.SpanNameBlank(w, next);
    NameWalk(m, args, Spliced(args, before), Pasted(before), acc, w + next);
    if it.Param? {
      ParamFound(m.params, it.j);
      assert w in m.params;
    } else {
      NoParam(m.params, w);
      JoinedIs(if |m.params| <= |args| then args[|m.params|..] else []);
      NoneJoined();
    }
  }

  lemma NoneJoined()
    ensures Commas([]) == ""
  {}

  lemma RestIsIdent()
    ensures IsIdent("__VA_ARGS__")
  {
    var w := "__VA_ARGS__";
    assert forall i :: 0 <= i < |w| ==> w[i] == '_' || 'A' <= w[i] <= 'Z';
  }

  /** # and what follows it. */
  lemma QuoteStep(m: Macro, args: seq<string>, acc: string, before: Option<Item>, blank: string, w: string, it: Item,
      next: string)
    requires Fits(m, it, next) && (it == Lost(blank, w) || (it.Quote? && it.blank == blank && w == m.params[it.j]))
    ensures Subst(m, args, Spliced(args, before), Pasted(before), acc, "#" + blank + w + next) ==
      Subst(m, args, true, false, After(m, args, acc, before, it), next)
  {
    hide Subst, SpanIdent, ParamIndex, Fuses, DropSpaces, Stringify;
    var s := "#" + blank + w + next;
    assert s[1..] == blank + (w + next);
    assert s[0] == '#' && acc + "" == acc;
    NotTwo(blank, w, next, s, it, m);
    HashWalk(m, args, Spliced(args, before), Pasted(before), acc, s);
    BlankDropped(blank, w + next);
    if w != "" {
      Painting.SpanNameBlank(w, next);
      if it.Quote? { ParamFound(m.params, it.j); } else { NoParam(m.params, w); }
    } else {
      assert w + next == next;
    }
  }

  lemma NotTwo(blank: string, w: string, next: string, s: string, it: Item, m: Macro)
    requires Fits(m, it, next) && (it == Lost(blank, w) || (it.Quote? && it.blank == blank && w == m.params[it.j]))
    requires s != "" && s[1..] == blank + (w + next)
    ensures |s| >= 2 ==> s[1] != '#'
    ensures w + next == "" || !IsSpaceTab((w + next)[0])
  {
    if |s| >= 2 { assert s[1] == (blank + (w + next))[0]; }
  }

  lemma {:induction false} BodySplits(m: Macro, items: seq<Item>, k: nat)
    requires Written(m, items) && k < |items|
    ensures Fits(m, items[k], Body(m, items[k + 1..]))
    ensures Body(m, items[k..]) == Spelling(m, items[k]) + Body(m, items[k + 1..])
  {
    hide Fits;
    if k == 0 {
      assert items[0..] == items;
    } else {
      BodySplits(m, items[1..], k - 1);
      assert items[1..][k - 1..] == items[k..] && items[1..][k..] == items[k + 1..];
    }
  }

  /** Halfway through the body. */
  lemma {:induction false} SoFar(m: Macro, args: seq<string>, items: seq<Item>, k: nat)
    requires Written(m, items) && (m.variadic ==> "__VA_ARGS__" !in m.params) && k <= |items|
    ensures Subst(m, args, false, false, "", Body(m, items)) ==
      Subst(m, args, Spliced(args, Last(items[..k])), Pasted(Last(items[..k])), Replacement(m, args, items[..k]),
        Body(m, items[k..]))
  {
    hide Subst, Fits, Written, Spelling, After, Splices, Body;
    if k == 0 {
      assert items[..0] == [] && items[0..] == items;
    } else {
      SoFar(m, args, items, k - 1);
      var front, it := items[..k - 1], items[k - 1];
      assert items[..k][..k - 1] == front && items[..k][k - 1] == it;
      BodySplits(m, items, k - 1);
      ItemWalk(m, args, Replacement(m, args, front), Last(front), it, Body(m, items[k..]));
    }
  }

  /** Whatever items a body is written as, for any number of parameters and arguments: the text substituted is their values
      in order, each parameter's the argument at its own place. */
  lemma SubstitutedIs(m: Macro, args: seq<string>, items: seq<Item>)
    requires Written(m, items) && m.body == Body(m, items) && (m.variadic ==> "__VA_ARGS__" !in m.params)
    ensures Substituted(m, args) == Replacement(m, args, items)
  {
    hide Replacement, Written;
    SoFar(m, args, items, |items|);
    assert items[..|items|] == items && items[|items|..] == [];
  }

  /** The arguments that Pieces marks as such. */
  function Marked(ps: seq<Piece>): seq<string> {
    if ps == [] then [] else (if ps[0].Arg? then [ps[0].text] else []) + Marked(ps[1..])
  }

  /** The values of the items that put an argument into the text. */
  function Spliceable(m: Macro, args: seq<string>, items: seq<Item>): seq<string> {
    if items == [] then []
    else (if Splices(args, items[0]) then [Value(m, args, items[0])] else []) + Spliceable(m, args, items[1..])
  }

  predicate Plain(items: seq<Item>) {
    forall it :: it in items ==> it.Char? || it.Name? || it.Param? || it.Rest?
  }

  lemma NameCut(m: Macro, args: seq<string>, sp: bool, acc: string, own: string, s: string)
    requires s != "" && IsIdentStart(s[0])
    ensures
      var (i, r) := SpanIdent(s);
      var k := ParamIndex(m.params, i);
      Marked(Cut(m, args, sp, acc, own, s)) ==
        if k.Some? && k.value < |args| then
          [args[k.value]] + Marked(Cut(m, args, true, Splice(false, args[k.value], acc), "", r))
        else if m.variadic && i == "__VA_ARGS__" then
          var more := Joined(if |m.params| <= |args| then args[|m.params|..] else []);
          [more] + Marked(Cut(m, args, true, Splice(false, more, acc), "", r))
        else Marked(Cut(m, args, false, acc + i, own + i, r))
  {
    hide SpanIdent, ParamIndex, Splice, Joined, Gap, Marked;
    forall a: string, b: string, ps: seq<Piece>
      ensures Marked([Own(a), Arg(b)] + ps) == [b] + Marked(ps)
    {
      TwoMarked(a, b, ps);
    }
  }

  lemma TwoMarked(a: string, b: string, ps: seq<Piece>)
    ensures Marked([Own(a), Arg(b)] + ps) == [b] + Marked(ps)
  {
    var all := [Own(a), Arg(b)] + ps;
    assert all[1..] == [Arg(b)] + ps && all[1..][1..] == ps;
  }

  lemma {:induction false} MarkedAre(m: Macro, args: seq<string>, sp: bool, acc: string, own: string, items: seq<Item>)
    requires Written(m, items) && Plain(items) && (m.variadic ==> "__VA_ARGS__" !in m.params)
    ensures Marked(Cut(m, args, sp, acc, own, Body(m, items))) == Spliceable(m, args, items)
    decreases items
  {
    hide SpanIdent, ParamIndex, Joined, Commas, Fuses;
    if items == [] {
      assert Cut(m, args, sp, acc, own, "") == [Own(own)] && [Own(own)][1..] == [];
    } else {
      var it, next := items[0], Body(m, items[1..]);
      var w, s := Spelling(m, it), Body(m, items);
      if it.Char? {
        assert s[1..] == next;
        var c := if sp && acc != "" && Fuses(acc[|acc| - 1], s[0]) then " " + [s[0]] else [s[0]];
        MarkedAre(m, args, false, acc + c, own + c, items[1..]);
      } else {
        assert IsIdent(w) by { if it.Rest? { RestIsIdent(); } }
        Painting.SpanNameBlank(w, next);
        NameCut(m, args, sp, acc, own, s);
        if it.Param? {
          ParamFound(m.params, it.j);
          assert w in m.params;
        } else {
          NoParam(m.params, w);
          JoinedIs(if |m.params| <= |args| then args[|m.params|..] else []);
          NoneJoined();
        }
        if Splices(args, it) {
          MarkedAre(m, args, true, Splice(false, Value(m, args, it), acc), "", items[1..]);
        } else {
          MarkedAre(m, args, false, acc + w, own + w, items[1..]);
        }
      }
    }
  }

  /** The pieces that stand for arguments in ArgumentsFirst are the arguments the items name, in the items' order. */
  lemma PiecesAre(m: Macro, args: seq<string>, items: seq<Item>)
    requires Written(m, items) && m.body == Body(m, items) && Plain(items)
    requires m.variadic ==> "__VA_ARGS__" !in m.params
    ensures Marked(Pieces(m, args)) == Spliceable(m, args, items)
  {
    MarkedAre(m, args, false, "", "", items);
  }

  // ---- every body is some list of items ----

  lemma {:induction false} BlankTaken(s: string) returns (blank: string)
    ensures s == blank + DropSpaces(s) && Blank(blank)
  {
    if s != "" && IsSpaceTab(s[0]) {
      var b := BlankTaken(s[1..]);
      blank := [s[0]] + b;
      OneMoreBlank(s, b, DropSpaces(s[1..]));
    } else {
      blank := "";
    }
  }

  lemma OneMoreBlank(s: string, b: string, r: string)
    requires s != "" && IsSpaceTab(s[0]) && s[1..] == b + r && Blank(b)
    ensures s == [s[0]] + b + r && Blank([s[0]] + b)
  {}

  lemma {:induction false} FirstOf(params: seq<string>, w: string) returns (j: nat)
    requires w in params
    ensures j < |params| && params[j] == w && forall i :: 0 <= i < j ==> params[i] != w
  {
    if params[0] == w {
      j := 0;
    } else {
      var k := FirstOf(params[1..], w);
      j := k + 1;
      assert forall i :: 0 < i < j ==> params[i] == params[1..][i - 1];
    }
  }

  lemma Put1(m: Macro, it: Item, items: seq<Item>)
    requires Written(m, items) && Fits(m, it, Body(m, items))
    ensures Written(m, [it] + items) && Body(m, [it] + items) == Spelling(m, it) + Body(m, items)
  {
    hide Fits, Spelling;
    assert ([it] + items)[1..] == items;
  }

  /** The first item of a text, and what is left. */
  lemma FirstItem(m: Macro, s: string) returns (it: Item, next: string)
    requires s != "" && (m.variadic ==> "__VA_ARGS__" !in m.params)
    ensures Fits(m, it, next) && Spelling(m, it) + next == s && |next| < |s|
  {
    if s[0] == '#' {
      it, next := FirstHash(m, s);
    } else if IsIdentStart(s[0]) {
      var (w, r) := SpanIdent(s);
      next := r;
      if w in m.params {
        var j := FirstOf(m.params, w);
        it := Param(j);
      } else {
        it := if m.variadic && w == "__VA_ARGS__" then Rest else Name(w);
      }
    } else {
      it, next := Char(s[0]), s[1..];
    }
  }

  lemma FirstHash(m: Macro, s: string) returns (it: Item, next: string)
    requires s != "" && s[0] == '#'
    ensures Fits(m, it, next) && Spelling(m, it) + next == s && |next| < |s|
  {
    if |s| >= 2 && s[1] == '#' {
      it, next := FirstPaste(m, s);
    } else {
      it, next := FirstQuote(m, s);
    }
  }

  lemma FirstPaste(m: Macro, s: string) returns (it: Item, next: string)
    requires |s| >= 2 && s[0] == '#' && s[1] == '#'
    ensures Fits(m, it, next) && Spelling(m, it) + next == s && |next| < |s|
  {
    hide DropSpaces;
    var blank := BlankTaken(s[2..]);
    it, next := Paste(blank), DropSpaces(s[2..]);
    assert s == "##" + (blank + next);
  }

  lemma FirstQuote(m: Macro, s: string) returns (it: Item, next: string)
    requires s != "" && s[0] == '#' && !(|s| >= 2 && s[1] == '#')
    ensures Fits(m, it, next) && Spelling(m, it) + next == s && |next| < |s|
  {
    hide DropSpaces, SpanIdent;
    var blank := BlankTaken(s[1..]);
    var r1 := DropSpaces(s[1..]);
    var w := "";
    next := r1;
    if r1 != "" && IsIdentStart(r1[0]) { w, next := SpanIdent(r1).0, SpanIdent(r1).1; }
    HashParts(s, blank, w, next);
    it := HashItem(m, blank, w, next);
  }

  lemma HashItem(m: Macro, blank: string, w: string, next: string) returns (it: Item)
    requires Blank(blank) && Fits(m.(params := []), Lost(blank, w), next)
    ensures Fits(m, it, next) && Spelling(m, it) == "#" + blank + w
  {
    if w != "" && w in m.params {
      var j := FirstOf(m.params, w);
      it := Quote(blank, j);
    } else {
      it := Lost(blank, w);
    }
  }

  lemma HashParts(s: string, blank: string, w: string, next: string)
    requires s != "" && s[0] == '#' && s[1..] == blank + (w + next)
    ensures s == "#" + blank + w + next && |next| < |s| && (|s| >= 2 ==> s[1] == (blank + (w + next))[0])
  {}

  lemma {:induction false} EveryBody(m: Macro, s: string) returns (items: seq<Item>)
    requires m.variadic ==> "__VA_ARGS__" !in m.params
    ensures Written(m, items) && Body(m, items) == s
    decreases |s|
  {
    hide Fits, Spelling;
    if s == "" { return []; }
    var it, next := FirstItem(m, s);
    var more := EveryBody(m, next);
    Put1(m, it, more);
    items := [it] + more;
  }

  // ---- # and ## ----

  /** The characters a literal's inside stands for: a backslash guards the next. */
  function Denoted(s: string): string {
    if s == "" then ""
    else if s[0] == '\\' && |s| > 1 then [s[1]] + Denoted(s[2..])
    else [s[0]] + Denoted(s[1..])
  }

  function Without(c: char, s: string): string {
    if s == "" then "" else (if s[0] == c then "" else [s[0]]) + Without(c, s[1..])
  }

  lemma Guarded(c: char, e: string, r: string)
    ensures ScanLit('"', ['\\', c] + e) == (['\\', c] + ScanLit('"', e).0, ScanLit('"', e).1)
    ensures Denoted(['\\', c] + r) == [c] + Denoted(r)
  {
    var g := ['\\', c];
    assert (g + e)[..2] == g && (g + e)[2..] == e && (g + r)[2..] == r;
  }

  lemma Unguarded(c: char, e: string, r: string)
    requires c != '\\' && c != '"'
    ensures ScanLit('"', [c] + e) == ([c] + ScanLit('"', e).0, ScanLit('"', e).1)
    ensures Denoted([c] + r) == [c] + Denoted(r)
  {
    assert ([c] + e)[1..] == e && ([c] + r)[1..] == r;
  }

  lemma Closing(r: string)
    ensures ScanLit('"', "" + "\"" + r) == ("" + "\"", r)
  {
    assert "" + "\"" + r == ['"'] + r && (['"'] + r)[1..] == r;
  }

  lemma MoreBefore(g: string, e: string, r: string)
    ensures g + e + "\"" + r == g + (e + "\"" + r) && g + e + "\"" == g + (e + "\"")
  {}

  /** The literal # makes of an argument ends where it should and denotes the argument, but for carriage returns. */
  lemma {:induction false} QuoteReadsBack(arg: string, r: string)
    ensures Stringify(arg) == "\"" + Escape(arg) + "\""
    ensures ScanLit('"', Escape(arg) + "\"" + r) == (Escape(arg) + "\"", r)
    ensures Denoted(Escape(arg)) == Without('\r', arg)
  {
    hide ScanLit;
    if arg == "" {
      Closing(r);
    } else {
      var e := Escape(arg[1..]);
      QuoteReadsBack(arg[1..], r);
      if arg[0] == '\\' || arg[0] == '"' {
        MoreBefore(['\\', arg[0]], e, r);
        Guarded(arg[0], e + "\"" + r, e);
      } else if arg[0] == '\r' {
        assert "" + e == e;
      } else {
        MoreBefore([arg[0]], e, r);
        Unguarded(arg[0], e + "\"" + r, e);
      }
    }
  }

  // ---- cases ----

  lemma OneMore(m: Macro, args: seq<string>, items: seq<Item>, it: Item)
    ensures Replacement(m, args, items + [it]) == After(m, args, Replacement(m, args, items), Last(items), it)
  {
    hide After, Last;
    assert (items + [it])[..|items|] == items;
  }

  lemma ThreeReplaced(m: Macro, args: seq<string>, p: Item, q: Item, r: Item)
    ensures Replacement(m, args, [p, q, r]) ==
      After(m, args, After(m, args, After(m, args, "", None, p), Some(p), q), Some(q), r)
  {
    hide Replacement, After;
    assert [p] == [] + [p] && [p, q] == [p] + [q] && [p, q, r] == [p, q] + [r];
    OneMore(m, args, [], p);
    OneMore(m, args, [p], q);
    OneMore(m, args, [p, q], r);
    assert Replacement(m, args, []) == "" by { NoItems(m, args); }
  }

  lemma NoItems(m: Macro, args: seq<string>)
    ensures Replacement(m, args, []) == ""
  {}

  lemma Meet(acc: string, text: string, apart: bool)
    requires acc == "" || text == "" || !Fuses(acc[|acc| - 1], text[0])
    ensures Put(acc, text, apart) == acc + text
  {}

  /** SUB(x,y) with SUB(a,b) defined as a-b, for any two digits: 5-3 for 5 and 3. */
  lemma EachInItsPlace(x: char, y: char)
    requires '0' <= x <= '9' && '0' <= y <= '9'
    ensures Substituted(Macro("SUB", true, false, ["a", "b"], "a-b", false), [[x], [y]]) == [x, '-', y]
  {
    hide Substituted, Fits, Put, Written, Body, Apart, Replacement, Fuses;
    var m, args := Macro("SUB", true, false, ["a", "b"], "a-b", false), [[x], [y]];
    SubIsWritten(m);
    SubstitutedIs(m, args, [Param(0), Char('-'), Param(1)]);
    ThreeReplaced(m, args, Param(0), Char('-'), Param(1));
    assert !Fuses(x, '-') && !Fuses('-', y) by { NoFuse(x); NoFuse(y); }
    Meet("", [x], Apart(args, None, Param(0)));
    Meet([x], ['-'], Apart(args, Some(Param(0)), Char('-')));
    Meet([x, '-'], [y], Apart(args, Some(Char('-')), Param(1)));
    assert "" + [x] == [x] && [x] + ['-'] == [x, '-'] && [x, '-'] + [y] == [x, '-', y];
  }

  lemma NoFuse(x: char)
    requires '0' <= x <= '9'
    ensures !Fuses(x, '-') && !Fuses('-', x)
  {}

  lemma SubIsWritten(m: Macro)
    requires m == Macro("SUB", true, false, ["a", "b"], "a-b", false)
    ensures Written(m, [Param(0), Char('-'), Param(1)]) && Body(m, [Param(0), Char('-'), Param(1)]) == "a-b"
  {
    var c := [Param(1)];
    assert Body(m, []) == "" && Body(m, c) == "b" && Written(m, c) by { assert c[1..] == []; }
    Put1(m, Char('-'), c);
    assert [Char('-')] + c == [Char('-'), Param(1)];
    Put1(m, Param(0), [Char('-'), Param(1)]);
    assert [Param(0)] + [Char('-'), Param(1)] == [Param(0), Char('-'), Param(1)];
  }

  function Chars(s: string): seq<Item> { seq(|s|, i requires 0 <= i < |s| => Char(s[i])) }

  lemma {:induction false} BlanksWritten(m: Macro, s: string, items: seq<Item>)
    requires Blank(s) && Written(m, items)
    ensures Written(m, Chars(s) + items) && Body(m, Chars(s) + items) == s + Body(m, items)
  {
    hide Written, Body;
    if s == "" {
      assert Chars(s) + items == items && s + Body(m, items) == Body(m, items);
    } else {
      BlanksWritten(m, s[1..], items);
      Put1(m, Char(s[0]), Chars(s[1..]) + items);
      assert Chars(s) + items == [Char(s[0])] + (Chars(s[1..]) + items);
      assert s == [s[0]] + s[1..];
    }
  }

  lemma {:induction false} BlanksReplaced(m: Macro, args: seq<string>, items: seq<Item>, s: string)
    requires Blank(s)
    ensures Replacement(m, args, items + Chars(s)) == Replacement(m, args, items) + s
  {
    hide Replacement, Apart, Last, Put;
    if s == "" {
      assert items + Chars(s) == items && Replacement(m, args, items) + s == Replacement(m, args, items);
    } else {
      var n := |s| - 1;
      var front := items + Chars(s[..n]);
      BlanksReplaced(m, args, items, s[..n]);
      assert items + Chars(s) == front + [Char(s[n])];
      OneMore(m, args, front, Char(s[n]));
      BlankPut(Replacement(m, args, front), s[n], Apart(args, Last(front), Char(s[n])));
      assert s == s[..n] + [s[n]];
      assert Replacement(m, args, items) + s == Replacement(m, args, items) + s[..n] + [s[n]];
    }
  }

  lemma BlankPut(acc: string, c: char, apart: bool)
    requires IsSpaceTab(c)
    ensures Put(acc, [c], apart) == acc + [c]
  {}

  /** Blanks at the end are dropped, and nothing else is. */
  lemma {:induction false} TrimEndIs(s: string)
    ensures var t := TrimEnd(s); Blank(s[|t|..]) && (t != "" ==> !IsSpaceTab(t[|t| - 1]))
  {
    if s != "" && IsSpaceTab(s[|s| - 1]) {
      TrimEndIs(s[..|s| - 1]);
      var t := TrimEnd(s);
      assert s[|t|..] == s[..|s| - 1][|t|..] + [s[|s| - 1]];
    }
  }

  lemma {:induction false} BlanksTrimmed(a: string, s: string)
    requires Blank(s)
    ensures TrimEnd(a + s) == TrimEnd(a)
  {
    if s == "" {
      assert a + s == a;
    } else {
      assert (a + s)[..|a + s| - 1] == a + s[..|s| - 1];
      BlanksTrimmed(a, s[..|s| - 1]);
    }
  }

  lemma PasteIsWritten(m: Macro, before: string, after: string)
    requires |m.params| == 2 && Names(m, 0) && Names(m, 1) && Blank(before) && Blank(after)
    ensures var items := [Param(0)] + (Chars(before) + [Paste(after), Param(1)]);
      Written(m, items) && Body(m, items) == m.params[0] + (before + ("##" + after + m.params[1]))
  {
    hide Chars;
    var y := [Param(1)];
    assert Written(m, []) && Body(m, []) == "";
    Put1(m, Param(1), []);
    assert y + [] == y && m.params[1] + "" == m.params[1];
    Put1(m, Paste(after), y);
    var z := [Paste(after), Param(1)];
    assert [Paste(after)] + y == z;
    BlanksWritten(m, before, z);
    HashFollows(before, after, m.params[1]);
    Put1(m, Param(0), Chars(before) + z);
  }

  lemma Aligned(x: string, before: string, after: string, y: string)
    ensures x + before + "##" + after + y == x + (before + ("##" + after + y))
  {}

  lemma HashFollows(before: string, after: string, w: string)
    requires Blank(before)
    ensures Ends(before + ("##" + after + w))
  {
    var r := before + ("##" + after + w);
    assert r[0] == if before == "" then '#' else before[0];
  }

  lemma PasteReplacement(m: Macro, args: seq<string>, before: string, after: string)
    requires Blank(before) && |args| >= 2
    ensures Replacement(m, args, [Param(0)] + (Chars(before) + [Paste(after), Param(1)])) == TrimEnd(args[0]) + args[1]
  {
    hide Chars, TrimEnd, Fuses;
    var x, z := [Param(0)], [Param(0)] + Chars(before);
    assert x[..0] == [] && Replacement(m, args, x) == args[0];
    BlanksReplaced(m, args, x, before);
    BlanksTrimmed(args[0], before);
    var zp, all := z + [Paste(after)], [Param(0)] + (Chars(before) + [Paste(after), Param(1)]);
    assert zp[..|zp| - 1] == z && all[..|all| - 1] == zp;
    assert Replacement(m, args, zp) == TrimEnd(args[0]);
  }

  /** x ## y with any blanks about the ##: the two arguments side by side. */
  lemma PasteJoins(m: Macro, args: seq<string>, before: string, after: string)
    requires |m.params| == 2 && Names(m, 0) && Names(m, 1) && Blank(before) && Blank(after) && |args| >= 2
    requires m.variadic ==> "__VA_ARGS__" !in m.params
    requires m.body == m.params[0] + before + "##" + after + m.params[1]
    ensures Substituted(m, args) == TrimEnd(args[0]) + args[1]
    ensures var t := TrimEnd(args[0]); Blank(args[0][|t|..]) && (t != "" ==> !IsSpaceTab(t[|t| - 1]))
  {
    hide Substituted, TrimEnd, Replacement, Body, Written, Chars, Blank, Names;
    TrimEndIs(args[0]);
    var items := [Param(0)] + (Chars(before) + [Paste(after), Param(1)]);
    PasteIsWritten(m, before, after);
    Aligned(m.params[0], before, after, m.params[1]);
    SubstitutedIs(m, args, items);
    PasteReplacement(m, args, before, after);
  }

  /** The argument behind # in a variadic macro's body is lost: section 6.10.3.2 of ISO/IEC 9899:1999 makes a literal of it. */
  lemma VariadicNotQuoted(name: string, args: seq<string>)
    ensures Substituted(Macro(name, true, true, [], "#__VA_ARGS__", false), args) == ""
  {
    hide Substituted;
    var m := Macro(name, true, true, [], "#__VA_ARGS__", false);
    var it := Lost("", "__VA_ARGS__");
    RestIsIdent();
    assert Fits(m, it, "");
    assert Body(m, []) == "" && Written(m, []);
    Put1(m, it, []);
    assert [it] + [] == [it] && Spelling(m, it) + "" == "#__VA_ARGS__";
    SubstitutedIs(m, args, [it]);
    assert [it][..0] == [];
  }
}
