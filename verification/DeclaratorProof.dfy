/** Reading the tokens of a declarator gives the type it means, its name and its parameters, and stops right
    after it, whatever it is nested in. */
module DeclaratorProof {
  import opened Options
  import opened Declarator

  /** What may stand after a declarator. */
  predicate Stops(t: seq<Tok>) {
    match Head(t)
    case RParen => true
    case Comma => true
    case Other => true
    case Eof => true
    case _ => false
  }

  // ---- token sequences ----

  lemma Assoc(a: seq<Tok>, b: seq<Tok>, c: seq<Tok>)
    ensures a + b + c == a + (b + c)
  {}

  lemma HeadOf(a: Tok, t: seq<Tok>)
    ensures Head([a] + t) == a && ([a] + t)[1..] == t && Rest([a] + t) == t
  {}

  lemma {:induction false} QualsSkipped(n: nat, t: seq<Tok>)
    requires !Head(t).Qual?
    ensures SkipQuals(Quals(n) + t) == t
    decreases n
  {
    if n == 0 {
      assert Quals(0) + t == t;
    } else {
      assert Quals(n) + t == [Qual] + (Quals(n - 1) + t);
      HeadOf(Qual, Quals(n - 1) + t);
      QualsSkipped(n - 1, t);
    }
  }

  // ---- skipping balanced tokens ----

  lemma {:induction false} QualsPassed(n: nat, t: seq<Tok>, k: nat)
    requires k > 0
    ensures SkipTo(Quals(n) + t, k) == SkipTo(t, k)
    decreases n
  {
    if n == 0 {
      assert Quals(0) + t == t;
    } else {
      assert Quals(n) + t == [Qual] + (Quals(n - 1) + t);
      HeadOf(Qual, Quals(n - 1) + t);
      QualsPassed(n - 1, t, k);
    }
  }

  lemma BoundPassed(b: Bound, t: seq<Tok>, k: nat)
    requires k > 0
    ensures SkipTo(BoundTokens(b) + t, k) == SkipTo(t, k)
  {
    match b
    case BNone => assert BoundTokens(b) + t == t;
    case BStar => HeadOf(Star, t);
    case BNum(n) => HeadOf(Num(n), t);
  }

  lemma BracketsPassed(q: nat, b: Bound, t: seq<Tok>, k: nat)
    requires k > 0
    ensures SkipTo(Brackets(q, b) + t, k) == SkipTo(t, k)
  {
    var u := [RBracket] + t;
    BracketsAre(q, b, t);
    HeadOf(LBracket, Quals(q) + (BoundTokens(b) + u));
    QualsPassed(q, BoundTokens(b) + u, k);
    BoundPassed(b, u, k);
    HeadOf(RBracket, t);
  }

  lemma BracketsAre(q: nat, b: Bound, t: seq<Tok>)
    ensures Brackets(q, b) + t == [LBracket] + (Quals(q) + (BoundTokens(b) + ([RBracket] + t)))
  {}

  /** The tokens of a declarator open as many parentheses as they close. */
  lemma {:induction false} DeclPassed(d: Decl, t: seq<Tok>, k: nat)
    requires k > 0
    ensures SkipTo(Tokens(d) + t, k) == SkipTo(t, k)
    decreases d
  {
    hide SkipTo, ParamTokens, Brackets, Quals;
    match d
    case Name(x) => NamePassed(x, t, k);
    case Ptr(q, e) =>
      PtrSplit(q, e, t);
      StarPassed(Quals(q) + (Tokens(e) + t), k);
      QualsPassed(q, Tokens(e) + t, k);
      DeclPassed(e, t, k);
    case Paren(e) =>
      ParenSplit(e, t);
      OpenPassed(Tokens(e) + ([RParen] + t), k);
      DeclPassed(e, [RParen] + t, k + 1);
      ClosePassed(t, k);
    case Arr(e, q, b) =>
      Assoc(Tokens(e), Brackets(q, b), t);
      DeclPassed(e, Brackets(q, b) + t, k);
      BracketsPassed(q, b, t, k);
    case Fun(e, ps) =>
      var u := ParamTokens(ps) + ([RParen] + t);
      FunSplit(e, ps, t);
      DeclPassed(e, [LParen] + u, k);
      OpenPassed(u, k);
      ParamsPassed(ps, [RParen] + t, k + 1);
      ClosePassed(t, k);
  }

  lemma FunSplit(e: Decl, ps: Params, t: seq<Tok>)
    ensures Tokens(Fun(e, ps)) + t == Tokens(e) + ([LParen] + (ParamTokens(ps) + ([RParen] + t)))
  {}

  lemma ParenSplit(e: Decl, t: seq<Tok>)
    ensures Tokens(Paren(e)) + t == [LParen] + (Tokens(e) + ([RParen] + t))
  {}

  lemma PtrSplit(q: nat, e: Decl, t: seq<Tok>)
    ensures Tokens(Ptr(q, e)) + t == [Star] + (Quals(q) + (Tokens(e) + t))
  {}

  lemma NamePassed(x: Option<string>, t: seq<Tok>, k: nat)
    requires k > 0
    ensures SkipTo(Tokens(Name(x)) + t, k) == SkipTo(t, k)
  {
    if x.Some? { HeadOf(Ident(x.value), t); } else { assert Tokens(Name(x)) + t == t; }
  }

  lemma StarPassed(t: seq<Tok>, k: nat)
    requires k > 0
    ensures SkipTo([Star] + t, k) == SkipTo(t, k)
  {
    HeadOf(Star, t);
  }

  lemma OpenPassed(t: seq<Tok>, k: nat)
    requires k > 0
    ensures SkipTo([LParen] + t, k) == SkipTo(t, k + 1)
  {
    HeadOf(LParen, t);
  }

  lemma ClosePassed(t: seq<Tok>, k: nat)
    ensures SkipTo([RParen] + t, k + 1) == SkipTo(t, k)
  {
    HeadOf(RParen, t);
  }

  lemma PlainPassed(x: Tok, t: seq<Tok>, k: nat)
    requires k > 0 && (x.Spec? || x.Comma? || x.Ellipsis?)
    ensures SkipTo([x] + t, k) == SkipTo(t, k)
  {
    HeadOf(x, t);
  }

  lemma {:induction false} ParamsPassed(ps: Params, t: seq<Tok>, k: nat)
    requires k > 0
    ensures SkipTo(ParamTokens(ps) + t, k) == SkipTo(t, k)
    decreases ps
  {
    hide SkipTo;
    match ps
    case NoParams => PlainPassed(Spec(VOID), t, k);
    case Unspecified => assert ParamTokens(ps) + t == t;
    case ParamList(list, v) =>
      if v {
        assert ParamTokens(ps) + t == ListTokens(list) + ([Comma] + ([Ellipsis] + t));
        ListPassed(list, [Comma] + ([Ellipsis] + t), k);
        PlainPassed(Comma, [Ellipsis] + t, k);
        PlainPassed(Ellipsis, t, k);
      } else {
        assert ParamTokens(ps) + t == ListTokens(list) + t;
        ListPassed(list, t, k);
      }
  }

  lemma {:induction false} ListPassed(ps: ParamSeq, t: seq<Tok>, k: nat)
    requires k > 0
    ensures SkipTo(ListTokens(ps) + t, k) == SkipTo(t, k)
    decreases ps
  {
    hide SkipTo;
    match ps
    case One(b, d) =>
      assert ListTokens(ps) + t == [Spec(b)] + (Tokens(d) + t);
      PlainPassed(Spec(b), Tokens(d) + t, k);
      DeclPassed(d, t, k);
    case More(b, d, rest) =>
      var u := [Comma] + (ListTokens(rest) + t);
      assert ListTokens(ps) + t == [Spec(b)] + (Tokens(d) + u);
      PlainPassed(Spec(b), Tokens(d) + u, k);
      DeclPassed(d, u, k);
      PlainPassed(Comma, ListTokens(rest) + t, k);
      ListPassed(rest, t, k);
  }

  /** The cursor lands right after the parentheses of a declarator. */
  lemma ParenSkipped(e: Decl, t: seq<Tok>)
    ensures SkipBalanced([LParen] + (Tokens(e) + ([RParen] + t))) == t
  {
    hide SkipTo;
    HeadOf(LParen, Tokens(e) + ([RParen] + t));
    DeclPassed(e, [RParen] + t, 1);
    ClosePassed(t, 0);
    SkippedAll(t);
  }

  lemma SkippedAll(t: seq<Tok>)
    ensures SkipTo(t, 0) == t
  {}

  // ---- suffixes ----

  datatype Suffix = Index(quals: nat, bound: Bound) | Call(ps: Params)

  function SuffixTokens(s: seq<Suffix>): seq<Tok> {
    if s == [] then []
    else
      (match s[0]
       case Index(q, b) => Brackets(q, b)
       case Call(ps) => [LParen] + ParamTokens(ps) + [RParen])
      + SuffixTokens(s[1..])
  }

  /** The suffixes around a type, the leftmost outermost. */
  function Wrapped(s: seq<Suffix>, t: Type): Type {
    if s == [] then t
    else match s[0]
      case Index(_, b) => TArray(Wrapped(s[1..], t), BoundLen(b), b.BStar?)
      case Call(ps) => FunType(ps, Wrapped(s[1..], t))
  }

  function CallParams(s: seq<Suffix>): Option<seq<Param>> {
    if s == [] then None
    else match s[0]
      case Index(_, _) => CallParams(s[1..])
      case Call(ps) => Some(ParamsOf(ps))
  }

  /** A call is the last suffix. */
  predicate ValidSuffixes(s: seq<Suffix>) {
    s == [] || ((s[0].Call? ==> |s| == 1 && ValidParams(s[0].ps)) && ValidSuffixes(s[1..]))
  }

  // ---- a measure ----

  function Weight(d: Decl): nat
    decreases d
  {
    match d
    case Name(_) => 1
    case Ptr(_, e) => 1 + Weight(e)
    case Paren(e) => 1 + Weight(e)
    case Arr(e, _, _) => 1 + Weight(e)
    case Fun(e, ps) => 1 + Weight(e) + WeightP(ps)
  }

  function WeightP(ps: Params): nat
    decreases ps
  {
    if ps.ParamList? then WeightL(ps.ps) else 0
  }

  function WeightL(ps: ParamSeq): nat
    decreases ps
  {
    match ps
    case One(_, d) => 1 + Weight(d)
    case More(_, d, rest) => 1 + Weight(d) + WeightL(rest)
  }

  function WeightS(s: seq<Suffix>): nat {
    if s == [] then 0 else (if s[0].Call? then WeightP(s[0].ps) else 0) + WeightS(s[1..])
  }

  lemma BracketsRead(q: nat, b: Bound, t: seq<Tok>)
    ensures var u := Brackets(q, b) + t;
            && Head(u).LBracket?
            && var (len, star, v) := ParseBound(SkipQuals(u[1..]));
               len == BoundLen(b) && star == b.BStar? && Expect(RBracket, v) == t && |t| < |u|
  {
    var v := [RBracket] + t;
    BracketsAre(q, b, t);
    HeadOf(LBracket, Quals(q) + (BoundTokens(b) + v));
    HeadOf(RBracket, t);
    match b {
      case BNone => assert BoundTokens(b) + v == v;
      case BStar => HeadOf(Star, v);
      case BNum(n) => HeadOf(Num(n), v);
    }
    QualsSkipped(q, BoundTokens(b) + v);
  }

  /** All suffixes, up to where the declarator stops. */
  lemma {:induction false} SuffixesRead(s: seq<Suffix>, base: Type, t: seq<Tok>)
    requires ValidSuffixes(s) && Stops(t)
    ensures ParsePostfix(base, SuffixTokens(s) + t) == (Wrapped(s, base), CallParams(s), t)
    decreases WeightS(s), 4, |s|
  {
    if s == [] {
      assert SuffixTokens(s) + t == t;
    } else {
      var rest := SuffixTokens(s[1..]) + t;
      match s[0]
      case Index(q, b) =>
        Assoc(Brackets(q, b), SuffixTokens(s[1..]), t);
        BracketsRead(q, b, rest);
        SuffixesRead(s[1..], base, t);
      case Call(ps) =>
        assert s == [Call(ps)];
        LastCall(ps, t);
        HeadOf(LParen, ParamTokens(ps) + ([RParen] + t));
        ParamsRead(ps, base, t);
        StopsPostfix(FunType(ps, base), t);
    }
  }

  lemma LastCall(ps: Params, t: seq<Tok>)
    ensures SuffixTokens([Call(ps)]) + t == [LParen] + (ParamTokens(ps) + ([RParen] + t))
  {
    var s := [Call(ps)];
    assert s[1..] == [];
    assert SuffixTokens(s) == [LParen] + ParamTokens(ps) + [RParen];
  }

  lemma StopsPostfix(base: Type, t: seq<Tok>)
    requires Stops(t)
    ensures ParsePostfix(base, t) == (base, None, t)
  {}

  lemma {:induction false} ParamsRead(ps: Params, ret: Type, t: seq<Tok>)
    requires ValidParams(ps)
    ensures ParseParamList(ret, ParamTokens(ps) + ([RParen] + t)) == (FunType(ps, ret), Some(ParamsOf(ps)), t)
    decreases WeightP(ps), 3
  {
    var u := [RParen] + t;
    HeadOf(RParen, t);
    match ps
    case NoParams =>
      HeadOf(Spec(VOID), u);
      assert ([Spec(VOID)] + u)[2..] == t;
    case Unspecified => assert ParamTokens(ps) + u == u;
    case ParamList(list, v) => ListStart(list, v, ret, t);
  }

  lemma {:induction false} ListStart(list: ParamSeq, v: bool, ret: Type, t: seq<Tok>)
    requires ValidList(list)
    ensures ParseParamList(ret, ParamTokens(ParamList(list, v)) + ([RParen] + t))
         == (FunType(ParamList(list, v), ret), Some(ListParams(list)), t)
    decreases WeightL(list), 2
  {
    var tail := (if v then [Comma, Ellipsis] else []) + ([RParen] + t);
    var u := ListTokens(list) + tail;
    assert ParamTokens(ParamList(list, v)) + ([RParen] + t) == u;
    ListRead(list, v, ret, [], t);
    NotJustVoid(list, v, t);
    assert [] + ListParams(list) == ListParams(list);
  }

  lemma NotJustVoid(list: ParamSeq, v: bool, t: seq<Tok>)
    requires ValidList(list)
    ensures var u := ListTokens(list) + ((if v then [Comma, Ellipsis] else []) + ([RParen] + t));
            Head(u).Spec? && !(Head(u) == Spec(VOID) && Head(u[1..]).RParen?)
  {
    hide Meaning;
    var tail := (if v then [Comma, Ellipsis] else []) + ([RParen] + t);
    match list
    case One(b, d) =>
      assert ListTokens(list) + tail == [Spec(b)] + (Tokens(d) + tail);
      HeadOf(Spec(b), Tokens(d) + tail);
      if Tokens(d) == [] { EmptyMeans(d, Base(b)); } else { FirstToken(d); }
    case More(b, d, rest) =>
      var u := Tokens(d) + ([Comma] + (ListTokens(rest) + tail));
      assert ListTokens(list) + tail == [Spec(b)] + u;
      HeadOf(Spec(b), u);
      if Tokens(d) != [] { FirstToken(d); }
  }

  /** No declarator begins with a closing parenthesis. */
  lemma {:induction false} FirstToken(d: Decl)
    requires Tokens(d) != []
    ensures !Tokens(d)[0].RParen? && !Tokens(d)[0].Qual? && !Tokens(d)[0].Spec?
    decreases d
  {
    match d
    case Arr(e, _, _) => if Tokens(e) != [] { FirstToken(e); }
    case Fun(e, _) => if Tokens(e) != [] { FirstToken(e); }
    case _ =>
  }

  lemma EmptyMeans(d: Decl, t: Type)
    requires Tokens(d) == []
    ensures Meaning(d, t) == t
  {
    assert d.Name?;
  }

  /** A parameter list, one declaration after another. */
  lemma {:induction false} ListRead(list: ParamSeq, v: bool, ret: Type, acc: seq<Param>, t: seq<Tok>)
    requires ValidList(list)
    ensures ParseParams(ret, ListTokens(list) + ((if v then [Comma, Ellipsis] else []) + ([RParen] + t)), acc)
         == (TFunc(ret, TypesOf(acc + ListParams(list)), v, false), Some(acc + ListParams(list)), t)
    decreases WeightL(list), 1, 2
  {
    match list
    case One(b, d) => LastRead(b, d, v, ret, acc, t);
    case More(b, d, rest) =>
      var tail := (if v then [Comma, Ellipsis] else []) + ([RParen] + t);
      var u := [Comma] + (ListTokens(rest) + tail);
      hide Tokens, ListTokens, ParseInner, Meaning;
      MoreTokens(b, d, rest, tail);
      HeadOf(Spec(b), Tokens(d) + u);
      HeadOf(Comma, ListTokens(rest) + tail);
      InnerRead(d, Base(b), u);
      var acc' := acc + [ParamOf(b, d)];
      ListRead(rest, v, ret, acc', t);
      assert acc' + ListParams(rest) == acc + ListParams(list);
  }

  lemma MoreTokens(b: nat, d: Decl, rest: ParamSeq, tail: seq<Tok>)
    ensures ListTokens(More(b, d, rest)) + tail == [Spec(b)] + (Tokens(d) + ([Comma] + (ListTokens(rest) + tail)))
  {}

  lemma {:induction false} LastRead(b: nat, d: Decl, v: bool, ret: Type, acc: seq<Param>, t: seq<Tok>)
    requires Valid(d)
    ensures ParseParams(ret, ListTokens(One(b, d)) + ((if v then [Comma, Ellipsis] else []) + ([RParen] + t)), acc)
         == (TFunc(ret, TypesOf(acc + [ParamOf(b, d)]), v, false), Some(acc + [ParamOf(b, d)]), t)
    decreases Weight(d), 2
  {
    var tail := (if v then [Comma, Ellipsis] else []) + ([RParen] + t);
    assert ListTokens(One(b, d)) + tail == [Spec(b)] + (Tokens(d) + tail);
    hide Tokens, ListTokens, ParseInner, Meaning;
    HeadOf(RParen, t);
    HeadOf(Spec(b), Tokens(d) + tail);
    if v {
      assert tail == [Comma] + ([Ellipsis] + ([RParen] + t));
      HeadOf(Comma, [Ellipsis] + ([RParen] + t));
      HeadOf(Ellipsis, [RParen] + t);
    } else {
      assert tail == [RParen] + t;
    }
    InnerRead(d, Base(b), tail);
  }

  // ---- declarators ----

  /** A declarator without a pointer in front begins with a name, a parenthesis or a bracket. */
  lemma {:induction false} DirectHead(d: Decl)
    requires Valid(d) && !d.Ptr? && Tokens(d) != []
    ensures Tokens(d)[0].Ident? || Tokens(d)[0].LParen? || Tokens(d)[0].LBracket?
    decreases d
  {
    match d
    case Arr(e, q, b) => if Tokens(e) != [] { DirectHead(e); }
    case Fun(e, _) => if Tokens(e) != [] { DirectHead(e); }
    case _ =>
  }

  lemma NoPointers(d: Decl, base: Type, t: seq<Tok>)
    requires Valid(d) && !d.Ptr? && Stops(t)
    ensures ParseInner(base, Tokens(d) + t) == ParseDirect(base, Tokens(d) + t)
  {
    if Tokens(d) == [] { assert Tokens(d) + t == t; } else { DirectHead(d); }
  }

  lemma PointerStep(q: nat, e: Decl, base: Type, t: seq<Tok>)
    requires Stops(t)
    ensures ParseInner(base, Tokens(Ptr(q, e)) + t) == ParseInner(TPtr(base), Tokens(e) + t)
  {
    var u := Tokens(e) + t;
    assert Tokens(Ptr(q, e)) + t == [Star] + (Quals(q) + u);
    HeadOf(Star, Quals(q) + u);
    if Tokens(e) == [] { assert u == t; } else { FirstToken(e); }
    QualsSkipped(q, u);
  }

  lemma SuffixHead(s: seq<Suffix>, t: seq<Tok>)
    requires Stops(t)
    ensures var u := SuffixTokens(s) + t; !Head(u).Ident? && !(Head(u).LParen? && Opens(Head(u[1..])))
  {
    var u := SuffixTokens(s) + t;
    if s == [] {
      assert u == t;
    } else if s[0].Index? {
      assert u[0] == Brackets(s[0].quals, s[0].bound)[0];
    } else {
      var v := ParamTokens(s[0].ps) + ([RParen] + (SuffixTokens(s[1..]) + t));
      assert u == [LParen] + v;
      HeadOf(LParen, v);
      ParamHead(s[0].ps, [RParen] + (SuffixTokens(s[1..]) + t));
    }
  }

  lemma ParamHead(ps: Params, t: seq<Tok>)
    requires Head(t).RParen?
    ensures !Opens(Head(ParamTokens(ps) + t))
  {
    match ps
    case NoParams =>
    case Unspecified => assert ParamTokens(ps) + t == t;
    case ParamList(list, v) => assert Head(ListTokens(list)).Spec?;
  }

  /** A direct declarator and the suffixes after it. */
  lemma {:induction false} DirectRead(d: Decl, s: seq<Suffix>, base: Type, t: seq<Tok>)
    requires Valid(d) && !d.Ptr? && ValidSuffixes(s) && (d.Fun? ==> s == []) && Stops(t)
    ensures ParseDirect(base, Tokens(d) + (SuffixTokens(s) + t))
         == (Meaning(d, Wrapped(s, base)), DeclName(d), OrElse(OwnParams(d), CallParams(s)), t)
    decreases Weight(d) + WeightS(s), 0
  {
    hide Tokens, SuffixTokens, ParseDirect, ParsePostfix, Stops, ValidParams;
    match d
    case Name(x) => NameRead(x, s, base, t);
    case Paren(e) => ParenRead(e, s, base, t);
    case Arr(e, q, b) =>
      ArrTokens(e, q, b, s, t);
      DirectRead(e, [Index(q, b)] + s, base, t);
    case Fun(e, ps) =>
      FunTokens(e, ps, t);
      DirectRead(e, [Call(ps)], base, t);
  }

  lemma {:induction false} NameRead(x: Option<string>, s: seq<Suffix>, base: Type, t: seq<Tok>)
    requires ValidSuffixes(s) && Stops(t)
    ensures ParseDirect(base, Tokens(Name(x)) + (SuffixTokens(s) + t)) == (Wrapped(s, base), x, CallParams(s), t)
    decreases WeightS(s), 5
  {
    var u := SuffixTokens(s) + t;
    SuffixesRead(s, base, t);
    SuffixHead(s, t);
    hide SuffixTokens, ParsePostfix, Wrapped;
    if x.Some? { HeadOf(Ident(x.value), u); } else { assert Tokens(Name(x)) + u == u; }
  }

  lemma ArrTokens(e: Decl, q: nat, b: Bound, s: seq<Suffix>, t: seq<Tok>)
    ensures Tokens(Arr(e, q, b)) + (SuffixTokens(s) + t) == Tokens(e) + (SuffixTokens([Index(q, b)] + s) + t)
    ensures ([Index(q, b)] + s)[1..] == s && WeightS([Index(q, b)] + s) == WeightS(s)
    ensures ValidSuffixes(s) ==> ValidSuffixes([Index(q, b)] + s)
    ensures CallParams([Index(q, b)] + s) == CallParams(s)
  {
    var s' := [Index(q, b)] + s;
    assert s'[1..] == s;
    assert SuffixTokens(s') == Brackets(q, b) + SuffixTokens(s);
  }

  lemma FunTokens(e: Decl, ps: Params, t: seq<Tok>)
    ensures Tokens(Fun(e, ps)) + (SuffixTokens([]) + t) == Tokens(e) + (SuffixTokens([Call(ps)]) + t)
    ensures WeightS([Call(ps)]) == WeightP(ps)
    ensures ValidParams(ps) ==> ValidSuffixes([Call(ps)])
  {
    assert [Call(ps)][1..] == [] && SuffixTokens([]) + t == t;
    assert SuffixTokens([Call(ps)]) == [LParen] + ParamTokens(ps) + [RParen] + [];
  }

  /** Parentheses: the suffixes after them apply first, and the cursor ends up after those. */
  lemma {:induction false} ParenRead(e: Decl, s: seq<Suffix>, base: Type, t: seq<Tok>)
    requires Valid(Paren(e)) && ValidSuffixes(s) && Stops(t)
    ensures ParseDirect(base, Tokens(Paren(e)) + (SuffixTokens(s) + t))
         == (Meaning(e, Wrapped(s, base)), DeclName(e), OrElse(OwnParams(e), CallParams(s)), t)
    decreases Weight(e) + WeightS(s), 5
  {
    var u := SuffixTokens(s) + t;
    var v := Tokens(e) + ([RParen] + u);
    assert Tokens(Paren(e)) + u == [LParen] + v;
    HeadOf(LParen, v);
    HeadOf(RParen, u);
    assert Head(v) == Head(Tokens(e));
    ParenSkipped(e, u);
    SuffixesRead(s, base, t);
    InnerRead(e, Wrapped(s, base), [RParen] + u);
  }

  /** Reading a declarator gives the type it means, its name and its parameters, and leaves the cursor right after
      it. */
  lemma {:induction false} InnerRead(d: Decl, base: Type, t: seq<Tok>)
    requires Valid(d) && Stops(t)
    ensures ParseInner(base, Tokens(d) + t) == (Meaning(d, base), DeclName(d), OwnParams(d), t)
    decreases Weight(d), 1, 0
  {
    if d.Ptr? {
      PointerStep(d.quals, d.d, base, t);
      InnerRead(d.d, TPtr(base), t);
    } else {
      NoPointers(d, base, t);
      assert SuffixTokens([]) + t == t;
      DirectRead(d, [], base, t);
    }
  }

  // ---- every type has a spelling ----

  /** A type C allows: no function returns a function or an array, parameters are as they decay and not void. */
  predicate ValidType(t: Type)
    decreases t
  {
    match t
    case Base(_) => true
    case TPtr(u) => ValidType(u)
    case TArray(e, _, star) => ValidType(e) && !e.TFunc? && (star ==> t.len == 0)
    case TFunc(r, ps, v, unspec) =>
      && ValidType(r) && !r.TFunc? && !r.TArray?
      && (unspec ==> ps == [] && !v) && (v ==> ps != [])
      && forall p :: p in ps ==> ValidType(p) && !p.TArray? && !p.TFunc? && p != Base(VOID)
  }

  // ---- what C forbids ----

  /** The type any run of suffixes is read as. */
  function ReadAs(s: seq<Suffix>, base: Type): Type
    decreases |s|
  {
    if s == [] then base
    else match s[0]
      case Index(_, b) => TArray(ReadAs(s[1..], base), BoundLen(b), b.BStar?)
      case Call(ps) => ReadAs(s[1..], FunType(ps, base))
  }

  /** Parameter lists that can be read and declare parameters C allows. */
  predicate GoodCalls(s: seq<Suffix>) {
    forall i :: 0 <= i < |s| && s[i].Call? ==> ValidParams(s[i].ps) && ValidType(FunType(s[i].ps, Base(INT)))
  }

  lemma {:induction false} AnySuffixesRead(s: seq<Suffix>, base: Type, t: seq<Tok>)
    requires GoodCalls(s) && Stops(t)
    ensures var r := ParsePostfix(base, SuffixTokens(s) + t); r.0 == ReadAs(s, base) && r.2 == t
    decreases |s|
  {
    if s == [] {
      assert SuffixTokens(s) + t == t;
      StopsPostfix(base, t);
    } else {
      var rest := SuffixTokens(s[1..]) + t;
      match s[0]
      case Index(q, b) =>
        Assoc(Brackets(q, b), SuffixTokens(s[1..]), t);
        BracketsRead(q, b, rest);
        AnySuffixesRead(s[1..], base, t);
      case Call(ps) =>
        CallTokens(s, ps, t);
        HeadOf(LParen, ParamTokens(ps) + ([RParen] + rest));
        ParamsRead(ps, base, rest);
        AnySuffixesRead(s[1..], FunType(ps, base), t);
    }
  }

  lemma CallTokens(s: seq<Suffix>, ps: Params, t: seq<Tok>)
    requires s != [] && s[0] == Call(ps)
    ensures SuffixTokens(s) + t == [LParen] + (ParamTokens(ps) + ([RParen] + (SuffixTokens(s[1..]) + t)))
  {
    hide ParamTokens;
    var p, u := ParamTokens(ps), SuffixTokens(s[1..]);
    assert SuffixTokens(s) == [LParen] + p + [RParen] + u;
    Bracketed(p, u, t);
  }

  lemma Bracketed(p: seq<Tok>, u: seq<Tok>, t: seq<Tok>)
    ensures [LParen] + p + [RParen] + u + t == [LParen] + (p + ([RParen] + (u + t)))
  {}

  lemma {:induction false} OverFunction(s: seq<Suffix>, f: Type)
    requires s != [] && f.TFunc?
    ensures !ValidType(ReadAs(s, f))
    decreases |s|
  {
    if s[0].Call? {
      var g := FunType(s[0].ps, f);
      if |s| > 1 { OverFunction(s[1..], g); }
    } else if |s| > 1 {
      OverFunction(s[1..], f);
    }
  }

  lemma {:induction false} OnlyBrackets(s: seq<Suffix>, base: Type)
    requires ValidType(base) && !base.TFunc? && forall i :: 0 <= i < |s| ==> s[i].Index?
    ensures ValidType(ReadAs(s, base)) && !ReadAs(s, base).TFunc?
    decreases |s|
  {
    if s != [] { OnlyBrackets(s[1..], base); }
  }

  /**
   * The reader takes any run of suffixes. Over a base that is neither a function nor an array what comes out is a type
   * C allows exactly when they are all brackets, or one parameter list alone.
   */
  lemma {:induction false} SuffixesAllowedIff(s: seq<Suffix>, base: Type)
    requires GoodCalls(s) && ValidType(base) && !base.TFunc? && !base.TArray?
    ensures ValidType(ReadAs(s, base)) <==>
      (forall i :: 0 <= i < |s| ==> s[i].Index?) || (|s| == 1 && s[0].Call?)
    decreases |s|
  {
    if forall i :: 0 <= i < |s| ==> s[i].Index? {
      OnlyBrackets(s, base);
    } else if s[0].Call? {
      var f := FunType(s[0].ps, base);
      if |s| > 1 { OverFunction(s[1..], f); } else { Returns(s[0].ps, base); }
    } else {
      SuffixesAllowedIff(s[1..], base);
      assert exists i :: 0 <= i < |s| && !s[i].Index?;
      var i :| 0 <= i < |s| && !s[i].Index?;
      assert s[1..][i - 1] == s[i];
    }
  }

  lemma Returns(ps: Params, base: Type)
    requires ValidType(FunType(ps, Base(INT))) && ValidType(base) && !base.TFunc? && !base.TArray?
    ensures ValidType(FunType(ps, base))
  {}

  /** int f(void)[3] is read as an array of functions. */
  lemma CallThenIndex()
    ensures
      var r := ParseDirect(Base(INT), [Ident("f"), LParen, Spec(VOID), RParen, LBracket, Num(3), RBracket]);
      && r.0 == TArray(TFunc(Base(INT), [], false, false), 3, false) && !ValidType(r.0)
      && r.1 == Some("f") && r.3 == []
  {
    hide ParsePostfix;
    var s := [Call(NoParams), Index(0, BNum(3))];
    var suffixes := [LParen, Spec(VOID), RParen, LBracket, Num(3), RBracket];
    assert [Ident("f")] + suffixes == [Ident("f"), LParen, Spec(VOID), RParen, LBracket, Num(3), RBracket];
    assert ([Ident("f")] + suffixes)[1..] == suffixes;
    assert s[1..] == [Index(0, BNum(3))] && s[1..][1..] == [];
    assert SuffixTokens(s[1..]) == [LBracket, Num(3), RBracket];
    assert SuffixTokens(s) + [] == suffixes;
    AnySuffixesRead(s, Base(INT), []);
    assert ReadAs(s[1..][1..], FunType(NoParams, Base(INT))) == FunType(NoParams, Base(INT));
    assert ReadAs(s[1..], FunType(NoParams, Base(INT))) == TArray(FunType(NoParams, Base(INT)), 3, false);
  }

  /** What stands in front of the declarator. */
  function BaseOf(t: Type): nat
    decreases t
  {
    match t
    case Base(b) => b
    case TPtr(u) => BaseOf(u)
    case TArray(e, _, _) => BaseOf(e)
    case TFunc(r, _, _, _) => BaseOf(r)
  }

  /** The C spelling: the declarator of t around d. */
  function Spell(t: Type, d: Decl): Decl
    decreases t
  {
    match t
    case Base(_) => d
    case TPtr(u) => Spell(u, Ptr(0, d))
    case TArray(e, n, star) => Spell(e, Arr(Guarded(d), 0, if star then BStar else if n == 0 then BNone else BNum(n)))
    case TFunc(r, ps, v, unspec) =>
      Spell(r, Fun(Guarded(d), if unspec then Unspecified else if ps == [] then NoParams else ParamList(SpellList(ps), v)))
  }

  /** A pointer in front of a suffix goes in parentheses. */
  function Guarded(d: Decl): Decl { if d.Ptr? then Paren(d) else d }

  function SpellList(ps: seq<Type>): ParamSeq
    requires ps != []
    decreases ps
  {
    var d := Spell(ps[0], Name(None));
    if |ps| == 1 then One(BaseOf(ps[0]), d) else More(BaseOf(ps[0]), d, SpellList(ps[1..]))
  }

  lemma {:induction false} SpellMeans(t: Type, d: Decl)
    requires ValidType(t)
    ensures Meaning(Spell(t, d), Base(BaseOf(t))) == Meaning(d, t)
    decreases t, 1
  {
    match t
    case Base(_) =>
    case TPtr(u) => SpellMeans(u, Ptr(0, d));
    case TArray(e, n, star) =>
      SpellMeans(e, Arr(Guarded(d), 0, if star then BStar else if n == 0 then BNone else BNum(n)));
    case TFunc(r, ps, v, unspec) =>
      SpellMeans(r, Fun(Guarded(d), if unspec then Unspecified else if ps == [] then NoParams else ParamList(SpellList(ps), v)));
      if ps != [] { ListMeans(ps); }
  }

  lemma {:induction false} ListMeans(ps: seq<Type>)
    requires ps != [] && forall p :: p in ps ==> ValidType(p) && !p.TArray? && !p.TFunc? && p != Base(VOID)
    ensures TypesOf(ListParams(SpellList(ps))) == ps
    decreases ps, 2
  {
    assert ps[0] in ps;
    SpellMeans(ps[0], Name(None));
    var list := SpellList(ps);
    if |ps| > 1 {
      ListMeans(ps[1..]);
      var rest := ListParams(SpellList(ps[1..]));
      assert ListParams(list)[1..] == rest;
      assert forall i :: 0 <= i < |rest| ==> TypesOf(ListParams(list))[i + 1] == TypesOf(rest)[i];
      assert ps == [ps[0]] + ps[1..];
    }
  }

  predicate Grows(t: Type, d: Decl) {
    && Valid(d)
    && (t.TArray? || t.TFunc? ==> !d.Fun?)
  }

  lemma {:induction false} SpellValid(t: Type, d: Decl)
    requires ValidType(t) && Grows(t, d)
    ensures Valid(Spell(t, d)) && DeclName(Spell(t, d)) == DeclName(d)
    decreases t, 1
  {
    match t
    case Base(_) =>
    case TPtr(u) => SpellValid(u, Ptr(0, d));
    case TArray(e, n, star) =>
      SpellValid(e, Arr(Guarded(d), 0, if star then BStar else if n == 0 then BNone else BNum(n)));
    case TFunc(r, ps, v, unspec) =>
      if ps != [] { ListValid(ps); }
      SpellValid(r, Fun(Guarded(d), if unspec then Unspecified else if ps == [] then NoParams else ParamList(SpellList(ps), v)));
  }

  lemma {:induction false} ListValid(ps: seq<Type>)
    requires ps != [] && forall p :: p in ps ==> ValidType(p) && !p.TArray? && !p.TFunc? && p != Base(VOID)
    ensures ValidList(SpellList(ps))
    decreases ps, 2
  {
    assert ps[0] in ps;
    SpellValid(ps[0], Name(None));
    SpellMeans(ps[0], Name(None));
    if |ps| > 1 { ListValid(ps[1..]); }
  }

  /** Every valid type, spelled as C spells it around a name, reads back as that type and name, with the cursor right
      after the declarator. */
  lemma SpellingReadsBack(t: Type, x: string, rest: seq<Tok>)
    requires ValidType(t) && Stops(rest)
    ensures var d := Spell(t, Name(Some(x)));
            var r := ParseInner(Base(BaseOf(t)), Tokens(d) + rest);
            r.0 == t && r.1 == Some(x) && r.3 == rest
  {
    var d := Name(Some(x));
    SpellValid(t, d);
    SpellMeans(t, d);
    InnerRead(Spell(t, d), Base(BaseOf(t)), rest);
  }

  /** A parameter spelled with an array type is read as a pointer to the element, one with a function type as a pointer to
      the function, and every other as it is spelled. */
  lemma ParameterAdjusted(p: Type, a: string, x: string, base: Type, rest: seq<Tok>)
    requires ValidType(p) && p != Base(VOID) && Stops(rest)
    ensures
      var list := [Spec(BaseOf(p))] + Tokens(Spell(p, Name(Some(a))));
      var adjusted := match p case TArray(e, _, _) => TPtr(e) case TFunc(_, _, _, _) => TPtr(p) case _ => p;
      var r := ParseInner(base, [Ident(x)] + ([LParen] + list + [RParen]) + rest);
      r.0 == TFunc(base, [adjusted], false, false) && r.1 == Some(x) && r.2 == Some([Param(a, adjusted)]) && r.3 == rest
  {
    hide ParseInner;
    var d := Spell(p, Name(Some(a)));
    SpellValid(p, Name(Some(a)));
    SpellMeans(p, Name(Some(a)));
    var list := ParamList(One(BaseOf(p), d), false);
    assert ListTokens(list.ps) + [] == ListTokens(list.ps);
    var f := Fun(Name(Some(x)), list);
    InnerRead(f, base, rest);
    var ps := ListParams(list.ps);
    assert ps == [ParamOf(BaseOf(p), d)] && TypesOf(ps) == [ps[0].typ];
  }
}
