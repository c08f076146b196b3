/** Declarators: the grammar and meaning of section 6.7.5 of ISO/IEC 9899:1999, and the reader of
    src/C99/Parser.hs as functions of the tokens left. */
module Declarator {
  import opened Options

  function OrElse<T>(a: Option<T>, b: Option<T>): Option<T> { if a.Some? then a else b }

  // ---- types and tokens ----

  datatype Type =
    | Base(b: nat)                     // 0 is void
    | TPtr(to: Type)
    | TArray(elem: Type, len: nat, star: bool)
    | TFunc(ret: Type, params: seq<Type>, variadic: bool, unspecified: bool)

  datatype Param = Param(name: string, typ: Type)

  /** Spec stands for the declaration specifiers of one parameter, already read as a type. */
  datatype Tok =
    | Star | LParen | RParen | LBracket | RBracket | Comma | Ellipsis
    | Spec(b: nat) | Ident(x: string) | Num(n: nat) | Qual | Other | Eof

  const VOID := 0
  const INT := 1

  function Head(t: seq<Tok>): Tok { if t == [] then Eof else t[0] }

  function Rest(t: seq<Tok>): seq<Tok> { if t == [] then [] else t[1..] }

  /** An array parameter is a pointer to its element, a function parameter a pointer to it. */
  function Decay(t: Type): Type { if t.TArray? then TPtr(t.elem) else if t.TFunc? then TPtr(t) else t }

  // ---- the grammar ----

  datatype Bound = BNone | BStar | BNum(n: nat)

  datatype Decl =
    | Name(x: Option<string>)
    | Ptr(quals: nat, d: Decl)
    | Paren(d: Decl)
    | Arr(d: Decl, quals: nat, bound: Bound)
    | Fun(d: Decl, ps: Params)

  datatype Params = NoParams | Unspecified | ParamList(ps: ParamSeq, variadic: bool)

  datatype ParamSeq = One(b: nat, d: Decl) | More(b: nat, d: Decl, rest: ParamSeq)

  function Quals(n: nat): seq<Tok> { if n == 0 then [] else [Qual] + Quals(n - 1) }

  function BoundTokens(b: Bound): seq<Tok> {
    match b
    case BNone => []
    case BStar => [Star]
    case BNum(n) => [Num(n)]
  }

  function Tokens(d: Decl): seq<Tok>
    decreases d
  {
    match d
    case Name(x) => if x.Some? then [Ident(x.value)] else []
    case Ptr(q, e) => [Star] + Quals(q) + Tokens(e)
    case Paren(e) => [LParen] + Tokens(e) + [RParen]
    case Arr(e, q, b) => Tokens(e) + Brackets(q, b)
    case Fun(e, ps) => Tokens(e) + ([LParen] + ParamTokens(ps) + [RParen])
  }

  function Brackets(q: nat, b: Bound): seq<Tok> { [LBracket] + Quals(q) + BoundTokens(b) + [RBracket] }

  function ParamTokens(ps: Params): seq<Tok>
    decreases ps
  {
    match ps
    case NoParams => [Spec(VOID)]
    case Unspecified => []
    case ParamList(list, v) => ListTokens(list) + if v then [Comma, Ellipsis] else []
  }

  function ListTokens(ps: ParamSeq): seq<Tok>
    decreases ps
  {
    match ps
    case One(b, d) => [Spec(b)] + Tokens(d)
    case More(b, d, rest) => [Spec(b)] + Tokens(d) + [Comma] + ListTokens(rest)
  }

  // ---- the meaning ----

  function BoundLen(b: Bound): nat { if b.BNum? then b.n else 0 }

  /** The type the declarator declares, given what stands before it: inside out. */
  function Meaning(d: Decl, t: Type): Type
    decreases d, 0
  {
    match d
    case Name(_) => t
    case Ptr(_, e) => Meaning(e, TPtr(t))
    case Paren(e) => Meaning(e, t)
    case Arr(e, _, b) => Meaning(e, TArray(t, BoundLen(b), b.BStar?))
    case Fun(e, ps) => Meaning(e, FunType(ps, t))
  }

  function FunType(ps: Params, ret: Type): Type
    decreases ps, 0
  {
    match ps
    case NoParams => TFunc(ret, [], false, false)
    case Unspecified => TFunc(ret, [], false, true)
    case ParamList(list, v) => TFunc(ret, TypesOf(ListParams(list)), v, false)
  }

  function ListParams(ps: ParamSeq): seq<Param>
    decreases ps, 0
  {
    match ps
    case One(b, d) => [ParamOf(b, d)]
    case More(b, d, rest) => [ParamOf(b, d)] + ListParams(rest)
  }

  function ParamOf(b: nat, d: Decl): Param
    decreases d, 1
  {
    Param(if DeclName(d).Some? then DeclName(d).value else "", Decay(Meaning(d, Base(b))))
  }

  function TypesOf(ps: seq<Param>): seq<Type> { seq(|ps|, i requires 0 <= i < |ps| => ps[i].typ) }

  function DeclName(d: Decl): Option<string> {
    match d
    case Name(x) => x
    case Ptr(_, e) => DeclName(e)
    case Paren(e) => DeclName(e)
    case Arr(e, _, _) => DeclName(e)
    case Fun(e, _) => DeclName(e)
  }

  function ParamsOf(ps: Params): seq<Param> { if ps.ParamList? then ListParams(ps.ps) else [] }

  /** The parameters of the function suffix nearest the name. */
  function OwnParams(d: Decl): Option<seq<Param>> {
    match d
    case Name(_) => None
    case Ptr(_, e) => OwnParams(e)
    case Paren(e) => OwnParams(e)
    case Arr(e, _, _) => OwnParams(e)
    case Fun(e, ps) => OrElse(OwnParams(e), Some(ParamsOf(ps)))
  }

  /** Only * binds looser than a suffix, so what a suffix follows is not a pointer; parentheses hold a declarator that
      begins with *, a name or a parenthesis; a function returns neither a function nor an array; no parameter is
      void. */
  predicate Valid(d: Decl)
    decreases d
  {
    match d
    case Name(_) => true
    case Ptr(_, e) => Valid(e)
    case Paren(e) => Valid(e) && Opens(Head(Tokens(e)))
    case Arr(e, _, _) => Valid(e) && !e.Ptr? && !e.Fun?
    case Fun(e, ps) => Valid(e) && !e.Ptr? && !e.Fun? && ValidParams(ps)
  }

  predicate ValidParams(ps: Params)
    decreases ps
  {
    match ps
    case NoParams => true
    case Unspecified => true
    case ParamList(list, _) => ValidList(list)
  }

  predicate ValidList(ps: ParamSeq)
    decreases ps
  {
    match ps
    case One(b, d) => Valid(d) && Decay(Meaning(d, Base(b))) != Base(VOID)
    case More(b, d, rest) => Valid(d) && Decay(Meaning(d, Base(b))) != Base(VOID) && ValidList(rest)
  }

  predicate Opens(t: Tok) { t.Star? || t.Ident? || t.LParen? }

  // ---- the reader ----

  function SkipQuals(t: seq<Tok>): (r: seq<Tok>)
    ensures |r| <= |t|
  {
    if Head(t).Qual? then SkipQuals(t[1..]) else t
  }

  function ParsePointers(base: Type, t: seq<Tok>): (r: (Type, seq<Tok>))
    ensures |r.1| <= |t|
    decreases |t|
  {
    if Head(t).Star? then ParsePointers(TPtr(base), SkipQuals(t[1..])) else (base, t)
  }

  /** What follows the parenthesis that closes the d open ones. */
  function SkipTo(t: seq<Tok>, d: nat): (r: seq<Tok>)
    ensures |r| <= |t|
    decreases |t|
  {
    if d == 0 then t
    else match Head(t)
      case Eof => t
      case LParen => SkipTo(t[1..], d + 1)
      case RParen => SkipTo(t[1..], d - 1)
      case _ => SkipTo(t[1..], d)
  }

  function SkipBalanced(t: seq<Tok>): (r: seq<Tok>)
    ensures |r| <= |t| && (Head(t).LParen? ==> |r| < |t|)
  {
    if Head(t).LParen? then SkipTo(t[1..], 1) else t
  }

  /** Step over the token if it is there. */
  function Expect(want: Tok, t: seq<Tok>): (r: seq<Tok>)
    ensures |r| <= |t|
  {
    if Head(t) == want then Rest(t) else t
  }

  type Read = (Type, Option<string>, Option<seq<Param>>, seq<Tok>)

  function ParseInner(base: Type, t: seq<Tok>): (r: Read)
    ensures |r.3| <= |t|
    decreases |t|, 3
  {
    var (ty, u) := ParsePointers(base, t);
    ParseDirect(ty, u)
  }

  function ParseDirect(base: Type, t: seq<Tok>): (r: Read)
    ensures |r.3| <= |t|
    decreases |t|, 2
  {
    if Head(t).LParen? && Opens(Head(t[1..])) then
      var (post, ps2, end) := ParsePostfix(base, SkipBalanced(t));
      var (inner, nm, ps1, _) := ParseInner(post, t[1..]);
      (inner, nm, OrElse(ps1, ps2), end)
    else if Head(t).Ident? then
      var (ty, ps, u) := ParsePostfix(base, t[1..]);
      (ty, Some(t[0].x), ps, u)
    else
      var (ty, ps, u) := ParsePostfix(base, t);
      (ty, None, ps, u)
  }

  function ParseBound(t: seq<Tok>): (r: (nat, bool, seq<Tok>))
    ensures |r.2| <= |t|
  {
    if Head(t).Star? && Head(t[1..]).RBracket? then (0, true, t[1..])
    else if Head(t).RBracket? then (0, false, t)
    else if Head(t).Num? then (t[0].n, false, t[1..])
    else (0, false, t)
  }

  function ParsePostfix(base: Type, t: seq<Tok>): (r: (Type, Option<seq<Param>>, seq<Tok>))
    ensures |r.2| <= |t|
    decreases |t|, 1
  {
    match Head(t)
    case LParen =>
      var (ft, ps1, u) := ParseParamList(base, t[1..]);
      var (ty, ps2, v) := ParsePostfix(ft, u);
      (ty, OrElse(ps2, ps1), v)
    case LBracket =>
      var (len, star, u) := ParseBound(SkipQuals(t[1..]));
      var (elem, ps, v) := ParsePostfix(base, Expect(RBracket, u));
      (TArray(elem, len, star), ps, v)
    case _ => (base, None, t)
  }

  function ParseParamList(ret: Type, t: seq<Tok>): (r: (Type, Option<seq<Param>>, seq<Tok>))
    ensures |r.2| <= |t|
    decreases |t|, 5
  {
    if Head(t) == Spec(VOID) && Head(t[1..]).RParen? then (TFunc(ret, [], false, false), Some([]), t[2..])
    else if Head(t).RParen? then (TFunc(ret, [], false, true), Some([]), t[1..])
    else ParseParams(ret, t, [])
  }

  function ParseParams(ret: Type, t: seq<Tok>, acc: seq<Param>): (r: (Type, Option<seq<Param>>, seq<Tok>))
    ensures |r.2| <= |t|
    decreases |t|, 4
  {
    if Head(t).Ellipsis? then Finish(ret, t[1..], acc, true)
    else
      var base := if Head(t).Spec? then Base(t[0].b) else Base(INT);
      var (pt, nm, _, u) := ParseInner(base, if Head(t).Spec? then t[1..] else t);
      var acc' := acc + [Param(if nm.Some? then nm.value else "", Decay(pt))];
      if Head(u).Comma? then ParseParams(ret, u[1..], acc') else Finish(ret, u, acc', false)
  }

  function Finish(ret: Type, t: seq<Tok>, ps: seq<Param>, variadic: bool): (r: (Type, Option<seq<Param>>, seq<Tok>))
    ensures |r.2| <= |t|
  {
    (TFunc(ret, TypesOf(ps), variadic, false), Some(ps), Expect(RParen, t))
  }
}
