/** The declarator reader of src/C99/Parser.hs as it runs: a cursor over the tokens that goes forward, and back
    once for a parenthesized declarator. */
module DeclaratorReader {
  import opened Options
  import opened Declarator
  import opened DeclaratorProof

  class Parser {
    const all: seq<Tok>
    var toks: seq<Tok>
    var pos: nat

    ghost predicate Valid()
      reads this
    {
      pos <= |all| && toks == all[pos..]
    }

    constructor (tokens: seq<Tok>)
      ensures Valid() && all == tokens && toks == tokens && pos == 0
    {
      all, toks, pos := tokens, tokens, 0;
    }

    method Advance()
      requires Valid()
      modifies this
      ensures Valid() && toks == Rest(old(toks))
    {
      if toks != [] {
        toks, pos := toks[1..], pos + 1;
      }
    }

    method Match(k: Tok) returns (hit: bool)
      requires Valid() && k != Eof
      modifies this
      ensures Valid() && hit == (Head(old(toks)) == k) && toks == if hit then Rest(old(toks)) else old(toks)
    {
      hit := Head(toks) == k;
      if hit {
        Advance();
      }
    }

    method RestoreCursor(ts: seq<Tok>, n: nat)
      requires n <= |all| && ts == all[n..]
      modifies this
      ensures Valid() && toks == ts && pos == n
    {
      toks, pos := ts, n;
    }

    method SkipQualifiers()
      requires Valid()
      modifies this
      ensures Valid() && toks == SkipQuals(old(toks))
      decreases |toks|
    {
      if Head(toks) == Qual {
        Advance();
        SkipQualifiers();
      }
    }

    method Pointers(base: Type) returns (ty: Type)
      requires Valid()
      modifies this
      ensures Valid() && (ty, toks) == ParsePointers(base, old(toks))
      decreases |toks|
    {
      var star := Match(Star);
      if !star {
        ty := base;
      } else {
        SkipQualifiers();
        ty := Pointers(TPtr(base));
      }
    }

    /** Step over a balanced ( ... ). */
    method SkipBalancedParens()
      requires Valid()
      modifies this
      ensures Valid() && toks == SkipBalanced(old(toks))
    {
      var lp := Match(LParen);
      if lp {
        ghost var was := toks;
        var d := 1;
        while d > 0 && Head(toks) != Eof
          invariant Valid() && d >= 0 && SkipTo(toks, d) == SkipTo(was, 1)
          decreases |toks|
        {
          ghost var before := toks;
          if Head(toks) == LParen {
            d := d + 1;
          } else if Head(toks) == RParen {
            d := d - 1;
          }
          Advance();
          assert SkipTo(before, if Head(before) == LParen then d - 1 else if Head(before) == RParen then d + 1 else d)
              == SkipTo(toks, d);
        }
      }
    }

    method Inner(base: Type) returns (ty: Type, nm: Option<string>, ps: Option<seq<Param>>)
      requires Valid()
      modifies this
      ensures Valid() && (ty, nm, ps, toks) == ParseInner(base, old(toks))
      decreases |toks|, 3
    {
      hide ParseDirect;
      var p := Pointers(base);
      ty, nm, ps := Direct(p);
    }

    method Direct(base: Type) returns (ty: Type, nm: Option<string>, ps: Option<seq<Param>>)
      requires Valid()
      modifies this
      ensures Valid() && (ty, nm, ps, toks) == ParseDirect(base, old(toks))
      decreases |toks|, 2
    {
      hide ParseInner, ParsePostfix;
      var openToks, openPos := toks, pos;
      var lp := Match(LParen);
      if lp && (Head(toks).Star? || Head(toks).Ident? || Head(toks).LParen?) {
        RestoreCursor(openToks, openPos);
        ty, nm, ps := Parenthesized(base);
      } else {
        RestoreCursor(openToks, openPos);
        if Head(toks).Ident? {
          nm := Some(toks[0].x);
          Advance();
        } else {
          nm := None;
        }
        ty, ps := Postfix(base);
      }
    }

    /** The suffixes after the parentheses first, then back for the declarator inside, then on to the end. */
    method Parenthesized(base: Type) returns (ty: Type, nm: Option<string>, ps: Option<seq<Param>>)
      requires Valid() && Head(toks).LParen? && Opens(Head(toks[1..]))
      modifies this
      ensures Valid() && (ty, nm, ps, toks) == ParseDirect(base, old(toks))
      decreases |toks|, 1
    {
      hide ParseInner, ParsePostfix;
      var openToks, openPos := toks, pos;
      SkipBalancedParens();
      var post, ps2 := Postfix(base);
      var endToks, endPos := toks, pos;
      RestoreCursor(openToks, openPos);
      var _ := Match(LParen);
      var ps1;
      ty, nm, ps1 := Inner(post);
      var _ := Match(RParen);
      RestoreCursor(endToks, endPos);
      ps := OrElse(ps1, ps2);
    }

    method ArrayBound() returns (len: nat, star: bool)
      requires Valid()
      modifies this
      ensures Valid() && (len, star, toks) == ParseBound(old(toks))
    {
      len, star := 0, false;
      if Head(toks).Star? && Head(toks[1..]).RBracket? {
        star := true;
        Advance();
      } else if !Head(toks).RBracket? && Head(toks).Num? {
        len := toks[0].n;
        Advance();
      }
    }

    method Postfix(base: Type) returns (ty: Type, ps: Option<seq<Param>>)
      requires Valid()
      modifies this
      ensures Valid() && (ty, ps, toks) == ParsePostfix(base, old(toks))
      decreases |toks|, 1
    {
      hide ParseParamList, ParseBound, SkipQuals;
      match Head(toks)
      case LParen =>
        Advance();
        var ft, ps1 := ParameterList(base);
        var ps2;
        ty, ps2 := Postfix(ft);
        ps := OrElse(ps2, ps1);
      case LBracket =>
        Advance();
        SkipQualifiers();
        var len, star := ArrayBound();
        var _ := Match(RBracket);
        var elem;
        elem, ps := Postfix(base);
        ty := TArray(elem, len, star);
      case _ =>
        ty, ps := base, None;
    }

    method ParameterList(ret: Type) returns (ty: Type, ps: Option<seq<Param>>)
      requires Valid()
      modifies this
      ensures Valid() && (ty, ps, toks) == ParseParamList(ret, old(toks))
      decreases |toks|, 5
    {
      hide ParseParams;
      if Head(toks) == Spec(VOID) && Head(toks[1..]).RParen? {
        Advance();
        Advance();
        ty, ps := TFunc(ret, [], false, false), Some([]);
      } else {
        var rp := Match(RParen);
        if rp {
          ty, ps := TFunc(ret, [], false, true), Some([]);
        } else {
          ty, ps := Parameters(ret, []);
        }
      }
    }

    method Parameters(ret: Type, acc: seq<Param>) returns (ty: Type, ps: Option<seq<Param>>)
      requires Valid()
      modifies this
      ensures Valid() && (ty, ps, toks) == ParseParams(ret, old(toks), acc)
      decreases |toks|, 4
    {
      hide ParseInner;
      var ell := Match(Ellipsis);
      if ell {
        ty, ps := Close(ret, acc, true);
        return;
      }
      var base := Base(INT);
      if Head(toks).Spec? {
        base := Base(toks[0].b);
        Advance();
      }
      var pt, nm, _ := Inner(base);
      var acc' := acc + [Param(if nm.Some? then nm.value else "", Decay(pt))];
      var more := Match(Comma);
      if more {
        ty, ps := Parameters(ret, acc');
      } else {
        ty, ps := Close(ret, acc', false);
      }
    }

    method Close(ret: Type, acc: seq<Param>, variadic: bool) returns (ty: Type, ps: Option<seq<Param>>)
      requires Valid()
      modifies this
      ensures Valid() && (ty, ps, toks) == Finish(ret, old(toks), acc, variadic)
    {
      var _ := Match(RParen);
      ty, ps := TFunc(ret, TypesOf(acc), variadic, false), Some(acc);
    }

    /** A valid declarator of the grammar that stands at the cursor: its meaning, its name, its own parameters, and the
        cursor right after its last token. */
    method ReadDeclarator(base: Type, ghost d: Decl, ghost rest: seq<Tok>)
      returns (ty: Type, nm: Option<string>, ps: Option<seq<Param>>)
      requires Valid() && Declarator.Valid(d) && Stops(rest) && toks == Tokens(d) + rest
      modifies this
      ensures Valid() && ty == Meaning(d, base) && nm == DeclName(d) && ps == OwnParams(d)
      ensures toks == rest && pos == old(pos) + |Tokens(d)|
    {
      hide ParseInner;
      InnerRead(d, base, rest);
      ty, nm, ps := Inner(base);
      assert |all| - pos == |rest|;
    }
  }
}
