/** Which physical lines src/C99/Preprocess.hs takes for one logical line. */
module Merging {
  import opened Options
  import opened MacroText
  import opened ExpandProof
  import opened IfStack
  import opened Lines
  import opened Calls

  // ---- a line written out ----

  /** A parenthesis, a closed literal, or any other character. */
  datatype Bit = Open | Close | Quoted(q: char, body: string) | Mark(c: char)

  function BitText(b: Bit): string {
    match b
    case Open => "("
    case Close => ")"
    case Quoted(q, body) => [q] + body + [q]
    case Mark(c) => [c]
  }

  function Code(bits: seq<Bit>): string { if bits == [] then "" else BitText(bits[0]) + Code(bits[1..]) }

  /** A line without block comments: its code, and a line comment perhaps. */
  datatype Line = Line(bits: seq<Bit>, comment: Option<string>)

  function Remark(l: Line): string { if l.comment.Some? then "//" + l.comment.value else "" }

  function Written(l: Line): string { Code(l.bits) + Remark(l) }

  /** No slash of the code begins a comment. */
  predicate Clean(bits: seq<Bit>, tail: string) {
    bits == [] || (Plain(bits[0], Code(bits[1..]) + tail) && Clean(bits[1..], tail))
  }

  predicate Plain(b: Bit, next: string) {
    match b
    case Quoted(q, body) => IsQuote(q) && Shut(q, body)
    case Mark(c) =>
      !IsQuote(c) && c != '(' && c != ')' && (c == '/' ==> next == "" || (next[0] != '/' && next[0] != '*'))
    case _ => true
  }

  function Deeper(b: Bit): int { if b.Open? then 1 else if b.Close? then -1 else 0 }

  predicate Proper(l: Line) { Clean(l.bits, Remark(l)) }

  /** How many more parentheses are opened than closed. */
  function Depth(bits: seq<Bit>): int {
    if bits == [] then 0 else Deeper(bits[0]) + Depth(bits[1..])
  }

  lemma {:induction false} LiteralEnds(s: string, k: nat, q: char, body: string, r: string)
    requires IsQuote(q) && Shut(q, body) && k <= |s| && s[k..] == body + [q] + r
    ensures LitEnd(s, k, q) == k + |body| + 1
    decreases |body|
  {
    assert s[k] == (body + [q] + r)[0];
    if body != "" {
      var n := if body[0] == '\\' then 2 else 1;
      LiteralParts(q, body, r, n);
      assert s[k + n..] == s[k..][n..];
      LiteralEnds(s, k + n, q, body[n..], r);
    }
  }

  lemma BitPassed(s: string, k: nat, b: Bit, next: string, d: int)
    requires k <= |s| && s[k..] == BitText(b) + next && Plain(b, next)
    ensures k + |BitText(b)| <= |s| && s[k + |BitText(b)|..] == next
    ensures ParenDepth(s, k, d, false) == ParenDepth(s, k + |BitText(b)|, d + Deeper(b), false)
  {
    hide ParenDepth, Shut;
    var n := |BitText(b)|;
    assert s[k + n..] == s[k..][n..] == next;
    if b.Quoted? {
      QuotePassed(s, k, b.q, b.body, next, d);
    } else {
      assert s[k..][0] == s[k];
      CharPassed(s, k, b, next, d);
    }
  }

  lemma QuotePassed(s: string, k: nat, q: char, body: string, next: string, d: int)
    requires IsQuote(q) && Shut(q, body) && k <= |s| && s[k..] == [q] + body + [q] + next
    ensures ParenDepth(s, k, d, false) == ParenDepth(s, k + |body| + 2, d, false)
  {
    hide Shut;
    assert s[k] == s[k..][0] == q;
    assert s[k + 1..] == s[k..][1..] == body + [q] + next;
    LiteralEnds(s, k + 1, q, body, next);
    QuoteStep(s, k, d);
  }

  lemma QuoteStep(s: string, k: nat, d: int)
    requires k < |s| && IsQuote(s[k])
    ensures ParenDepth(s, k, d, false) == ParenDepth(s, LitEnd(s, k + 1, s[k]), d, false)
  {
    hide LitEnd;
  }

  lemma CharPassed(s: string, k: nat, b: Bit, next: string, d: int)
    requires !b.Quoted? && Plain(b, next) && k < |s| && [s[k]] == BitText(b) && s[k + 1..] == next
    ensures ParenDepth(s, k, d, false) == ParenDepth(s, k + 1, d + Deeper(b), false)
  {
    hide LitEnd;
    if k + 1 < |s| { assert s[k + 1] == s[k + 1..][0]; }
  }

  lemma CommentFound(s: string, k: nat, l: Line, d: int)
    requires k <= |s| && s[k..] == Remark(l)
    ensures ParenDepth(s, k, d, false) == (d, false, if l.comment.Some? then Some(k) else None)
  {
    if l.comment.Some? { assert s[k] == s[k..][0] == '/' && s[k + 1] == s[k..][1] == '/'; }
  }

  /** The walk over a line counts its parentheses and finds its comment. */
  lemma {:induction false} DepthIs(s: string, k: nat, bits: seq<Bit>, l: Line, d: int)
    requires k <= |s| && s[k..] == Code(bits) + Remark(l) && Clean(bits, Remark(l))
    ensures ParenDepth(s, k, d, false) ==
      (d + Depth(bits), false, if l.comment.Some? then Some(k + |Code(bits)|) else None)
    decreases |bits|
  {
    hide ParenDepth, BitText, Plain, Deeper;
    if bits == [] {
      assert "" + Remark(l) == Remark(l);
      CommentFound(s, k, l, d);
    } else {
      var b, next := bits[0], Code(bits[1..]) + Remark(l);
      assert s[k..] == BitText(b) + next;
      BitPassed(s, k, b, next, d);
      DepthIs(s, k + |BitText(b)|, bits[1..], l, d + Deeper(b));
    }
  }

  lemma LineDepth(l: Line, d: int)
    requires Proper(l)
    ensures ParenDepth(Written(l), 0, d, false) ==
      (d + Depth(l.bits), false, if l.comment.Some? then Some(|Code(l.bits)|) else None)
  {
    hide ParenDepth, Clean;
    assert Written(l)[0..] == Written(l);
    DepthIs(Written(l), 0, l.bits, l, d);
  }

  // ---- a call over several lines ----

  /** How deep the lines leave us. */
  function Total(ls: seq<Line>): int { if ls == [] then 0 else Depth(ls[0].bits) + Total(ls[1..]) }

  function Texts(ls: seq<Line>): seq<string> { seq(|ls|, i requires 0 <= i < |ls| => Written(ls[i])) }

  /** The code of the lines, a space before each. */
  function Appended(ls: seq<Line>): string { if ls == [] then "" else " " + Code(ls[0].bits) + Appended(ls[1..]) }

  predicate Mergeable(ls: seq<Line>) {
    forall i :: 0 <= i < |ls| ==> Proper(ls[i]) && !StartsHash(Written(ls[i]))
  }

  /** Open before each of the lines. */
  predicate OpenBefore(depth: int, ls: seq<Line>) { forall i :: 0 <= i < |ls| ==> depth + Total(ls[..i]) > 0 }

  lemma OpenTail(depth: int, ls: seq<Line>)
    requires ls != [] && OpenBefore(depth, ls)
    ensures depth > 0 && OpenBefore(depth + Depth(ls[0].bits), ls[1..])
  {
    assert Total(ls[..0]) == 0;
    forall i | 0 <= i < |ls[1..]|
      ensures depth + Depth(ls[0].bits) + Total(ls[1..][..i]) > 0
    {
      assert ls[..i + 1][1..] == ls[1..][..i];
    }
  }

  /** Where merging stops: the parentheses are closed, 512 lines are taken, none is left, or a directive follows. */
  predicate Over(depth: int, taken: nat, rest: seq<string>) {
    depth <= 0 || taken >= 512 || rest == [] || StartsHash(rest[0])
  }

  lemma {:induction false} LinesMerge(depth: int, logical: string, ls: seq<Line>, rest: seq<string>, merged: nat)
    requires Mergeable(ls) && OpenBefore(depth, ls) && merged + |ls| <= 512
    requires Over(depth + Total(ls), merged + |ls|, rest)
    ensures MergeLines(depth, false, logical, Texts(ls) + rest, merged) ==
      (logical + Appended(ls), merged + |ls|, false, rest)
    decreases |ls|
  {
    hide ParenDepth, Written, Code, Depth, StartsHash, Proper, OpenBefore, MergeLines, Over;
    if ls == [] {
      assert Texts(ls) + rest == rest && logical + "" == logical;
      MergeEnds(depth, logical, rest, merged);
    } else {
      var l, more := ls[0], Texts(ls[1..]) + rest;
      OpenTail(depth, ls);
      assert Texts(ls) + rest == [Written(l)] + more;
      LineMerges(depth, logical, l, more, merged);
      LinesMerge(depth + Depth(l.bits), logical + " " + Code(l.bits), ls[1..], rest, merged + 1);
      Appends(logical, Code(l.bits), Appended(ls[1..]));
    }
  }

  lemma MergeEnds(depth: int, logical: string, rest: seq<string>, merged: nat)
    requires Over(depth, merged, rest)
    ensures MergeLines(depth, false, logical, rest, merged) == (logical, merged, false, rest)
  {}

  lemma LineMerges(depth: int, logical: string, l: Line, more: seq<string>, merged: nat)
    requires Proper(l) && !StartsHash(Written(l)) && depth > 0 && merged < 512
    ensures MergeLines(depth, false, logical, [Written(l)] + more, merged) ==
      MergeLines(depth + Depth(l.bits), false, logical + " " + Code(l.bits), more, merged + 1)
  {
    hide ParenDepth, Written, Code, Depth, StartsHash, Proper;
    LineDepth(l, depth);
    CutIs(l);
    assert ([Written(l)] + more)[1..] == more;
  }

  lemma FirstLine(first: Line, more: seq<string>, line: nat)
    requires Proper(first)
    ensures
      var d := Depth(first.bits);
      var (logical, merged, c, rest) := MergeLines(d, false, if d > 0 then Code(first.bits) else Written(first), more, 0);
      NextText([Written(first)] + more, line, false) == (Act(Text(line, logical, false)), merged, c, rest)
  {
    hide ParenDepth, Written, Code, Depth, MergeLines, Proper;
    LineDepth(first, 0);
    CutIs(first);
    assert ([Written(first)] + more)[1..] == more;
  }

  lemma Appends(a: string, b: string, c: string)
    ensures a + " " + b + c == a + (" " + b + c)
  {}

  lemma CutIs(l: Line)
    ensures |Code(l.bits)| <= |Written(l)| && Written(l)[..|Code(l.bits)|] == Code(l.bits)
    ensures l.comment.None? ==> Written(l) == Code(l.bits)
  {}

  /** A line that leaves a call open and the lines after it, up to the one that closes it: one logical line, their code
      with single spaces between, without their comments. */
  lemma CallOverLines(first: Line, ls: seq<Line>, rest: seq<string>, line: nat)
    requires Proper(first) && Mergeable(ls) && |ls| <= 512 && OpenBefore(Depth(first.bits), ls)
    requires Over(Depth(first.bits) + Total(ls), |ls|, rest)
    ensures
      var logical := if Depth(first.bits) > 0 then Code(first.bits) + Appended(ls) else Written(first);
      NextText([Written(first)] + (Texts(ls) + rest), line, false) == (Act(Text(line, logical, false)), |ls|, false, rest)
  {
    hide *;
    var d := Depth(first.bits);
    FirstLine(first, Texts(ls) + rest, line);
    if d > 0 {
      LinesMerge(d, Code(first.bits), ls, rest, 0);
    } else {
      if ls != [] { OpenTail(d, ls); }
      LinesMerge(d, Written(first), ls, rest, 0);
      NoneAppended(Written(first));
    }
  }

  lemma NoneAppended(s: string)
    ensures s + Appended([]) == s
  {}

  // ---- a directive over several lines ----

  function Stacked(text: string, ls: seq<string>): string
    decreases |ls|
  {
    if ls == [] then text else Stacked(text + "\n" + ls[0], ls[1..])
  }

  /** A directive takes in lines while a comment is open at its end. */
  lemma {:induction false} DirectiveOverLines(text: string, ls: seq<string>, rest: seq<string>, merged: nat)
    requires merged + |ls| <= 4096 && forall i :: 0 <= i < |ls| ==> EndsInComment(Stacked(text, ls[..i]))
    requires !EndsInComment(Stacked(text, ls)) || merged + |ls| == 4096 || rest == []
    ensures MergeDirective(text, ls + rest, merged) == (Stacked(text, ls), merged + |ls|, rest)
    decreases |ls|
  {
    hide EndsInComment, MergeDirective, Stacked;
    if ls == [] {
      assert ls + rest == rest;
      DirectiveEnds(text, rest, merged);
    } else {
      var more := text + "\n" + ls[0];
      assert ls[..0] == [] && ls + rest == [ls[0]] + (ls[1..] + rest);
      forall i | 0 <= i < |ls[1..]|
        ensures EndsInComment(Stacked(more, ls[1..][..i]))
      {
        assert ls[..i + 1] == [ls[0]] + ls[1..][..i];
        StackedMore(text, ls[0], ls[1..][..i]);
      }
      assert ls == [ls[0]] + ls[1..];
      StackedMore(text, ls[0], ls[1..]);
      assert Stacked(text, []) == text by { DirectiveEnds(text, [], merged); }
      DirectiveTakes(text, ls[0], ls[1..] + rest, merged);
      DirectiveOverLines(more, ls[1..], rest, merged + 1);
    }
  }

  lemma DirectiveEnds(text: string, rest: seq<string>, merged: nat)
    ensures Stacked(text, []) == text
    ensures !EndsInComment(text) || merged >= 4096 || rest == [] ==> MergeDirective(text, rest, merged) == (text, merged, rest)
  {
    hide EndsInComment;
  }

  lemma DirectiveTakes(text: string, l: string, rest: seq<string>, merged: nat)
    requires EndsInComment(text) && merged < 4096
    ensures MergeDirective(text, [l] + rest, merged) == MergeDirective(text + "\n" + l, rest, merged + 1)
  {
    hide EndsInComment;
    assert ([l] + rest)[1..] == rest;
  }

  lemma StackedMore(text: string, l: string, ls: seq<string>)
    ensures Stacked(text, [l] + ls) == Stacked(text + "\n" + l, ls)
  {
    assert ([l] + ls)[1..] == ls;
  }
}
