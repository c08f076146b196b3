/** What a layout of src/C99/CType.hs leaves no room for: every member is where the rules put it, and no further. */
module Compact {
  import opened Options
  import opened Powers
  import opened Layout

  // ---- the rules, said of the result ----

  predicate Multiple(y: nat, a: nat) { a > 0 && y % a == 0 }

  /** o is the least multiple of a from x up. */
  predicate Least(o: nat, x: nat, a: nat) { Multiple(o, a) && x <= o && forall y :: x <= y < o ==> !Multiple(y, a) }

  predicate IsField(m: Member) { m.bits.Some? && m.bits.value.1 > 0 }

  predicate ZeroWidth(m: Member) { m.bits.Some? && m.bits.value.1 == 0 }

  /** Where the furthest of these members ends. */
  function End(tc: Context, ms: seq<Member>): nat {
    if ms == [] then 0
    else
      var m := ms[|ms| - 1];
      Max(End(tc, ms[..|ms| - 1]), if Takes(tc, m) then EndOf(tc, m) else 0)
  }

  /** x is the laid out form of the member declared at p, and these were laid out before it. A bit-field shares the unit of the
      member declared just before it if and only if that is a bit-field too and both fit; a zero-width one between them is
      such a member and no such field. Everything else stands at the least multiple of its alignment after all before it. */
  predicate Placed(tc: Context, ms: seq<Member>, p: nat, before: seq<Member>, x: Member)
    requires p < |ms|
  {
    if !IsField(ms[p]) then x.bits.None? && Least(x.offset, End(tc, before), MemberAlign(tc, x))
    else
      var w := ms[p].bits.value.1;
      if p > 0 && IsField(ms[p - 1]) && Shares(before, w)
      then x.offset == before[|before| - 1].offset && x.bits == Some((Used(before), w))
      else Least(x.offset, End(tc, before), 4) && x.bits == Some((0, w))
  }

  /** The bits in use in the unit of the last member, up to its own last. */
  function Used(before: seq<Member>): nat
    requires before != [] && before[|before| - 1].bits.Some?
  {
    var (b, w) := before[|before| - 1].bits.value;
    b + w
  }

  /** There is room for w more. */
  predicate Shares(before: seq<Member>, w: nat) {
    before != [] && before[|before| - 1].bits.Some? && Used(before) + w <= 32
  }

  /** How many members declared before p are laid out. */
  function Rank(ms: seq<Member>, p: nat): nat
    requires p <= |ms|
  {
    |Named(ms[..p])|
  }

  ghost predicate AllPlaced(tc: Context, ms: seq<Member>, laid: seq<Member>) {
    && |laid| == |Named(ms)|
    && forall p :: 0 <= p < |ms| && !ZeroWidth(ms[p]) ==>
         var i := Rank(ms, p);
         i < |laid| && SameMember(ms[p], laid[i]) && Placed(tc, ms, p, laid[..i], laid[i])
  }

  /** The largest alignment of a member, 1 for none. */
  ghost predicate LargestAlign(tc: Context, laid: seq<Member>, align: nat) {
    && (forall m :: m in laid ==> MemberAlign(tc, m) <= align)
    && (align == 1 || exists m :: m in laid && MemberAlign(tc, m) == align)
  }

  /** A struct. */
  ghost predicate CompactStruct(tc: Context, ms: seq<Member>, laid: seq<Member>, size: nat, align: nat) {
    AllPlaced(tc, ms, laid) && LargestAlign(tc, laid, align) && align >= 1 && Least(size, End(tc, laid), align)
  }

  /** A union. */
  ghost predicate CompactUnion(tc: Context, ms: seq<Member>, laid: seq<Member>, size: nat, align: nat) {
    && |laid| == |Named(ms)|
    && (forall i :: 0 <= i < |laid| ==>
          && SameMember(Named(ms)[i], laid[i]) && laid[i].offset == 0
          && (laid[i].bits.Some? ==> laid[i].bits.value.0 == 0))
    && LargestAlign(tc, laid, align) && align >= 1 && Least(size, End(tc, laid), align)
  }

  // ---- least multiples ----

  lemma AlignUpLeast(x: nat, a: nat)
    requires IsAlign(a)
    ensures Least(AlignUp(x, a), x, a)
  {
    AlignUpIs(x, a);
    hide AlignUp;
    var o := AlignUp(x, a);
    forall y | x <= y < o
      ensures !Multiple(y, a)
    {
      if Multiple(y, a) { NoneBetween(o / a, y / a, a); }
    }
  }

  lemma NoneBetween(p: int, q: int, a: nat)
    requires a > 0 && a * q < a * p
    ensures a * q + a <= a * p
  {
    if p <= q { MulMonotonic(a, p, q); }
    MulMonotonic(a, q + 1, p);
  }

  lemma LeastIsOne(o: nat, u: nat, x: nat, a: nat)
    requires Least(o, x, a) && Least(u, x, a)
    ensures o == u
  {}

  // ---- members one by one ----

  lemma {:induction false} NamedSnoc(ms: seq<Member>, m: Member)
    ensures Named(ms + [m]) == Named(ms) + if ZeroWidth(m) then [] else [m]
  {
    if ms == [] {
      assert ms + [m] == [m] && [m][1..] == [];
    } else {
      NamedSnoc(ms[1..], m);
      assert (ms + [m])[1..] == ms[1..] + [m];
    }
  }

  lemma EndSnoc(tc: Context, ms: seq<Member>, m: Member)
    ensures End(tc, ms + [m]) == Max(End(tc, ms), if Takes(tc, m) then EndOf(tc, m) else 0)
  {
    assert (ms + [m])[..|ms|] == ms;
  }

  /** The state of the walk after the members done. */
  ghost predicate Reached(tc: Context, done: seq<Member>, off: nat, align: nat, unit: Option<(nat, nat)>, acc: seq<Member>) {
    && AllPlaced(tc, done, acc) && LargestAlign(tc, acc, align) && IsAlign(align)
    && End(tc, acc) == Close(off, unit)
    && (unit.Some? <==> done != [] && IsField(done[|done| - 1]))
    && (unit.Some? ==> acc != [] && acc[|acc| - 1].bits.Some? && unit == Some((acc[|acc| - 1].offset, Used(acc)))
                       && unit.value.1 > 0)
  }

  /** One more member declared, laid out as x. */
  lemma PlacedNext(tc: Context, done: seq<Member>, acc: seq<Member>, m: Member, x: Member)
    requires AllPlaced(tc, done, acc) && !ZeroWidth(m) && SameMember(m, x)
    requires Placed(tc, done + [m], |done|, acc, x)
    ensures AllPlaced(tc, done + [m], acc + [x])
  {
    hide Placed, SameMember, ZeroWidth;
    var ms, laid := done + [m], acc + [x];
    NamedSnoc(done, m);
    forall p | 0 <= p < |ms| && !ZeroWidth(ms[p])
      ensures Rank(ms, p) < |laid| && SameMember(ms[p], laid[Rank(ms, p)]) &&
        Placed(tc, ms, p, laid[..Rank(ms, p)], laid[Rank(ms, p)])
    {
      if p < |done| {
        assert ms[..p] == done[..p] && ms[p] == done[p];
        var i := Rank(done, p);
        assert laid[..i] == acc[..i] && laid[i] == acc[i];
        SamePlace(tc, done, ms, p, acc[..i], acc[i]);
      } else {
        assert ms[..p] == done && laid[..|acc|] == acc;
      }
    }
  }

  lemma SamePlace(tc: Context, done: seq<Member>, ms: seq<Member>, p: nat, before: seq<Member>, x: Member)
    requires p < |done| && |done| <= |ms| && ms[..|done|] == done && Placed(tc, done, p, before, x)
    ensures Placed(tc, ms, p, before, x)
  {
    assert ms[p] == done[p] && (p > 0 ==> ms[p - 1] == done[p - 1]);
  }

  lemma ZeroNext(tc: Context, done: seq<Member>, acc: seq<Member>, m: Member)
    requires AllPlaced(tc, done, acc) && ZeroWidth(m)
    ensures AllPlaced(tc, done + [m], acc)
  {
    hide Placed, SameMember;
    var ms := done + [m];
    NamedSnoc(done, m);
    forall p | 0 <= p < |ms| && !ZeroWidth(ms[p])
      ensures Rank(ms, p) < |acc| && SameMember(ms[p], acc[Rank(ms, p)]) &&
        Placed(tc, ms, p, acc[..Rank(ms, p)], acc[Rank(ms, p)])
    {
      assert p < |done| && ms[..p] == done[..p] && ms[p] == done[p];
      SamePlace(tc, done, ms, p, acc[..Rank(done, p)], acc[Rank(done, p)]);
    }
  }

  lemma AlignNext(tc: Context, acc: seq<Member>, align: nat, m: Member)
    requires LargestAlign(tc, acc, align) && align >= 1 && MemberAlign(tc, m) >= 1
    ensures LargestAlign(tc, acc + [m], Max(MemberAlign(tc, m), align))
  {
    hide MemberAlign;
    var all := acc + [m];
    assert m in all && forall x :: x in acc ==> x in all;
    if align != 1 && align >= MemberAlign(tc, m) {
      var x :| x in acc && MemberAlign(tc, x) == align;
      assert x in all;
    }
  }

  // ---- structs ----

  lemma FieldNext(tc: Context, done: seq<Member>, off: nat, align: nat, unit: Option<(nat, nat)>, acc: seq<Member>, m: Member)
    requires Reached(tc, done, off, align, unit, acc) && IsField(m) && m.bits.value.1 <= 32
    ensures var w := m.bits.value.1;
      var (u, b) := UnitFor(off, unit, w);
      Reached(tc, done + [m], off, Max(4, align), Some((u, b + w)), acc + [m.(offset := u, bits := Some((b, w)))])
  {
    hide AlignUp, Least, AllPlaced, LargestAlign;
    var w := m.bits.value.1;
    var (u, b) := UnitFor(off, unit, w);
    var x := m.(offset := u, bits := Some((b, w)));
    AlignUpLeast(off, 4);
    if unit.Some? { AlignUpLeast(unit.value.0 + 4, 4); }
    FieldPlaced(tc, done, off, unit, acc, m, u, b);
    PlacedNext(tc, done, acc, m, x);
    AlignNext(tc, acc, align, x);
    EndSnoc(tc, acc, x);
    LeastAbove(u, End(tc, acc), unit, off);
    assert (acc + [x])[|acc|] == x && (done + [m])[|done|] == m;
  }

  lemma LeastAbove(u: nat, e: nat, unit: Option<(nat, nat)>, off: nat)
    requires e == Close(off, unit) && ((unit.Some? && u == unit.value.0) || Least(u, e, 4))
    ensures Max(e, u + 4) == u + 4
  {}

  lemma FieldPlaced(tc: Context, done: seq<Member>, off: nat, unit: Option<(nat, nat)>, acc: seq<Member>, m: Member,
                    u: nat, b: nat)
    requires IsField(m) && m.bits.value.1 <= 32 && End(tc, acc) == Close(off, unit)
    requires unit.Some? <==> done != [] && IsField(done[|done| - 1])
    requires unit.Some? ==>
      acc != [] && acc[|acc| - 1].bits.Some? && unit == Some((acc[|acc| - 1].offset, Used(acc)))
    requires (u, b) == UnitFor(off, unit, m.bits.value.1)
    requires Least(AlignUp(Close(off, unit), 4), Close(off, unit), 4)
    ensures Placed(tc, done + [m], |done|, acc, m.(offset := u, bits := Some((b, m.bits.value.1))))
    ensures (unit.Some? && u == unit.value.0) || Least(u, End(tc, acc), 4)
  {
    hide AlignUp, Least, End;
    var ms := done + [m];
    assert ms[|done|] == m && (done != [] ==> ms[|done| - 1] == done[|done| - 1]);
  }

  lemma WholeNext(tc: Context, done: seq<Member>, off: nat, align: nat, unit: Option<(nat, nat)>, acc: seq<Member>, m: Member)
    requires ValidContext(tc) && ValidMember(m) && Reached(tc, done, off, align, unit, acc) && m.bits.None?
    ensures IsAlign(MemberAlign(tc, m))
    ensures var o := AlignUp(Close(off, unit), MemberAlign(tc, m));
      var x := m.(offset := o);
      Reached(tc, done + [m], if Takes(tc, m) then EndOf(tc, x) else Close(off, unit),
              Max(MemberAlign(tc, m), align), None, acc + [x])
  {
    hide AlignUp, Least, AllPlaced, LargestAlign, Size, Align, IsComplete;
    SizeIsAligned(tc, m.typ);
    if m.typ.Array? { SizeIsAligned(tc, m.typ.elem); }
    var a := MemberAlign(tc, m);
    var o := AlignUp(Close(off, unit), a);
    var x := m.(offset := o);
    AlignUpLeast(Close(off, unit), a);
    assert (done + [m])[|done|] == m;
    PlacedNext(tc, done, acc, m, x);
    AlignNext(tc, acc, align, x);
    EndSnoc(tc, acc, x);
    AtLeast(o, Close(off, unit), a);
  }

  lemma AtLeast(o: nat, x: nat, a: nat)
    requires Least(o, x, a)
    ensures o >= x
  {}

  lemma {:induction false} StructIsCompactFrom(tc: Context, done: seq<Member>, off: nat, align: nat,
                                               unit: Option<(nat, nat)>, acc: seq<Member>, ms: seq<Member>)
    requires ValidContext(tc) && ValidMembers(ms) && Reached(tc, done, off, align, unit, acc)
    ensures var (laid, size, a) := Go(tc, false, off, align, 0, unit, acc, ms); CompactStruct(tc, done + ms, laid, size, a)
    decreases |ms|
  {
    hide Reached, CompactStruct, AlignUp, Size, Align, IsComplete, UnitFor;
    if ms == [] {
      assert done + ms == done;
      StructDone(tc, done, off, align, unit, acc);
    } else {
      var m, rest := ms[0], ms[1..];
      assert ValidMember(m) && ValidMembers(rest);
      assert done + ms == done + [m] + rest;
      if ZeroWidth(m) {
        ZeroReached(tc, done, off, align, unit, acc, m);
        StructIsCompactFrom(tc, done + [m], Close(off, unit), align, None, acc, rest);
      } else if m.bits.Some? {
        var w := m.bits.value.1;
        var (u, b) := UnitFor(off, unit, w);
        FieldNext(tc, done, off, align, unit, acc, m);
        StructIsCompactFrom(tc, done + [m], off, Max(4, align), Some((u, b + w)),
                            acc + [m.(offset := u, bits := Some((b, w)))], rest);
      } else {
        var ma := MemberAlign(tc, m);
        var o := AlignUp(Close(off, unit), ma);
        var x := m.(offset := o);
        WholeNext(tc, done, off, align, unit, acc, m);
        StructIsCompactFrom(tc, done + [m], if Takes(tc, m) then EndOf(tc, x) else Close(off, unit), Max(ma, align), None,
                            acc + [x], rest);
      }
    }
  }

  lemma ZeroReached(tc: Context, done: seq<Member>, off: nat, align: nat, unit: Option<(nat, nat)>, acc: seq<Member>, m: Member)
    requires Reached(tc, done, off, align, unit, acc) && ZeroWidth(m)
    ensures Reached(tc, done + [m], Close(off, unit), align, None, acc)
    ensures unit.Some? ==> unit.value.1 > 0
  {
    hide AllPlaced, LargestAlign, End;
    ZeroNext(tc, done, acc, m);
    assert (done + [m])[|done|] == m;
  }

  lemma StructDone(tc: Context, done: seq<Member>, off: nat, align: nat, unit: Option<(nat, nat)>, acc: seq<Member>)
    requires Reached(tc, done, off, align, unit, acc)
    ensures IsAlign(align) && CompactStruct(tc, done, acc, AlignUp(Close(off, unit), align), align)
  {
    hide AllPlaced, LargestAlign, End, AlignUp, Least;
    AlignUpLeast(Close(off, unit), align);
  }

  /** Every struct is laid out by the rules, with no room to spare. */
  lemma StructIsCompact(tc: Context, ms: seq<Member>)
    requires ValidContext(tc) && ValidMembers(ms)
    ensures var (laid, size, align) := LayOut(tc, false, ms); CompactStruct(tc, ms, laid, size, align)
  {
    hide Go, CompactStruct;
    assert [] + ms == ms;
    StructIsCompactFrom(tc, [], 0, 1, None, [], ms);
  }

  // ---- unions ----

  /** What holds of the members of a union laid out so far. */
  ghost predicate Together(tc: Context, done: seq<Member>, align: nat, size: nat, acc: seq<Member>) {
    && |acc| == |Named(done)|
    && (forall i :: 0 <= i < |acc| ==> AtStart(Named(done)[i], acc[i]))
    && LargestAlign(tc, acc, align) && IsAlign(align) && size == End(tc, acc)
  }

  predicate AtStart(m: Member, x: Member) {
    SameMember(m, x) && x.offset == 0 && (x.bits.Some? ==> x.bits.value.0 == 0)
  }

  lemma TogetherNext(tc: Context, done: seq<Member>, align: nat, size: nat, acc: seq<Member>, m: Member, x: Member)
    requires Together(tc, done, align, size, acc) && !ZeroWidth(m) && AtStart(m, x) && IsAlign(MemberAlign(tc, x))
    ensures Together(tc, done + [m], Max(MemberAlign(tc, x), align), Max(if Takes(tc, x) then EndOf(tc, x) else 0, size),
                     acc + [x])
  {
    hide MemberAlign, EndOf, Takes, AtStart;
    NamedSnoc(done, m);
    EndSnoc(tc, acc, x);
    AlignNext(tc, acc, align, x);
    forall i | 0 <= i < |acc + [x]|
      ensures AtStart(Named(done + [m])[i], (acc + [x])[i])
    {
      if i < |acc| { assert AtStart(Named(done)[i], acc[i]); }
    }
  }

  lemma {:induction false} UnionIsCompactFrom(tc: Context, done: seq<Member>, align: nat, size: nat, acc: seq<Member>,
                                              ms: seq<Member>)
    requires ValidContext(tc) && ValidMembers(ms) && Together(tc, done, align, size, acc)
    ensures var (laid, s, a) := Go(tc, true, 0, align, size, None, acc, ms); CompactUnion(tc, done + ms, laid, s, a)
    decreases |ms|
  {
    hide Together, CompactUnion, AlignUp, Size, Align, IsComplete;
    if ms == [] {
      assert done + ms == done;
      UnionDone(tc, done, align, size, acc);
    } else {
      var m, rest := ms[0], ms[1..];
      assert ValidMember(m) && ValidMembers(rest);
      assert done + ms == done + [m] + rest;
      if ZeroWidth(m) {
        TogetherZero(tc, done, align, size, acc, m);
        UnionIsCompactFrom(tc, done + [m], align, size, acc, rest);
      } else {
        SizeIsAligned(tc, m.typ);
        if m.typ.Array? { SizeIsAligned(tc, m.typ.elem); }
        AlignUpIs(0, MemberAlign(tc, m));
        var x := m.(offset := 0, bits := if m.bits.Some? then Some((0, m.bits.value.1)) else None);
        assert m.bits.None? ==> x == m.(offset := 0);
        TogetherNext(tc, done, align, size, acc, m, x);
        UnionIsCompactFrom(tc, done + [m], Max(MemberAlign(tc, x), align),
                           Max(if Takes(tc, x) then EndOf(tc, x) else 0, size), acc + [x], rest);
      }
    }
  }

  lemma TogetherZero(tc: Context, done: seq<Member>, align: nat, size: nat, acc: seq<Member>, m: Member)
    requires Together(tc, done, align, size, acc) && ZeroWidth(m)
    ensures Together(tc, done + [m], align, size, acc)
  {
    NamedSnoc(done, m);
  }

  lemma UnionDone(tc: Context, done: seq<Member>, align: nat, size: nat, acc: seq<Member>)
    requires Together(tc, done, align, size, acc)
    ensures IsAlign(align) && CompactUnion(tc, done, acc, AlignUp(size, align), align)
  {
    hide LargestAlign, End, AlignUp, Least;
    AlignUpLeast(size, align);
    assert forall i :: 0 <= i < |acc| ==> AtStart(Named(done)[i], acc[i]);
  }

  /** Every union is as small as its largest member and its alignment allow. */
  lemma UnionIsCompact(tc: Context, ms: seq<Member>)
    requires ValidContext(tc) && ValidMembers(ms)
    ensures var (laid, size, align) := LayOut(tc, true, ms); CompactUnion(tc, ms, laid, size, align)
  {
    hide Go, CompactUnion;
    assert [] + ms == ms;
    UnionIsCompactFrom(tc, [], 1, 0, [], ms);
  }

  // ---- the rules leave no choice ----

  lemma {:induction false} RankGrows(ms: seq<Member>, p: nat, q: nat)
    requires p <= q <= |ms|
    ensures Rank(ms, p) <= Rank(ms, q) && (p < q && !ZeroWidth(ms[p]) ==> Rank(ms, p) < Rank(ms, q))
    decreases q - p
  {
    if p < q {
      assert ms[..p + 1] == ms[..p] + [ms[p]];
      NamedSnoc(ms[..p], ms[p]);
      RankGrows(ms, p + 1, q);
    }
  }

  /** Up to p two layouts by the rules have the same members. */
  lemma {:induction false} SameUpTo(tc: Context, ms: seq<Member>, a: seq<Member>, b: seq<Member>, p: nat)
    requires p <= |ms| && AllPlaced(tc, ms, a) && AllPlaced(tc, ms, b)
    ensures Rank(ms, p) <= |a| == |b| && a[..Rank(ms, p)] == b[..Rank(ms, p)]
    decreases p
  {
    hide Placed, SameMember;
    RankGrows(ms, p, |ms|);
    assert ms[..|ms|] == ms;
    if p > 0 {
      var q := p - 1;
      SameUpTo(tc, ms, a, b, q);
      assert ms[..p] == ms[..q] + [ms[q]];
      NamedSnoc(ms[..q], ms[q]);
      if !ZeroWidth(ms[q]) {
        var i := Rank(ms, q);
        SamePlaced(tc, ms, q, a[..i], a[i], b[i]);
        assert a[..i + 1] == a[..i] + [a[i]] && b[..i + 1] == b[..i] + [b[i]];
      }
    }
  }

  lemma SamePlaced(tc: Context, ms: seq<Member>, p: nat, before: seq<Member>, x: Member, y: Member)
    requires p < |ms| && !ZeroWidth(ms[p]) && SameMember(ms[p], x) && SameMember(ms[p], y)
    requires Placed(tc, ms, p, before, x) && Placed(tc, ms, p, before, y)
    ensures x == y
  {
    hide Least, End;
    if !IsField(ms[p]) {
      LeastIsOne(x.offset, y.offset, End(tc, before), MemberAlign(tc, x));
    } else if !(p > 0 && IsField(ms[p - 1]) && Shares(before, ms[p].bits.value.1)) {
      LeastIsOne(x.offset, y.offset, End(tc, before), 4);
    }
  }

  /** The rules determine the layout of a struct: members, size and alignment. */
  lemma StructIsDetermined(tc: Context, ms: seq<Member>, a: seq<Member>, b: seq<Member>, s: nat, t: nat, k: nat, l: nat)
    requires CompactStruct(tc, ms, a, s, k) && CompactStruct(tc, ms, b, t, l)
    ensures a == b && s == t && k == l
  {
    hide Placed, SameMember, Least, End;
    SameUpTo(tc, ms, a, b, |ms|);
    assert ms[..|ms|] == ms && a[..|a|] == a && b[..|b|] == b;
    OneLargest(tc, a, k, l);
    LeastIsOne(s, t, End(tc, a), k);
  }

  lemma OneLargest(tc: Context, ms: seq<Member>, k: nat, l: nat)
    requires LargestAlign(tc, ms, k) && LargestAlign(tc, ms, l) && k >= 1 && l >= 1
    ensures k == l
  {
    hide MemberAlign;
  }

  // ---- the target ----

  /** Pointers are laid out as 8-byte words and enums as int; a complex number as two of its base, and an array element by
      element. An array of unknown or no length, void and a struct whose tag is not complete take up nothing. */
  lemma TargetTypes(tc: Context, e: Type, n: int, tag: nat)
    requires n > 0
    ensures Size(tc, Ptr) == Size(tc, Scalar(8, false)) && Align(tc, Ptr) == Align(tc, Scalar(8, false))
    ensures Size(tc, Enum) == Size(tc, Scalar(4, true)) && Align(tc, Enum) == Align(tc, Scalar(4, true))
    ensures Size(tc, Complex(e)) == Size(tc, e) + Size(tc, e) && Align(tc, Complex(e)) == Align(tc, e)
    ensures IsComplete(tc, e) ==> Size(tc, Array(e, 1)) == Size(tc, e)
    ensures IsComplete(tc, e) ==> Size(tc, Array(e, n + 1)) == Size(tc, Array(e, n)) + Size(tc, e)
    ensures Align(tc, Array(e, n)) == Align(tc, e) && (IsComplete(tc, Array(e, n)) <==> IsComplete(tc, e))
    ensures !IsComplete(tc, Array(e, 0 - n)) && !IsComplete(tc, Array(e, 0)) && !IsComplete(tc, Void) && Size(tc, Void) == 0
    ensures Align(tc, Void) == 1 && Size(tc, Func) == 1 && Align(tc, Func) == 1
    ensures tag !in tc ==> !IsComplete(tc, Struct(tag)) && Size(tc, Struct(tag)) == 0 && Align(tc, Struct(tag)) == 1
    ensures tag in tc ==>
      && (IsComplete(tc, Struct(tag)) <==> !tc[tag].incomplete)
      && Size(tc, Struct(tag)) == tc[tag].size && Align(tc, Struct(tag)) == tc[tag].align
  {
    var z := Size(tc, e);
    assert z * (n + 1) == z * n + z;
  }

  /** A bit-field is aligned as its unit is, a flexible array as its element, and a member of no known size not at all. */
  lemma MemberAlignIs(tc: Context, m: Member)
    ensures MemberAlign(tc, m) ==
      if m.bits.Some? then Size(tc, Enum)
      else if m.typ.Array? then Align(tc, m.typ.elem)
      else if IsComplete(tc, m.typ) then Align(tc, m.typ) else 1
  {}

  /** Once its members are set a tag is complete, with the size and the alignment of the compact layout, and no other tag has
      changed. */
  lemma CompletedTag(tc: Context, tag: nat, isUnion: bool, ms: seq<Member>)
    requires ValidContext(tc) && ValidMembers(ms)
    ensures
      var done, laid := SetMembers(tc, tag, isUnion, ms), LayOut(tc, isUnion, ms).0;
      var size, align := Size(done, Struct(tag)), Align(done, Struct(tag));
      && IsComplete(done, Struct(tag)) && done.Keys == tc.Keys + {tag}
      && (if isUnion then CompactUnion(tc, ms, laid, size, align) else CompactStruct(tc, ms, laid, size, align))
      && forall other :: other in tc && other != tag ==> done[other] == tc[other]
  {
    hide Go, CompactUnion, CompactStruct;
    if isUnion { UnionIsCompact(tc, ms); } else { StructIsCompact(tc, ms); }
  }

  function Whole(name: string, t: Type): Member { Member(name, t, 0, None) }

  function BitsOf(name: string, w: nat): Member { Member(name, Scalar(4, true), 0, Some((0, w))) }

  /** struct { char c; int a:3; int b:5; void *p; short s[3]; }: c at 0, a and b in the unit at 4, p at 8, s at 16, size 24. */
  lemma FiveMembers(tc: Context)
    ensures LayOut(tc, false, [Whole("c", Scalar(1, true)), BitsOf("a", 3), BitsOf("b", 5), Whole("p", Ptr),
                               Whole("s", Array(Scalar(2, true), 3))])
      == ([Member("c", Scalar(1, true), 0, None), Member("a", Scalar(4, true), 4, Some((0, 3))),
           Member("b", Scalar(4, true), 4, Some((3, 5))), Member("p", Ptr, 8, None),
           Member("s", Array(Scalar(2, true), 3), 16, None)], 24, 8)
  {
    hide AlignUp, Go;
    AlignUpIs(0, 1);
    AlignUpIs(1, 4);
    AlignUpIs(8, 8);
    AlignUpIs(16, 2);
    AlignUpIs(22, 8);
    var c, a, b, p := Whole("c", Scalar(1, true)), BitsOf("a", 3), BitsOf("b", 5), Whole("p", Ptr);
    var s := Whole("s", Array(Scalar(2, true), 3));
    ThreeShorts(tc);
    assert [c, a, b, p, s] == [c] + ([a] + ([b] + ([p] + ([s] + []))));
    var a1, b1 := a.(offset := 4), b.(offset := 4, bits := Some((3, 5)));
    var p1, s1 := p.(offset := 8), s.(offset := 16);
    WholeStep(tc, 0, 1, None, [], c, [a] + ([b] + ([p] + ([s] + []))));
    FieldStep(tc, 1, 1, None, [] + [c], a, [b] + ([p] + ([s] + [])));
    FieldStep(tc, 1, 4, Some((4, 3)), [] + [c] + [a1], b, [p] + ([s] + []));
    WholeStep(tc, 1, 4, Some((4, 8)), [] + [c] + [a1] + [b1], p, [s] + []);
    WholeStep(tc, 16, 8, None, [] + [c] + [a1] + [b1] + [p1], s, []);
    LastStep(tc, 22, 8, [] + [c] + [a1] + [b1] + [p1] + [s1]);
    assert [] + [c] + [a1] + [b1] + [p1] + [s1] == [c, a1, b1, p1, s1];
  }

  lemma ThreeShorts(tc: Context)
    ensures Size(tc, Array(Scalar(2, true), 3)) == 6 && Align(tc, Array(Scalar(2, true), 3)) == 2
  {}

  lemma WholeStep(tc: Context, off: nat, align: nat, unit: Option<(nat, nat)>, acc: seq<Member>, m: Member, rest: seq<Member>)
    requires m.bits.None? && IsComplete(tc, m.typ)
    ensures var ma := Align(tc, m.typ);
      var o := AlignUp(Close(off, unit), ma);
      Go(tc, false, off, align, 0, unit, acc, [m] + rest) ==
        Go(tc, false, o + Size(tc, m.typ), Max(ma, align), 0, None, acc + [m.(offset := o)], rest)
  {
    hide AlignUp;
    assert ([m] + rest)[1..] == rest;
  }

  lemma FieldStep(tc: Context, off: nat, align: nat, unit: Option<(nat, nat)>, acc: seq<Member>, m: Member, rest: seq<Member>)
    requires IsField(m)
    ensures var w := m.bits.value.1;
      var (u, b) := UnitFor(off, unit, w);
      Go(tc, false, off, align, 0, unit, acc, [m] + rest) ==
        Go(tc, false, off, Max(4, align), 0, Some((u, b + w)), acc + [m.(offset := u, bits := Some((b, w)))], rest)
  {
    hide AlignUp;
    assert ([m] + rest)[1..] == rest;
  }

  lemma LastStep(tc: Context, off: nat, align: nat, acc: seq<Member>)
    requires align >= 1
    ensures Go(tc, false, off, align, 0, None, acc, []) == (acc, AlignUp(off, align), align)
  {}
}
