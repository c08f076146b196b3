/** Type sizes and struct layout of src/C99/CType.hs. */
module Layout {
  import opened Options
  import opened Powers
  import opened Bits
  import opened BitField

  /** Scalar stands for every arithmetic type, by its size. */
  datatype Type =
    | Void
    | Scalar(bytes: nat, signed: bool)
    | Ptr
    | Array(elem: Type, n: int)
    | Func
    | Struct(tag: nat)
    | Enum
    | Complex(base: Type)

  datatype Tag = Tag(size: nat, align: nat, incomplete: bool)

  type Context = map<nat, Tag>

  /** A member: bits is the first bit in its unit and the width, for a bit-field. */
  datatype Member = Member(name: string, typ: Type, offset: nat, bits: Option<(nat, nat)>)

  predicate IsAlign(a: nat) { a == 1 || a == 2 || a == 4 || a == 8 }

  // ---- rounding up ----

  /** x .&. complement m. */
  function Clear(x: nat, m: nat): nat
    decreases x
  {
    if x == 0 then 0 else (if x % 2 == 1 && m % 2 == 0 then 1 else 0) + 2 * Clear(x / 2, m / 2)
  }

  function AlignUp(x: nat, a: nat): nat { if a <= 1 then x else Clear(x + a - 1, a - 1) }

  lemma {:induction false} ClearOnes(x: nat, k: nat)
    ensures Clear(x, Ones(k)) + Low(x, k) == x
    decreases x
  {
    if k == 0 {
      ClearNone(x);
    } else if x == 0 {
      LowOfZero(k);
    } else {
      assert Ones(k) / 2 == Ones(k - 1) && Ones(k) % 2 == 1;
      ClearOnes(x / 2, k - 1);
    }
  }

  lemma {:induction false} ClearNone(x: nat)
    ensures Clear(x, 0) == x
    decreases x
  {
    if x != 0 { ClearNone(x / 2); }
  }

  lemma {:induction false} LowOfZero(k: nat)
    ensures Low(0, k) == 0
    decreases k
  {
    if k > 0 { LowOfZero(k - 1); }
  }

  /** The least multiple of an alignment from x up. */
  lemma AlignUpIs(x: nat, a: nat)
    requires IsAlign(a)
    ensures AlignUp(x, a) % a == 0 && x <= AlignUp(x, a) < x + a
  {
    if a == 2 {
      Rounds(x, 2, 1);
    } else if a == 4 {
      Rounds(x, 4, 2);
    } else if a == 8 {
      Rounds(x, 8, 3);
    }
  }

  lemma Rounds(x: nat, a: nat, k: nat)
    requires (a == 2 && k == 1) || (a == 4 && k == 2) || (a == 8 && k == 3)
    ensures AlignUp(x, a) % a == 0 && x <= AlignUp(x, a) < x + a
  {
    var n := x + a - 1;
    ThreePowers();
    ClearOnes(n, k);
    LowIsMod(n, k);
    hide Pow, Ones, Clear, Low;
    assert AlignUp(x, a) == n - n % a;
  }

  lemma ThreePowers()
    ensures Pow(2, 1) == 2 && Pow(2, 2) == 4 && Pow(2, 3) == 8
    ensures Ones(1) == 1 && Ones(2) == 3 && Ones(3) == 7
  {}

  // ---- sizes ----

  function Info(tc: Context, tag: nat): Tag { if tag in tc then tc[tag] else Tag(0, 1, true) }

  predicate IsComplete(tc: Context, t: Type) {
    match t
    case Void => false
    case Array(e, n) => n > 0 && IsComplete(tc, e)
    case Struct(tag) => !Info(tc, tag).incomplete
    case _ => true
  }

  function Size(tc: Context, t: Type): nat {
    match t
    case Void => 0
    case Scalar(b, _) => b
    case Ptr => 8
    case Array(e, n) => if n > 0 && IsComplete(tc, e) then Times(Size(tc, e), n) else 0
    case Func => 1
    case Struct(tag) => Info(tc, tag).size
    case Enum => 4
    case Complex(b) => 2 * Size(tc, b)
  }

  function Times(size: nat, n: nat): nat { size * n }

  function Align(tc: Context, t: Type): nat {
    match t
    case Void => 1
    case Ptr => 8
    case Array(e, _) => Align(tc, e)
    case Func => 1
    case Struct(tag) => Info(tc, tag).align
    case Enum => 4
    case Complex(b) => Align(tc, b)
    case Scalar(b, _) => if b > 1 then b else 1
  }

  predicate ValidType(t: Type) {
    match t
    case Scalar(b, _) => IsAlign(b)
    case Array(e, _) => ValidType(e)
    case Complex(b) => ValidType(b) && b.Scalar?
    case _ => true
  }

  predicate ValidTag(t: Tag) { IsAlign(t.align) && t.size % t.align == 0 }

  ghost predicate ValidContext(tc: Context) { forall tag :: tag in tc ==> ValidTag(tc[tag]) }

  /** Every alignment is 1, 2, 4 or 8, and every size a multiple of it: elements of an array stay aligned. */
  lemma {:induction false} SizeIsAligned(tc: Context, t: Type)
    requires ValidContext(tc) && ValidType(t)
    ensures IsAlign(Align(tc, t)) && Size(tc, t) % Align(tc, t) == 0
  {
    match t
    case Array(e, n) =>
      SizeIsAligned(tc, e);
      if n > 0 { MultipleOf(Size(tc, e), n, Align(tc, e)); }
    case Complex(b) => SizeIsAligned(tc, b);
    case _ =>
  }

  lemma MultipleOf(size: nat, n: nat, a: nat)
    requires IsAlign(a) && size % a == 0
    ensures Times(size, n) % a == 0
  {
    var q := size / a;
    assert size * n == a * (q * n);
  }

  // ---- layout ----

  function Max(a: nat, b: nat): nat { if a < b then b else a }

  /** The byte after the open unit, or the next free byte. */
  function Close(off: nat, unit: Option<(nat, nat)>): nat { if unit.Some? then unit.value.0 + 4 else off }

  /** Where a bit-field of width w goes: the open unit if it fits there, a new one if not. */
  function UnitFor(off: nat, unit: Option<(nat, nat)>, w: nat): (nat, nat) {
    if unit.None? then (AlignUp(off, 4), 0)
    else if unit.value.1 + w <= 32 then unit.value
    else (AlignUp(unit.value.0 + 4, 4), 0)
  }

  function IncompleteAlign(tc: Context, t: Type): nat { if t.Array? then Align(tc, t.elem) else 1 }

  /** Members one by one: off is the next free byte, unit the open bit-field unit and the bits used in it. */
  function Go(tc: Context, isUnion: bool, off: nat, maxAlign: nat, maxSize: nat, unit: Option<(nat, nat)>,
              acc: seq<Member>, ms: seq<Member>): (seq<Member>, nat, nat)
    decreases |ms|
  {
    if ms == [] then
      var align := Max(1, maxAlign);
      (acc, AlignUp(if isUnion then maxSize else Close(off, unit), align), align)
    else
      var m, rest := ms[0], ms[1..];
      if m.bits.Some? && m.bits.value.1 == 0 then
        if unit.Some? && unit.value.1 > 0
        then Go(tc, isUnion, unit.value.0 + 4, maxAlign, maxSize, None, acc, rest)
        else Go(tc, isUnion, off, maxAlign, maxSize, None, acc, rest)
      else if m.bits.Some? then
        var w := m.bits.value.1;
        if isUnion then
          Go(tc, isUnion, off, Max(4, maxAlign), Max(4, maxSize), unit, acc + [m.(offset := 0, bits := Some((0, w)))], rest)
        else
          var (u, b) := UnitFor(off, unit, w);
          Go(tc, isUnion, off, Max(4, maxAlign), maxSize, Some((u, b + w)), acc + [m.(offset := u, bits := Some((b, w)))], rest)
      else
        var off0 := Close(off, unit);
        if !IsComplete(tc, m.typ) then
          var ea := IncompleteAlign(tc, m.typ);
          Go(tc, isUnion, off0, Max(ea, maxAlign), maxSize, None, acc + [m.(offset := AlignUp(off0, ea))], rest)
        else
          var ma, size := Align(tc, m.typ), Size(tc, m.typ);
          if isUnion then
            Go(tc, isUnion, off0, Max(ma, maxAlign), Max(size, maxSize), None, acc + [m.(offset := 0)], rest)
          else
            var o := AlignUp(off0, ma);
            Go(tc, isUnion, o + size, Max(ma, maxAlign), maxSize, None, acc + [m.(offset := o)], rest)
  }

  function LayOut(tc: Context, isUnion: bool, ms: seq<Member>): (seq<Member>, nat, nat) {
    Go(tc, isUnion, 0, 1, 0, None, [], ms)
  }

  // ---- what a layout promises ----

  predicate ValidMember(m: Member) { ValidType(m.typ) && (m.bits.Some? ==> m.bits.value.1 <= 32) }

  ghost predicate ValidMembers(ms: seq<Member>) { forall m :: m in ms ==> ValidMember(m) }

  /** The members that take up space: an incomplete one (a flexible array) does not. */
  predicate Takes(tc: Context, m: Member) { m.bits.Some? || IsComplete(tc, m.typ) }

  /** The byte after the member: after its unit, for a bit-field. */
  function EndOf(tc: Context, m: Member): nat { m.offset + if m.bits.Some? then 4 else Size(tc, m.typ) }

  function MemberAlign(tc: Context, m: Member): nat {
    if m.bits.Some? then 4 else if IsComplete(tc, m.typ) then Align(tc, m.typ) else IncompleteAlign(tc, m.typ)
  }

  /** a ends before b begins; two bit-fields may share a unit, a's bits first. */
  predicate Before(tc: Context, a: Member, b: Member) {
    || EndOf(tc, a) <= b.offset
    || (a.bits.Some? && b.bits.Some? && a.offset == b.offset
        && a.bits.value.0 + a.bits.value.1 <= b.bits.value.0)
  }

  /** Placed at a multiple of its alignment, which divides the whole one; a bit-field within its unit. */
  predicate WellPlaced(tc: Context, m: Member, align: nat) {
    && ValidMember(m) && IsAlign(MemberAlign(tc, m)) && MemberAlign(tc, m) <= align
    && m.offset % MemberAlign(tc, m) == 0
    && (m.bits.Some? ==> m.bits.value.1 > 0 && m.bits.value.0 + m.bits.value.1 <= 32)
  }

  /** Nothing of m lies past the cursor. */
  predicate Behind(tc: Context, m: Member, off: nat, unit: Option<(nat, nat)>) {
    if unit.None? then EndOf(tc, m) <= off
    else
      || EndOf(tc, m) <= unit.value.0
      || (m.bits.Some? && m.offset == unit.value.0 && m.bits.value.0 + m.bits.value.1 <= unit.value.1)
  }

  ghost predicate Ordered(tc: Context, ms: seq<Member>) {
    forall i, j :: 0 <= i < j < |ms| && Takes(tc, ms[i]) ==> Before(tc, ms[i], ms[j])
  }

  ghost predicate Packed(tc: Context, off: nat, align: nat, unit: Option<(nat, nat)>, acc: seq<Member>) {
    && IsAlign(align)
    && (unit.Some? ==> off <= unit.value.0 && unit.value.0 % 4 == 0 && 0 < unit.value.1 <= 32 && align >= 4)
    && (forall m :: m in acc ==> WellPlaced(tc, m, align))
    && (forall m :: m in acc && Takes(tc, m) ==> Behind(tc, m, off, unit))
    && Ordered(tc, acc)
  }

  /** One more member, past everything before it. */
  lemma PackedNext(tc: Context, off: nat, align: nat, unit: Option<(nat, nat)>, acc: seq<Member>,
                   m: Member, off': nat, align': nat, unit': Option<(nat, nat)>)
    requires Packed(tc, off, align, unit, acc) && IsAlign(align') && align <= align'
    requires unit'.Some? ==> off' <= unit'.value.0 && unit'.value.0 % 4 == 0 && 0 < unit'.value.1 <= 32 && align' >= 4
    requires WellPlaced(tc, m, align') && (Takes(tc, m) ==> Behind(tc, m, off', unit'))
    requires forall x :: Takes(tc, x) && Behind(tc, x, off, unit) ==> Before(tc, x, m) && Behind(tc, x, off', unit')
    ensures Packed(tc, off', align', unit', acc + [m])
  {
    var all := acc + [m];
    forall x | x in all
      ensures WellPlaced(tc, x, align') && (Takes(tc, x) ==> Behind(tc, x, off', unit'))
    {
      if x in acc { assert WellPlaced(tc, x, align); }
    }
    forall i, j | 0 <= i < j < |all| && Takes(tc, all[i])
      ensures Before(tc, all[i], all[j])
    {
      if j < |acc| {
        assert Before(tc, acc[i], acc[j]);
      } else {
        assert acc[i] in acc;
      }
    }
  }

  /** A cursor moved past the open unit. */
  lemma PackedClosed(tc: Context, off: nat, align: nat, unit: Option<(nat, nat)>, acc: seq<Member>)
    requires Packed(tc, off, align, unit, acc)
    ensures Packed(tc, Close(off, unit), align, None, acc)
  {}

  /** What holds of a finished struct. */
  ghost predicate WellLaidOut(tc: Context, ms: seq<Member>, size: nat, align: nat) {
    && IsAlign(align) && size % align == 0
    && (forall m :: m in ms ==> WellPlaced(tc, m, align))
    && (forall m :: m in ms && Takes(tc, m) ==> EndOf(tc, m) <= size)
    && Ordered(tc, ms)
  }

  lemma {:induction false} StructPacked(tc: Context, off: nat, maxAlign: nat, unit: Option<(nat, nat)>, acc: seq<Member>,
                                        ms: seq<Member>)
    requires ValidContext(tc) && ValidMembers(ms) && Packed(tc, off, maxAlign, unit, acc)
    ensures var (laid, size, align) := Go(tc, false, off, maxAlign, 0, unit, acc, ms); WellLaidOut(tc, laid, size, align)
    decreases |ms|
  {
    hide Packed, AlignUp, Size, Align, IsComplete;
    PackedAlign(tc, off, maxAlign, unit, acc);
    if ms == [] {
      PackedDone(tc, off, maxAlign, unit, acc);
    } else {
      var m, rest := ms[0], ms[1..];
      assert ValidMember(m) && ValidMembers(rest);
      if m.bits.Some? && m.bits.value.1 == 0 {
        PackedClosed(tc, off, maxAlign, unit, acc);
        StructPacked(tc, Close(off, unit), maxAlign, None, acc, rest);
      } else if m.bits.Some? {
        var w := m.bits.value.1;
        var (u, b) := UnitFor(off, unit, w);
        BitsPacked(tc, off, maxAlign, unit, acc, m, u, b, w);
        StructPacked(tc, off, Max(4, maxAlign), Some((u, b + w)), acc + [m.(offset := u, bits := Some((b, w)))], rest);
      } else if !IsComplete(tc, m.typ) {
        var off0, ea := Close(off, unit), IncompleteAlign(tc, m.typ);
        FlexiblePacked(tc, off, maxAlign, unit, acc, m);
        StructPacked(tc, off0, Max(ea, maxAlign), None, acc + [m.(offset := AlignUp(off0, ea))], rest);
      } else {
        var ma, size := Align(tc, m.typ), Size(tc, m.typ);
        var o := AlignUp(Close(off, unit), ma);
        WholePacked(tc, off, maxAlign, unit, acc, m);
        StructPacked(tc, o + size, Max(ma, maxAlign), None, acc + [m.(offset := o)], rest);
      }
    }
  }

  lemma PackedAlign(tc: Context, off: nat, align: nat, unit: Option<(nat, nat)>, acc: seq<Member>)
    requires Packed(tc, off, align, unit, acc)
    ensures IsAlign(align) && (unit.Some? ==> 0 < unit.value.1)
  {}

  lemma PackedDone(tc: Context, off: nat, align: nat, unit: Option<(nat, nat)>, acc: seq<Member>)
    requires Packed(tc, off, align, unit, acc)
    ensures WellLaidOut(tc, acc, AlignUp(Close(off, unit), align), align)
  {
    AlignUpIs(Close(off, unit), align);
    hide AlignUp;
  }

  lemma BitsPacked(tc: Context, off: nat, align: nat, unit: Option<(nat, nat)>, acc: seq<Member>, m: Member, u: nat, b: nat,
                   w: nat)
    requires Packed(tc, off, align, unit, acc) && ValidMember(m) && 0 < w <= 32 && (u, b) == UnitFor(off, unit, w)
    ensures Packed(tc, off, Max(4, align), Some((u, b + w)), acc + [m.(offset := u, bits := Some((b, w)))])
  {
    AlignUpIs(off, 4);
    if unit.Some? { AlignUpIs(unit.value.0 + 4, 4); }
    hide AlignUp;
    PackedNext(tc, off, align, unit, acc, m.(offset := u, bits := Some((b, w))), off, Max(4, align), Some((u, b + w)));
  }

  lemma FlexiblePacked(tc: Context, off: nat, align: nat, unit: Option<(nat, nat)>, acc: seq<Member>, m: Member)
    requires ValidContext(tc) && Packed(tc, off, align, unit, acc) && ValidMember(m) && m.bits.None?
    requires !IsComplete(tc, m.typ)
    ensures var off0, ea := Close(off, unit), IncompleteAlign(tc, m.typ);
            Packed(tc, off0, Max(ea, align), None, acc + [m.(offset := AlignUp(off0, ea))])
  {
    var off0, ea := Close(off, unit), IncompleteAlign(tc, m.typ);
    if m.typ.Array? { SizeIsAligned(tc, m.typ.elem); }
    AlignUpIs(off0, ea);
    hide AlignUp, Size, Align, IsComplete;
    PackedNext(tc, off, align, unit, acc, m.(offset := AlignUp(off0, ea)), off0, Max(ea, align), None);
  }

  lemma WholePacked(tc: Context, off: nat, align: nat, unit: Option<(nat, nat)>, acc: seq<Member>, m: Member)
    requires ValidContext(tc) && Packed(tc, off, align, unit, acc) && ValidMember(m) && m.bits.None?
    requires IsComplete(tc, m.typ)
    ensures var ma, size := Align(tc, m.typ), Size(tc, m.typ);
            var o := AlignUp(Close(off, unit), ma);
            Packed(tc, o + size, Max(ma, align), None, acc + [m.(offset := o)])
  {
    var ma, size := Align(tc, m.typ), Size(tc, m.typ);
    SizeIsAligned(tc, m.typ);
    AlignUpIs(Close(off, unit), ma);
    hide AlignUp, Size, Align, IsComplete;
    var o := AlignUp(Close(off, unit), ma);
    PackedNext(tc, off, align, unit, acc, m.(offset := o), o + size, Max(ma, align), None);
  }

  /** Every struct is well laid out: members in order, aligned, apart, inside a size that keeps arrays aligned. */
  lemma StructIsWellLaidOut(tc: Context, ms: seq<Member>)
    requires ValidContext(tc) && ValidMembers(ms)
    ensures var (laid, size, align) := LayOut(tc, false, ms); WellLaidOut(tc, laid, size, align)
  {
    StructPacked(tc, 0, 1, None, [], ms);
  }

  /** A union: every member at the start, in a size that fits each. */
  ghost predicate WellOverlaid(tc: Context, ms: seq<Member>, size: nat, align: nat) {
    && IsAlign(align) && size % align == 0
    && (forall m :: m in ms ==> WellPlaced(tc, m, align) && m.offset == 0 && (Takes(tc, m) ==> EndOf(tc, m) <= size))
  }

  ghost predicate Overlaid(tc: Context, align: nat, size: nat, acc: seq<Member>) {
    && IsAlign(align)
    && (forall m :: m in acc ==> WellPlaced(tc, m, align) && m.offset == 0 && (Takes(tc, m) ==> EndOf(tc, m) <= size))
  }

  lemma {:induction false} UnionOverlaid(tc: Context, maxAlign: nat, maxSize: nat, acc: seq<Member>, ms: seq<Member>)
    requires ValidContext(tc) && ValidMembers(ms) && Overlaid(tc, maxAlign, maxSize, acc)
    ensures var (laid, size, align) := Go(tc, true, 0, maxAlign, maxSize, None, acc, ms); WellOverlaid(tc, laid, size, align)
    decreases |ms|
  {
    hide AlignUp, Size, Align, IsComplete;
    if ms == [] {
      AlignUpIs(maxSize, maxAlign);
    } else {
      var m, rest := ms[0], ms[1..];
      assert ValidMember(m) && ValidMembers(rest);
      if m.bits.Some? && m.bits.value.1 == 0 {
        UnionOverlaid(tc, maxAlign, maxSize, acc, rest);
      } else if m.bits.Some? {
        var m' := m.(offset := 0, bits := Some((0, m.bits.value.1)));
        OverlaidNext(tc, maxAlign, maxSize, acc, m', Max(4, maxAlign), Max(4, maxSize));
        UnionOverlaid(tc, Max(4, maxAlign), Max(4, maxSize), acc + [m'], rest);
      } else if !IsComplete(tc, m.typ) {
        var ea := IncompleteAlign(tc, m.typ);
        if m.typ.Array? { SizeIsAligned(tc, m.typ.elem); }
        AlignUpIs(0, ea);
        var m' := m.(offset := AlignUp(0, ea));
        assert m'.offset == 0;
        OverlaidNext(tc, maxAlign, maxSize, acc, m', Max(ea, maxAlign), maxSize);
        UnionOverlaid(tc, Max(ea, maxAlign), maxSize, acc + [m'], rest);
      } else {
        var ma, size := Align(tc, m.typ), Size(tc, m.typ);
        SizeIsAligned(tc, m.typ);
        OverlaidNext(tc, maxAlign, maxSize, acc, m.(offset := 0), Max(ma, maxAlign), Max(size, maxSize));
        UnionOverlaid(tc, Max(ma, maxAlign), Max(size, maxSize), acc + [m.(offset := 0)], rest);
      }
    }
  }

  lemma OverlaidNext(tc: Context, align: nat, size: nat, acc: seq<Member>, m: Member, align': nat, size': nat)
    requires Overlaid(tc, align, size, acc) && IsAlign(align') && align <= align' && size <= size'
    requires WellPlaced(tc, m, align') && m.offset == 0 && (Takes(tc, m) ==> EndOf(tc, m) <= size')
    ensures Overlaid(tc, align', size', acc + [m])
  {
    forall x | x in acc + [m]
      ensures WellPlaced(tc, x, align') && x.offset == 0 && (Takes(tc, x) ==> EndOf(tc, x) <= size')
    {
      if x in acc { assert WellPlaced(tc, x, align); }
    }
  }

  // ---- completing a tag ----

  function SetMembers(tc: Context, tag: nat, isUnion: bool, ms: seq<Member>): Context {
    var (_, size, align) := LayOut(tc, isUnion, ms);
    tc[tag := Tag(size, align, false)]
  }

  /** Completing a struct or a union keeps every tag's size a multiple of its alignment, however many come after. */
  lemma SetMembersKeeps(tc: Context, tag: nat, isUnion: bool, ms: seq<Member>)
    requires ValidContext(tc) && ValidMembers(ms)
    ensures ValidContext(SetMembers(tc, tag, isUnion, ms))
  {
    hide Go;
    if isUnion {
      UnionOverlaid(tc, 1, 0, [], ms);
    } else {
      StructIsWellLaidOut(tc, ms);
    }
  }

  // ---- nothing lost ----

  /** The declared members without the zero-width bit-fields. */
  function Named(ms: seq<Member>): seq<Member> {
    if ms == [] then []
    else if ms[0].bits.Some? && ms[0].bits.value.1 == 0 then Named(ms[1..])
    else [ms[0]] + Named(ms[1..])
  }

  /** The same member, wherever it is. */
  predicate SameMember(a: Member, b: Member) {
    a.name == b.name && a.typ == b.typ
    && (if a.bits.Some? then b.bits.Some? && a.bits.value.1 == b.bits.value.1 else b.bits.None?)
  }

  /** Each named member is laid out once, in order, with its name, type and width. */
  lemma {:induction false} GoKeeps(tc: Context, isUnion: bool, off: nat, maxAlign: nat, maxSize: nat,
                                   unit: Option<(nat, nat)>, acc: seq<Member>, ms: seq<Member>)
    ensures var laid := Go(tc, isUnion, off, maxAlign, maxSize, unit, acc, ms).0;
            && |laid| == |acc| + |Named(ms)| && laid[..|acc|] == acc
            && forall i :: 0 <= i < |Named(ms)| ==> SameMember(Named(ms)[i], laid[|acc| + i])
    decreases |ms|
  {
    hide AlignUp, Size, Align, IsComplete, Close, UnitFor;
    if ms != [] {
      var m, rest := ms[0], ms[1..];
      if m.bits.Some? && m.bits.value.1 == 0 {
        if unit.Some? && unit.value.1 > 0 {
          GoKeeps(tc, isUnion, unit.value.0 + 4, maxAlign, maxSize, None, acc, rest);
        } else {
          GoKeeps(tc, isUnion, off, maxAlign, maxSize, None, acc, rest);
        }
      } else if m.bits.Some? {
        var w := m.bits.value.1;
        if isUnion {
          KeepOne(tc, isUnion, off, Max(4, maxAlign), Max(4, maxSize), unit, acc, m.(offset := 0, bits := Some((0, w))), ms);
        } else {
          var (u, b) := UnitFor(off, unit, w);
          KeepOne(tc, isUnion, off, Max(4, maxAlign), maxSize, Some((u, b + w)), acc,
                  m.(offset := u, bits := Some((b, w))), ms);
        }
      } else {
        var off0 := Close(off, unit);
        if !IsComplete(tc, m.typ) {
          var ea := IncompleteAlign(tc, m.typ);
          KeepOne(tc, isUnion, off0, Max(ea, maxAlign), maxSize, None, acc, m.(offset := AlignUp(off0, ea)), ms);
        } else {
          var ma, size := Align(tc, m.typ), Size(tc, m.typ);
          if isUnion {
            KeepOne(tc, isUnion, off0, Max(ma, maxAlign), Max(size, maxSize), None, acc, m.(offset := 0), ms);
          } else {
            var o := AlignUp(off0, ma);
            KeepOne(tc, isUnion, o + size, Max(ma, maxAlign), maxSize, None, acc, m.(offset := o), ms);
          }
        }
      }
    }
  }

  lemma {:induction false} KeepOne(tc: Context, isUnion: bool, off: nat, maxAlign: nat, maxSize: nat,
                                   unit: Option<(nat, nat)>, acc: seq<Member>, m: Member, ms: seq<Member>)
    requires ms != [] && SameMember(ms[0], m) && Named(ms) == [ms[0]] + Named(ms[1..])
    ensures var laid := Go(tc, isUnion, off, maxAlign, maxSize, unit, acc + [m], ms[1..]).0;
            && |laid| == |acc| + |Named(ms)| && laid[..|acc|] == acc
            && forall i :: 0 <= i < |Named(ms)| ==> SameMember(Named(ms)[i], laid[|acc| + i])
    decreases |ms|, 0
  {
    hide Go;
    GoKeeps(tc, isUnion, off, maxAlign, maxSize, unit, acc + [m], ms[1..]);
    var laid := Go(tc, isUnion, off, maxAlign, maxSize, unit, acc + [m], ms[1..]).0;
    assert laid[..|acc| + 1] == acc + [m];
    assert laid[..|acc|] == laid[..|acc| + 1][..|acc|] && laid[|acc|] == laid[..|acc| + 1][|acc|];
  }

  // ---- with bit-field access ----

  /** The field of a bit-field member: unsigned only for the unsigned integer types and _Bool, so not for an enum. */
  function FieldOf(m: Member): Field
    requires m.bits.Some?
  {
    Field(m.offset, m.bits.value.0, m.bits.value.1, !(m.typ.Scalar? && !m.typ.signed))
  }

  /** In a well laid out struct two bit-fields are apart, and the unit of one overlaps no other member: storing one
      bit-field changes no other member. */
  lemma FieldsApart(tc: Context, ms: seq<Member>, size: nat, align: nat, i: nat, j: nat)
    requires WellLaidOut(tc, ms, size, align) && i < |ms| && j < |ms| && i != j
    requires ms[i].bits.Some? && Takes(tc, ms[j])
    ensures InUnit(FieldOf(ms[i])) && ms[i].offset + 4 <= size
    ensures ms[j].bits.Some? ==> Apart(FieldOf(ms[i]), FieldOf(ms[j]))
    ensures ms[j].bits.None? ==> ms[i].offset + 4 <= ms[j].offset || EndOf(tc, ms[j]) <= ms[i].offset
  {
    hide Size, IsComplete;
    assert ms[i] in ms && ms[j] in ms;
    assert WellPlaced(tc, ms[i], align) && WellPlaced(tc, ms[j], align);
    if i < j {
      assert Before(tc, ms[i], ms[j]);
    } else {
      assert Before(tc, ms[j], ms[i]);
    }
  }
}
