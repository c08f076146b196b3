/** Bit-field access as src/C99/Lower.hs emits it: shift, mask and merge of one 32-bit word in memory. */
module BitField {
  import opened Powers
  import opened Bits
  import opened Words

  type Byte = x: nat | x < 256

  /** A bit-field: the offset of its 4-byte unit, its first bit there, its width, its signedness. */
  datatype Field = Field(unit: nat, bit: nat, width: nat, signed: bool)

  predicate InUnit(f: Field) { 1 <= f.width && f.bit + f.width <= 32 }

  /** bfMask. */
  function Mask(w: nat): nat { if w >= 32 then Ones(32) else Ones(w) }

  /** The field's bits out of its word, sign-extended to 32 bits by exclusive or and subtraction. */
  function Extract(word: nat, f: Field): int {
    var raw := And(High(word, f.bit), Mask(f.width));
    if 0 < f.width < 32 && f.signed then
      var s := Pow(2, f.width - 1);
      (Xor(raw, s) - s) % W32
    else raw
  }

  /** The word with the field's bits replaced by those of val. */
  function Insert(word: nat, f: Field, val: int): nat {
    var v := And(val % W32, Mask(f.width));
    var clear := Not(Low(Shift(Mask(f.width), f.bit), 32), 32);
    Or(And(word, clear), Low(Shift(v, f.bit), 32))
  }

  // ---- bit by bit ----

  predicate Covers(f: Field, i: nat) { f.bit <= i < f.bit + f.width }

  /** Exactly the field's bits change, to those of the value. */
  lemma InsertBits(word: nat, f: Field, val: int, i: nat)
    requires InUnit(f) && i < 32
    ensures Bit(Insert(word, f, val), i) <==> if Covers(f, i) then Bit(val % W32, i - f.bit) else Bit(word, i)
  {
    hide Bit, And, Or, Not, Low, Shift, Mask;
    var m := Mask(f.width);
    var v := And(val % W32, m);
    var clear := Not(Low(Shift(m, f.bit), 32), 32);
    BitOr(And(word, clear), Low(Shift(v, f.bit), 32), i);
    BitAnd(word, clear, i);
    BitNot(Low(Shift(m, f.bit), 32), 32, i);
    BitLow(Shift(m, f.bit), 32, i);
    BitShift(m, f.bit, i);
    BitLow(Shift(v, f.bit), 32, i);
    BitShift(v, f.bit, i);
    if i >= f.bit {
      BitMask(f.width, i - f.bit);
      BitAnd(val % W32, m, i - f.bit);
    }
  }

  lemma BitMask(w: nat, i: nat)
    requires w <= 32
    ensures Bit(Mask(w), i) <==> i < w
  {
    hide Bit, Ones;
    BitOnes(w, i);
  }

  lemma InsertFits(word: nat, f: Field, val: int)
    requires Fits(word, 32)
    ensures Fits(Insert(word, f, val), 32)
  {
    hide Fits, And, Or, Not, Low, Shift;
    var v := And(val % W32, Mask(f.width));
    var clear := Not(Low(Shift(Mask(f.width), f.bit), 32), 32);
    FitsAnd(word, clear, 32);
    FitsLow(Shift(v, f.bit), 32, 32);
    FitsOr(And(word, clear), Low(Shift(v, f.bit), 32), 32);
  }

  /** The raw bits of a field. */
  function Raw(word: nat, f: Field): nat { Low(High(word, f.bit), f.width) }

  lemma RawIs(word: nat, f: Field)
    requires InUnit(f)
    ensures And(High(word, f.bit), Mask(f.width)) == Raw(word, f)
  {
    hide Bit, And, High, Low, Mask, Fits;
    var h, m := High(word, f.bit), Mask(f.width);
    forall i | 0 <= i < 32
      ensures Bit(And(h, m), i) == Bit(Low(h, f.width), i)
    {
      BitAnd(h, m, i);
      BitMask(f.width, i);
      BitLow(h, f.width, i);
    }
    FitsMask(f.width);
    FitsAnd(h, m, 32);
    FitsLow(h, f.width, 32);
    SameBits(And(h, m), Low(h, f.width), 32);
  }

  lemma FitsMask(w: nat)
    ensures Fits(Mask(w), 32)
  {
    var n := if w >= 32 then 32 else w;
    OnesFit(n, 32);
  }

  lemma {:induction false} OnesFit(k: nat, n: nat)
    requires k <= n
    ensures Fits(Ones(k), n)
    decreases n
  {
    if k == 0 {
      FitsZero(n);
    } else {
      assert Ones(k) / 2 == Ones(k - 1);
      OnesFit(k - 1, n - 1);
    }
  }

  /** What comes back of a field just written: the low bits of the value. */
  lemma RawAfterInsert(word: nat, f: Field, val: int)
    requires InUnit(f)
    ensures Raw(Insert(word, f, val), f) == Low(val % W32, f.width)
  {
    hide Bit, High, Low, Fits, Insert;
    var x, y := Raw(Insert(word, f, val), f), Low(val % W32, f.width);
    forall i | 0 <= i < 32
      ensures Bit(x, i) == Bit(y, i)
    {
      BitLow(High(Insert(word, f, val), f.bit), f.width, i);
      BitHigh(Insert(word, f, val), f.bit, i);
      BitLow(val % W32, f.width, i);
      if i < f.width { InsertBits(word, f, val, i + f.bit); }
    }
    FitsLow(High(Insert(word, f, val), f.bit), f.width, 32);
    FitsLow(val % W32, f.width, 32);
    SameBits(x, y, 32);
  }

  /** A field that shares no bit with the one written reads as before. */
  lemma RawUntouched(word: nat, f: Field, val: int, g: Field)
    requires InUnit(f) && InUnit(g) && (f.bit + f.width <= g.bit || g.bit + g.width <= f.bit)
    ensures Raw(Insert(word, f, val), g) == Raw(word, g)
  {
    hide Bit, High, Low, Fits, Insert;
    var x, y := Raw(Insert(word, f, val), g), Raw(word, g);
    forall i | 0 <= i < 32
      ensures Bit(x, i) == Bit(y, i)
    {
      BitLow(High(Insert(word, f, val), g.bit), g.width, i);
      BitHigh(Insert(word, f, val), g.bit, i);
      BitLow(High(word, g.bit), g.width, i);
      BitHigh(word, g.bit, i);
      if i < g.width { InsertBits(word, f, val, i + g.bit); }
    }
    FitsLow(High(Insert(word, f, val), g.bit), g.width, 32);
    FitsLow(High(word, g.bit), g.width, 32);
    SameBits(x, y, 32);
  }

  // ---- values ----

  /** val truncated to width bits and read as signed or unsigned: what C says the field holds. */
  function Held(val: int, width: nat, signed: bool): int
    requires width > 0
  {
    var t := val % Pow(2, width);
    if signed && t >= Pow(2, width - 1) then t - Pow(2, width) else t
  }

  lemma ExtractIs(word: nat, f: Field, val: int)
    requires InUnit(f) && Raw(word, f) == val % Pow(2, f.width)
    ensures Extract(word, f) == Held(val, f.width, f.signed) % W32
  {
    hide Raw, Xor, High, And, Mask;
    RawIs(word, f);
    var h, p := Pow(2, f.width - 1), Pow(2, f.width);
    assert p == 2 * h;
    PowMonotonic(2, f.width, 32);
    Pow2To64();
    hide Pow;
    var raw := Raw(word, f);
    assert 0 <= raw < p;
    if f.width < 32 && f.signed {
      XorTop(raw, f.width - 1);
    } else if f.signed {
      assert p == W32;
    }
  }

  lemma ModOfMod(val: int, w: nat)
    requires w <= 32
    ensures Low(val % W32, w) == val % Pow(2, w)
  {
    LowIsMod(val % W32, w);
    Pow2To64();
    PowAdd(2, w, 32 - w);
    var p, c := Pow(2, w), Pow(2, 32 - w);
    hide Pow;
    ModTwice(val, p, c);
  }

  lemma ModTwice(val: int, p: nat, c: nat)
    requires p > 0 && c > 0 && p * c == W32
    ensures val % W32 % p == val % p
  {
    var q, r := val / W32, val % W32;
    var s, t := r / p, r % p;
    assert val == q * W32 + r && r == s * p + t;
    assert val == (q * c + s) * p + t by { assert q * (p * c) == q * c * p; }
    DivModUnique(val, p, q * c + s, t);
  }

  /** Writing a field and reading it back gives the value truncated to its width, sign-extended if signed. */
  lemma ReadBack(word: nat, f: Field, val: int)
    requires InUnit(f)
    ensures Extract(Insert(word, f, val), f) == Held(val, f.width, f.signed) % W32
  {
    hide Insert, Extract, Raw, Pow;
    RawAfterInsert(word, f, val);
    ModOfMod(val, f.width);
    ExtractIs(Insert(word, f, val), f, val);
  }

  /** A value the field can hold comes back as it was. */
  lemma HeldIsValue(val: int, width: nat, signed: bool)
    requires width > 0
    ensures Held(val, width, signed) == val <==>
              if signed then 0 - Pow(2, width - 1) <= val < Pow(2, width - 1) else 0 <= val < Pow(2, width)
  {
    var h, p := Pow(2, width - 1), Pow(2, width);
    assert p == 2 * h;
    hide Pow;
    if 0 <= val < p {
      DivModUnique(val, p, 0, val);
    } else if -h <= val < 0 {
      DivModUnique(val, p, -1, val + p);
    }
  }

  lemma Unaffected(word: nat, f: Field, val: int, g: Field)
    requires InUnit(f) && InUnit(g) && (f.bit + f.width <= g.bit || g.bit + g.width <= f.bit)
    ensures Extract(Insert(word, f, val), g) == Extract(word, g)
  {
    hide Insert, Raw;
    RawUntouched(word, f, val, g);
    RawIs(word, g);
    RawIs(Insert(word, f, val), g);
  }

  // ---- memory ----

  /** The little-endian word at a byte offset. */
  function WordAt(mem: seq<Byte>, at: nat): nat
    requires at + 4 <= |mem|
  {
    Bytes(mem[at], mem[at + 1], mem[at + 2], mem[at + 3])
  }

  function Bytes(a: nat, b: nat, c: nat, d: nat): nat { a + 0x100 * b + 0x1_0000 * c + 0x100_0000 * d }

  lemma WordFits(mem: seq<Byte>, at: nat)
    requires at + 4 <= |mem|
    ensures Fits(WordAt(mem, at), 32)
  {
    Pow2To64();
    FitsBelow(WordAt(mem, at), 32);
  }

  method LoadWord(mem: array<Byte>, at: nat) returns (w: nat)
    requires at + 4 <= mem.Length
    ensures w == WordAt(mem[..], at)
  {
    w := Bytes(mem[at], mem[at + 1], mem[at + 2], mem[at + 3]);
  }

  method StoreWord(mem: array<Byte>, at: nat, w: nat)
    requires at + 4 <= mem.Length && w < W32
    modifies mem
    ensures WordAt(mem[..], at) == w
    ensures forall i :: 0 <= i < mem.Length && !(at <= i < at + 4) ==> mem[i] == old(mem[i])
  {
    hide Bytes;
    BytesOf(w);
    mem[at] := w % 0x100;
    mem[at + 1] := w / 0x100 % 0x100;
    mem[at + 2] := w / 0x1_0000 % 0x100;
    mem[at + 3] := w / 0x100_0000;
  }

  lemma BytesOf(w: nat)
    requires w < W32
    ensures w / 0x100_0000 < 0x100
    ensures Bytes(w % 0x100, w / 0x100 % 0x100, w / 0x1_0000 % 0x100, w / 0x100_0000) == w
  {
    var x := w / 0x100;
    var y := x / 0x100;
    var z := y / 0x100;
    assert w / 0x1_0000 == y;
    assert y / 0x100 == w / 0x100_0000;
    assert w == 0x100 * x + w % 0x100 && x == 0x100 * y + x % 0x100 && y == 0x100 * z + y % 0x100;
  }

  /** The value read from a field of the object at addr. */
  function FieldValue(mem: seq<Byte>, addr: nat, f: Field): int
    requires addr + f.unit + 4 <= |mem|
  {
    Extract(WordAt(mem, addr + f.unit), f)
  }

  method BfLoad(mem: array<Byte>, addr: nat, f: Field) returns (v: int)
    requires addr + f.unit + 4 <= mem.Length
    ensures v == FieldValue(mem[..], addr, f)
  {
    var word := LoadWord(mem, addr + f.unit);
    var raw := And(High(word, f.bit), Mask(f.width));
    v := raw;
    if 0 < f.width < 32 && f.signed {
      var s := Pow(2, f.width - 1);
      v := (Xor(raw, s) - s) % W32;
    }
  }

  /** No bit in common, and no unit overlapping another without being it. */
  predicate Apart(f: Field, g: Field) {
    if f.unit == g.unit then f.bit + f.width <= g.bit || g.bit + g.width <= f.bit
    else f.unit + 4 <= g.unit || g.unit + 4 <= f.unit
  }

  /** The field reads back as the value it can hold; no other field changes, and no byte outside the unit. */
  method BfStore(mem: array<Byte>, addr: nat, f: Field, val: int)
    requires InUnit(f) && addr + f.unit + 4 <= mem.Length
    modifies mem
    ensures FieldValue(mem[..], addr, f) == Held(val, f.width, f.signed) % W32
    ensures forall g: Field :: InUnit(g) && Apart(f, g) && addr + g.unit + 4 <= mem.Length ==>
              FieldValue(mem[..], addr, g) == old(FieldValue(mem[..], addr, g))
    ensures forall i :: 0 <= i < mem.Length && !(addr + f.unit <= i < addr + f.unit + 4) ==> mem[i] == old(mem[i])
  {
    hide Insert, Extract, Held, Fits, WordAt;
    ghost var was := mem[..];
    var word := LoadWord(mem, addr + f.unit);
    WordFits(mem[..], addr + f.unit);
    InsertFits(word, f, val);
    Pow2To64();
    FitsBelow(Insert(word, f, val), 32);
    StoreWord(mem, addr + f.unit, Insert(word, f, val));
    ReadBack(word, f, val);
    forall g: Field | InUnit(g) && Apart(f, g) && addr + g.unit + 4 <= mem.Length
      ensures FieldValue(mem[..], addr, g) == FieldValue(was, addr, g)
    {
      if g.unit == f.unit {
        Unaffected(word, f, val, g);
      } else {
        SameWord(was, mem[..], addr + g.unit);
      }
    }
  }

  lemma SameWord(a: seq<Byte>, b: seq<Byte>, at: nat)
    requires at + 4 <= |a| && at + 4 <= |b| && a[at..at + 4] == b[at..at + 4]
    ensures WordAt(a, at) == WordAt(b, at)
  {
    var x, y := a[at..at + 4], b[at..at + 4];
    assert x[0] == y[0] && x[1] == y[1] && x[2] == y[2] && x[3] == y[3];
  }

  /** A value in the field's range comes back from memory as a 32-bit word of that value. */
  method StoreThenLoad(mem: array<Byte>, addr: nat, f: Field, val: int) returns (v: int)
    requires InUnit(f) && addr + f.unit + 4 <= mem.Length
    modifies mem
    ensures
      (if f.signed then 0 - Pow(2, f.width - 1) <= val < Pow(2, f.width - 1) else 0 <= val < Pow(2, f.width)) ==>
        v == val % W32
    ensures v == Held(val, f.width, f.signed) % W32
  {
    hide Pow, Held, FieldValue;
    BfStore(mem, addr, f, val);
    v := BfLoad(mem, addr, f);
    HeldIsValue(val, f.width, f.signed);
  }
}
