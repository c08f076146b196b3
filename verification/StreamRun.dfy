/** Whole runs of a stream: whatever the buffering and however short the device reads and writes, every
    answer is the one an unbuffered file gives. */
module StreamRun {
  import opened FileView
  import opened Stdio

  /** The calls of a run. Peek is fgetc, then ungetc of the byte it gave. */
  datatype Op =
    | Getc
    | Peek
    | Read(size: nat, count: nat)
    | Putc(c: int)
    | Write(bytes: seq<Byte>, size: nat, count: nat)
    | Seek(off: int, whence: int)
    | Tell
    | Flush
    | Rewind

  datatype Answer = Number(n: int) | Data(bytes: seq<Byte>, items: nat)

  predicate Callable(op: Op) { op.Write? ==> Product(op.size, op.count) <= |op.bytes| }

  // ---- the unbuffered file ----

  function Min(a: nat, b: nat): nat { if a < b then a else b }

  function Next(v: View): int { if Left(v.contents, v.pos) > 0 then v.contents[v.pos] else EOF }

  /** The whole items among the next n bytes. */
  function Whole(v: View, n: nat, size: nat): seq<Byte>
    requires size > 0 && n <= Left(v.contents, v.pos)
  {
    Multiple(n, size);
    Slice(v.contents, v.pos, n)[..n / size * size]
  }

  lemma Multiple(n: nat, size: nat)
    requires size > 0
    ensures 0 <= n / size * size <= n && n / size >= 0
  {
    var q := n / size;
    assert n == size * q + n % size;
  }

  function Reads(v: View, size: nat, count: nat, r: bool): (Answer, View) {
    var want := Product(size, count);
    if want == 0 || size == 0 then (Data([], 0), v)
    else if !r then (Data([], 0), v.(err := true))
    else
      var n := Min(want, Left(v.contents, v.pos));
      (Data(Whole(v, n, size), n / size), v.(pos := v.pos + n, eof := v.eof || n < want))
  }

  /** What an unbuffered file answers and how it is left, with read and write permission r and w. */
  function Reply(v: View, op: Op, r: bool, w: bool): (Answer, View)
    requires Callable(op)
  {
    match op
    case Getc =>
      if !r then (Number(EOF), v.(err := true))
      else if Next(v) == EOF then (Number(EOF), v.(eof := true))
      else (Number(Next(v)), v.(pos := v.pos + 1))
    case Peek =>
      if !r then (Number(EOF), v.(err := true))
      else if Next(v) == EOF then (Number(EOF), v.(eof := true))
      else (Number(Next(v)), v.(eof := false))
    case Read(size, count) => Reads(v, size, count, r)
    case Putc(c) => if !w then (Number(EOF), v.(err := true)) else (Number(c % 256), Written(v, [c % 256]))
    case Write(p, size, count) =>
      var n := Product(size, count);
      if n == 0 then (Number(0), v)
      else if !w then (Number(0), v.(err := true))
      else (Number(count), Written(v, p[..n]))
    case Seek(off, whence) =>
      if CanSeek(v.contents, v.pos, off, whence)
      then (Number(0), v.(pos := Target(v.contents, v.pos, off, whence), eof := false))
      else (Number(-1), v.(eof := false))
    case Tell => (Number(AsLong(v.pos)), v)
    case Flush => (Number(0), v)
    case Rewind => (Number(0), View(v.contents, 0, false, false))
  }

  /** Items are of size bytes each: all of them are written, and as many read as there are. */
  lemma ItemReplies(v: View, p: seq<Byte>, size: nat, count: nat)
    requires 0 < size && size * count < SIZE_WRAP && size * count <= |p|
    ensures Reply(v, Op.Write(p, size, count), false, true) == (Number(count), Written(v, p[..size * count]))
    ensures var n := Min(size * count, Left(v.contents, v.pos));
      && n / size * size <= n && Reply(v, Op.Read(size, count), true, false) ==
        (Data(Slice(v.contents, v.pos, n)[..n / size * size], n / size),
         v.(pos := v.pos + n, eof := v.eof || n < size * count))
  {
    hide Product, Slice, Written;
    NoItems(size, count);
    WrittenNothing(v);
    SliceOfNone(v);
    Multiple(Min(size * count, Left(v.contents, v.pos)), size);
  }

  /** What seeking is for: from the start, from the end, and back over the byte just read. */
  lemma SeekLaws(v: View, k: nat)
    requires 0 < k <= |v.contents|
    ensures var at := Reply(v, Seek(k - 1, 0), true, false).1;
      && Reply(at, Getc, true, false).0 == Number(v.contents[k - 1])
      && (k <= 0x8000_0000 ==> Reply(at, Tell, true, false).0 == Number(k - 1))
    ensures Reply(Reply(v, Seek(-(k as int), 2), true, false).1, Getc, true, false).0 == Number(v.contents[|v.contents| - k])
    ensures Next(v) != EOF ==>
      var back := Reply(Reply(v, Getc, true, false).1, Seek(-1, 1), true, false).1;
      Reply(back, Getc, true, false).0 == Reply(v, Getc, true, false).0
  {
    hide Product, Overwrite;
    if k <= 0x8000_0000 { TellExact(k - 1); }
  }

  /** A seek is refused for an origin that is none of the three, and for a target before the start. */
  lemma SeekRefusedIff(v: View, off: int, whence: int)
    ensures Reply(v, Seek(off, whence), true, false).0 == Number(-1) <==>
      || whence < 0 || whence > 2 || (whence == 0 && off < 0) || (whence == 1 && off < 0 - v.pos)
      || (whence == 2 && off < 0 - |v.contents|)
  {
    hide Product, Overwrite;
    assert 0 - v.pos + v.pos == 0;
  }

  /** A seek that cannot be done. */
  predicate SeekFails(v: View, op: Op) { op.Seek? && !CanSeek(v.contents, v.pos, op.off, op.whence) }

  /** The stream answers and is left as the unbuffered file; only a failed seek may move it, forward over bytes
      that are there. */
  ghost predicate Explains(v: View, op: Op, a: Answer, v': View, r: bool, w: bool) {
    && Callable(op)
    && a == Reply(v, op, r, w).0
    && (!SeekFails(v, op) ==> v' == Reply(v, op, r, w).1)
    && (SeekFails(v, op) ==> v' == Reply(v, op, r, w).1.(pos := v'.pos))
    && (SeekFails(v, op) ==> v.pos <= v'.pos && (v'.pos == v.pos || v'.pos <= |v.contents|))
  }

  // ---- the buffered stream ----

  method Perform(s: Stream, op: Op) returns (a: Answer)
    requires s.Valid() && Callable(op)
    modifies s, s.dev, s.buf
    ensures s.Valid() && Explains(old(s.Seen()), op, a, s.Seen(), s.readable, s.writable)
  {
    hide Written, s.Seen, s.Sound;
    match op
    case Getc =>
      var c := s.GetByte();
      a := Number(c);
    case Peek => a := DoPeek(s);
    case Read(size, count) => a := DoRead(s, size, count);
    case Putc(c) =>
      var r := s.Fputc(c);
      a := Number(r);
    case Write(p, size, count) =>
      var r := s.Fwrite(p, size, count);
      a := Number(r);
    case Seek(off, whence) => a := DoSeek(s, off, whence);
    case Tell =>
      var r := s.Ftell();
      a := Number(r);
    case Flush =>
      s.Fflush();
      a := Number(0);
    case Rewind =>
      s.Rewind();
      a := Number(0);
  }

  method DoPeek(s: Stream) returns (a: Answer)
    requires s.Valid()
    modifies s, s.dev, s.buf
    ensures s.Valid() && Explains(old(s.Seen()), Peek, a, s.Seen(), s.readable, s.writable)
  {
    hide s.Seen, s.Sound;
    var c := s.GetByte();
    if c != EOF {
      var _ := s.Ungetc(c);
    }
    a := Number(c);
  }

  method DoRead(s: Stream, size: nat, count: nat) returns (a: Answer)
    requires s.Valid()
    modifies s, s.dev, s.buf
    ensures s.Valid() && Explains(old(s.Seen()), Op.Read(size, count), a, s.Seen(), s.readable, s.writable)
  {
    hide s.Seen, s.Sound, Slice;
    ghost var v := s.Seen();
    var dst := new Byte[Product(size, count)];
    var items: nat := s.Fread(dst, size, count);
    var want := Product(size, count);
    ghost var left := Left(v.contents, v.pos);
    if want > 0 && s.readable {
      ghost var n := Min(want, left);
      Multiple(n, size);
      assert dst[..n][..items * size] == dst[..items * size];
    }
    a := Data(dst[..items * size], items);
  }

  method DoSeek(s: Stream, off: int, whence: int) returns (a: Answer)
    requires s.Valid()
    modifies s, s.dev
    ensures s.Valid() && Explains(old(s.Seen()), Seek(off, whence), a, s.Seen(), s.readable, s.writable)
  {
    s.AheadWithin();
    hide s.Seen, s.Sound;
    var r := s.Fseek(off, whence);
    a := Number(r);
  }

  /** Every answer of a run is explained, step by step, by the file's views. */
  method RunAll(s: Stream, ops: seq<Op>) returns (answers: seq<Answer>, ghost views: seq<View>)
    requires s.Valid() && forall i :: 0 <= i < |ops| ==> Callable(ops[i])
    modifies s, s.dev, s.buf
    ensures s.Valid() && |answers| == |ops| && |views| == |ops| + 1
    ensures views[0] == old(s.Seen()) && views[|ops|] == s.Seen()
    ensures forall i :: 0 <= i < |ops| ==>
              Explains(views[i], ops[i], answers[i], views[i + 1], s.readable, s.writable)
  {
    hide s.Seen, s.Sound, Explains;
    answers, views := [], [s.Seen()];
    for i := 0 to |ops|
      invariant s.Valid() && |answers| == i && |views| == i + 1
      invariant views[0] == old(s.Seen()) && views[i] == s.Seen()
      invariant forall k :: 0 <= k < i ==>
                  Explains(views[k], ops[k], answers[k], views[k + 1], s.readable, s.writable)
    {
      var a := Perform(s, ops[i]);
      answers, views := answers + [a], views + [s.Seen()];
    }
  }

  /** Buffering cannot be observed: two streams over equal files, however they are buffered and however short
      their devices read and write, give the same answers as long as no seek fails. */
  lemma {:induction false} SameAnswers(ops: seq<Op>, a: seq<Answer>, vs: seq<View>, b: seq<Answer>, ws: seq<View>,
                                       r: bool, w: bool)
    requires |a| == |b| == |ops| && |vs| == |ws| == |ops| + 1 && vs[0] == ws[0]
    requires forall i :: 0 <= i < |ops| ==> Explains(vs[i], ops[i], a[i], vs[i + 1], r, w)
    requires forall i :: 0 <= i < |ops| ==> Explains(ws[i], ops[i], b[i], ws[i + 1], r, w)
    requires forall i :: 0 <= i < |ops| ==> !SeekFails(vs[i], ops[i])
    ensures a == b && vs == ws
    decreases |ops|
  {
    hide Reply;
    if ops != [] {
      var k := |ops| - 1;
      SameAnswers(ops[..k], a[..k], vs[..k + 1], b[..k], ws[..k + 1], r, w);
      assert vs[k] == vs[..k + 1][k] == ws[..k + 1][k] == ws[k];
      assert Explains(vs[k], ops[k], a[k], vs[k + 1], r, w) && Explains(ws[k], ops[k], b[k], ws[k + 1], r, w);
      assert a == a[..k] + [a[k]] && b == b[..k] + [b[k]];
      assert vs == vs[..k + 1] + [vs[k + 1]] && ws == ws[..k + 1] + [ws[k + 1]];
    }
  }

  /** No seek of the run fails on the unbuffered file. */
  predicate NoSeekFails(v: View, ops: seq<Op>, r: bool, w: bool)
    requires forall i :: 0 <= i < |ops| ==> Callable(ops[i])
    decreases |ops|
  {
    ops == [] || (!SeekFails(v, ops[0]) && NoSeekFails(Reply(v, ops[0], r, w).1, ops[1..], r, w))
  }

  lemma {:induction false} NoneFailed(ops: seq<Op>, a: seq<Answer>, vs: seq<View>, r: bool, w: bool)
    requires |a| == |ops| && |vs| == |ops| + 1
    requires forall i :: 0 <= i < |ops| ==> Explains(vs[i], ops[i], a[i], vs[i + 1], r, w)
    requires (forall i :: 0 <= i < |ops| ==> Callable(ops[i])) && NoSeekFails(vs[0], ops, r, w)
    ensures forall i :: 0 <= i < |ops| ==> !SeekFails(vs[i], ops[i])
    decreases |ops|
  {
    hide Reply, SeekFails;
    if ops != [] {
      assert Explains(vs[0], ops[0], a[0], vs[1], r, w);
      forall i | 0 <= i < |ops[1..]|
        ensures Explains(vs[1..][i], ops[1..][i], a[1..][i], vs[1..][i + 1], r, w)
      {
        assert Explains(vs[i + 1], ops[i + 1], a[i + 1], vs[i + 2], r, w);
      }
      NoneFailed(ops[1..], a[1..], vs[1..], r, w);
      forall i | 0 <= i < |ops|
        ensures !SeekFails(vs[i], ops[i])
      {
        if i > 0 { assert !SeekFails(vs[1..][i - 1], ops[1..][i - 1]); }
      }
    }
  }

  /** The same run on two streams over equal files: the modes may differ, and each device reads and writes as short as it
      likes, yet the answers and what is seen in the end are the same. */
  method RunBoth(s: Stream, t: Stream, ops: seq<Op>) returns (a: seq<Answer>, b: seq<Answer>)
    requires s.Valid() && t.Valid() && s != t && s.dev != t.dev && s.buf != t.buf
    requires s.readable == t.readable && s.writable == t.writable && s.Seen() == t.Seen()
    requires forall i :: 0 <= i < |ops| ==> Callable(ops[i])
    requires NoSeekFails(s.Seen(), ops, s.readable, s.writable)
    modifies s, s.dev, s.buf, t, t.dev, t.buf
    ensures a == b && s.Valid() && t.Valid() && s.Seen() == t.Seen()
  {
    hide s.Seen, s.Sound, Explains, NoSeekFails, Reply;
    ghost var v := s.Seen();
    ghost var vs, ws;
    a, vs := RunAll(s, ops);
    b, ws := RunAll(t, ops);
    NoneFailed(ops, a, vs, s.readable, s.writable);
    SameAnswers(ops, a, vs, b, ws, s.readable, s.writable);
  }

  /** Read a byte and seek before the start: the seek fails, and the position is no longer 1 but past all that was read
      ahead. */
  method SeekBeforeStart(s: Stream) returns (c: int, r: int, at: int, ghost ahead: int)
    requires s.Valid() && s.readable && s.Seen() == View([10, 20], 0, false, false)
    modifies s, s.dev, s.buf
    ensures s.Valid() && c == 10 && r == -1 && at == 1 + ahead
  {
    hide s.Seen, s.Sound, Overwrite;
    c := s.GetByte();
    ahead := s.Ahead();
    s.AheadWithin();
    r := s.Fseek(-5, 0);
    at := s.Ftell();
  }
}
