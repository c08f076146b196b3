/** The buffered streams of rt/rt_stdio.c: one buffer, with a direction that says whether it holds pending
    writes or read-ahead, over a file handle that may read and write short. */
module Stdio {
  import opened FileView

  type Capacity = c: nat | 4095 < c < 4097 witness 4096

  const RT_BUFSZ: Capacity

  const NEWLINE: Byte := 10

  datatype Dir = Idle | Read | Write

  datatype BufMode = Full | Line | None

  const MAX_CHUNK := 0x4000_0000

  // Where size_t wraps around.
  const SIZE_WRAP: nat := 0x1_0000_0000_0000_0000

  /** size * count as size_t computes it: the product below 2^64, and otherwise short of it by a multiple of 2^64. */
  function Product(size: nat, count: nat): (p: nat)
    ensures p < SIZE_WRAP && (size * count < SIZE_WRAP ==> p == size * count)
    ensures exists q: nat :: size * count == q * SIZE_WRAP + p
  {
    assert size * count == size * count / SIZE_WRAP * SIZE_WRAP + size * count % SIZE_WRAP;
    size * count % SIZE_WRAP
  }

  class Stream {
    const dev: Device
    const readable: bool
    const writable: bool
    const bufmode: BufMode
    const buf: array<Byte>
    var dir: Dir
    var len: nat
    var pos: nat
    var ungot: int
    var eof: bool
    var err: bool

    /** Bytes written but not yet handed over. */
    ghost function Pending(): seq<Byte>
      requires len <= buf.Length
      reads this, buf
    {
      if dir == Write then buf[..len] else []
    }

    /** How far the handle is ahead of the reader. */
    ghost function Ahead(): int
      reads this
    {
      if dir == Read then len - pos + (if ungot >= 0 then 1 else 0) else 0
    }

    ghost predicate ReadAheadValid()
      reads this, dev, buf
    {
      && dir == Read && pos <= len <= buf.Length && 0 <= Ahead() <= dev.position && ungot < 256
      && (Ahead() > 0 ==> dev.position <= |dev.contents|)
      && (pos < len ==> buf[pos..len] == dev.contents[dev.position - (len - pos)..dev.position])
      && (ungot >= 0 ==> dev.contents[dev.position - Ahead()] == ungot)
    }

    /** Read-ahead mirrors the file just before the handle; a pushed-back byte is the one before that; only a
        reading stream has one. An unbuffered stream has no pending writes. */
    ghost predicate Sound()
      reads this, dev, buf
    {
      && buf.Length == RT_BUFSZ && len <= buf.Length
      && (dir == Read ==> ReadAheadValid())
      && (dir != Read ==> ungot < 0)
      && (dir == Idle ==> len == 0)
      && (dir == Write && bufmode == None ==> len == 0)
    }

    /** Between calls, pending writes of a line-buffered stream end no line. */
    ghost predicate Valid()
      reads this, dev, buf
    {
      Sound() && (dir == Write && bufmode == Line ==> NEWLINE !in buf[..len])
    }

    /** The file as it is seen through the stream. */
    ghost function Seen(): View
      requires Sound()
      reads this, dev, buf
    {
      View(Overwrite(dev.contents, dev.position, Pending()), dev.position + |Pending()| - Ahead(), eof, err)
    }

    constructor (d: Device, r: bool, w: bool, m: BufMode)
      ensures Valid() && fresh(buf) && dev == d && readable == r && writable == w && bufmode == m
      ensures Seen() == View(d.contents, d.position, false, false)
    {
      dev, readable, writable, bufmode := d, r, w, m;
      buf := new Byte[RT_BUFSZ](_ => 0);
      dir, len, pos, ungot, eof, err := Idle, 0, 0, -1, false, false;
    }

    // ---- the write side ----

    /** Hand everything over, however short the writes are. */
    method RawWrite(p: seq<Byte>)
      modifies dev
      ensures dev.contents == Overwrite(old(dev.contents), old(dev.position), p)
      ensures dev.position == old(dev.position) + |p|
    {
      hide Overwrite;
      var i := 0;
      assert p[..0] == [] && Overwrite(dev.contents, dev.position, []) == dev.contents by { OverwriteNothing(dev.contents, dev.position); }
      while i < |p|
        invariant i <= |p| && dev.position == old(dev.position) + i
        invariant dev.contents == Overwrite(old(dev.contents), old(dev.position), p[..i])
      {
        var chunk := if |p| - i > MAX_CHUNK then MAX_CHUNK else |p| - i;
        var put := dev.WriteFile(p[i..i + chunk]);
        OverwriteTwice(old(dev.contents), old(dev.position), p[..i], p[i..i + chunk][..put]);
        assert p[..i] + p[i..i + chunk][..put] == p[..i + put];
        i := i + put;
      }
      assert p[..i] == p;
    }

    method FlushWrite()
      requires Sound()
      modifies this`dir, this`len, dev
      ensures Valid() && Seen() == old(Seen()) && Ahead() == old(Ahead()) && (dir == Idle ==> len == 0)
      ensures dir == (if old(dir) == Read then Read else Idle)
      ensures dir == Read ==> len == old(len) && dev.contents == old(dev.contents) && dev.position == old(dev.position)
    {
      if dir == Write && len > 0 {
        RawWrite(buf[..len]);
        len := 0;
      }
      if dir == Write {
        dir := Idle;
      }
    }

    /** Leave read mode: forget the read-ahead and take the handle back over it. */
    method DropRead()
      requires Valid()
      modifies this`dir, this`len, this`pos, this`ungot, dev`position
      ensures Valid() && Seen() == old(Seen()) && dir != Read && (old(dir) != Read ==> dir == old(dir) && len == old(len))
      ensures old(dir) == Read ==> dir == Idle
    {
      if dir == Read {
        var back := len - pos + if ungot >= 0 then 1 else 0;
        if back > 0 {
          var _ := dev.SetFilePointer(0 - back, 1);
        }
        len, pos, ungot, dir := 0, 0, -1, Idle;
      }
    }

    /** What is seen while writing. */
    lemma SeenWriting()
      requires Sound() && dir == Write
      ensures Seen() == View(Overwrite(dev.contents, dev.position, buf[..len]), dev.position + len, eof, err)
    {}

    static lemma Pieces(a: array<Byte>, i: nat, k: nat, j: nat)
      requires i <= k <= j <= a.Length
      ensures a[i..k] == a[i..j][..k - i] && a[k..j] == a[i..j][k - i..]
    {
      var s := a[..];
      assert a[i..k] == s[i..k] && a[i..j] == s[i..j] && a[k..j] == s[k..j];
    }

    static lemma SubSlices(c: seq<Byte>, lo: nat, mid: nat, hi: nat)
      requires lo <= mid <= hi <= |c|
      ensures c[lo..hi][..mid - lo] == c[lo..mid] && c[lo..hi][mid - lo..] == c[mid..hi]
    {}

    /** The read-ahead, cut in two. */
    lemma CutAhead(take: nat)
      requires Sound() && dir == Read && take <= len - pos && pos < len
      ensures var h := dev.position - (len - pos);
              && h >= 0 && dev.position <= |dev.contents|
              && buf[pos..pos + take] == dev.contents[h..h + take]
              && buf[pos + take..len] == dev.contents[h + take..dev.position]
    {
      var h := dev.position - (len - pos);
      Pieces(buf, pos, pos + take, len);
      SubSlices(dev.contents, h, h + take, dev.position);
    }

    static method MemCopy(dst: array<Byte>, at: nat, p: seq<Byte>)
      requires at + |p| <= dst.Length
      modifies dst
      ensures dst[..at] == old(dst[..at]) && dst[at..at + |p|] == p && dst[..at + |p|] == old(dst[..at]) + p
    {
      for i := 0 to |p|
        invariant dst[..at] == old(dst[..at]) && dst[at..at + i] == p[..i]
      {
        dst[at + i] := p[i];
        assert dst[at..at + i + 1] == dst[at..at + i] + [p[i]];
      }
      assert dst[..at + |p|] == dst[..at] + dst[at..at + |p|];
    }

    /** One byte into the buffer. */
    method Store(b: Byte)
      requires Sound() && dir == Write && bufmode != None && len < buf.Length
      modifies this`len, buf
      ensures Sound() && len == old(len) + 1 && buf[..len] == old(buf[..len]) + [b]
      ensures Seen() == Written(old(Seen()), [b])
    {
      hide Overwrite, Seen;
      SeenWriting();
      ghost var q := buf[..len];
      buf[len] := b;
      len := len + 1;
      assert buf[..len] == q + [b];
      OverwriteTwice(dev.contents, dev.position, q, [b]);
      SeenWriting();
    }

    /** A block of bytes into the buffer. */
    method StoreAll(p: seq<Byte>)
      requires Sound() && dir == Write && bufmode != None && len + |p| <= buf.Length
      modifies this`len, buf
      ensures Sound() && len == old(len) + |p|
      ensures Seen() == Written(old(Seen()), p)
    {
      hide Overwrite, Seen;
      SeenWriting();
      ghost var q := buf[..len];
      MemCopy(buf, len, p);
      len := len + |p|;
      OverwriteTwice(dev.contents, dev.position, q, p);
      SeenWriting();
    }

    /** Flush, and go on writing. */
    method FlushOn()
      requires Sound() && dir == Write
      modifies this`dir, this`len, dev
      ensures Valid() && dir == Write && len == 0 && Seen() == old(Seen())
    {
      FlushWrite();
      dir := Write;
    }

    /** Start writing. */
    method Turn()
      requires Valid()
      modifies this`dir, this`len, this`pos, this`ungot, dev`position
      ensures Valid() && dir == Write && Seen() == old(Seen())
    {
      DropRead();
      dir := Write;
    }

    method PutBytes(p: seq<Byte>) returns (ok: bool)
      requires Valid()
      modifies this, dev, buf
      ensures Valid() && ok == writable
      ensures Seen() == if writable then Written(old(Seen()), p) else old(Seen()).(err := true)
    {
      hide Overwrite;
      if !writable {
        err := true;
        return false;
      }
      Turn();
      ok := true;
      ghost var v := Seen();
      if bufmode == None {
        PutDirect(p);
      } else if bufmode == Line {
        PutLines(p);
      } else if |p| >= buf.Length {
        FlushOn();
        PutDirect(p);
      } else {
        if len + |p| > buf.Length {
          FlushOn();
        }
        StoreAll(p);
      }
    }

    /** Past an empty buffer, straight to the handle. */
    method PutDirect(p: seq<Byte>)
      requires Valid() && dir == Write && len == 0
      modifies dev
      ensures Valid() && Seen() == Written(old(Seen()), p)
    {
      hide Overwrite;
      OverwriteNothing(dev.contents, dev.position);
      RawWrite(p);
      OverwriteNothing(dev.contents, dev.position);
    }

    /** Where the last newline is, or -1. */
    static method LastNewline(p: seq<Byte>) returns (last: int)
      ensures -1 <= last < |p| && (last >= 0 ==> p[last] == NEWLINE)
      ensures forall k :: last < k < |p| ==> p[k] != NEWLINE
    {
      last := -1;
      for i := 0 to |p|
        invariant -1 <= last < i && (last >= 0 ==> p[last] == NEWLINE)
        invariant forall k :: last < k < i ==> p[k] != NEWLINE
      {
        if p[i] == NEWLINE {
          last := i;
        }
      }
    }

    method Room()
      requires Sound() && dir == Write
      modifies this`dir, this`len, dev
      ensures Sound() && dir == Write && len < buf.Length && Seen() == old(Seen())
      ensures buf[..len] == old(buf[..len]) || len == 0
    {
      if len == buf.Length {
        FlushOn();
      }
    }

    static lemma WrittenNext(v: View, p: seq<Byte>, i: nat)
      requires i < |p|
      ensures Written(Written(v, p[..i]), [p[i]]) == Written(v, p[..i + 1])
    {
      hide Written;
      WrittenTwice(v, p[..i], [p[i]]);
      assert p[..i] + [p[i]] == p[..i + 1];
    }

    lemma Bounded()
      requires Sound()
      ensures len <= buf.Length && (dir == Read ==> pos <= len)
    {}

    /** One byte of a line-buffered write, flushed if it is the last newline. */
    method PutLineByte(b: Byte, last: bool)
      requires Sound() && dir == Write && bufmode == Line
      modifies this`dir, this`len, dev, buf
      ensures Sound() && dir == Write && len <= buf.Length && Seen() == Written(old(Seen()), [b])
      ensures (last || (b != NEWLINE && NEWLINE !in old(buf[..len]))) ==> NEWLINE !in buf[..len]
    {
      hide Written, Seen;
      Room();
      Store(b);
      if last {
        FlushOn();
      }
    }

    /** Buffer, but flush through the last newline. */
    method PutLines(p: seq<Byte>)
      requires Valid() && dir == Write && bufmode == Line
      modifies this`dir, this`len, dev, buf
      ensures Valid() && dir == Write && Seen() == Written(old(Seen()), p)
    {
      hide Written, Seen, Sound;
      Bounded();
      var last := LastNewline(p);
      ghost var v := Seen();
      assert p[..0] == [] && Written(v, []) == v by { WrittenNothing(v); }
      for i := 0 to |p|
        invariant Sound() && dir == Write && len <= buf.Length && Seen() == Written(v, p[..i])
        invariant i > last ==> NEWLINE !in buf[..len]
      {
        WrittenNext(v, p, i);
        PutLineByte(p[i], i == last);
      }
      assert p[..|p|] == p;
    }

    // ---- the read side ----

    /** With no pending writes the file is what the handle has. */
    lemma SeenReading()
      requires Sound() && dir != Write
      ensures Seen() == View(dev.contents, dev.position - Ahead(), eof, err)
    {}

    /** Refill the buffer; EOF when the file has no more. */
    method Fill() returns (r: int)
      requires Valid() && ungot < 0 && (dir == Read ==> pos == len)
      modifies this, dev, buf
      ensures Valid() && dir == Read && ungot < 0 && pos == 0
      ensures r == (if Left(old(Seen()).contents, old(Seen()).pos) == 0 then EOF else 0)
      ensures Seen() == old(Seen()).(eof := old(Seen()).eof || r == EOF) && (r == 0 <==> len > 0)
    {
      FlushWrite();
      r := Refill();
    }

    method Refill() returns (r: int)
      requires Valid() && ungot < 0 && dir != Write && Ahead() == 0
      modifies this`dir, this`len, this`pos, this`eof, dev`position, buf
      ensures Valid() && dir == Read && ungot < 0 && pos == 0
      ensures r == (if Left(old(Seen()).contents, old(Seen()).pos) == 0 then EOF else 0)
      ensures Seen() == old(Seen()).(eof := old(Seen()).eof || r == EOF) && (r == 0 <==> len > 0)
    {
      hide Seen, Overwrite, Slice;
      SeenReading();
      dir := Read;
      var got := dev.ReadFile(buf, 0, buf.Length);
      len, pos := got, 0;
      SliceIs(dev.contents, dev.position - got, got);
      assert ReadAheadValid();
      r := 0;
      if got == 0 {
        eof := true;
        r := EOF;
      }
      SeenReading();
    }

    /** The next byte of the read-ahead. */
    method NextByte() returns (c: Byte)
      requires Valid() && dir == Read && ungot < 0 && pos < len
      modifies this`pos
      ensures Valid() && Left(old(Seen()).contents, old(Seen()).pos) > 0
      ensures c == old(Seen()).contents[old(Seen()).pos] && Seen() == old(Seen()).(pos := old(Seen()).pos + 1)
    {
      hide Seen;
      SeenReading();
      CutAhead(1);
      assert buf[pos] == buf[pos..pos + 1][0];
      c, pos := buf[pos], pos + 1;
      SeenReading();
    }

    /** The pushed-back byte. */
    method TakeBack() returns (c: Byte)
      requires Valid() && ungot >= 0
      modifies this`ungot
      ensures Valid() && dir == Read && ungot < 0 && Left(old(Seen()).contents, old(Seen()).pos) > 0
      ensures c == old(Seen()).contents[old(Seen()).pos] && Seen() == old(Seen()).(pos := old(Seen()).pos + 1)
    {
      hide Seen;
      SeenReading();
      c, ungot := ungot, -1;
      SeenReading();
    }

    method GetByte() returns (c: int)
      requires Valid()
      modifies this, dev, buf
      ensures Valid()
      ensures !readable ==> c == EOF && Seen() == old(Seen()).(err := true)
      ensures readable && Left(old(Seen()).contents, old(Seen()).pos) == 0 ==>
                c == EOF && Seen() == old(Seen()).(eof := true)
      ensures readable && Left(old(Seen()).contents, old(Seen()).pos) > 0 ==>
                c == old(Seen()).contents[old(Seen()).pos] && Seen() == old(Seen()).(pos := old(Seen()).pos + 1)
      ensures c != EOF ==> dir == Read && ungot < 0
    {
      if !readable {
        err := true;
        return EOF;
      }
      if ungot >= 0 {
        c := TakeBack();
        return;
      }
      if dir != Read || pos >= len {
        var r := Fill();
        if r == EOF {
          return EOF;
        }
      }
      c := NextByte();
    }

    /** Push back the byte just read. */
    method Ungetc(c: int) returns (r: int)
      requires Valid()
      requires c != EOF && ungot < 0 ==>
                 dir == Read && 0 < Seen().pos <= |Seen().contents| && Seen().contents[Seen().pos - 1] == c % 256
      modifies this`ungot, this`eof
      ensures Valid()
      ensures c == EOF || old(ungot) >= 0 ==> r == EOF && Seen() == old(Seen())
      ensures c != EOF && old(ungot) < 0 ==>
                r == c % 256 && Seen() == old(Seen()).(pos := old(Seen()).pos - 1, eof := false) && ungot >= 0
    {
      if c == EOF || ungot >= 0 {
        return EOF;
      }
      hide Seen;
      SeenReading();
      ungot, eof := c % 256, false;
      r := c % 256;
      SeenReading();
    }

    /** Bytes from the read-ahead. */
    method Drain(dst: array<Byte>, at: nat, want: nat) returns (take: nat)
      requires Valid() && dir == Read && ungot < 0 && dst != buf && at + want <= dst.Length
      modifies this`pos, dst
      ensures Valid() && take <= want && pos == old(pos) + take && (take < want ==> pos == len)
      ensures old(pos) < len && want > 0 ==> take > 0
      ensures take <= Left(old(Seen()).contents, old(Seen()).pos)
      ensures Seen() == old(Seen()).(pos := old(Seen()).pos + take)
      ensures dst[..at + take] == old(dst[..at]) + Slice(old(Seen()).contents, old(Seen()).pos, take)
    {
      hide Seen, Sound, Slice;
      Bounded();
      var have := len - pos;
      take := if have < want then have else want;
      AheadIs(take);
      MemCopy(dst, at, buf[pos..pos + take]);
      Skip(take);
    }

    /** The read-ahead is what comes next in the file. */
    lemma AheadIs(take: nat)
      requires Sound() && dir == Read && ungot < 0 && take <= len - pos
      ensures take <= Left(Seen().contents, Seen().pos)
      ensures Slice(Seen().contents, Seen().pos, take) == buf[pos..pos + take]
    {
      hide Seen;
      SeenReading();
      if pos < len {
        CutAhead(take);
      }
    }

    method Skip(take: nat)
      requires Valid() && dir == Read && ungot < 0 && take <= len - pos
      modifies this`pos
      ensures Valid() && pos == old(pos) + take && Seen() == old(Seen()).(pos := old(Seen()).pos + take)
    {
      hide Seen, Overwrite, Left;
      SeenReading();
      if pos < len {
        CutAhead(take);
      }
      pos := pos + take;
      assert pos < len ==> buf[pos..len] == dev.contents[dev.position - (len - pos)..dev.position];
      assert ReadAheadValid();
      SeenReading();
    }

    /** A big remainder, straight from the handle. */
    method ReadDirect(dst: array<Byte>, at: nat, want: nat) returns (n: nat)
      requires Valid() && dir != Write && Ahead() == 0 && ungot < 0 && dst != buf && want > 0 && at + want <= dst.Length
      modifies this`dir, this`len, this`pos, this`eof, dev`position, dst
      ensures Valid() && dir == Read && ungot < 0 && pos == len
      ensures n <= want && n <= Left(old(Seen()).contents, old(Seen()).pos)
      ensures n == 0 <==> Left(old(Seen()).contents, old(Seen()).pos) == 0
      ensures Seen() == old(Seen()).(pos := old(Seen()).pos + n, eof := old(Seen()).eof || n == 0)
      ensures dst[..at + n] == old(dst[..at]) + Slice(old(Seen()).contents, old(Seen()).pos, n)
    {
      hide Seen, Slice;
      SeenReading();
      dir, len, pos := Read, 0, 0;
      n := dev.ReadFile(dst, at, if want > MAX_CHUNK then MAX_CHUNK else want);
      assert dst[..at + n] == dst[..at] + dst[at..at + n];
      if n == 0 {
        eof := true;
      }
      SeenReading();
    }

    /** What fread has done when got bytes have come in. */
    ghost predicate Fetched(v: View, dst: array<Byte>, got: nat, want: nat)
      requires Sound()
      reads this, dev, buf, dst
    {
      && got <= want <= dst.Length && got <= Left(v.contents, v.pos)
      && dst[..got] == Slice(v.contents, v.pos, got)
      && Seen() == v.(pos := v.pos + got)
    }

    /** One round of the read loop: at least a byte, or the end of the file. */
    method FetchMore(dst: array<Byte>, got: nat, want: nat, ghost v: View) returns (n: nat)
      requires Valid() && dir != Write && Ahead() == 0 && ungot < 0 && dst != buf && got < want
      requires Fetched(v, dst, got, want)
      modifies this, dev, buf, dst
      ensures Valid() && dir == Read && ungot < 0 && got + n <= want && (got + n < want ==> pos == len)
      ensures n > 0 ==> Fetched(v, dst, got + n, want)
      ensures n == 0 ==> dst[..got] == old(dst[..got])
      ensures n == 0 ==> got == Left(v.contents, v.pos) && Seen() == v.(pos := v.pos + got, eof := true)
    {
      hide Seen, Slice, Sound;
      var left := want - got;
      n := 0;
      if left >= RT_BUFSZ {
        n := ReadDirect(dst, got, left);
      } else {
        var r := Fill();
        if r != EOF {
          n := Drain(dst, got, left);
        }
      }
      if n > 0 {
        SliceTwice(v.contents, v.pos, got, n);
      }
    }

    /** Reads what there is, up to size * count bytes, and says how many whole items that was. */
    method Fread(dst: array<Byte>, size: nat, count: nat) returns (r: nat)
      requires Valid() && dst != buf && Product(size, count) <= dst.Length
      modifies this, dev, buf, dst
      ensures Valid()
      ensures Product(size, count) == 0 ==> r == 0 && Seen() == old(Seen()) && dst[..] == old(dst[..])
      ensures Product(size, count) > 0 && !readable ==> r == 0 && Seen() == old(Seen()).(err := true) && dst[..] == old(dst[..])
      ensures Product(size, count) > 0 && readable ==>
                var v, want := old(Seen()), Product(size, count);
                var n := if want < Left(v.contents, v.pos) then want else Left(v.contents, v.pos);
                && size > 0 && r == n / size
                && dst[..n] == Slice(v.contents, v.pos, n)
                && Seen() == v.(pos := v.pos + n, eof := v.eof || n < want)
      ensures size > 0 && size * count < SIZE_WRAP && readable ==>
                var v, all := old(Seen()), size * count;
                var n := if all < Left(v.contents, v.pos) then all else Left(v.contents, v.pos);
                && n <= dst.Length && r == n / size && dst[..n] == Slice(v.contents, v.pos, n)
                && Seen() == v.(pos := v.pos + n, eof := v.eof || n < all)
    {
      hide Slice, Seen, Sound, Product;
      var want := Product(size, count);
      if want == 0 {
        assert dst[..0] == [] && Slice(Seen().contents, Seen().pos, 0) == [] by { SliceOfNone(Seen()); }
        return 0;
      }
      if !readable {
        Fails();
        return 0;
      }
      ghost var v := Seen();
      var got := FetchFirst(dst, want);
      var n := FetchRest(dst, got, want, v);
      r := n / size;
    }

    method Fails()
      requires Valid()
      modifies this`err
      ensures Valid() && Seen() == old(Seen()).(err := true)
    {
      err := true;
    }

    method FetchRest(dst: array<Byte>, first: nat, want: nat, ghost v: View) returns (got: nat)
      requires Valid() && dir != Write && ungot < 0 && (first < want ==> Ahead() == 0) && dst != buf
      requires Fetched(v, dst, first, want)
      modifies this, dev, buf, dst
      ensures Valid() && got == (if want < Left(v.contents, v.pos) then want else Left(v.contents, v.pos))
      ensures got <= dst.Length && dst[..got] == Slice(v.contents, v.pos, got)
      ensures Seen() == v.(pos := v.pos + got, eof := v.eof || got < want)
    {
      hide Slice, Seen, Sound;
      got := first;
      var more := true;
      while got < want && more
        invariant Valid() && dir != Write && ungot < 0 && got <= want <= dst.Length && got <= Left(v.contents, v.pos)
        invariant dst[..got] == Slice(v.contents, v.pos, got)
        invariant Seen() == v.(pos := v.pos + got, eof := v.eof || !more)
        invariant got < want ==> Ahead() == 0
        invariant !more ==> got == Left(v.contents, v.pos) && got < want
        decreases want - got, more
      {
        var n := FetchMore(dst, got, want, v);
        got, more := got + n, n > 0;
      }
    }

    /** The pushed-back byte, then the read-ahead. */
    method FetchFirst(dst: array<Byte>, want: nat) returns (got: nat)
      requires Valid() && dst != buf && 0 < want <= dst.Length
      modifies this, dev, buf, dst
      ensures Valid() && dir != Write && ungot < 0 && (got < want ==> Ahead() == 0)
      ensures Fetched(old(Seen()), dst, got, want)
    {
      hide Seen, Slice, Sound;
      ghost var v := Seen();
      got := FetchBack(dst, want);
      FlushWrite();
      Bounded();
      if dir == Read && pos < len {
        var n := Drain(dst, got, want - got);
        SliceTwice(v.contents, v.pos, got, n);
        got := got + n;
      }
    }

    method FetchBack(dst: array<Byte>, want: nat) returns (got: nat)
      requires Valid() && dst != buf && 0 < want <= dst.Length
      modifies this`ungot, dst
      ensures Valid() && ungot < 0 && Fetched(old(Seen()), dst, got, want)
    {
      hide Seen, Sound;
      got := 0;
      if ungot >= 0 {
        dst[0] := TakeBack();
        got := 1;
        assert dst[..1] == [dst[0]];
      }
    }

    // ---- writing and positioning ----

    /** Writes size * count bytes; a short item count is never returned. */
    method Fwrite(src: seq<Byte>, size: nat, count: nat) returns (r: nat)
      requires Valid() && Product(size, count) <= |src|
      modifies this, dev, buf
      ensures Valid()
      ensures Product(size, count) == 0 ==> r == 0 && Seen() == old(Seen())
      ensures Product(size, count) > 0 && !writable ==> r == 0 && Seen() == old(Seen()).(err := true)
      ensures Product(size, count) > 0 && writable ==>
                r == count && Seen() == Written(old(Seen()), src[..Product(size, count)])
      ensures size > 0 && size * count < SIZE_WRAP && writable ==>
                r == count && Seen() == Written(old(Seen()), src[..size * count])
    {
      hide Seen, Sound, Written, Product;
      var n := Product(size, count);
      if n == 0 {
        WrittenNothing(Seen());
        NoItems(size, count);
        return 0;
      }
      var ok := PutBytes(src[..n]);
      r := if ok then count else 0;
    }

    method Fputc(c: int) returns (r: int)
      requires Valid()
      modifies this, dev, buf
      ensures Valid()
      ensures !writable ==> r == EOF && Seen() == old(Seen()).(err := true)
      ensures writable ==> r == c % 256 && Seen() == Written(old(Seen()), [c % 256])
    {
      hide Seen, Sound, Written;
      var b: Byte := c % 256;
      var ok := PutBytes([b]);
      r := if ok then b else EOF;
    }

    /** Nothing seen through the stream changes, and every byte written has reached the file. */
    method Fflush()
      requires Valid()
      modifies this`dir, this`len, dev
      ensures Valid() && Seen() == old(Seen())
      ensures dev.contents == Seen().contents
      ensures old(dir) == Write ==> dev.position == Seen().pos
    {
      FlushWrite();
    }

    /** The position, as a 32-bit long. */
    method Ftell() returns (r: int)
      requires Valid()
      ensures r == AsLong(Seen().pos)
    {
      var p: int := dev.position;
      if dir == Read {
        p := p - (len - pos);
        if ungot >= 0 {
          p := p - 1;
        }
      } else if dir == Write {
        p := p + len;
      }
      r := AsLong(p);
    }

    /** A seek that can be done goes there. One that cannot (before the start, or an unknown whence) keeps the
        contents, but the read-ahead is gone, so the position is past whatever had been read ahead. */
    method Fseek(off: int, whence: int) returns (r: int)
      requires Valid()
      modifies this, dev
      ensures Valid() && r == (if CanSeek(old(Seen()).contents, old(Seen()).pos, off, whence) then 0 else -1)
      ensures Seen().contents == old(Seen()).contents && Seen().err == old(Seen()).err && !Seen().eof
      ensures r == 0 ==> Seen().pos == Target(old(Seen()).contents, old(Seen()).pos, off, whence)
      ensures r == -1 ==> Seen().pos == old(Seen()).pos + old(Ahead())
      ensures dir == Idle
    {
      hide Seen, Sound;
      FlushWrite();
      r := SeekFrom(off, whence);
    }

    /** With nothing to write: a seek from here starts at the reader, not at the handle. */
    method SeekFrom(off: int, whence: int) returns (r: int)
      requires Valid() && dir != Write
      modifies this`len, this`pos, this`ungot, this`dir, this`eof, dev`position
      ensures Valid() && r == (if CanSeek(old(Seen()).contents, old(Seen()).pos, off, whence) then 0 else -1)
      ensures Seen().contents == old(Seen()).contents && Seen().err == old(Seen()).err && !Seen().eof
      ensures r == 0 ==> Seen().pos == Target(old(Seen()).contents, old(Seen()).pos, off, whence)
      ensures r == -1 ==> Seen().pos == old(Seen()).pos + old(Ahead())
      ensures dir == Idle
    {
      hide Seen;
      SeenReading();
      var o := off;
      if whence == 1 && dir == Read {
        o := o - (len - pos);
        if ungot >= 0 {
          o := o - 1;
        }
      }
      ghost var here := dev.position - Ahead();
      assert CanSeek(dev.contents, dev.position, o, whence) == CanSeek(dev.contents, here, off, whence)
          && Target(dev.contents, dev.position, o, whence) == Target(dev.contents, here, off, whence);
      len, pos, ungot, dir, eof := 0, 0, -1, Idle, false;
      var ok := dev.SetFilePointer(o, whence);
      r := if ok then 0 else -1;
      SeenReading();
    }

    /** What has been read ahead is there. */
    lemma AheadWithin()
      requires Valid()
      ensures Ahead() >= 0 && (Ahead() > 0 ==> Seen().pos + Ahead() <= |Seen().contents|)
    {}

    method Rewind()
      requires Valid()
      modifies this, dev
      ensures Valid() && Seen() == View(old(Seen()).contents, 0, false, false)
    {
      hide Seen, Sound;
      var _ := Fseek(0, 0);
      ClearError();
    }

    method ClearError()
      requires Valid()
      modifies this`err
      ensures Valid() && Seen() == old(Seen()).(err := false)
    {
      err := false;
    }
  }

  lemma SliceOfNone(v: View)
    ensures Slice(v.contents, v.pos, 0) == []
  {}

  lemma NoItems(size: nat, count: nat)
    ensures size > 0 && size * count == 0 ==> count == 0
  {
    if size > 0 && count > 0 { assert size * count > 0; }
  }

  /** The conversion to a 32-bit long. */
  function AsLong(p: int): int { (p + 0x8000_0000) % 0x1_0000_0000 - 0x8000_0000 }

  /** ftell tells the position exactly below 2 GiB. */
  lemma TellExact(p: nat)
    ensures AsLong(p) == p <==> p < 0x8000_0000
  {}
}
