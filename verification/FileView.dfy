/** A file as its users see it: bytes and a position, with nothing buffered; and the operating system's file
    behind a stream, which may read and write less than it is asked to. */
module FileView {
  type Byte = x: int | 0 <= x < 256

  const EOF := -1

  /** The open file without a buffer. */
  datatype View = View(contents: seq<Byte>, pos: nat, eof: bool, err: bool)

  function ZeroBytes(n: nat): (z: seq<Byte>)
    ensures |z| == n && forall i :: 0 <= i < n ==> z[i] == 0
  {
    seq(n, i => 0)
  }

  /** p written over c from at on; a gap past the end fills with zeros. Writing nothing changes nothing. */
  function Overwrite(c: seq<Byte>, at: nat, p: seq<Byte>): (d: seq<Byte>) {
    if p == [] then c
    else
      var wide := if at + |p| > |c| then c + ZeroBytes(at + |p| - |c|) else c;
      wide[..at] + p + wide[at + |p|..]
  }

  /** The byte at i when p has been written over c from at on. */
  function ByteAt(c: seq<Byte>, at: nat, p: seq<Byte>, i: nat): Byte {
    if at <= i < at + |p| then p[i - at] else if i < |c| then c[i] else 0
  }

  /** Byte by byte. */
  lemma OverwriteAt(c: seq<Byte>, at: nat, p: seq<Byte>)
    requires p != []
    ensures |Overwrite(c, at, p)| == if at + |p| > |c| then at + |p| else |c|
    ensures forall i :: 0 <= i < |Overwrite(c, at, p)| ==> Overwrite(c, at, p)[i] == ByteAt(c, at, p, i)
  {}

  lemma OverwriteNothing(c: seq<Byte>, at: nat)
    ensures Overwrite(c, at, []) == c
  {}

  /** Writing in two pieces is writing at once. */
  lemma OverwriteTwice(c: seq<Byte>, at: nat, p: seq<Byte>, q: seq<Byte>)
    ensures Overwrite(Overwrite(c, at, p), at + |p|, q) == Overwrite(c, at, p + q)
  {
    hide Overwrite, ByteAt;
    if p == [] {
      OverwriteNothing(c, at);
      assert p + q == q;
    } else if q == [] {
      OverwriteNothing(Overwrite(c, at, p), at + |p|);
      assert p + q == p;
    } else {
      var d := Overwrite(c, at, p);
      OverwriteAt(c, at, p);
      OverwriteAt(d, at + |p|, q);
      OverwriteAt(c, at, p + q);
      var a, b := Overwrite(d, at + |p|, q), Overwrite(c, at, p + q);
      forall i | 0 <= i < |a|
        ensures a[i] == b[i]
      {
        ByteTwice(c, at, p, d, q, i);
      }
      assert a == b;
    }
  }

  lemma ByteTwice(c: seq<Byte>, at: nat, p: seq<Byte>, d: seq<Byte>, q: seq<Byte>, i: nat)
    requires |d| >= at + |p| && |d| >= |c| && (|d| == |c| || |d| == at + |p|)
    requires i < |d| ==> d[i] == ByteAt(c, at, p, i)
    ensures ByteAt(d, at + |p|, q, i) == ByteAt(c, at, p + q, i)
  {}

  /** The file after a write at its position. */
  function Written(v: View, p: seq<Byte>): View {
    v.(contents := Overwrite(v.contents, v.pos, p), pos := v.pos + |p|)
  }

  lemma WrittenNothing(v: View)
    ensures Written(v, []) == v
  {}

  lemma WrittenTwice(v: View, p: seq<Byte>, q: seq<Byte>)
    ensures Written(Written(v, p), q) == Written(v, p + q)
  {
    hide Overwrite;
    OverwriteTwice(v.contents, v.pos, p, q);
  }

  /** How many bytes there are to read. */
  function Left(c: seq<Byte>, pos: nat): nat { if pos < |c| then |c| - pos else 0 }

  /** The n bytes from pos on. */
  function Slice(c: seq<Byte>, pos: nat, n: nat): (s: seq<Byte>)
    requires n <= Left(c, pos)
    ensures |s| == n
  {
    if n == 0 then [] else c[pos..pos + n]
  }

  lemma SliceIs(c: seq<Byte>, pos: nat, n: nat)
    requires n <= Left(c, pos)
    ensures n > 0 ==> pos + n <= |c| && Slice(c, pos, n) == c[pos..pos + n]
  {}

  lemma SliceTwice(c: seq<Byte>, pos: nat, n: nat, m: nat)
    requires n + m <= Left(c, pos)
    ensures Slice(c, pos, n) + Slice(c, pos + n, m) == Slice(c, pos, n + m)
  {}

  /** Where a seek asks to go. */
  function Target(c: seq<Byte>, pos: nat, off: int, whence: int): int {
    if whence == 0 then off else if whence == 1 then pos + off else |c| + off
  }

  predicate CanSeek(c: seq<Byte>, pos: nat, off: int, whence: int) {
    0 <= whence <= 2 && Target(c, pos, off, whence) >= 0
  }

  // ---- the operating system ----

  /** A file handle. Calls do not fail, but they may do only a part of what they are asked. */
  class Device {
    var contents: seq<Byte>
    var position: nat

    constructor (c: seq<Byte>)
      ensures contents == c && position == 0
    {
      contents, position := c, 0;
    }

    method WriteFile(p: seq<Byte>) returns (put: nat)
      requires p != []
      modifies this
      ensures 0 < put <= |p| && position == old(position) + put
      ensures contents == Overwrite(old(contents), old(position), p[..put])
    {
      put :| 0 < put <= |p|;
      contents, position := Overwrite(contents, position, p[..put]), position + put;
    }

    method ReadFile(dst: array<Byte>, at: nat, n: nat) returns (got: nat)
      requires n > 0 && at + n <= dst.Length
      modifies this`position, dst
      ensures got <= n && got <= Left(contents, old(position)) && position == old(position) + got
      ensures got == 0 <==> Left(contents, old(position)) == 0
      ensures dst[at..at + got] == Slice(contents, old(position), got)
      ensures dst[..at] == old(dst[..at])
    {
      var left := Left(contents, position);
      got := 0;
      if left > 0 {
        got :| 0 < got <= n && got <= left;
        ghost var was := dst[..at];
        for i := 0 to got
          invariant dst[..at] == was && position == old(position)
          invariant dst[at..at + i] == contents[position..position + i]
        {
          dst[at + i] := contents[position + i];
        }
      }
      position := position + got;
    }

    method SetFilePointer(off: int, whence: int) returns (ok: bool)
      modifies this`position
      ensures ok == CanSeek(contents, old(position), off, whence)
      ensures position == if ok then Target(contents, old(position), off, whence) else old(position)
    {
      ok := CanSeek(contents, position, off, whence);
      if ok {
        position := Target(contents, position, off, whence);
      }
    }
  }
}
