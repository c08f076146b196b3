/** "Did you mean" of src/C99/Diag.hs: the edit distance by one rolling row, and the nearest candidate. */
module EditDistance {
  import opened Options

  // ---- the computation ----

  function Min(a: int, b: int): int { if a < b then a else b }

  function Min3(a: int, b: int, c: int): int { Min(a, Min(b, c)) }

  function Cost(x: char, y: char): nat { if x == y then 0 else 1 }

  function Map(f: char -> char, s: string): string { seq(|s|, i requires 0 <= i < |s| => f(s[i])) }

  /** The cells of the next row from the i-th on; z is the one before. */
  function Cells(s: string, prev: seq<int>, c: char, i: nat, z: int): seq<int>
    requires i <= |s| && |prev| == |s| + 1
    decreases |s| - i
  {
    if i == |s| then []
    else
      var z' := Min3(prev[i + 1] + 1, z + 1, prev[i] + Cost(c, s[i]));
      [z'] + Cells(s, prev, c, i + 1, z')
  }

  function NextRow(s: string, prev: seq<int>, c: char): (row: seq<int>)
    requires |prev| == |s| + 1
  {
    [prev[0] + 1] + Cells(s, prev, c, 0, prev[0] + 1)
  }

  lemma {:induction false} CellsLength(s: string, prev: seq<int>, c: char, i: nat, z: int)
    requires i <= |s| && |prev| == |s| + 1
    ensures |Cells(s, prev, c, i, z)| == |s| - i
    decreases |s| - i
  {
    if i < |s| {
      CellsLength(s, prev, c, i + 1, Min3(prev[i + 1] + 1, z + 1, prev[i] + Cost(c, s[i])));
    }
  }

  /** The fold over the second string, one row behind. */
  function Rows(s: string, row: seq<int>, t: string): (last: seq<int>)
    requires |row| == |s| + 1
    ensures |last| == |s| + 1
    decreases |t|
  {
    if t == "" then row
    else
      CellsLength(s, row, t[0], 0, row[0] + 1);
      Rows(s, NextRow(s, row, t[0]), t[1..])
  }

  function Upto(n: nat): seq<int> { seq(n + 1, i => i) }

  function Distance(lower: char -> char, a: string, b: string): int {
    var s, t := Map(lower, a), Map(lower, b);
    Rows(s, Upto(|s|), t)[|s|]
  }

  // ---- the reference: edit scripts ----

  /** Replace one character, by itself or another; insert one; delete one. */
  datatype Edit = Rep(gone: char, put: char) | Ins(put: char) | Del(gone: char)

  function Taken(x: Edit): string { if x.Ins? then "" else [x.gone] }

  function Given(x: Edit): string { if x.Del? then "" else [x.put] }

  function From(e: seq<Edit>): string { if e == [] then "" else Taken(e[0]) + From(e[1..]) }

  function To(e: seq<Edit>): string { if e == [] then "" else Given(e[0]) + To(e[1..]) }

  function EditCost(e: Edit): nat { if e.Rep? then Cost(e.gone, e.put) else 1 }

  function Total(e: seq<Edit>): nat { if e == [] then 0 else EditCost(e[0]) + Total(e[1..]) }

  /** n is the length of the shortest edit script from s to t. */
  ghost predicate IsDistance(s: string, t: string, n: int) {
    && (exists e :: From(e) == s && To(e) == t && Total(e) == n)
    && (forall e :: From(e) == s && To(e) == t ==> n <= Total(e))
  }

  lemma Assoc(a: string, b: string, c: string)
    ensures a + (b + c) == a + b + c
  {}

  lemma {:induction false} FromConcat(d: seq<Edit>, e: seq<Edit>)
    ensures From(d + e) == From(d) + From(e)
  {
    if d == [] {
      assert d + e == e && From(d) == "";
    } else {
      FromConcat(d[1..], e);
      assert (d + e)[1..] == d[1..] + e && (d + e)[0] == d[0];
      FromStep(d);
      FromStep(d + e);
      hide From, Taken;
      Assoc(Taken(d[0]), From(d[1..]), From(e));
    }
  }

  lemma FromStep(e: seq<Edit>)
    requires e != []
    ensures From(e) == Taken(e[0]) + From(e[1..])
  {}

  lemma {:induction false} ToConcat(d: seq<Edit>, e: seq<Edit>)
    ensures To(d + e) == To(d) + To(e)
  {
    if d == [] {
      assert d + e == e && To(d) == "";
    } else {
      ToConcat(d[1..], e);
      assert (d + e)[1..] == d[1..] + e && (d + e)[0] == d[0];
      ToStep(d);
      ToStep(d + e);
      hide To, Given;
      Assoc(Given(d[0]), To(d[1..]), To(e));
    }
  }

  lemma ToStep(e: seq<Edit>)
    requires e != []
    ensures To(e) == Given(e[0]) + To(e[1..])
  {}

  lemma {:induction false} TotalConcat(d: seq<Edit>, e: seq<Edit>)
    ensures Total(d + e) == Total(d) + Total(e)
  {
    if d == [] {
      assert d + e == e;
    } else {
      TotalConcat(d[1..], e);
      assert (d + e)[1..] == d[1..] + e;
    }
  }

  lemma ScriptConcat(d: seq<Edit>, e: seq<Edit>)
    ensures From(d + e) == From(d) + From(e) && To(d + e) == To(d) + To(e) && Total(d + e) == Total(d) + Total(e)
  {
    FromConcat(d, e);
    ToConcat(d, e);
    TotalConcat(d, e);
  }

  // ---- the recurrence ----

  /** The distance by its recurrence on last characters. */
  function Lev(s: string, t: string): nat
    decreases |s| + |t|
  {
    if s == "" then |t|
    else if t == "" then |s|
    else
      var s', t' := s[..|s| - 1], t[..|t| - 1];
      Min3(Lev(s', t) + 1, Lev(s, t') + 1, Lev(s', t') + Cost(s[|s| - 1], t[|t| - 1]))
  }

  /** One cell from the three around it. */
  lemma CellIs(s: string, prev: seq<int>, done: string, c: char, i: nat, z: int)
    requires i < |s| && |prev| == |s| + 1 && prev[i] == Lev(s[..i], done) && prev[i + 1] == Lev(s[..i + 1], done)
    requires z == Lev(s[..i], done + [c])
    ensures Min3(prev[i + 1] + 1, z + 1, prev[i] + Cost(c, s[i])) == Lev(s[..i + 1], done + [c])
  {
    var x, y := s[..i + 1], done + [c];
    assert x[..|x| - 1] == s[..i] && y[..|y| - 1] == done;
  }

  lemma {:induction false} CellsAre(s: string, prev: seq<int>, done: string, c: char, i: nat, z: int)
    requires i <= |s| && |prev| == |s| + 1 && (forall k :: 0 <= k <= |s| ==> prev[k] == Lev(s[..k], done))
    requires z == Lev(s[..i], done + [c])
    ensures var cells := Cells(s, prev, c, i, z);
            |cells| == |s| - i && forall k :: 0 <= k < |cells| ==> cells[k] == Lev(s[..i + 1 + k], done + [c])
    decreases |s| - i
  {
    hide Lev, Min3, Cost;
    if i < |s| {
      var z' := Min3(prev[i + 1] + 1, z + 1, prev[i] + Cost(c, s[i]));
      CellIs(s, prev, done, c, i, z);
      CellsAre(s, prev, done, c, i + 1, z');
      var rest := Cells(s, prev, c, i + 1, z');
      forall k | 0 <= k < |s| - i
        ensures ([z'] + rest)[k] == Lev(s[..i + 1 + k], done + [c])
      {
        if k > 0 { assert rest[k - 1] == Lev(s[..i + 2 + (k - 1)], done + [c]); }
      }
    }
  }

  lemma NextRowIs(s: string, row: seq<int>, done: string, c: char)
    requires |row| == |s| + 1 && forall k :: 0 <= k <= |s| ==> row[k] == Lev(s[..k], done)
    ensures var next := NextRow(s, row, c);
            |next| == |s| + 1 && forall k :: 0 <= k <= |s| ==> next[k] == Lev(s[..k], done + [c])
  {
    assert row[0] == Lev(s[..0], done) && s[..0] == "";
    assert row[0] + 1 == Lev(s[..0], done + [c]);
    hide Lev, Cells;
    CellsAre(s, row, done, c, 0, row[0] + 1);
    var next := NextRow(s, row, c);
    forall k | 0 <= k <= |s|
      ensures next[k] == Lev(s[..k], done + [c])
    {
      if k > 0 { assert next[k] == Cells(s, row, c, 0, row[0] + 1)[k - 1]; }
    }
  }

  /** Each row holds the distances of the prefixes of s to the part of t read so far. */
  lemma {:induction false} RowsAre(s: string, row: seq<int>, done: string, t: string)
    requires |row| == |s| + 1 && forall k :: 0 <= k <= |s| ==> row[k] == Lev(s[..k], done)
    ensures Rows(s, row, t)[|s|] == Lev(s, done + t)
    decreases |t|
  {
    hide Lev, NextRow;
    if t == "" {
      assert done + t == done && s[..|s|] == s;
    } else {
      NextRowIs(s, row, done, t[0]);
      RowsAre(s, NextRow(s, row, t[0]), done + [t[0]], t[1..]);
      assert done + [t[0]] + t[1..] == done + t;
    }
  }

  lemma DistanceIsLev(lower: char -> char, a: string, b: string)
    ensures Distance(lower, a, b) == Lev(Map(lower, a), Map(lower, b))
  {
    var s := Map(lower, a);
    assert forall k :: 0 <= k <= |s| ==> Lev(s[..k], "") == k;
    RowsAre(s, Upto(|s|), "", Map(lower, b));
    assert "" + Map(lower, b) == Map(lower, b);
  }

  // ---- the recurrence gives the shortest script ----

  lemma {:induction false} Insertions(t: string) returns (e: seq<Edit>)
    ensures From(e) == "" && To(e) == t && Total(e) == |t|
    decreases |t|
  {
    if t == "" {
      e := [];
    } else {
      var f := Insertions(t[1..]);
      e := [Ins(t[0])] + f;
    }
  }

  lemma {:induction false} Deletions(s: string) returns (e: seq<Edit>)
    ensures From(e) == s && To(e) == "" && Total(e) == |s|
    decreases |s|
  {
    if s == "" {
      e := [];
    } else {
      var f := Deletions(s[1..]);
      e := [Del(s[0])] + f;
    }
  }

  lemma OneEdit(x: Edit)
    ensures From([x]) == Taken(x) && To([x]) == Given(x)
    ensures Total([x]) == EditCost(x)
  {
    assert From([]) == "" && To([]) == "" && [x][1..] == [];
  }

  /** A script as long as the recurrence says. */
  lemma {:induction false} Script(s: string, t: string) returns (e: seq<Edit>)
    ensures From(e) == s && To(e) == t && Total(e) == Lev(s, t)
    decreases |s| + |t|
  {
    if s == "" {
      e := Insertions(t);
    } else if t == "" {
      e := Deletions(s);
    } else {
      var s', x, t', y := s[..|s| - 1], s[|s| - 1], t[..|t| - 1], t[|t| - 1];
      assert s == s' + [x] && t == t' + [y];
      var last, d;
      if Lev(s, t) == Lev(s', t) + 1 {
        d := Script(s', t);
        last := Del(x);
      } else if Lev(s, t) == Lev(s, t') + 1 {
        d := Script(s, t');
        last := Ins(y);
      } else {
        d := Script(s', t');
        last := Rep(x, y);
      }
      ScriptConcat(d, [last]);
      OneEdit(last);
      e := d + [last];
    }
  }

  /** No script is shorter. */
  lemma {:induction false} NoShorter(e: seq<Edit>)
    ensures Lev(From(e), To(e)) <= Total(e)
    decreases |e|
  {
    if e != [] {
      var d, x := e[..|e| - 1], e[|e| - 1];
      assert e == d + [x];
      ScriptConcat(d, [x]);
      OneEdit(x);
      NoShorter(d);
      LastStep(From(d), To(d), x);
    }
  }

  lemma LastStep(s: string, t: string, x: Edit)
    ensures Lev(s + Taken(x), t + Given(x)) <= Lev(s, t) + EditCost(x)
  {
    var s1, t1 := s + Taken(x), t + Given(x);
    match x
    case Rep(a, b) => assert s1[..|s1| - 1] == s && t1[..|t1| - 1] == t;
    case Ins(b) =>
      assert s1 == s && t1[..|t1| - 1] == t;
      if s == "" { assert Lev(s, t) == |t|; }
    case Del(a) =>
      assert t1 == t && s1[..|s1| - 1] == s;
      if t == "" { AllDeleted(s); }
  }

  lemma AllDeleted(s: string)
    ensures Lev(s, "") == |s|
  {}

  /** The distance computed by rows is the length of the shortest edit script between the folded strings. */
  lemma DistanceIsShortest(lower: char -> char, a: string, b: string)
    ensures IsDistance(Map(lower, a), Map(lower, b), Distance(lower, a, b))
  {
    var s, t := Map(lower, a), Map(lower, b);
    DistanceIsLev(lower, a, b);
    var e := Script(s, t);
    forall f | From(f) == s && To(f) == t
      ensures Lev(s, t) <= Total(f)
    {
      NoShorter(f);
    }
  }

  // ---- a metric ----

  function Inverse(e: seq<Edit>): seq<Edit> {
    if e == [] then []
    else
      var x := match e[0]
        case Rep(a, b) => Rep(b, a)
        case Ins(b) => Del(b)
        case Del(a) => Ins(a);
      [x] + Inverse(e[1..])
  }

  lemma {:induction false} InverseIs(e: seq<Edit>)
    ensures From(Inverse(e)) == To(e) && To(Inverse(e)) == From(e) && Total(Inverse(e)) == Total(e)
  {
    if e != [] { InverseIs(e[1..]); }
  }

  lemma Symmetric(lower: char -> char, a: string, b: string)
    ensures Distance(lower, a, b) == Distance(lower, b, a)
  {
    var s, t := Map(lower, a), Map(lower, b);
    DistanceIsLev(lower, a, b);
    DistanceIsLev(lower, b, a);
    var d := Script(s, t);
    var e := Script(t, s);
    InverseIs(d);
    InverseIs(e);
    NoShorter(Inverse(d));
    NoShorter(Inverse(e));
  }

  /** One script after another, as one script. */
  lemma {:induction false} Compose(d: seq<Edit>, e: seq<Edit>) returns (f: seq<Edit>)
    requires To(d) == From(e)
    ensures From(f) == From(d) && To(f) == To(e) && Total(f) <= Total(d) + Total(e)
    decreases |d| + |e|
  {
    if d != [] && d[0].Del? {
      var r := Compose(d[1..], e);
      f := [d[0]] + r;
    } else if e != [] && e[0].Ins? {
      var r := Compose(d, e[1..]);
      f := [e[0]] + r;
    } else if d == [] || e == [] {
      f := [];
    } else {
      assert To(d)[0] == d[0].put && From(e)[0] == e[0].gone;
      assert To(d)[1..] == To(d[1..]) && From(e)[1..] == From(e[1..]);
      var r := Compose(d[1..], e[1..]);
      if d[0].Ins? {
        f := if e[0].Del? then r else [Ins(e[0].put)] + r;
      } else {
        f := [if e[0].Del? then Del(d[0].gone) else Rep(d[0].gone, e[0].put)] + r;
      }
    }
  }

  lemma Triangle(lower: char -> char, a: string, b: string, c: string)
    ensures Distance(lower, a, c) <= Distance(lower, a, b) + Distance(lower, b, c)
  {
    DistanceIsLev(lower, a, b);
    DistanceIsLev(lower, b, c);
    DistanceIsLev(lower, a, c);
    var d := Script(Map(lower, a), Map(lower, b));
    var e := Script(Map(lower, b), Map(lower, c));
    var f := Compose(d, e);
    NoShorter(f);
  }

  /** Distance 0: the same but for case. */
  lemma ZeroIsSame(lower: char -> char, a: string, b: string)
    ensures Distance(lower, a, b) == 0 <==> Map(lower, a) == Map(lower, b)
  {
    var s, t := Map(lower, a), Map(lower, b);
    DistanceIsLev(lower, a, b);
    var e := Script(s, t);
    if Lev(s, t) == 0 { FreeKeeps(e); }
    if s == t {
      KeepAll(s);
      NoShorter(Keeps(s));
    }
  }

  lemma {:induction false} FreeKeeps(e: seq<Edit>)
    requires Total(e) == 0
    ensures From(e) == To(e)
  {
    if e != [] { FreeKeeps(e[1..]); }
  }

  function Keeps(s: string): seq<Edit> { if s == "" then [] else [Rep(s[0], s[0])] + Keeps(s[1..]) }

  lemma {:induction false} KeepAll(s: string)
    ensures From(Keeps(s)) == s && To(Keeps(s)) == s && Total(Keeps(s)) == 0
  {
    if s != "" { KeepAll(s[1..]); }
  }

  // ---- the nearest candidate ----

  function Threshold(name: string): int {
    var third := |name| / 3;
    var capped := if third < 3 then third else 3;
    if capped < 1 then 1 else capped
  }

  predicate InRange(lower: char -> char, name: string, c: string) {
    0 < Distance(lower, name, c) <= Threshold(name)
  }

  function Scored(lower: char -> char, name: string, cands: seq<string>): seq<(string, int)> {
    if cands == [] then []
    else (if InRange(lower, name, cands[0]) then [(cands[0], Distance(lower, name, cands[0]))] else [])
         + Scored(lower, name, cands[1..])
  }

  /** minimumBy on the second component: a later pair wins only if it is less. */
  function Least(best: (string, int), rest: seq<(string, int)>): (string, int)
    decreases |rest|
  {
    if rest == [] then best else Least(if best.1 > rest[0].1 then rest[0] else best, rest[1..])
  }

  function Closest(lower: char -> char, name: string, cands: seq<string>): Option<string> {
    var scored := Scored(lower, name, cands);
    if scored == [] then None else Some(Least(scored[0], scored[1..]).0)
  }

  lemma {:induction false} LeastIs(best: (string, int), rest: seq<(string, int)>)
    ensures Least(best, rest) == best || Least(best, rest) in rest
    ensures Least(best, rest).1 <= best.1 && forall p :: p in rest ==> Least(best, rest).1 <= p.1
    decreases |rest|
  {
    if rest != [] {
      var b := if best.1 > rest[0].1 then rest[0] else best;
      LeastIs(b, rest[1..]);
      forall p | p in rest
        ensures Least(best, rest).1 <= p.1
      {
        assert p == rest[0] || p in rest[1..];
      }
    }
  }

  lemma {:induction false} ScoredAre(lower: char -> char, name: string, cands: seq<string>)
    ensures forall p :: p in Scored(lower, name, cands) <==>
              p.0 in cands && InRange(lower, name, p.0) && p.1 == Distance(lower, name, p.0)
  {
    if cands != [] {
      ScoredAre(lower, name, cands[1..]);
      assert forall c :: c in cands <==> c == cands[0] || c in cands[1..];
    }
  }

  /** The suggestion is a candidate in range at the least distance; there is none exactly when no candidate is in
      range. */
  lemma ClosestIs(lower: char -> char, name: string, cands: seq<string>)
    ensures var r := Closest(lower, name, cands);
            && (r.None? <==> forall c :: c in cands ==> !InRange(lower, name, c))
            && (r.Some? ==> r.value in cands && InRange(lower, name, r.value))
            && (r.Some? ==> forall c :: c in cands && InRange(lower, name, c) ==>
                              Distance(lower, name, r.value) <= Distance(lower, name, c))
  {
    hide Distance;
    var scored := Scored(lower, name, cands);
    ScoredAre(lower, name, cands);
    if scored == [] {
      forall c | c in cands
        ensures !InRange(lower, name, c)
      {
        assert (c, Distance(lower, name, c)) !in scored;
      }
    } else {
      var p := Least(scored[0], scored[1..]);
      LeastIs(scored[0], scored[1..]);
      assert p in scored;
      forall c | c in cands && InRange(lower, name, c)
        ensures p.1 <= Distance(lower, name, c)
      {
        var q := (c, Distance(lower, name, c));
        assert q in scored;
        assert q == scored[0] || q in scored[1..];
      }
    }
  }
}
