/** Edit distance: two rows of a table, after trimming what the strings share at both ends. */
module Levenshtein {

  function Min(a: int, b: int): int {
    if a < b then a else b
  }

  /** The recursive edit distance, by the last characters. */
  function Distance(a: string, b: string): (d: nat)
    decreases |a| + |b|
  {
    if a == [] then |b|
    else if b == [] then |a|
    else
      var a', b' := a[..|a| - 1], b[..|b| - 1];
      Min(Min(Distance(a, b') + 1, Distance(a', b) + 1), Distance(a', b') + if a[|a| - 1] == b[|b| - 1] then 0 else 1)
  }

  // ---------- the distance is the least cost of an edit script ----------

  datatype Edit = Keep | Substitute | Insert | Delete

  /** The script turns a into b. */
  predicate Turns(s: seq<Edit>, a: string, b: string)
    decreases |s|
  {
    if s == [] then a == [] && b == []
    else
      var r := s[..|s| - 1];
      match s[|s| - 1]
      case Insert => b != [] && Turns(r, a, b[..|b| - 1])
      case Delete => a != [] && Turns(r, a[..|a| - 1], b)
      case Keep => a != [] && b != [] && a[|a| - 1] == b[|b| - 1] && Turns(r, a[..|a| - 1], b[..|b| - 1])
      case Substitute => a != [] && b != [] && Turns(r, a[..|a| - 1], b[..|b| - 1])
  }

  function Cost(s: seq<Edit>): nat {
    if s == [] then 0 else Cost(s[..|s| - 1]) + if s[|s| - 1] == Keep then 0 else 1
  }

  /** Every script that turns a into b costs at least the distance. */
  lemma {:induction false} NoCheaper(s: seq<Edit>, a: string, b: string)
    requires Turns(s, a, b)
    ensures Distance(a, b) <= Cost(s)
    decreases |s|
  {
    if s != [] {
      var r := s[..|s| - 1];
      match s[|s| - 1]
      case Insert =>
        NoCheaper(r, a, b[..|b| - 1]);
      case Delete =>
        NoCheaper(r, a[..|a| - 1], b);
      case Keep =>
        NoCheaper(r, a[..|a| - 1], b[..|b| - 1]);
      case Substitute =>
        NoCheaper(r, a[..|a| - 1], b[..|b| - 1]);
    }
  }

  /** Some script costs just the distance. */
  lemma {:induction false} Achieved(a: string, b: string) returns (s: seq<Edit>)
    ensures Turns(s, a, b) && Cost(s) == Distance(a, b)
    decreases |a| + |b|
  {
    if a == [] && b == [] {
      s := [];
    } else if b != [] && (a == [] || Distance(a, b) == Distance(a, b[..|b| - 1]) + 1) {
      s := Achieved(a, b[..|b| - 1]);
      s := s + [Insert];
    } else if a != [] && (b == [] || Distance(a, b) == Distance(a[..|a| - 1], b) + 1) {
      s := Achieved(a[..|a| - 1], b);
      s := s + [Delete];
    } else {
      s := Achieved(a[..|a| - 1], b[..|b| - 1]);
      s := s + [if a[|a| - 1] == b[|b| - 1] then Keep else Substitute];
    }
  }

  // ---------- the distance is a metric ----------

  lemma {:induction false} Symmetric(a: string, b: string)
    ensures Distance(a, b) == Distance(b, a)
    decreases |a| + |b|
  {
    if a != [] && b != [] {
      Symmetric(a, b[..|b| - 1]);
      Symmetric(a[..|a| - 1], b);
      Symmetric(a[..|a| - 1], b[..|b| - 1]);
    }
  }

  lemma {:induction false} ZeroIsEqual(a: string, b: string)
    ensures Distance(a, b) == 0 <==> a == b
    decreases |a| + |b|
  {
    if a != [] && b != [] {
      var a', b' := a[..|a| - 1], b[..|b| - 1];
      assert a == a' + [a[|a| - 1]] && b == b' + [b[|b| - 1]];
      ZeroIsEqual(a', b');
    }
  }

  /** Dropping a last character changes the distance by at most one. */
  lemma {:induction false} DropLast(a: string, b: string)
    requires b != []
    ensures Distance(a, b[..|b| - 1]) <= Distance(a, b) + 1
    ensures Distance(a, b) <= Distance(a, b[..|b| - 1]) + 1
    decreases |a|
  {
    if a != [] {
      DropLast(a[..|a| - 1], b);
    }
  }

  lemma {:induction false} LengthBound(a: string, b: string)
    ensures |a| - |b| <= Distance(a, b) && |b| - |a| <= Distance(a, b) <= |a| + |b|
    decreases |a| + |b|
  {
    if a != [] && b != [] {
      LengthBound(a, b[..|b| - 1]);
      LengthBound(a[..|a| - 1], b);
      LengthBound(a[..|a| - 1], b[..|b| - 1]);
    }
  }

  lemma {:induction false} Triangle(a: string, b: string, c: string)
    ensures Distance(a, c) <= Distance(a, b) + Distance(b, c)
    decreases |a| + |b| + |c|
  {
    LengthBound(a, b);
    LengthBound(b, c);
    LengthBound(a, c);
    if a != [] && b != [] && c != [] {
      var a', b', c' := a[..|a| - 1], b[..|b| - 1], c[..|c| - 1];
      if Distance(a, b) == Distance(a', b) + 1 {
        Triangle(a', b, c);
      } else if Distance(b, c) == Distance(b, c') + 1 {
        Triangle(a, b, c');
      } else if Distance(a, b) == Distance(a, b') + 1 {
        Triangle(a, b', c);
        Triangle(a, b', c');
      } else {
        Triangle(a', b', c);
        Triangle(a', b', c');
      }
    }
  }

  // ---------- trimming ----------

  /** A common first character does not count. */
  lemma {:induction false} TrimFirst(x: char, a: string, b: string)
    ensures Distance([x] + a, [x] + b) == Distance(a, b)
    decreases |a| + |b|
  {
    var p, q := [x] + a, [x] + b;
    if a != [] {
      assert p[..|p| - 1] == [x] + a[..|a| - 1];
      TrimFirst(x, a[..|a| - 1], b);
    } else {
      assert p[..|p| - 1] == [];
    }
    if b != [] {
      assert q[..|q| - 1] == [x] + b[..|b| - 1];
      TrimFirst(x, a, b[..|b| - 1]);
    } else {
      assert q[..|q| - 1] == [];
    }
    if a != [] && b != [] {
      TrimFirst(x, a[..|a| - 1], b[..|b| - 1]);
    }
  }

  /** A common last character does not count. */
  lemma {:induction false} TrimLast(a: string, b: string)
    requires a != [] && b != [] && a[|a| - 1] == b[|b| - 1]
    ensures Distance(a, b) == Distance(a[..|a| - 1], b[..|b| - 1])
  {
    var a', b' := a[..|a| - 1], b[..|b| - 1];
    DropLast(a', b);
    Symmetric(a, b');
    Symmetric(a', b');
    DropLast(b', a);
  }

  // ---------- the program ----------

  /** The length of the common beginning. */
  method SkipCommon(a: string, b: string) returns (n: nat)
    ensures n <= |a| && n <= |b| && a[..n] == b[..n]
    ensures n < |a| && n < |b| ==> a[n] != b[n]
    ensures Distance(a[n..], b[n..]) == Distance(a, b)
  {
    hide Distance;
    n := 0;
    assert a[0..] == a && b[0..] == b;
    while n < |a| && n < |b| && a[n] == b[n]
      invariant n <= |a| && n <= |b| && a[..n] == b[..n]
      invariant Distance(a[n..], b[n..]) == Distance(a, b)
    {
      assert a[n..] == [a[n]] + a[n + 1..] && b[n..] == [b[n]] + b[n + 1..];
      TrimFirst(a[n], a[n + 1..], b[n + 1..]);
      n := n + 1;
    }
  }

  /** A cell of the table from its three neighbours. */
  lemma CellFrom(x: string, y: string, i: nat, j: nat)
    requires i < |x| && j < |y|
    ensures Distance(x[..i + 1], y[..j + 1])
         == Min(Min(Distance(x[..i + 1], y[..j]) + 1, Distance(x[..i], y[..j + 1]) + 1),
                Distance(x[..i], y[..j]) + if x[i] == y[j] then 0 else 1)
  {
    var a, b := x[..i + 1], y[..j + 1];
    assert a[..|a| - 1] == x[..i] && b[..|b| - 1] == y[..j] && a[|a| - 1] == x[i] && b[|b| - 1] == y[j];
  }

  lemma FirstColumn(x: string, y: string, i: nat)
    requires i < |x|
    ensures Distance(x[..i + 1], y[..0]) == Distance(x[..i], y[..0]) + 1
  {
  }

  /** One row of the table from the row above it. */
  method NextRow(x: string, y: string, i: nat, cur: array<nat>, next: array<nat>) returns (d: nat)
    requires i < |x| && |y| > 0 && cur.Length == next.Length == |y| + 1 && cur != next
    requires forall j :: 0 <= j <= |y| ==> cur[j] == Distance(x[..i], y[..j])
    modifies next
    ensures forall j :: 0 <= j <= |y| ==> next[j] == Distance(x[..i + 1], y[..j])
    ensures d == next[|y|]
  {
    hide Distance;
    FirstColumn(x, y, i);
    next[0] := cur[0] + 1;
    d := 0;
    for j := 0 to |y|
      invariant forall q :: 0 <= q <= j ==> next[q] == Distance(x[..i + 1], y[..q])
      invariant j > 0 ==> d == next[j]
    {
      CellFrom(x, y, i, j);
      var k := j + 1;
      var u, v := next[j] + 1, cur[k] + 1;
      var w := cur[j] + if x[i] == y[j] then 0 else 1;
      d := if u < v then u else v;
      d := if w < d then w else d;
      next[k] := d;
    }
  }

  method LevenshteinChars(a: string, b: string) returns (r: nat)
    ensures r == Distance(a, b)
  {
    hide Distance;
    var n := SkipCommon(a, b);
    var x, y := a[n..], b[n..];
    var lx, ly := |x|, |y|;
    LengthBound(x, y);
    if lx == 0 {
      return ly;
    }
    if ly == 0 {
      return lx;
    }
    Symmetric(x, y);
    if lx < ly {
      x, y, lx, ly := y, x, ly, lx;
    }
    assert x[..lx] == x && y[..ly] == y;
    while ly > 0 && x[lx - 1] == y[ly - 1]
      invariant 0 <= ly <= |y| && ly <= lx <= |x| && 0 < lx
      invariant ly == 0 || lx > 0
      invariant Distance(x[..lx], y[..ly]) == Distance(a, b)
    {
      TrimLast(x[..lx], y[..ly]);
      assert x[..lx][..lx - 1] == x[..lx - 1] && y[..ly][..ly - 1] == y[..ly - 1];
      lx, ly := lx - 1, ly - 1;
    }
    LengthBound(x[..lx], y[..ly]);
    if ly == 0 {
      return lx;
    }
    r := Table(x[..lx], y[..ly]);
  }

  /** The table, row by row in two arrays that change places. */
  method Table(x: string, y: string) returns (d: nat)
    requires x != [] && y != []
    ensures d == Distance(x, y)
  {
    var cur, next := new nat[|y| + 1](j => 0), new nat[|y| + 1](j => 0);
    for j := 1 to |y| + 1
      invariant cur[0] == 0 && forall q :: 1 <= q < j ==> cur[q] == q
    {
      cur[j] := j;
    }
    d := 0;
    for i := 0 to |x|
      invariant cur.Length == next.Length == |y| + 1 && cur != next && fresh(cur) && fresh(next)
      invariant forall j :: 0 <= j <= |y| ==> cur[j] == Distance(x[..i], y[..j])
      invariant i > 0 ==> d == cur[|y|]
    {
      d := NextRow(x, y, i, cur, next);
      cur, next := next, cur;
    }
    assert x[..|x|] == x && y[..|y|] == y;
  }

  /** The distance if it is below e, else -1. same says that both arguments are one object; a negative e, converted
      to an unsigned length, exceeds every difference of lengths. */
  method ELevenshteinChars(a: string, b: string, same: bool, e: int) returns (r: int)
    requires same ==> a == b
    requires |a| < 0x8000_0000_0000_0000 && |b| < 0x8000_0000_0000_0000
             && -0x8000_0000_0000_0000 <= e < 0x8000_0000_0000_0000
    ensures e > 0 ==> r == if Distance(a, b) < e then Distance(a, b) else -1
    ensures e <= 0 ==> r == if same && e != 0 then 0 else -1
  {
    ZeroIsEqual(a, b);
    LengthBound(a, b);
    if e == 0 {
      return -1;
    }
    if same {
      return 0;
    }
    var lx, ly := |a|, |b|;
    var dxy := if lx < ly then ly - lx else lx - ly;
    if dxy >= (if e < 0 then e + 0x1_0000_0000_0000_0000 else e) {
      return -1;
    }
    var d := LevenshteinChars(a, b);
    return if d < e then d else -1;
  }
}
