/** Edit scripts over a grid of two sequences, and the furthest-point argument behind the O(NP) algorithm.
    A script is a sequence of moves; on a grid with orientation u, the move u advances in b, the move -u advances
    in a, and 0 advances in both over a pair that matches. */
module EditScript {
  datatype Grid = Grid(a: seq<int>, b: seq<int>, eq: (int, int) -> bool, u: int) {
    predicate Valid() {
      |a| <= |b| && (u == 1 || u == -1)
    }

    function Delta(): int {
      |b| - |a|
    }

    /** The cell (x, y) is followed by a diagonal edge. */
    predicate Match(x: int, y: int) {
      0 <= x < |a| && 0 <= y < |b| && eq(a[x], b[y])
    }
  }

  /** Reading the script from its start consumes exactly xs and ys: 1 takes from ys, -1 drops from xs, 0 matches. */
  predicate Reads(s: seq<int>, xs: seq<int>, ys: seq<int>, eq: (int, int) -> bool)
    decreases |s|
  {
    if s == [] then xs == [] && ys == []
    else if s[0] == 1 then ys != [] && Reads(s[1..], xs, ys[1..], eq)
    else if s[0] == -1 then xs != [] && Reads(s[1..], xs[1..], ys, eq)
    else s[0] == 0 && xs != [] && ys != [] && eq(xs[0], ys[0]) && Reads(s[1..], xs[1..], ys[1..], eq)
  }

  /** The script leads from the origin to the point (x, y) of the grid. */
  predicate Leads(g: Grid, s: seq<int>, x: int, y: int)
    decreases |s|
  {
    if s == [] then x == 0 && y == 0
    else
      var r := s[..|s| - 1];
      var l := s[|s| - 1];
      if l == g.u then 0 < y <= |g.b| && Leads(g, r, x, y - 1)
      else if l == -g.u then 0 < x <= |g.a| && Leads(g, r, x - 1, y)
      else l == 0 && g.Match(x - 1, y - 1) && Leads(g, r, x - 1, y - 1)
  }

  function Count(s: seq<int>, v: int): nat {
    if s == [] then 0 else Count(s[..|s| - 1], v) + if s[|s| - 1] == v then 1 else 0
  }

  /** Insertions plus deletions. */
  function Edits(s: seq<int>): nat {
    Count(s, 1) + Count(s, -1)
  }

  function Max0(d: int): nat {
    if d > 0 then d else 0
  }

  /** The compressed distance of a script ending on diagonal k: the drops made, plus those forced later. */
  function Cost(g: Grid, s: seq<int>, k: int): nat {
    Count(s, -g.u) + Max0(k - g.Delta())
  }

  lemma {:induction false} LeadsInGrid(g: Grid, s: seq<int>, x: int, y: int)
    requires g.Valid() && Leads(g, s, x, y)
    ensures 0 <= x <= |g.a| && 0 <= y <= |g.b|
    ensures y - x == Count(s, g.u) - Count(s, -g.u)
    ensures x == Count(s, 0) + Count(s, -g.u)
    decreases |s|
  {
    if s != [] {
      var r := s[..|s| - 1];
      var l := s[|s| - 1];
      if l == g.u {
        LeadsInGrid(g, r, x, y - 1);
      } else if l == -g.u {
        LeadsInGrid(g, r, x - 1, y);
      } else {
        LeadsInGrid(g, r, x - 1, y - 1);
      }
    }
  }

  /** The furthest row stored for diagonal k in the array of a grid, offset by |a| + 1. */
  function At(g: Grid, f: seq<int>, k: int): int
    requires |f| == |g.a| + |g.b| + 3
    requires -|g.a| - 1 <= k <= |g.b| + 1
  {
    f[k + |g.a| + 1]
  }

  /** No script of compressed distance at most p gets past the rows stored in f. */
  ghost predicate Dominates(g: Grid, f: seq<int>, p: int) {
    && |f| == |g.a| + |g.b| + 3
    && forall s, x, y :: Leads(g, s, x, y) && 0 <= x <= |g.a| && 0 <= y <= |g.b| && Cost(g, s, y - x) <= p
                         ==> y <= At(g, f, y - x)
  }

  /** What one round does to diagonal k: f is the array after the round, o the array before. */
  predicate Closed(g: Grid, o: seq<int>, f: seq<int>, k: int)
    requires |o| == |f| == |g.a| + |g.b| + 3
    requires -|g.a| <= k <= |g.b|
  {
    && At(g, f, k) >= At(g, if k <= g.Delta() then f else o, k - 1) + 1
    && At(g, f, k) >= At(g, if k < g.Delta() then o else f, k + 1)
    && !g.Match(At(g, f, k) - k, At(g, f, k))
  }

  /** A round whose diagonals are all closed dominates one compressed step further. */
  lemma {:induction false} RoundDominates(g: Grid, o: seq<int>, f: seq<int>, p: int)
    requires g.Valid() && 0 <= p <= |g.a|
    requires Dominates(g, o, p - 1)
    requires |f| == |g.a| + |g.b| + 3
    requires forall k :: -|g.a| - 1 <= k <= |g.b| + 1 ==> At(g, f, k) >= -1
    requires forall k: int :: -p <= k <= g.Delta() + p ==> Closed(g, o, f, k)
    ensures Dominates(g, f, p)
  {
    forall s, x, y | Leads(g, s, x, y) && 0 <= x <= |g.a| && 0 <= y <= |g.b| && Cost(g, s, y - x) <= p
      ensures y <= At(g, f, y - x)
    {
      ScriptBounded(g, o, f, p, s, x, y);
    }
  }

  /** Instance of domination for one script. */
  lemma BoundedBy(g: Grid, f: seq<int>, p: int, s: seq<int>, x: int, y: int)
    requires g.Valid() && Dominates(g, f, p) && Leads(g, s, x, y) && Cost(g, s, y - x) <= p
    requires 0 <= x <= |g.a| && 0 <= y <= |g.b|
    ensures y <= At(g, f, y - x)
  {
  }

  lemma ClosedAt(g: Grid, o: seq<int>, f: seq<int>, k: int)
    requires |o| == |f| == |g.a| + |g.b| + 3 && -|g.a| <= k <= |g.b| && Closed(g, o, f, k)
    ensures At(g, f, k) >= At(g, if k <= g.Delta() then f else o, k - 1) + 1
    ensures At(g, f, k) >= At(g, if k < g.Delta() then o else f, k + 1)
    ensures !g.Match(At(g, f, k) - k, At(g, f, k))
  {
  }

  lemma {:induction false} ScriptBounded(g: Grid, o: seq<int>, f: seq<int>, p: int, s: seq<int>, x: int, y: int)
    requires g.Valid() && 0 <= p <= |g.a|
    requires Dominates(g, o, p - 1)
    requires |f| == |o| == |g.a| + |g.b| + 3
    requires forall k :: -|g.a| - 1 <= k <= |g.b| + 1 ==> At(g, f, k) >= -1
    requires forall k: int :: -p <= k <= g.Delta() + p ==> Closed(g, o, f, k)
    requires 0 <= x <= |g.a| && 0 <= y <= |g.b|
    requires Leads(g, s, x, y) && Cost(g, s, y - x) <= p
    ensures y <= At(g, f, y - x)
    decreases |s|
  {
    hide Dominates, Closed;
    LeadsInGrid(g, s, x, y);
    var k := y - x;
    ClosedAt(g, o, f, k);
    if s == [] {
      assert At(g, f, -1) >= -1;
    } else {
      var r := s[..|s| - 1];
      var l := s[|s| - 1];
      if l == g.u {
        if k <= g.Delta() {
          ScriptBounded(g, o, f, p, r, x, y - 1);
        } else {
          BoundedBy(g, o, p - 1, r, x, y - 1);
        }
      } else if l == -g.u {
        if k >= g.Delta() {
          ScriptBounded(g, o, f, p, r, x - 1, y);
        } else {
          BoundedBy(g, o, p - 1, r, x - 1, y);
        }
      } else {
        ScriptBounded(g, o, f, p, r, x - 1, y - 1);
      }
    }
  }

  /** The script that drops all of a and then takes all of b. */
  function DropTake(g: Grid, x: nat, y: nat): (s: seq<int>)
    decreases x + y
  {
    if y > 0 then DropTake(g, x, y - 1) + [g.u]
    else if x > 0 then DropTake(g, x - 1, y) + [-g.u]
    else []
  }

  lemma {:induction false} DropTakeLeads(g: Grid, x: nat, y: nat)
    requires g.Valid() && x <= |g.a| && y <= |g.b|
    ensures Leads(g, DropTake(g, x, y), x, y) && Count(DropTake(g, x, y), -g.u) == x
    decreases x + y
  {
    var s := DropTake(g, x, y);
    if y > 0 {
      DropTakeLeads(g, x, y - 1);
      assert s[..|s| - 1] == DropTake(g, x, y - 1);
    } else if x > 0 {
      DropTakeLeads(g, x - 1, y);
      assert s[..|s| - 1] == DropTake(g, x - 1, y);
    }
  }

  /** Reading a script forwards from (x, y) extends one that led there. */
  lemma {:induction false} ReadsLeads(xs: seq<int>, ys: seq<int>, eq: (int, int) -> bool, s: seq<int>, n: nat, x: nat,
                                      y: nat)
    requires n <= |s| && x <= |xs| && y <= |ys|
    requires Leads(Grid(xs, ys, eq, 1), s[..n], x, y)
    ensures Reads(s[n..], xs[x..], ys[y..], eq) <==> Leads(Grid(xs, ys, eq, 1), s, |xs|, |ys|)
    decreases |s| - n
  {
    hide Leads;
    var g := Grid(xs, ys, eq, 1);
    if n == |s| {
      assert s[..n] == s;
      EndUnique(g, s, x, y, |xs|, |ys|);
    } else {
      StepLeads(g, s, n, x, y);
      assert s[n..][1..] == s[n + 1..];
      assert y < |ys| ==> ys[y..][1..] == ys[y + 1..];
      assert x < |xs| ==> xs[x..][1..] == xs[x + 1..];
      if s[n] == 1 && y < |ys| {
        ReadsLeads(xs, ys, eq, s, n + 1, x, y + 1);
      } else if s[n] == -1 && x < |xs| {
        ReadsLeads(xs, ys, eq, s, n + 1, x + 1, y);
      } else if s[n] == 0 && g.Match(x, y) {
        ReadsLeads(xs, ys, eq, s, n + 1, x + 1, y + 1);
      }
    }
  }

  /** The move made at (x, y), if the grid allows it, leads on; if it does not, the script leads nowhere. */
  lemma {:induction false} StepLeads(g: Grid, s: seq<int>, n: nat, x: nat, y: nat)
    requires g.u == 1 && n < |s| && x <= |g.a| && y <= |g.b| && Leads(g, s[..n], x, y)
    ensures if s[n] == 1 && y < |g.b| then Leads(g, s[..n + 1], x, y + 1)
            else if s[n] == -1 && x < |g.a| then Leads(g, s[..n + 1], x + 1, y)
            else if s[n] == 0 && g.Match(x, y) then Leads(g, s[..n + 1], x + 1, y + 1)
            else !Leads(g, s, |g.a|, |g.b|)
  {
    assert s[..n + 1][..n] == s[..n] && s[..n + 1][n] == s[n] && s[..n + 1] == s[..n] + [s[n]];
    if Leads(g, s, |g.a|, |g.b|) {
      PrefixLeads(g, s, |g.a|, |g.b|, n + 1);
      var i, j :| Leads(g, s[..n + 1], i, j);
      StepUnique(g, s[..n], s[n], x, y, i, j);
    }
  }

  /** A script leads to one point only. */
  lemma {:induction false} EndUnique(g: Grid, s: seq<int>, x: int, y: int, i: int, j: int)
    requires g.u != 0 && Leads(g, s, x, y)
    ensures Leads(g, s, i, j) <==> x == i && y == j
    decreases |s|
  {
    if s != [] {
      var r, l := s[..|s| - 1], s[|s| - 1];
      if l == g.u {
        EndUnique(g, r, x, y - 1, i, j - 1);
      } else if l == -g.u {
        EndUnique(g, r, x - 1, y, i - 1, j);
      } else {
        EndUnique(g, r, x - 1, y - 1, i - 1, j - 1);
      }
    }
  }

  lemma {:induction false} StepUnique(g: Grid, r: seq<int>, l: int, x: int, y: int, i: int, j: int)
    requires g.u == 1 && Leads(g, r, x, y) && Leads(g, r + [l], i, j)
    ensures if l == 1 then y < |g.b| else if l == -1 then x < |g.a| else l == 0 && g.Match(x, y)
  {
    assert (r + [l])[..|r|] == r;
    if l == 1 {
      EndUnique(g, r, x, y, i, j - 1);
    } else if l == -1 {
      EndUnique(g, r, x, y, i - 1, j);
    } else {
      EndUnique(g, r, x, y, i - 1, j - 1);
    }
  }

  lemma {:induction false} PrefixLeads(g: Grid, s: seq<int>, x: int, y: int, n: nat)
    requires n <= |s| && Leads(g, s, x, y)
    ensures exists i, j :: Leads(g, s[..n], i, j)
    decreases |s|
  {
    if n == |s| {
      assert s[..n] == s;
    } else {
      var r, l := s[..|s| - 1], s[|s| - 1];
      assert r[..n] == s[..n];
      if l == g.u {
        PrefixLeads(g, r, x, y - 1, n);
      } else if l == -g.u {
        PrefixLeads(g, r, x - 1, y, n);
      } else {
        PrefixLeads(g, r, x - 1, y - 1, n);
      }
    }
  }

  /** A forward reading of both sequences is a path across the grid. */
  lemma ReadsIsLeads(xs: seq<int>, ys: seq<int>, eq: (int, int) -> bool, s: seq<int>)
    ensures Reads(s, xs, ys, eq) <==> Leads(Grid(xs, ys, eq, 1), s, |xs|, |ys|)
  {
    assert s[..0] == [] && s[0..] == s && xs[0..] == xs && ys[0..] == ys;
    ReadsLeads(xs, ys, eq, s, 0, 0, 0);
  }

  /** Exchanging the sequences and the orientation of a grid leaves every script as it is. */
  lemma {:induction false} FlipLeads(xs: seq<int>, ys: seq<int>, eq: (int, int) -> bool, s: seq<int>, x: int, y: int)
    ensures Leads(Grid(xs, ys, (p, q) => eq(q, p), 1), s, x, y) <==> Leads(Grid(ys, xs, eq, -1), s, y, x)
    decreases |s|
  {
    if s != [] {
      var r := s[..|s| - 1];
      FlipLeads(xs, ys, eq, r, x, y - 1);
      FlipLeads(xs, ys, eq, r, x - 1, y);
      FlipLeads(xs, ys, eq, r, x - 1, y - 1);
    }
  }

  /** c lists the index pairs of a common subsequence of xs and ys, in increasing order. */
  ghost predicate IsCommon(c: seq<(int, int)>, xs: seq<int>, ys: seq<int>, eq: (int, int) -> bool) {
    && (forall i :: 0 <= i < |c| ==> 0 <= c[i].0 < |xs| && 0 <= c[i].1 < |ys| && eq(xs[c[i].0], ys[c[i].1]))
    && (forall i, j :: 0 <= i < j < |c| ==> c[i].0 < c[j].0 && c[i].1 < c[j].1)
  }

  /** Every script carries a common subsequence as long as its matches are many. */
  lemma {:induction false} ScriptToCommon(g: Grid, s: seq<int>, x: int, y: int) returns (c: seq<(int, int)>)
    requires g.u == 1 && Leads(g, s, x, y)
    ensures IsCommon(c, g.a, g.b, g.eq) && |c| == Count(s, 0)
    ensures forall i :: 0 <= i < |c| ==> c[i].0 < x && c[i].1 < y
    decreases |s|
  {
    if s == [] {
      c := [];
    } else {
      var r, l := s[..|s| - 1], s[|s| - 1];
      if l == 1 {
        c := ScriptToCommon(g, r, x, y - 1);
      } else if l == -1 {
        c := ScriptToCommon(g, r, x - 1, y);
      } else {
        c := ScriptToCommon(g, r, x - 1, y - 1);
        c := c + [(x - 1, y - 1)];
      }
    }
  }

  /** Every common subsequence is the matches of some script. */
  lemma {:induction false} CommonToScript(g: Grid, c: seq<(int, int)>, x: int, y: int) returns (s: seq<int>)
    requires g.u == 1 && IsCommon(c, g.a, g.b, g.eq) && 0 <= x <= |g.a| && 0 <= y <= |g.b|
    requires forall i :: 0 <= i < |c| ==> c[i].0 < x && c[i].1 < y
    ensures Leads(g, s, x, y) && Count(s, 0) == |c|
    decreases x + y
  {
    if x == 0 && y == 0 {
      s := [];
    } else if c != [] && c[|c| - 1] == (x - 1, y - 1) {
      s := CommonToScript(g, c[..|c| - 1], x - 1, y - 1);
      s := s + [0];
    } else if x > 0 && (c == [] || c[|c| - 1].0 < x - 1) {
      s := CommonToScript(g, c, x - 1, y);
      s := s + [-1];
    } else {
      s := CommonToScript(g, c, x, y - 1);
      s := s + [1];
    }
  }
}
