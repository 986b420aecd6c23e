/** Grouping of entries by threshold: a forest of parent links in an array, and its recursive display. */
module Grouping {

  /** Entries are numbered from 1; metric takes positions from 0, and is negative for entries too far apart. */
  type Metric = (nat, nat) -> int

  predicate Near(metric: Metric, x: nat, y: nat)
    requires x > 0 && y > 0
  {
    if x < y then metric(x - 1, y - 1) >= 0 else x > y && metric(y - 1, x - 1) >= 0
  }

  /** x and y are joined by a chain of near entries among 1 .. n. */
  ghost predicate Chain(metric: Metric, n: nat, c: seq<nat>, x: nat, y: nat) {
    && c != [] && c[0] == x && c[|c| - 1] == y
    && (forall i :: 0 <= i < |c| ==> 1 <= c[i] <= n)
    && (forall i :: 0 <= i < |c| - 1 ==> Near(metric, c[i], c[i + 1]))
  }

  ghost predicate Joined(metric: Metric, n: nat, x: nat, y: nat) {
    exists c :: Chain(metric, n, c, x, y)
  }

  lemma JoinedSelf(metric: Metric, n: nat, x: nat)
    requires 1 <= x <= n
    ensures Joined(metric, n, x, x)
  {
    assert Chain(metric, n, [x], x, x);
  }

  lemma JoinedNear(metric: Metric, n: nat, x: nat, y: nat)
    requires 1 <= x <= n && 1 <= y <= n && Near(metric, x, y)
    ensures Joined(metric, n, x, y)
  {
    assert Chain(metric, n, [x, y], x, y);
  }

  lemma JoinedSymmetric(metric: Metric, n: nat, x: nat, y: nat)
    requires Joined(metric, n, x, y)
    ensures Joined(metric, n, y, x)
  {
    var c :| Chain(metric, n, c, x, y);
    var d := seq(|c|, i requires 0 <= i < |c| => c[|c| - 1 - i]);
    forall i | 0 <= i < |d| - 1
      ensures Near(metric, d[i], d[i + 1])
    {
      var j := |c| - 2 - i;
      assert Near(metric, c[j], c[j + 1]);
    }
    assert Chain(metric, n, d, y, x);
  }

  lemma JoinedTransitive(metric: Metric, n: nat, x: nat, y: nat, z: nat)
    requires Joined(metric, n, x, y) && Joined(metric, n, y, z)
    ensures Joined(metric, n, x, z)
  {
    var c :| Chain(metric, n, c, x, y);
    var d :| Chain(metric, n, d, y, z);
    assert Chain(metric, n, c + d[1..], x, z);
  }

  /** What the parent links mean: every entry has a root, and ranks grow along the links, so that no link closes a
      cycle. */
  datatype Shape = Shape(root: seq<nat>, rank: seq<nat>, bound: nat)

  ghost predicate Forest(p: seq<nat>, s: Shape) {
    && |p| == |s.root| == |s.rank| && |p| > 0
    && (forall x :: 1 <= x < |p| ==> p[x] < |p| && 1 <= s.root[x] < |p| && p[s.root[x]] == 0 && s.rank[x] <= s.bound)
    && (forall x :: 1 <= x < |p| && p[x] == 0 ==> s.root[x] == x)
    && (forall x :: 1 <= x < |p| && p[x] > 0 ==> s.root[x] == s.root[p[x]] && s.rank[x] < s.rank[p[x]])
  }

  /** The forest after root a was linked under root b. */
  ghost function Link(p: seq<nat>, s: Shape, a: nat, b: nat): Shape
    requires Forest(p, s) && 1 <= a < |p| && 1 <= b < |p|
  {
    Shape(seq(|p|, x requires 0 <= x < |p| => if s.root[x] == a then b else s.root[x]),
          s.rank[b := if s.rank[b] > s.rank[a] then s.rank[b] else s.rank[a] + 1], s.bound + 1)
  }

  lemma LinkForest(p: seq<nat>, s: Shape, a: nat, b: nat)
    requires Forest(p, s) && 1 <= a < |p| && 1 <= b < |p| && a != b && p[a] == 0 && p[b] == 0
    ensures Forest(p[a := b], Link(p, s, a, b))
  {
  }

  /** The parent links, and what they mean. */
  datatype Links = Links(p: seq<nat>, s: Shape)

  ghost function NoLinks(n: nat): (l: Links)
    ensures Forest(l.p, l.s) && |l.p| == n + 1
  {
    Links(seq(n + 1, _ => 0), Shape(seq(n + 1, x => x), seq(n + 1, _ => 0), 0))
  }

  /** A near pair in two groups links the root of the lower entry under the root of the higher one. */
  ghost function LinkPair(metric: Metric, l: Links, x: nat, y: nat): (m: Links)
    requires Forest(l.p, l.s) && 1 <= x < |l.p| && 1 <= y < |l.p|
    ensures Forest(m.p, m.s) && |m.p| == |l.p|
  {
    var a, b := l.s.root[x], l.s.root[y];
    if a != b && Near(metric, x, y) then
      LinkForest(l.p, l.s, a, b);
      Links(l.p[a := b], Link(l.p, l.s, a, b))
    else l
  }

  /** The forest when the pairs before (x, y), in the order of the two loops, have been looked at. */
  ghost function LinksBefore(metric: Metric, n: nat, x: nat, y: nat): (l: Links)
    requires 1 <= x < y && (y <= n + 1 || y == x + 1) && x <= n + 1
    ensures Forest(l.p, l.s) && |l.p| == n + 1
    decreases x, y
  {
    if y > x + 1 then LinkPair(metric, LinksBefore(metric, n, x, y - 1), x, y - 1)
    else if x > 1 then LinksBefore(metric, n, x - 1, n + 1)
    else NoLinks(n)
  }

  /** The pair (i, j) comes before (x, y) in the order of the two loops, x < y. */
  predicate Seen(i: nat, j: nat, x: nat, y: nat) {
    x < i || (x == i && y < j)
  }

  /** The groups made so far: near pairs seen share a root, entries that share a root are joined, and an entry is
      marked exactly when it shares its root with another. */
  ghost predicate Grouped(metric: Metric, s: Shape, occur: seq<nat>, n: nat, i: nat, j: nat)
    requires |s.root| == |occur| == n + 1
  {
    && (forall x, y :: 1 <= x < y <= n && Seen(i, j, x, y) && Near(metric, x, y) ==> s.root[x] == s.root[y])
    && (forall x, y :: 1 <= x <= n && 1 <= y <= n && s.root[x] == s.root[y] ==> Joined(metric, n, x, y))
    && (forall x :: 1 <= x <= n ==> (occur[x] == 1 <==> Shared(s, n, x)))
  }

  ghost predicate Shared(s: Shape, n: nat, x: nat)
    requires |s.root| == n + 1 && 1 <= x <= n
  {
    exists y :: 1 <= y <= n && y != x && s.root[y] == s.root[x]
  }

  lemma LinkJoined(metric: Metric, p: seq<nat>, s: Shape, n: nat, x: nat, y: nat)
    requires Forest(p, s) && |p| == n + 1 && 1 <= x <= n && 1 <= y <= n && Near(metric, x, y)
    requires forall u, v :: 1 <= u <= n && 1 <= v <= n && s.root[u] == s.root[v] ==> Joined(metric, n, u, v)
    ensures var t := Link(p, s, s.root[x], s.root[y]);
            forall u, v :: 1 <= u <= n && 1 <= v <= n && t.root[u] == t.root[v] ==> Joined(metric, n, u, v)
  {
    var a, b := s.root[x], s.root[y];
    var t := Link(p, s, a, b);
    JoinedNear(metric, n, x, y);
    JoinedSymmetric(metric, n, x, y);
    forall u, v | 1 <= u <= n && 1 <= v <= n && t.root[u] == t.root[v]
      ensures Joined(metric, n, u, v)
    {
      if s.root[u] == a && s.root[v] == b {
        JoinedTransitive(metric, n, u, x, y);
        JoinedTransitive(metric, n, u, y, v);
      } else if s.root[u] == b && s.root[v] == a {
        JoinedTransitive(metric, n, u, y, x);
        JoinedTransitive(metric, n, u, x, v);
      }
    }
  }

  /** Linking two groups marks just the two entries that made the link: any other entry was in a group already. */
  lemma LinkShared(p: seq<nat>, s: Shape, n: nat, x: nat, y: nat, z: nat)
    requires Forest(p, s) && |p| == n + 1 && 1 <= x <= n && 1 <= y <= n && 1 <= z <= n && s.root[x] != s.root[y]
    ensures var t := Link(p, s, s.root[x], s.root[y]);
            Shared(t, n, z) <==> z == x || z == y || Shared(s, n, z)
  {
    var a, b := s.root[x], s.root[y];
    var t := Link(p, s, a, b);
    if z == x {
      assert t.root[y] == t.root[x];
    } else if z == y {
      assert t.root[x] == t.root[y];
    } else {
      if Shared(t, n, z) {
        var w :| 1 <= w <= n && w != z && t.root[w] == t.root[z];
        assert s.root[z] == s.root[if s.root[z] == a then x else if s.root[z] == b then y else w];
      }
      if Shared(s, n, z) {
        var w :| 1 <= w <= n && w != z && s.root[w] == s.root[z];
        assert t.root[w] == t.root[z];
      }
    }
  }

  lemma LinkGrouped(metric: Metric, p: seq<nat>, s: Shape, occur: seq<nat>, n: nat, x: nat, y: nat)
    requires Forest(p, s) && |p| == |occur| == n + 1 && 1 <= x < y <= n && Near(metric, x, y) && s.root[x] != s.root[y]
    requires Grouped(metric, s, occur, n, x, y)
    ensures Grouped(metric, Link(p, s, s.root[x], s.root[y]), occur[x := 1][y := 1], n, x, y + 1)
  {
    hide Joined, Shared;
    var t, o := Link(p, s, s.root[x], s.root[y]), occur[x := 1][y := 1];
    assert forall u, v :: 1 <= u < v <= n && Seen(x, y + 1, u, v) && !Seen(x, y, u, v) ==> u == x && v == y;
    LinkJoined(metric, p, s, n, x, y);
    forall z | 1 <= z <= n
      ensures o[z] == 1 <==> Shared(t, n, z)
    {
      LinkShared(p, s, n, x, y, z);
    }
  }

  /** A pair that is far, or in one group already, needs no link. */
  lemma SkipGrouped(metric: Metric, s: Shape, occur: seq<nat>, n: nat, x: nat, y: nat)
    requires |s.root| == |occur| == n + 1 && 1 <= x < y <= n && (Near(metric, x, y) ==> s.root[x] == s.root[y])
    requires Grouped(metric, s, occur, n, x, y)
    ensures Grouped(metric, s, occur, n, x, y + 1)
  {
    hide Joined, Shared;
    assert forall u, v :: 1 <= u < v <= n && Seen(x, y + 1, u, v) && !Seen(x, y, u, v) ==> u == x && v == y;
  }

  lemma NextGrouped(metric: Metric, s: Shape, occur: seq<nat>, n: nat, x: nat)
    requires |s.root| == |occur| == n + 1 && Grouped(metric, s, occur, n, x, n + 1)
    ensures Grouped(metric, s, occur, n, x + 1, x + 2)
  {
    hide Joined, Shared;
  }

  lemma RootsInForest(p: seq<nat>, s: Shape)
    requires Forest(p, s)
    ensures |s.root| == |p| > 0 && forall x :: 1 <= x < |p| ==> 1 <= s.root[x] < |p| && p[s.root[x]] == 0
  {
  }

  lemma LinkRoots(p: seq<nat>, s: Shape, a: nat, b: nat)
    requires Forest(p, s) && 1 <= a < |p| && 1 <= b < |p|
    ensures var t := Link(p, s, a, b);
            |t.root| == |p| && forall x :: 1 <= x < |p| ==> t.root[x] == if s.root[x] == a then b else s.root[x]
  {
  }

  lemma NothingShared(metric: Metric, n: nat, s: Shape, occur: seq<nat>)
    requires |s.root| == |occur| == n + 1 && forall x :: 0 <= x <= n ==> s.root[x] == x && occur[x] == 0
    ensures Grouped(metric, s, occur, n, 1, 2)
  {
    forall x, y | 1 <= x <= n && 1 <= y <= n && s.root[x] == s.root[y]
      ensures Joined(metric, n, x, y)
    {
      JoinedSelf(metric, n, x);
    }
  }

  /** Follows the parent links up to the root. */
  method FindRoot(p: array<nat>, x: nat, ghost s: Shape) returns (r: nat)
    requires Forest(p[..], s) && 1 <= x < p.Length
    ensures r == s.root[x]
  {
    r := x;
    while p[r] > 0
      invariant 1 <= r < p.Length && s.root[r] == s.root[x]
      decreases s.bound - s.rank[r]
    {
      r := p[r];
    }
  }

  lemma NothingLinked(metric: Metric, n: nat, p: seq<nat>, s: Shape)
    requires |p| == |s.root| == |s.rank| == n + 1 && s.bound == 0
    requires forall x :: 0 <= x <= n ==> p[x] == 0 && s.root[x] == x && s.rank[x] == 0
    ensures Links(p, s) == LinksBefore(metric, n, 1, 2)
  {
    var l := NoLinks(n);
    assert p == l.p && s.root == l.s.root && s.rank == l.s.rank;
  }

  lemma NextPair(metric: Metric, n: nat, x: nat, y: nat)
    requires 1 <= x < y <= n
    ensures LinksBefore(metric, n, x, y + 1) == LinkPair(metric, LinksBefore(metric, n, x, y), x, y)
  {
  }

  lemma NextLinks(metric: Metric, n: nat, x: nat)
    requires 1 <= x <= n
    ensures LinksBefore(metric, n, x + 1, x + 2) == LinksBefore(metric, n, x, n + 1)
  {
  }

  /** Links every near pair. The marks are kept even where the caller does not ask for them. */
  method SingleLink(n: nat, metric: Metric) returns (forest: array?<nat>, marks: array?<nat>, ghost s: Shape)
    ensures forest == null <==> n == 0
    ensures marks == null <==> n == 0
    ensures n > 0 ==> forest.Length == marks.Length == n + 1 && Forest(forest[..], s)
                      && Links(forest[..], s) == LinksBefore(metric, n, n + 1, n + 2)
    ensures n > 0 ==> forall x, y :: 1 <= x <= n && 1 <= y <= n
                                     ==> (s.root[x] == s.root[y] <==> Joined(metric, n, x, y))
    ensures n > 0 ==> forall x :: 1 <= x <= n
                                  ==> (marks[x] == 1 <==> exists y :: 1 <= y <= n && y != x && Joined(metric, n, x, y))
  {
    hide Grouped, Forest, Joined, LinksBefore;
    s := Shape(seq(n + 1, x => x), seq(n + 1, x => 0), 0);
    if n == 0 {
      return null, null, s;
    }
    var p, occur := new nat[n + 1](_ => 0), new nat[n + 1](_ => 0);
    NothingShared(metric, n, s, occur[..]);
    NothingLinked(metric, n, p[..], s);
    for i := 0 to n
      invariant Forest(p[..], s) && |s.root| == n + 1 && p.Length == occur.Length == n + 1
      invariant Links(p[..], s) == LinksBefore(metric, n, i + 1, i + 2)
      invariant Grouped(metric, s, occur[..], n, i + 1, i + 2)
    {
      s := LinkRow(p, occur, n, metric, i, s);
      NextLinks(metric, n, i + 1);
      NextGrouped(metric, s, occur[..], n, i + 1);
    }
    AllSeen(metric, s, occur[..], n);
    forest, marks := p, occur;
  }

  /** The inner loop: links entry i + 1 with the later entries near it. */
  method LinkRow(p: array<nat>, occur: array<nat>, n: nat, metric: Metric, i: nat, ghost s0: Shape)
      returns (ghost s: Shape)
    requires i < n && p.Length == occur.Length == n + 1 && p != occur && Forest(p[..], s0) && |s0.root| == n + 1
    requires Grouped(metric, s0, occur[..], n, i + 1, i + 2)
    requires Links(p[..], s0) == LinksBefore(metric, n, i + 1, i + 2)
    modifies p, occur
    ensures Forest(p[..], s) && |s.root| == n + 1 && Links(p[..], s) == LinksBefore(metric, n, i + 1, n + 1)
    ensures Grouped(metric, s, occur[..], n, i + 1, n + 1)
  {
    hide Grouped, Forest, Link, LinksBefore;
    s := s0;
    var x := i + 1;
    var px := FindRoot(p, x, s);
    for j := i + 1 to n
      invariant Forest(p[..], s) && |s.root| == n + 1 && px == s.root[x]
      invariant Grouped(metric, s, occur[..], n, x, j + 1) && Links(p[..], s) == LinksBefore(metric, n, x, j + 1)
    {
      var y := j + 1;
      var py := FindRoot(p, y, s);
      NextPair(metric, n, x, y);
      if px == py {
        SkipGrouped(metric, s, occur[..], n, x, y);
        continue;
      }
      if metric(i, j) < 0 {
        SkipGrouped(metric, s, occur[..], n, x, y);
        continue;
      }
      RootsInForest(p[..], s);
      LinkForest(p[..], s, px, py);
      LinkGrouped(metric, p[..], s, occur[..], n, x, y);
      LinkRoots(p[..], s, px, py);
      occur[x], occur[y] := 1, 1;
      s := Link(p[..], s, px, py);
      p[px] := py;
      px := py;
    }
  }

  lemma {:induction false} ChainGrouped(metric: Metric, s: Shape, occur: seq<nat>, n: nat, c: seq<nat>, x: nat, y: nat)
    requires |s.root| == |occur| == n + 1 && Grouped(metric, s, occur, n, n + 1, n + 2)
    requires Chain(metric, n, c, x, y)
    ensures s.root[x] == s.root[y]
    decreases |c|
  {
    if |c| > 1 {
      assert Chain(metric, n, c[1..], c[1], y);
      ChainGrouped(metric, s, occur, n, c[1..], c[1], y);
      assert Near(metric, c[0], c[1]);
      assert Seen(n + 1, n + 2, if c[0] < c[1] then c[0] else c[1], if c[0] < c[1] then c[1] else c[0]);
    }
  }

  lemma AllSeen(metric: Metric, s: Shape, occur: seq<nat>, n: nat)
    requires |s.root| == |occur| == n + 1 && Grouped(metric, s, occur, n, n + 1, n + 2)
    ensures forall x, y :: 1 <= x <= n && 1 <= y <= n ==> (s.root[x] == s.root[y] <==> Joined(metric, n, x, y))
    ensures forall x :: 1 <= x <= n
                        ==> (occur[x] == 1 <==> exists y :: 1 <= y <= n && y != x && Joined(metric, n, x, y))
  {
    forall x, y | 1 <= x <= n && 1 <= y <= n && Joined(metric, n, x, y)
      ensures s.root[x] == s.root[y]
    {
      var c :| Chain(metric, n, c, x, y);
      ChainGrouped(metric, s, occur, n, c, x, y);
    }
  }

  // ---------- display ----------

  /** What is printed: a line for an entry, or an empty line between groups. */
  datatype Line = Blank | Entry(x: nat)

  /** x hangs below i. */
  ghost predicate Under(p: seq<nat>, s: Shape, x: nat, i: nat)
    requires Forest(p, s) && 1 <= x < |p|
    decreases s.bound - s.rank[x]
  {
    p[x] > 0 && (p[x] == i || Under(p, s, p[x], i))
  }

  /** The child of i through which x hangs below it. */
  ghost function Via(p: seq<nat>, s: Shape, x: nat, i: nat): (c: nat)
    requires Forest(p, s) && 1 <= x < |p| && Under(p, s, x, i)
    ensures 1 <= c < |p| && p[c] == i
    decreases s.bound - s.rank[x]
  {
    if p[x] == i then x else Via(p, s, p[x], i)
  }

  lemma {:induction false} UnderRank(p: seq<nat>, s: Shape, x: nat, i: nat)
    requires Forest(p, s) && 1 <= x < |p| && Under(p, s, x, i)
    ensures 1 <= i < |p| && s.rank[x] < s.rank[i] && s.root[x] == s.root[i]
    decreases s.bound - s.rank[x]
  {
    if p[x] != i {
      UnderRank(p, s, p[x], i);
    }
  }

  lemma {:induction false} UnderChild(p: seq<nat>, s: Shape, x: nat, i: nat, j: nat)
    requires Forest(p, s) && 1 <= x < |p| && 1 <= j < |p| && p[j] == i && i > 0
    ensures (Under(p, s, x, i) && Via(p, s, x, i) == j) <==> (x == j || Under(p, s, x, j))
    decreases s.bound - s.rank[x]
  {
    if p[x] > 0 {
      UnderChild(p, s, p[x], i, j);
      if p[x] == i && Under(p, s, i, j) {
        UnderRank(p, s, i, j);
      }
    }
  }

  lemma {:induction false} UnderRoot(p: seq<nat>, s: Shape, x: nat, i: nat)
    requires Forest(p, s) && 1 <= x < |p| && 1 <= i < |p| && p[i] == 0
    ensures s.root[x] == i <==> x == i || Under(p, s, x, i)
    decreases s.bound - s.rank[x]
  {
    if p[x] > 0 {
      UnderRoot(p, s, p[x], i);
    }
  }

  /** out holds every entry below i, reached through children before j, exactly once, and nothing else. */
  ghost predicate Shown(p: seq<nat>, s: Shape, i: nat, j: nat, out: seq<Line>)
    requires Forest(p, s)
  {
    && (forall l :: l in out ==> l.Entry? && 1 <= l.x < |p|)
    && (forall x :: 1 <= x < |p| ==>
          multiset(out)[Entry(x)] == if Under(p, s, x, i) && Via(p, s, x, i) < j then 1 else 0)
  }

  lemma ShownChild(p: seq<nat>, s: Shape, i: nat, j: nat, out: seq<Line>, below: seq<Line>)
    requires Forest(p, s) && 1 <= i < |p| && 1 <= j < |p| && p[j] == i
    requires Shown(p, s, i, j, out) && Shown(p, s, j, |p|, below)
    ensures Shown(p, s, i, j + 1, out + [Entry(j)] + below)
  {
    var all := out + [Entry(j)] + below;
    forall x | 1 <= x < |p|
      ensures multiset(all)[Entry(x)] == if Under(p, s, x, i) && Via(p, s, x, i) < j + 1 then 1 else 0
    {
      UnderChild(p, s, x, i, j);
      if Under(p, s, x, j) {
        UnderRank(p, s, x, j);
      }
      assert multiset(all) == multiset(out) + multiset{Entry(j)} + multiset(below);
    }
  }

  lemma ShownOther(p: seq<nat>, s: Shape, i: nat, j: nat, out: seq<Line>)
    requires Forest(p, s) && Shown(p, s, i, j, out) && (j >= |p| || p[j] != i)
    ensures Shown(p, s, i, j + 1, out)
  {
    hide Forest, Under;
    forall x | 1 <= x < |p| && Under(p, s, x, i)
      ensures Via(p, s, x, i) < j + 1 <==> Via(p, s, x, i) < j
    {
      var c := Via(p, s, x, i);
    }
  }

  lemma NothingShown(p: seq<nat>, s: Shape, i: nat)
    requires Forest(p, s)
    ensures Shown(p, s, i, 1, []) && Ordered(p, s, [])
  {
  }

  // ---------- the order of the lines ----------

  /** x is u or hangs below it. */
  ghost predicate Within(p: seq<nat>, s: Shape, x: nat, u: nat)
    requires Forest(p, s) && 1 <= x < |p|
  {
    x == u || Under(p, s, x, u)
  }

  /** x comes before y: y hangs below x, or x is within a child, or a root, that is lower than the one y is within. */
  ghost predicate Precedes(p: seq<nat>, s: Shape, x: nat, y: nat)
    requires Forest(p, s)
  {
    && 1 <= x < |p| && 1 <= y < |p|
    && (Under(p, s, y, x)
        || exists u, v :: Split(p, s, x, y, u, v))
  }

  /** The entries are printed in this order. */
  ghost predicate Ordered(p: seq<nat>, s: Shape, out: seq<Line>)
    requires Forest(p, s)
  {
    forall a, b :: 0 <= a < b < |out| && out[a].Entry? && out[b].Entry? ==> Precedes(p, s, out[a].x, out[b].x)
  }

  lemma OnlyWithin(p: seq<nat>, s: Shape, x: nat, u: nat, v: nat)
    requires Forest(p, s) && 1 <= x < |p| && 1 <= u < |p| && 1 <= v < |p| && p[u] == p[v]
    requires Within(p, s, x, u) && Within(p, s, x, v)
    ensures u == v
  {
    if p[u] == 0 {
      UnderRoot(p, s, x, u);
      UnderRoot(p, s, x, v);
    } else {
      UnderChild(p, s, x, p[u], u);
      UnderChild(p, s, x, p[u], v);
    }
  }

  lemma {:induction false} UnderFurther(p: seq<nat>, s: Shape, x: nat, y: nat, z: nat)
    requires Forest(p, s) && 1 <= x < |p| && 1 <= y < |p| && Under(p, s, x, y) && Under(p, s, y, z)
    ensures Under(p, s, x, z)
    decreases s.bound - s.rank[x]
  {
    if p[x] != y {
      UnderFurther(p, s, p[x], y, z);
    }
  }

  lemma WithinFurther(p: seq<nat>, s: Shape, x: nat, y: nat, z: nat)
    requires Forest(p, s) && 1 <= x < |p| && 1 <= y < |p| && Within(p, s, x, y) && Within(p, s, y, z)
    ensures Within(p, s, x, z)
  {
    if x != y && y != z {
      UnderFurther(p, s, x, y, z);
    }
  }

  /** What contains the same entry lies one within the other. */
  lemma {:induction false} WithinChain(p: seq<nat>, s: Shape, x: nat, u: nat, v: nat)
    requires Forest(p, s) && 1 <= x < |p| && 1 <= u < |p| && 1 <= v < |p| && Within(p, s, x, u) && Within(p, s, x, v)
    ensures Within(p, s, u, v) || Within(p, s, v, u)
    decreases s.bound - s.rank[x]
  {
    if x != u && x != v {
      WithinChain(p, s, p[x], u, v);
    }
  }

  /** x in a lower, y in a higher one of two siblings. */
  ghost predicate Split(p: seq<nat>, s: Shape, x: nat, y: nat, u: nat, v: nat)
    requires Forest(p, s) && 1 <= x < |p| && 1 <= y < |p|
  {
    1 <= u < v < |p| && p[u] == p[v] && Within(p, s, x, u) && Within(p, s, y, v)
  }

  lemma SplitOnce(p: seq<nat>, s: Shape, x: nat, y: nat, u: nat, v: nat, u': nat, v': nat)
    requires Forest(p, s) && 1 <= x < |p| && 1 <= y < |p| && Split(p, s, x, y, u, v)
    ensures !Split(p, s, y, x, u', v')
  {
    if Split(p, s, y, x, u', v') {
      WithinChain(p, s, x, u, v');
      if u == v' {
        OnlyWithin(p, s, y, v, u');
      } else if Under(p, s, u, v') {
        SiblingWithin(p, s, u, v, v');
        WithinFurther(p, s, y, v, v');
        OnlyWithin(p, s, y, u', v');
      } else {
        SiblingWithin(p, s, v', u', u);
        WithinFurther(p, s, y, u', u);
        OnlyWithin(p, s, y, u, v);
      }
    }
  }

  lemma SiblingWithin(p: seq<nat>, s: Shape, u: nat, v: nat, z: nat)
    requires Forest(p, s) && 1 <= u < |p| && 1 <= v < |p| && p[u] == p[v] && Under(p, s, u, z)
    ensures Under(p, s, v, z)
  {
  }

  lemma SplitNotUnder(p: seq<nat>, s: Shape, x: nat, y: nat, u: nat, v: nat)
    requires Forest(p, s) && 1 <= x < |p| && 1 <= y < |p| && Split(p, s, x, y, u, v)
    ensures x != y && !Under(p, s, x, y) && !Under(p, s, y, x)
  {
    if x == y || Under(p, s, x, y) {
      WithinFurther(p, s, x, y, v);
      OnlyWithin(p, s, x, u, v);
    } else if Under(p, s, y, x) {
      WithinFurther(p, s, y, x, u);
      OnlyWithin(p, s, y, u, v);
    }
  }

  /** The order never goes both ways, so it leaves no choice. */
  lemma PrecedesOnce(p: seq<nat>, s: Shape, x: nat, y: nat)
    requires Forest(p, s) && Precedes(p, s, x, y)
    ensures x != y && !Precedes(p, s, y, x)
  {
    hide Forest, Split;
    if Under(p, s, y, x) {
      UnderRank(p, s, y, x);
      if Under(p, s, x, y) {
        UnderRank(p, s, x, y);
      }
      if u, v :| Split(p, s, y, x, u, v) {
        SplitNotUnder(p, s, y, x, u, v);
      }
    } else {
      var u, v :| Split(p, s, x, y, u, v);
      SplitNotUnder(p, s, x, y, u, v);
      if u', v' :| Split(p, s, y, x, u', v') {
        SplitOnce(p, s, x, y, u, v, u', v');
      }
    }
  }

  /** No entry hangs below one printed after it, and of the entries that share a parent, or have none, the lower one
      and all that hangs below it are printed first. */
  lemma PrintedOrder(p: seq<nat>, s: Shape, out: seq<Line>, a: nat, b: nat, u: nat, v: nat)
    requires Forest(p, s) && Ordered(p, s, out) && a < b < |out| && out[a].Entry? && out[b].Entry?
    requires 1 <= u < |p| && 1 <= v < |p| && p[u] == p[v] && 1 <= out[a].x < |p| && 1 <= out[b].x < |p|
    requires (out[a].x == u || Under(p, s, out[a].x, u)) && (out[b].x == v || Under(p, s, out[b].x, v))
    ensures !Under(p, s, out[a].x, out[b].x) && out[a].x != out[b].x && u <= v
  {
    hide Forest, Split, Under;
    var x, y := out[a].x, out[b].x;
    PrecedesOnce(p, s, x, y);
    if Under(p, s, y, x) {
      WithinFurther(p, s, y, x, u);
      OnlyWithin(p, s, y, u, v);
    } else {
      var u', v' :| Split(p, s, x, y, u', v');
      SplitOnce(p, s, x, y, u', v', v, u);
      SplitHere(p, s, y, x, v, u);
    }
  }

  lemma SplitHere(p: seq<nat>, s: Shape, x: nat, y: nat, u: nat, v: nat)
    requires Forest(p, s) && 1 <= x < |p| && 1 <= y < |p| && 1 <= u < |p| && 1 <= v < |p| && p[u] == p[v]
    requires Within(p, s, x, u) && Within(p, s, y, v) && !Split(p, s, x, y, u, v)
    ensures u >= v
  {
  }

  lemma ChildBefore(p: seq<nat>, s: Shape, i: nat, j: nat, x: nat, y: nat)
    requires Forest(p, s) && 1 <= i < |p| && 1 <= j < |p| && p[j] == i && 1 <= x < |p| && 1 <= y < |p|
    requires Under(p, s, x, i) && Via(p, s, x, i) < j && Within(p, s, y, j)
    ensures Precedes(p, s, x, y)
  {
    var c := Via(p, s, x, i);
    UnderChild(p, s, x, i, c);
    assert Split(p, s, x, y, c, j);
  }

  /** A child and what hangs below it come after what hangs below the children before it. */
  lemma OrderedChild(p: seq<nat>, s: Shape, i: nat, j: nat, out: seq<Line>, below: seq<Line>)
    requires Forest(p, s) && 1 <= i < |p| && 1 <= j < |p| && p[j] == i
    requires Shown(p, s, i, j, out) && Shown(p, s, j, |p|, below) && Ordered(p, s, out) && Ordered(p, s, below)
    ensures Ordered(p, s, out + [Entry(j)] + below)
  {
    hide Forest, Under, Precedes;
    var all, n := out + [Entry(j)] + below, |out|;
    ShownMembers(p, s, i, j, out);
    ShownMembers(p, s, j, |p|, below);
    forall a, b | 0 <= a < b < |all| && all[a].Entry? && all[b].Entry?
      ensures Precedes(p, s, all[a].x, all[b].x)
    {
      if b < n {
        assert all[a] == out[a] && all[b] == out[b];
      } else if a > n {
        assert all[a] == below[a - n - 1] && all[b] == below[b - n - 1];
      } else if a == n {
        assert all[b] == below[b - n - 1];
        UnderPrecedes(p, s, j, all[b].x);
      } else {
        assert all[a] == out[a] && (b > n ==> all[b] == below[b - n - 1]);
        ChildBefore(p, s, i, j, all[a].x, all[b].x);
      }
    }
  }

  lemma UnderPrecedes(p: seq<nat>, s: Shape, x: nat, y: nat)
    requires Forest(p, s) && 1 <= x < |p| && 1 <= y < |p| && Under(p, s, y, x)
    ensures Precedes(p, s, x, y)
  {
  }

  lemma ShownMembers(p: seq<nat>, s: Shape, i: nat, j: nat, out: seq<Line>)
    requires Forest(p, s) && Shown(p, s, i, j, out)
    ensures forall a :: 0 <= a < |out| ==> out[a].Entry? && 1 <= out[a].x < |p| && Under(p, s, out[a].x, i)
                                           && Via(p, s, out[a].x, i) < j
  {
    hide Forest, Under;
    forall a | 0 <= a < |out|
      ensures out[a].Entry? && 1 <= out[a].x < |p| && Under(p, s, out[a].x, i) && Via(p, s, out[a].x, i) < j
    {
      assert out[a] in out && multiset(out)[out[a]] > 0;
    }
  }

  /** The members of the group below i, children in order, each followed by what hangs below it. */
  method DisplayGroupMembers(p: seq<nat>, i: nat, ghost s: Shape) returns (out: seq<Line>)
    requires Forest(p, s) && 1 <= i < |p|
    ensures Shown(p, s, i, |p|, out) && Ordered(p, s, out)
    decreases s.rank[i]
  {
    hide Shown, Ordered;
    out := [];
    NothingShown(p, s, i);
    for j := 1 to |p|
      invariant Shown(p, s, i, j, out) && Ordered(p, s, out)
    {
      if j != i && p[j] == i {
        var below := DisplayGroupMembers(p, j, s);
        ShownChild(p, s, i, j, out, below);
        OrderedChild(p, s, i, j, out, below);
        out := out + [Entry(j)] + below;
      } else {
        ShownOther(p, s, i, j, out);
      }
    }
  }

  /** Every entry line is of a group whose root comes before i. */
  ghost predicate Early(p: seq<nat>, s: Shape, i: nat, out: seq<Line>)
    requires |s.root| == |p|
  {
    forall a :: 0 <= a < |out| && out[a].Entry? ==> 1 <= out[a].x < |p| && s.root[out[a].x] < i
  }

  /** Each entry of a shown group whose root comes before i appears once, and no other entry does. */
  ghost predicate Once(p: seq<nat>, s: Shape, shown: set<nat>, i: nat, out: seq<Line>)
    requires |s.root| == |p|
  {
    forall x :: 1 <= x < |p| ==> multiset(out)[Entry(x)] == if s.root[x] in shown && s.root[x] < i then 1 else 0
  }

  /** An empty line separates two entries exactly when their groups differ. */
  ghost predicate Apart(p: seq<nat>, s: Shape, out: seq<Line>)
    requires |s.root| == |p|
  {
    forall a, b :: 0 <= a < b < |out| && out[a].Entry? && out[b].Entry?
      ==> out[a].x < |p| && out[b].x < |p| && (s.root[out[a].x] == s.root[out[b].x] <==> Blank !in out[a..b])
  }

  /** Empty lines stand alone between entries. */
  ghost predicate Spaced(out: seq<Line>) {
    forall a :: 0 <= a < |out| && out[a] == Blank ==> 0 < a < |out| - 1 && out[a - 1].Entry? && out[a + 1].Entry?
  }

  /** The roots before i of the groups shown. */
  ghost function Leaders(p: seq<nat>, shown: set<nat>, i: nat): set<nat> {
    set r | 1 <= r < i && r < |p| && p[r] == 0 && r in shown
  }

  /** There is one empty line less than there are groups. */
  ghost predicate Counted(p: seq<nat>, shown: set<nat>, i: nat, out: seq<Line>) {
    |Leaders(p, shown, i)| == if out == [] then 0 else multiset(out)[Blank] + 1
  }

  lemma NextLeader(p: seq<nat>, shown: set<nat>, i: nat)
    requires 1 <= i < |p|
    ensures var l := p[i] == 0 && i in shown;
            |Leaders(p, shown, i + 1)| == |Leaders(p, shown, i)| + if l then 1 else 0
  {
    if p[i] == 0 && i in shown {
      assert Leaders(p, shown, i + 1) == Leaders(p, shown, i) + {i};
    } else {
      assert Leaders(p, shown, i + 1) == Leaders(p, shown, i);
    }
  }

  lemma CountedGroup(p: seq<nat>, shown: set<nat>, i: nat, out: seq<Line>, below: seq<Line>)
    requires 1 <= i < |p| && p[i] == 0 && i in shown && Counted(p, shown, i, out) && Spaced(out)
    requires forall l :: l in below ==> l.Entry?
    ensures var all := (if out == [] then [] else out + [Blank]) + [Entry(i)] + below;
            Counted(p, shown, i + 1, all) && Spaced(all)
  {
    hide Leaders, Spaced;
    NextLeader(p, shown, i);
    var gap := if out == [] then [] else [Blank];
    SpacedGroup(out, gap, [Entry(i)] + below);
    Regroup(out, gap, i, below);
    var all := out + gap + ([Entry(i)] + below);
    assert multiset(all) == multiset(out) + multiset(gap) + multiset{Entry(i)} + multiset(below);
    assert Blank !in below;
  }

  lemma SpacedGroup(out: seq<Line>, gap: seq<Line>, g: seq<Line>)
    requires Spaced(out) && g != [] && (forall l :: l in g ==> l.Entry?) && gap == if out == [] then [] else [Blank]
    ensures Spaced(out + gap + g)
  {
    var all, n := out + gap + g, |out| + |gap|;
    forall a | n <= a < |all|
      ensures all[a].Entry?
    {
      assert all[a] == g[a - n] && g[a - n] in g;
    }
    assert out != [] ==> out[|out| - 1].Entry?;
    assert forall a :: 0 <= a < |out| ==> all[a] == out[a];
  }

  lemma SkipCounted(p: seq<nat>, shown: set<nat>, i: nat, out: seq<Line>)
    requires 1 <= i < |p| && Counted(p, shown, i, out) && (p[i] != 0 || i !in shown)
    ensures Counted(p, shown, i + 1, out)
  {
    NextLeader(p, shown, i);
  }

  /** A group comes after those with lower roots. */
  lemma OrderedGroup(p: seq<nat>, s: Shape, i: nat, out: seq<Line>, gap: seq<Line>, below: seq<Line>)
    requires Forest(p, s) && 1 <= i < |p| && p[i] == 0 && Early(p, s, i, out) && (forall l :: l in gap ==> l == Blank)
    requires Shown(p, s, i, |p|, below) && Ordered(p, s, out) && Ordered(p, s, below)
    ensures Ordered(p, s, out + gap + ([Entry(i)] + below))
  {
    hide Forest, Under, Precedes;
    RootsInForest(p, s);
    var all, n := out + gap + ([Entry(i)] + below), |out| + |gap|;
    ShownMembers(p, s, i, |p|, below);
    NoEntryBetween(out, gap, [Entry(i)] + below);
    forall a, b | 0 <= a < b < |all| && all[a].Entry? && all[b].Entry?
      ensures Precedes(p, s, all[a].x, all[b].x)
    {
      if b < |out| {
        assert all[a] == out[a] && all[b] == out[b];
      } else if a > n {
        assert all[a] == below[a - n - 1] && all[b] == below[b - n - 1];
      } else if a == n {
        assert all[a] == Entry(i) && all[b] == below[b - n - 1];
        UnderPrecedes(p, s, i, all[b].x);
      } else {
        assert all[a] == out[a] && (b > n ==> all[b] == below[b - n - 1]) && (b == n ==> all[b] == Entry(i));
        RootsBefore(p, s, i, all[a].x, all[b].x);
      }
    }
  }

  lemma NoEntryBetween(out: seq<Line>, gap: seq<Line>, g: seq<Line>)
    requires forall l :: l in gap ==> l == Blank
    ensures forall a :: |out| <= a < |out| + |gap| ==> (out + gap + g)[a] == Blank
  {
    assert forall a :: |out| <= a < |out| + |gap| ==> (out + gap + g)[a] == gap[a - |out|] && gap[a - |out|] in gap;
  }

  lemma RootsBefore(p: seq<nat>, s: Shape, i: nat, x: nat, y: nat)
    requires Forest(p, s) && 1 <= i < |p| && p[i] == 0 && 1 <= x < |p| && 1 <= y < |p|
    requires |s.root| == |p| && s.root[x] < i && Within(p, s, y, i)
    ensures Precedes(p, s, x, y)
  {
    UnderRoot(p, s, x, s.root[x]);
    assert Split(p, s, x, y, s.root[x], i);
  }

  lemma GroupShown(p: seq<nat>, s: Shape, i: nat, below: seq<Line>)
    requires Forest(p, s) && 1 <= i < |p| && p[i] == 0 && Shown(p, s, i, |p|, below)
    ensures var g := [Entry(i)] + below;
            && (forall l :: l in g ==> l.Entry? && 1 <= l.x < |p| && s.root[l.x] == i)
            && (forall x :: 1 <= x < |p| ==> multiset(g)[Entry(x)] == if s.root[x] == i then 1 else 0)
  {
    var g := [Entry(i)] + below;
    assert multiset(g) == multiset{Entry(i)} + multiset(below);
    forall x | 1 <= x < |p|
      ensures multiset(g)[Entry(x)] == if s.root[x] == i then 1 else 0
    {
      UnderRoot(p, s, x, i);
      if Under(p, s, x, i) {
        UnderRank(p, s, x, i);
      }
    }
    forall l | l in g
      ensures l.Entry? && 1 <= l.x < |p| && s.root[l.x] == i
    {
      assert multiset(g)[l] > 0;
    }
  }

  lemma ApartGroup(p: seq<nat>, s: Shape, i: nat, out: seq<Line>, g: seq<Line>)
    requires |s.root| == |p| && Early(p, s, i, out) && Apart(p, s, out)
    requires forall l :: l in g ==> l.Entry? && 1 <= l.x < |p| && s.root[l.x] == i
    ensures Apart(p, s, out + [Blank] + g) && Early(p, s, i + 1, out + [Blank] + g)
    ensures Apart(p, s, g) && Early(p, s, i + 1, g)
  {
    var all, n := out + [Blank] + g, |out|;
    assert forall a :: 0 <= a < |g| ==> g[a] in g;
    assert forall a :: n < a < |all| ==> all[a] == g[a - n - 1];
    forall a, b | 0 <= a < b < |all| && all[a].Entry? && all[b].Entry?
      ensures all[a].x < |p| && all[b].x < |p| && (s.root[all[a].x] == s.root[all[b].x] <==> Blank !in all[a..b])
    {
      if b < n {
        assert all[a..b] == out[a..b];
      } else if a > n {
        assert all[a..b] == g[a - n - 1..b - n - 1];
      } else {
        assert all[a] == out[a] && all[a..b][n - a] == Blank;
      }
    }
  }

  lemma OnceGroup(p: seq<nat>, s: Shape, shown: set<nat>, i: nat, out: seq<Line>, g: seq<Line>, gap: seq<Line>)
    requires |s.root| == |p| && Once(p, s, shown, i, out) && i in shown && (gap == [] || gap == [Blank])
    requires forall x :: 1 <= x < |p| ==> multiset(g)[Entry(x)] == if s.root[x] == i then 1 else 0
    ensures Once(p, s, shown, i + 1, out + gap + g)
  {
    assert multiset(out + gap + g) == multiset(out) + multiset(gap) + multiset(g);
  }

  lemma LaterEarly(p: seq<nat>, s: Shape, i: nat, out: seq<Line>)
    requires |s.root| == |p| && Early(p, s, i, out)
    ensures Early(p, s, i + 1, out)
  {
  }

  /** A number that is no root, or that is not shown, leads no group. */
  lemma NotLeading(p: seq<nat>, s: Shape, shown: set<nat>, i: nat, x: nat)
    requires Forest(p, s) && (i in shown ==> i >= |p| || p[i] != 0) && 1 <= x < |p|
    ensures |s.root| == |p| && ((s.root[x] in shown && s.root[x] < i) <==> (s.root[x] in shown && s.root[x] < i + 1))
  {
    RootsInForest(p, s);
  }

  lemma SkipGroup(p: seq<nat>, s: Shape, shown: set<nat>, i: nat, out: seq<Line>)
    requires Forest(p, s) && Early(p, s, i, out) && Once(p, s, shown, i, out) && (i in shown ==> i >= |p| || p[i] != 0)
    ensures Early(p, s, i + 1, out) && Once(p, s, shown, i + 1, out)
  {
    RootsInForest(p, s);
    hide Forest, Early;
    LaterEarly(p, s, i, out);
    forall x | 1 <= x < |p|
      ensures multiset(out)[Entry(x)] == if s.root[x] in shown && s.root[x] < i + 1 then 1 else 0
    {
      NotLeading(p, s, shown, i, x);
    }
  }

  lemma NothingDisplayed(p: seq<nat>, s: Shape, shown: set<nat>)
    requires Forest(p, s)
    ensures Early(p, s, 1, []) && Once(p, s, shown, 1, []) && Apart(p, s, [])
    ensures Ordered(p, s, []) && Spaced([]) && Counted(p, shown, 1, [])
  {
    assert Leaders(p, shown, 1) == {};
  }

  lemma GroupAdded(p: seq<nat>, s: Shape, shown: set<nat>, i: nat, out: seq<Line>, below: seq<Line>)
    requires Forest(p, s) && 1 <= i < |p| && p[i] == 0 && i in shown && Shown(p, s, i, |p|, below)
    requires Early(p, s, i, out) && Once(p, s, shown, i, out) && Apart(p, s, out)
    ensures var all := (if out == [] then [] else out + [Blank]) + [Entry(i)] + below;
            Early(p, s, i + 1, all) && Once(p, s, shown, i + 1, all) && Apart(p, s, all)
  {
    hide Forest, Early, Once, Apart, Shown;
    RootsInForest(p, s);
    var g := [Entry(i)] + below;
    GroupShown(p, s, i, below);
    ApartGroup(p, s, i, out, g);
    var gap := if out == [] then [] else [Blank];
    OnceGroup(p, s, shown, i, out, g, gap);
    Regroup(out, gap, i, below);
  }

  lemma Regroup(out: seq<Line>, gap: seq<Line>, i: nat, below: seq<Line>)
    ensures out + gap + ([Entry(i)] + below) == out + gap + [Entry(i)] + below
    ensures out == [] && gap == [] ==> out + gap + ([Entry(i)] + below) == [Entry(i)] + below == [] + [Entry(i)] + below
  {
  }

  /** All groups, or only those marked; every member of a shown group appears exactly once, in the order of the groups'
      roots and of the children within them, and an empty line separates two entries exactly when their groups
      differ: one line, and one less than there are groups. */
  method DisplayGroups(p: seq<nat>, occur: seq<nat>, one: bool, ghost s: Shape) returns (out: seq<Line>)
    requires Forest(p, s) && |occur| == |p|
    ensures forall x :: 1 <= x < |p| ==>
              1 <= s.root[x] < |p| && multiset(out)[Entry(x)] == if one || occur[s.root[x]] > 0 then 1 else 0
    ensures |s.root| == |p| && Apart(p, s, out) && Ordered(p, s, out) && Spaced(out)
    ensures var roots := set r | 1 <= r < |p| && p[r] == 0 && (one || occur[r] > 0);
            |roots| == if out == [] then 0 else multiset(out)[Blank] + 1
  {
    hide Forest, Early, Once, Apart, Ordered, Spaced, Counted, Shown;
    RootsInForest(p, s);
    ghost var shown := set i | 0 <= i < |p| && (one || occur[i] > 0);
    out := [];
    NothingDisplayed(p, s, shown);
    var f := false;
    for i := 1 to |p|
      invariant Early(p, s, i, out) && Once(p, s, shown, i, out) && Apart(p, s, out) && (f <==> out != [])
      invariant Ordered(p, s, out) && Spaced(out) && Counted(p, shown, i, out)
    {
      if (one || occur[i] > 0) && p[i] == 0 {
        var below := DisplayGroupMembers(p, i, s);
        GroupAdded(p, s, shown, i, out, below);
        OrderedNext(p, s, shown, i, out, below);
        if f {
          out := out + [Blank];
        } else {
          f := true;
        }
        out := out + [Entry(i)] + below;
      } else {
        SkipGroup(p, s, shown, i, out);
        SkipCounted(p, shown, i, out);
      }
    }
    OnceAll(p, s, shown, out);
    CountedAll(p, shown, occur, one, out);
  }

  lemma OrderedNext(p: seq<nat>, s: Shape, shown: set<nat>, i: nat, out: seq<Line>, below: seq<Line>)
    requires Forest(p, s) && 1 <= i < |p| && p[i] == 0 && i in shown && |s.root| == |p| && Early(p, s, i, out)
    requires Shown(p, s, i, |p|, below) && Ordered(p, s, out) && Ordered(p, s, below)
    requires Spaced(out) && Counted(p, shown, i, out)
    ensures var all := (if out == [] then [] else out + [Blank]) + [Entry(i)] + below;
            Ordered(p, s, all) && Spaced(all) && Counted(p, shown, i + 1, all)
  {
    hide Forest, Early, Ordered, Spaced, Counted, Under;
    var gap := if out == [] then [] else [Blank];
    CountedGroup(p, shown, i, out, below);
    OrderedGroup(p, s, i, out, gap, below);
    Regroup(out, gap, i, below);
  }

  lemma CountedAll(p: seq<nat>, shown: set<nat>, occur: seq<nat>, one: bool, out: seq<Line>)
    requires |occur| == |p| && Counted(p, shown, |p|, out) && shown == set i | 0 <= i < |p| && (one || occur[i] > 0)
    ensures var roots := set r | 1 <= r < |p| && p[r] == 0 && (one || occur[r] > 0);
            |roots| == if out == [] then 0 else multiset(out)[Blank] + 1
  {
    assert Leaders(p, shown, |p|) == set r | 1 <= r < |p| && p[r] == 0 && (one || occur[r] > 0);
  }

  lemma OnceAll(p: seq<nat>, s: Shape, shown: set<nat>, out: seq<Line>)
    requires |s.root| == |p| && Once(p, s, shown, |p|, out) && forall x :: 1 <= x < |p| ==> s.root[x] < |p|
    ensures forall x :: 1 <= x < |p| ==> multiset(out)[Entry(x)] == if s.root[x] in shown then 1 else 0
  {
  }
}
