/** Metrics that lead the clustering to a round in which the comparison confuses two bystanders. */
module Steering {
  import opened RbOrder
  import opened Linkage

  // ---------- a round that goes wrong ----------

  lemma {:induction false} AbsorbJoined(a: seq<Cell>, b: seq<Cell>, i: nat, j: nat, n: nat, helper: set<nat>, cmp: Cmp)
    requires forall c :: c in a ==> !Touches(c, i, j)
    ensures Absorb(a + b, i, j, n, helper, cmp) == a + Absorb(b, i, j, n, helper, cmp)
  {
    if a == [] {
      assert a + b == b && [] + Absorb(b, i, j, n, helper, cmp) == Absorb(b, i, j, n, helper, cmp);
    } else {
      assert a[0] in a && forall c :: c in a[1..] ==> c in a;
      AbsorbJoined(a[1..], b, i, j, n, helper, cmp);
      assert (a + b)[0] == a[0] && (a + b)[1..] == a[1..] + b;
      assert a == [a[0]] + a[1..];
    }
  }

  lemma AbsorbOne(c: Cell, b: seq<Cell>, i: nat, j: nat, n: nat, helper: set<nat>, cmp: Cmp)
    requires Touches(c, i, j)
    ensures var k := Bystander(c, i, j);
            Absorb([c] + b, i, j, n, helper, cmp)
            == if Found(helper, k, cmp) then Absorb(b, i, j, n, Without(helper, k, cmp), cmp)
               else [Renamed(c, i, j, n)] + Absorb(b, i, j, n, helper + {k}, cmp)
  {
    assert ([c] + b)[1..] == b;
  }

  /** The first two cells of one class of bystanders: the second is dropped. */
  lemma AbsorbPair(pre: seq<Cell>, p: Cell, mid: seq<Cell>, q: Cell, post: seq<Cell>, i: nat, j: nat, n: nat, cmp: Cmp)
    requires forall c :: c in pre || c in mid ==> !Touches(c, i, j)
    requires Touches(p, i, j) && Touches(q, i, j) && cmp(Bystander(q, i, j), Bystander(p, i, j)) == 0
    ensures Absorb(pre + ([p] + (mid + ([q] + post))), i, j, n, {}, cmp)
            == pre + ([Renamed(p, i, j, n)] + (mid + Absorb(post, i, j, n, {}, cmp)))
  {
    hide Absorb, Touches, Bystander, Renamed;
    var k := Bystander(p, i, j);
    AbsorbJoined(pre, [p] + (mid + ([q] + post)), i, j, n, {}, cmp);
    AbsorbOne(p, mid + ([q] + post), i, j, n, {}, cmp);
    assert {} + {k} == {k};
    AbsorbJoined(mid, [q] + post, i, j, n, {k}, cmp);
    AbsorbOne(q, post, i, j, n, {k}, cmp);
    assert k in {k} && Found({k}, Bystander(q, i, j), cmp);
    assert Without({k}, Bystander(q, i, j), cmp) == {};
  }

  lemma {:induction false} CountTwice(m: seq<Cell>, p: nat, q: nat, a: nat, b: nat)
    requires p < q < |m| && m[p].Joins(a, b) && m[q].Joins(a, b)
    ensures Count(m, a, b) >= 2
  {
    if p == 0 {
      NoneCounted(m[1..], a, b);
      assert m[1..][q - 1] == m[q];
    } else {
      CountTwice(m[1..], p - 1, q - 1, a, b);
    }
  }

  /** The places p and q of the rest of the table hold the two least cells that touch the couple being merged. */
  ghost predicate TwoLeast(r: seq<Cell>, i: nat, j: nat, p: nat, q: nat, cmp: Cmp) {
    && p < q < |r| && Touches(r[p], i, j) && Touches(r[q], i, j)
    && forall t :: 0 <= t < |r| && t != p && t != q && Touches(r[t], i, j)
                   ==> cmp(r[p].key, r[t].key) < 0 && cmp(r[q].key, r[t].key) < 0
  }

  /** They come before all others that touch it. */
  lemma FirstTwo(r: seq<Cell>, i: nat, j: nat, p: nat, q: nat, cmp: Cmp)
    requires TotalOrder(cmp) && SortedCells(r, cmp) && TwoLeast(r, i, j, p, q, cmp)
    ensures forall t :: 0 <= t < q && t != p ==> !Touches(r[t], i, j)
  {
    hide TotalOrder;
    forall t | 0 <= t < q && t != p
      ensures !Touches(r[t], i, j)
    {
      if Touches(r[t], i, j) {
        Converse(cmp, r[q].key, r[t].key);
      }
    }
  }

  lemma SplitTwo(r: seq<Cell>, p: nat, q: nat)
    requires p < q < |r|
    ensures r == r[..p] + ([r[p]] + (r[p + 1..q] + ([r[q]] + r[q + 1..])))
    ensures forall c :: c in r[..p] || c in r[p + 1..q] || c in r[q + 1..] ==> c in r
  {
  }

  lemma Absorbed(r: seq<Cell>, i: nat, j: nat, n: nat, p: nat, q: nat, cmp: Cmp)
    requires TotalOrder(cmp) && SortedCells(r, cmp) && TwoLeast(r, i, j, p, q, cmp)
    requires cmp(Bystander(r[q], i, j), Bystander(r[p], i, j)) == 0
    ensures Absorb(r, i, j, n, {}, cmp)
            == r[..p] + ([Renamed(r[p], i, j, n)] + (r[p + 1..q] + Absorb(r[q + 1..], i, j, n, {}, cmp)))
  {
    hide TotalOrder, SortedCells, Absorb, Renamed, Bystander;
    FirstTwo(r, i, j, p, q, cmp);
    SplitTwo(r, p, q);
    AbsorbPair(r[..p], r[p], r[p + 1..q], r[q], r[q + 1..], i, j, n, cmp);
  }

  /** The cells that come later to join n are above both of the least. */
  lemma LaterAbove(r: seq<Cell>, live: set<nat>, i: nat, j: nat, n: nat, p: nat, q: nat, cmp: Cmp, c: Cell)
    requires TwoLeast(r, i, j, p, q, cmp) && Within(r, live) && n !in live
    requires c in Absorb(r[q + 1..], i, j, n, {}, cmp) && (c.i == n || c.j == n)
    ensures cmp(r[q].key, c.key) < 0
  {
    hide Absorb;
    var post := r[q + 1..];
    SplitTwo(r, p, q);
    AbsorbOrigin(post, live, i, j, n, {}, cmp);
    assert Origin(post, i, j, n, c);
    var d :| d in post && Touches(d, i, j) && Renamed(d, i, j, n) == c;
    var t :| 0 <= t < |post| && post[t] == d;
    assert r[q + 1 + t] == d;
  }

  /** What is left of a table whose two least touching cells are of one class: nothing as low stands for the second. */
  lemma SecondLost(r: seq<Cell>, live: set<nat>, i: nat, j: nat, n: nat, p: nat, q: nat, cmp: Cmp)
    requires TotalOrder(cmp) && SortedCells(r, cmp) && Within(r, live) && n !in live
    requires p < q < |r| && TwoLeast(r, i, j, p, q, cmp)
    requires var (k, l) := (Bystander(r[p], i, j), Bystander(r[q], i, j)); k != l && cmp(l, k) == 0
    ensures forall c :: c in Absorb(r, i, j, n, {}, cmp) && c.Joins(n, Bystander(r[q], i, j))
                        ==> cmp(r[q].key, c.key) < 0
  {
    hide TotalOrder, SortedCells, Absorb, TwoLeast;
    Absorbed(r, i, j, n, p, q, cmp);
    SplitTwo(r, p, q);
    forall c | c in Absorb(r, i, j, n, {}, cmp) && c.Joins(n, Bystander(r[q], i, j))
      ensures cmp(r[q].key, c.key) < 0
    {
      assert r[p] in r && r[q] in r;
      assert c !in r[..p] && c !in r[p + 1..q] && c != Renamed(r[p], i, j, n);
      assert c in Absorb(r[q + 1..], i, j, n, {}, cmp);
      LaterAbove(r, live, i, j, n, p, q, cmp, c);
    }
  }

  /** Some leaf of x and some leaf of k are nearer than z. */
  ghost predicate Near(s: State, f: Metric, cmp: Cmp, x: nat, k: nat, z: int)
    requires x in s.leaves && k in s.leaves
  {
    exists u, v :: u in s.leaves[x] && v in s.leaves[k] && cmp(Dist(f, u, v), z) < 0
  }

  /** No leaf of x is nearer than z to a leaf of k. */
  ghost predicate Far(s: State, f: Metric, cmp: Cmp, x: nat, k: nat, z: int)
    requires x in s.leaves && k in s.leaves
  {
    forall u, v :: u in s.leaves[x] && v in s.leaves[k] ==> cmp(Dist(f, u, v), z) >= 0
  }

  /** Two bystanders that the comparison confuses are near to x, one of the clusters to be merged, and all else is far
      from these. */
  ghost predicate Trap(s: State, f: Metric, cmp: Cmp, x: nat, a: nat, b: nat, z: int) {
    && s.table != [] && s.table[0].i in s.leaves && s.table[0].j in s.leaves
    && a in Others(s) && b in Others(s) && a != b && cmp(a, b) == 0
    && (x == s.table[0].i || x == s.table[0].j) && Near(s, f, cmp, x, a, z) && Near(s, f, cmp, x, b, z)
    && forall w, k :: w in {s.table[0].i, s.table[0].j} && k in Others(s) && !(w == x && (k == a || k == b))
                      ==> Far(s, f, cmp, w, k, z)
  }

  lemma CellNear(s: State, f: Metric, cmp: Cmp, size: nat, c: Cell, x: nat, k: nat, z: int)
    requires TotalOrder(cmp) && Inv(s, f, cmp, size) && c in s.table && c.Joins(x, k)
    requires x in s.leaves && k in s.leaves && Near(s, f, cmp, x, k, z)
    ensures cmp(c.key, z) < 0
  {
    hide TotalOrder, Complete, Partition, SortedCells;
    CellLeast(s, f, cmp, size, c, x, k);
    var u, v :| u in s.leaves[x] && v in s.leaves[k] && cmp(Dist(f, u, v), z) < 0;
    if cmp(c.key, z) >= 0 {
      BelowAll(cmp, c.key, Dist(f, u, v), z);
    }
  }

  lemma BelowAll(cmp: Cmp, x: int, y: int, z: int)
    requires TotalOrder(cmp)
    ensures cmp(x, y) <= 0 && cmp(y, z) < 0 ==> cmp(x, z) < 0
    ensures cmp(x, y) < 0 && cmp(y, z) <= 0 ==> cmp(x, z) < 0
    ensures cmp(x, y) < 0 && cmp(z, y) >= 0 ==> cmp(x, z) < 0
  {
  }

  lemma CellFar(s: State, f: Metric, cmp: Cmp, size: nat, c: Cell, x: nat, k: nat, z: int)
    requires Inv(s, f, cmp, size) && c in s.table && c.Joins(x, k)
    requires x in s.leaves && k in s.leaves && Far(s, f, cmp, x, k, z)
    ensures cmp(c.key, z) >= 0
  {
    hide Complete, Partition, SortedCells;
    CellLeast(s, f, cmp, size, c, x, k);
  }

  /** The place of the cell of two clusters behind the couple to be merged. */
  lemma PlaceOfCell(s: State, f: Metric, cmp: Cmp, size: nat, x: nat, k: nat) returns (p: nat)
    requires Inv(s, f, cmp, size) && s.table != []
    requires x in s.leaves && (x == s.table[0].i || x == s.table[0].j) && k in Others(s)
    ensures p + 1 < |s.table| && s.table[1..][p] == s.table[p + 1] && s.table[p + 1].Joins(x, k)
  {
    var c := CellOf(s.table, s.leaves.Keys, x, k);
    var q :| 0 <= q < |s.table| && s.table[q] == c;
    p := q - 1;
  }

  lemma TrapTwoLeast(s: State, f: Metric, cmp: Cmp, size: nat, x: nat, a: nat, b: nat, z: int, p: nat, q: nat)
    requires TotalOrder(cmp) && Inv(s, f, cmp, size) && Trap(s, f, cmp, x, a, b, z)
    requires p < q && q + 1 < |s.table|
    requires s.table[p + 1].Joins(x, a) && s.table[q + 1].Joins(x, b)
    ensures TwoLeast(s.table[1..], s.table[0].i, s.table[0].j, p, q, cmp)
  {
    hide TotalOrder, Near, Far, Inv;
    var h, r := s.table[0], s.table[1..];
    CellNear(s, f, cmp, size, s.table[p + 1], x, a, z);
    CellNear(s, f, cmp, size, s.table[q + 1], x, b, z);
    forall t | 0 <= t < |r| && t != p && t != q && Touches(r[t], h.i, h.j)
      ensures cmp(r[p].key, r[t].key) < 0 && cmp(r[q].key, r[t].key) < 0
    {
      OtherFar(s, f, cmp, size, x, a, b, z, p, q, t);
      BelowAll(cmp, r[p].key, z, r[t].key);
      BelowAll(cmp, r[q].key, z, r[t].key);
    }
  }

  lemma OtherFar(s: State, f: Metric, cmp: Cmp, size: nat, x: nat, a: nat, b: nat, z: int, p: nat, q: nat, t: nat)
    requires TotalOrder(cmp) && Inv(s, f, cmp, size) && Trap(s, f, cmp, x, a, b, z)
    requires p < q && q + 1 < |s.table|
    requires s.table[p + 1].Joins(x, a) && s.table[q + 1].Joins(x, b)
    requires t + 1 < |s.table| && t != p && t != q && Touches(s.table[t + 1], s.table[0].i, s.table[0].j)
    ensures cmp(s.table[t + 1].key, z) >= 0
    ensures cmp(z, s.table[t + 1].key) <= 0
  {
    hide TotalOrder, Near, Far, IsLeast, Partition, SortedCells;
    var h, d := s.table[0], s.table[t + 1];
    var k := Bystander(d, h.i, h.j);
    assert s.table[1..][t] == d && d in s.table[1..];
    BystanderLive(s, f, cmp, size, d);
    var w := if d.Joins(h.i, k) then h.i else h.j;
    assert d in s.table && d.Joins(w, k);
    assert Count(s.table, x, a) == 1 && Count(s.table, x, b) == 1;
    if w == x && (k == a || k == b) {
      var o := if k == a then p + 1 else q + 1;
      CountTwice(s.table, if o < t + 1 then o else t + 1, if o < t + 1 then t + 1 else o, x, k);
    }
    CellFar(s, f, cmp, size, d, w, k, z);
    Converse(cmp, d.key, z);
  }

  /** Such a round does not keep the table a complete graph of minimum distances. */
  lemma Trapped(s: State, f: Metric, cmp: Cmp, size: nat, x: nat, a: nat, b: nat, z: int)
    requires TotalOrder(cmp) && Inv(s, f, cmp, size) && Trap(s, f, cmp, x, a, b, z)
    ensures !Inv(Step(s, cmp), f, cmp, size)
  {
    hide TotalOrder, Near, Far, Inv;
    var p := PlaceOfCell(s, f, cmp, size, x, a);
    var q := PlaceOfCell(s, f, cmp, size, x, b);
    Converse(cmp, a, b);
    if p < q {
      TrappedInOrder(s, f, cmp, size, x, a, b, z, p, q);
    } else {
      TrappedInOrder(s, f, cmp, size, x, b, a, z, q, p);
    }
  }

  lemma TrappedInOrder(s: State, f: Metric, cmp: Cmp, size: nat, x: nat, a: nat, b: nat, z: int, p: nat, q: nat)
    requires TotalOrder(cmp) && Inv(s, f, cmp, size) && Trap(s, f, cmp, x, a, b, z) && cmp(b, a) == 0
    requires p < q && q + 1 < |s.table|
    requires s.table[p + 1].Joins(x, a) && s.table[q + 1].Joins(x, b)
    ensures !Inv(Step(s, cmp), f, cmp, size)
  {
    hide TotalOrder, Near, Far, Complete, Partition, IsLeast, Absorb, SortedCells;
    var h, r, s' := s.table[0], s.table[1..], Step(s, cmp);
    HeadOf(s.table, s.leaves.Keys);
    SortedTail(s.table, cmp);
    TrapTwoLeast(s, f, cmp, size, x, a, b, z, p, q);
    SecondLost(r, s.leaves.Keys, h.i, h.j, s.n, p, q, cmp);
    if Inv(s', f, cmp, size) {
      var c := CellOf(s'.table, s'.leaves.Keys, s.n, b);
      CellLeast(s', f, cmp, size, c, s.n, b);
      CellLeast(s, f, cmp, size, r[q], x, b);
      NotAbove(f, cmp, c.key, s'.leaves[s.n], r[q].key, s.leaves[x], s.leaves[b]);
      Converse(cmp, r[q].key, c.key);
    }
  }

  lemma NotAbove(f: Metric, cmp: Cmp, key: int, big: set<nat>, other: int, small: set<nat>, b: set<nat>)
    requires IsLeast(f, cmp, key, big, b) && IsLeast(f, cmp, other, small, b) && small <= big
    ensures cmp(key, other) <= 0
  {
  }

  // ---------- choosing the couple to be merged ----------

  /** u and v, of p and q, are nearer to each other than any other leaves of different clusters. */
  ghost predicate Nearest(s: State, f: Metric, cmp: Cmp, p: nat, q: nat, u: nat, v: nat) {
    && p in s.leaves && q in s.leaves && p != q && u in s.leaves[p] && v in s.leaves[q]
    && (forall a, b, x, y :: (a in s.leaves && b in s.leaves && a != b && {a, b} != {p, q}
                              && x in s.leaves[a] && y in s.leaves[b]) ==> cmp(Dist(f, u, v), Dist(f, x, y)) < 0)
  }

  lemma NearestFirst(s: State, f: Metric, cmp: Cmp, size: nat, p: nat, q: nat, u: nat, v: nat)
    requires TotalOrder(cmp) && Inv(s, f, cmp, size) && Nearest(s, f, cmp, p, q, u, v)
    ensures s.table != [] && {s.table[0].i, s.table[0].j} == {p, q}
  {
    hide TotalOrder, Complete, Partition, IsLeast;
    var c := CellOf(s.table, s.leaves.Keys, p, q);
    CellLeast(s, f, cmp, size, c, p, q);
    var h := s.table[0];
    assert h in s.table;
    HeadOf(s.table, s.leaves.Keys);
    CellLeast(s, f, cmp, size, h, h.i, h.j);
    HeadLeast(s.table, c, cmp);
    if {h.i, h.j} != {p, q} {
      LeastAmong(f, cmp, c.key, s.leaves[p], s.leaves[q], u, v);
      var x, y := Attained(f, cmp, h.key, s.leaves[h.i], s.leaves[h.j]);
      BelowAll(cmp, c.key, Dist(f, u, v), h.key);
      Converse(cmp, c.key, h.key);
    }
  }

  lemma HeadLeast(m: seq<Cell>, c: Cell, cmp: Cmp)
    requires TotalOrder(cmp) && SortedCells(m, cmp) && c in m
    ensures cmp(m[0].key, c.key) <= 0
  {
    Converse(cmp, c.key, c.key);
  }

  lemma LeastAmong(f: Metric, cmp: Cmp, key: int, a: set<nat>, b: set<nat>, u: nat, v: nat)
    requires IsLeast(f, cmp, key, a, b) && u in a && v in b
    ensures cmp(key, Dist(f, u, v)) <= 0
  {
  }

  lemma Attained(f: Metric, cmp: Cmp, key: int, a: set<nat>, b: set<nat>) returns (x: nat, y: nat)
    requires IsLeast(f, cmp, key, a, b)
    ensures x in a && y in b && Dist(f, x, y) == key
  {
    x, y :| x in a && y in b && Dist(f, x, y) == key;
  }

  // ---------- levels ----------

  lemma {:induction false} LeastOf(ns: set<nat>, cmp: Cmp) returns (e: nat)
    requires TotalOrder(cmp) && ns != {}
    ensures e in ns && forall x :: x in ns ==> cmp(e, x) <= 0
    decreases ns
  {
    hide TotalOrder;
    var a :| a in ns;
    e := a;
    Converse(cmp, a, a);
    if ns != {a} {
      var r := ns - {a};
      assert r != {};
      var d := LeastOf(r, cmp);
      Converse(cmp, a, d);
      if cmp(d, a) < 0 {
        e := d;
      }
      forall x | x in ns
        ensures cmp(e, x) <= 0
      {
        if x != a {
          assert x in r;
          Transitive(cmp, if e == a then a else d, d, x);
        } else {
          Converse(cmp, d, d);
        }
      }
    }
  }

  ghost predicate Increasing(lev: seq<int>, cmp: Cmp) {
    forall p, q :: 0 <= p < q < |lev| ==> cmp(lev[p], lev[q]) < 0
  }

  /** As many increasing distances as there are numbers that the comparison tells apart. */
  lemma {:induction false} Levels(ns: set<nat>, cmp: Cmp, k: nat) returns (lev: seq<int>)
    requires TotalOrder(cmp) && Separates(cmp, ns) && k <= |ns|
    ensures |lev| == k && Increasing(lev, cmp) && forall x :: x in lev ==> x in ns
    decreases k
  {
    hide TotalOrder;
    if k == 0 {
      lev := [];
    } else {
      var e := LeastOf(ns, cmp);
      var r := Levels(ns - {e}, cmp, k - 1);
      lev := [e] + r;
      forall q | 0 < q < |lev|
        ensures cmp(e, lev[q]) < 0
      {
        assert lev[q] == r[q - 1] && r[q - 1] in r;
      }
    }
  }

  lemma {:induction false} NumbersCount(n: nat)
    ensures |Numbers(n)| == n
  {
    if n > 0 {
      NumbersCount(n - 1);
    }
  }
}
