/** Single-linkage clustering as a state machine over an ordered table of couples. */
module Linkage {
  import opened RbOrder

  /** An entry of the ordered table: a metric value and the couple it belongs to (singlelinkage.h). */
  datatype Cell = Cell(key: int, i: nat, car: int, j: nat, cdr: int) {
    /** The cell joins a and b, in either order. */
    predicate Joins(a: nat, b: nat) {
      (i == a && j == b) || (i == b && j == a)
    }
  }

  type Metric = (nat, nat) -> int

  /** The metric is asked with the smaller index first. */
  function Dist(f: Metric, x: nat, y: nat): int {
    if x < y then f(x, y) else f(y, x)
  }

  /** The comparison, which also orders the helper tree, tells these cluster numbers apart. */
  ghost predicate Separates(cmp: Cmp, live: set<nat>) {
    forall x, y :: x in live && y in live && cmp(x, y) == 0 ==> x == y
  }

  function Numbers(n: nat): (s: set<nat>)
    ensures forall x :: x in s <==> 0 <= x < n
  {
    if n == 0 then {} else Numbers(n - 1) + {n - 1}
  }

  // ---------- one merge round ----------

  /** Some element of the helper tree compares equal to k; the search stops at one such. */
  predicate Found(helper: set<nat>, k: nat, cmp: Cmp) {
    exists x :: x in helper && cmp(k, x) == 0
  }

  function Without(helper: set<nat>, k: nat, cmp: Cmp): set<nat> {
    set x | x in helper && cmp(k, x) != 0
  }

  predicate Touches(c: Cell, i: nat, j: nat) {
    c.i == i || c.i == j || c.j == i || c.j == j
  }

  /** The other cluster of a cell that touches i or j. */
  function Bystander(c: Cell, i: nat, j: nat): nat {
    if c.i == i || c.i == j then c.j else c.i
  }

  function Renamed(c: Cell, i: nat, j: nat, n: nat): Cell {
    if c.i == i || c.i == j then c.(i := n) else c.(j := n)
  }

  /** The cells after those of i and j were renamed to n, the second of each pair being dropped. */
  function Absorb(cells: seq<Cell>, i: nat, j: nat, n: nat, helper: set<nat>, cmp: Cmp): seq<Cell> {
    if cells == [] then []
    else if !Touches(cells[0], i, j) then [cells[0]] + Absorb(cells[1..], i, j, n, helper, cmp)
    else
      var k := Bystander(cells[0], i, j);
      if Found(helper, k, cmp) then Absorb(cells[1..], i, j, n, Without(helper, k, cmp), cmp)
      else [Renamed(cells[0], i, j, n)] + Absorb(cells[1..], i, j, n, helper + {k}, cmp)
  }

  /** What is left in the helper tree at the end. */
  function Leftover(cells: seq<Cell>, i: nat, j: nat, helper: set<nat>, cmp: Cmp): set<nat> {
    if cells == [] then helper
    else if !Touches(cells[0], i, j) then Leftover(cells[1..], i, j, helper, cmp)
    else
      var k := Bystander(cells[0], i, j);
      Leftover(cells[1..], i, j, if Found(helper, k, cmp) then Without(helper, k, cmp) else helper + {k}, cmp)
  }

  function Count(cells: seq<Cell>, a: nat, b: nat): nat {
    if cells == [] then 0 else (if cells[0].Joins(a, b) then 1 else 0) + Count(cells[1..], a, b)
  }

  ghost predicate SortedCells(m: seq<Cell>, cmp: Cmp) {
    forall p, q :: 0 <= p < q < |m| ==> cmp(m[p].key, m[q].key) <= 0
  }

  /** Every cell joins two different clusters of live. */
  ghost predicate Within(m: seq<Cell>, live: set<nat>) {
    forall c :: c in m ==> c.i in live && c.j in live && c.i != c.j
  }

  /** Exactly one cell for every two clusters of live. */
  ghost predicate Complete(m: seq<Cell>, live: set<nat>) {
    Within(m, live) && forall a, b :: a in live && b in live && a != b ==> Count(m, a, b) == 1
  }

  /** What one round needs of the clusters and the helper tree. */
  ghost predicate Setting(live: set<nat>, i: nat, j: nat, n: nat, helper: set<nat>, cmp: Cmp) {
    && TotalOrder(cmp) && Separates(cmp, live - {i, j})
    && i in live && j in live && i != j && n !in live
    && helper <= live - {i, j}
  }

  lemma FoundIsMember(helper: set<nat>, k: nat, bystanders: set<nat>, cmp: Cmp)
    requires TotalOrder(cmp) && Separates(cmp, bystanders) && k in bystanders && helper <= bystanders
    ensures Found(helper, k, cmp) <==> k in helper
    ensures Without(helper, k, cmp) == helper - {k}
  {
    assert cmp(k, k) == 0;
  }

  /** Cells still to come that join k to i or to j. */
  function Pending(cells: seq<Cell>, i: nat, j: nat, k: nat): nat {
    Count(cells, i, k) + Count(cells, j, k)
  }

  /** A bystander with two cells, or with one after the first was renamed, ends with one cell to n and
      leaves nothing in the helper tree. */
  lemma {:induction false} AbsorbJoinsOnce(cells: seq<Cell>, live: set<nat>, i: nat, j: nat, n: nat, helper: set<nat>,
                                           cmp: Cmp, k: nat)
    requires Setting(live, i, j, n, helper, cmp) && Within(cells, live) && Count(cells, i, j) == 0
    requires k in live && k != i && k != j
    requires Pending(cells, i, j, k) == 1 <==> k in helper
    requires Pending(cells, i, j, k) <= 2
    ensures Count(Absorb(cells, i, j, n, helper, cmp), n, k) == if Pending(cells, i, j, k) == 2 then 1 else 0
    ensures k !in Leftover(cells, i, j, helper, cmp)
  {
    if cells != [] {
      var c := cells[0];
      assert c in cells && forall d :: d in cells[1..] ==> d in cells;
      assert !c.Joins(i, j);
      if !Touches(c, i, j) {
        AbsorbJoinsOnce(cells[1..], live, i, j, n, helper, cmp, k);
      } else {
        var b := Bystander(c, i, j);
        FoundIsMember(helper, b, live - {i, j}, cmp);
        AbsorbJoinsOnce(cells[1..], live, i, j, n, if b in helper then helper - {b} else helper + {b}, cmp, k);
      }
    }
  }

  /** Cells between bystanders are untouched, and all others now end at n. */
  lemma {:induction false} AbsorbElsewhere(cells: seq<Cell>, live: set<nat>, i: nat, j: nat, n: nat, helper: set<nat>,
                                           cmp: Cmp)
    requires Within(cells, live) && Count(cells, i, j) == 0 && i != j && n !in live
    ensures var out := Absorb(cells, i, j, n, helper, cmp);
            && Within(out, live - {i, j} + {n})
            && forall a, b :: a in live - {i, j} && b in live - {i, j} ==> Count(out, a, b) == Count(cells, a, b)
  {
    if cells != [] {
      var c, r := cells[0], cells[1..];
      assert c in cells && forall d :: d in r ==> d in cells;
      if !Touches(c, i, j) {
        AbsorbElsewhere(r, live, i, j, n, helper, cmp);
      } else {
        var k := Bystander(c, i, j);
        AbsorbElsewhere(r, live, i, j, n, Without(helper, k, cmp), cmp);
        AbsorbElsewhere(r, live, i, j, n, helper + {k}, cmp);
      }
    }
  }

  ghost predicate KeysAtLeast(m: seq<Cell>, key: int, cmp: Cmp) {
    forall c :: c in m ==> cmp(key, c.key) <= 0
  }

  lemma {:induction false} AbsorbKeys(cells: seq<Cell>, i: nat, j: nat, n: nat, helper: set<nat>, cmp: Cmp, key: int)
    requires KeysAtLeast(cells, key, cmp)
    ensures KeysAtLeast(Absorb(cells, i, j, n, helper, cmp), key, cmp)
  {
    if cells != [] {
      var r := cells[1..];
      assert cells[0] in cells && forall d :: d in r ==> d in cells;
      var k := Bystander(cells[0], i, j);
      AbsorbKeys(r, i, j, n, helper, cmp, key);
      AbsorbKeys(r, i, j, n, Without(helper, k, cmp), cmp, key);
      AbsorbKeys(r, i, j, n, helper + {k}, cmp, key);
    }
  }

  lemma SortedTail(cells: seq<Cell>, cmp: Cmp)
    requires SortedCells(cells, cmp) && cells != []
    ensures SortedCells(cells[1..], cmp) && KeysAtLeast(cells[1..], cells[0].key, cmp)
  {
    forall c | c in cells[1..]
      ensures cmp(cells[0].key, c.key) <= 0
    {
      var q :| 0 <= q < |cells[1..]| && cells[1..][q] == c;
      assert cells[q + 1] == c;
    }
  }

  lemma SortedCons(c: Cell, m: seq<Cell>, cmp: Cmp)
    requires SortedCells(m, cmp) && KeysAtLeast(m, c.key, cmp)
    ensures SortedCells([c] + m, cmp)
  {
    var s := [c] + m;
    assert forall p :: 1 <= p < |s| ==> s[p] == m[p - 1] && s[p] in m;
  }

  /** A round keeps the table in order. */
  lemma {:induction false} AbsorbSorted(cells: seq<Cell>, i: nat, j: nat, n: nat, helper: set<nat>, cmp: Cmp)
    requires SortedCells(cells, cmp)
    ensures SortedCells(Absorb(cells, i, j, n, helper, cmp), cmp)
  {
    if cells != [] {
      var c, r := cells[0], cells[1..];
      SortedTail(cells, cmp);
      var k := Bystander(c, i, j);
      if !Touches(c, i, j) {
        AbsorbSorted(r, i, j, n, helper, cmp);
        AbsorbKeys(r, i, j, n, helper, cmp, c.key);
        SortedCons(c, Absorb(r, i, j, n, helper, cmp), cmp);
      } else if Found(helper, k, cmp) {
        AbsorbSorted(r, i, j, n, Without(helper, k, cmp), cmp);
      } else {
        AbsorbSorted(r, i, j, n, helper + {k}, cmp);
        AbsorbKeys(r, i, j, n, helper + {k}, cmp, c.key);
        SortedCons(Renamed(c, i, j, n), Absorb(r, i, j, n, helper + {k}, cmp), cmp);
      }
    }
  }

  /** Where a cell of the result comes from: it was there before, or it renames a cell of i or j. */
  ghost predicate Origin(cells: seq<Cell>, i: nat, j: nat, n: nat, c: Cell) {
    if c.i == n || c.j == n
    then exists d :: d in cells && Touches(d, i, j) && Renamed(d, i, j, n) == c
    else c in cells && !Touches(c, i, j)
  }

  lemma {:induction false} AbsorbOrigin(cells: seq<Cell>, live: set<nat>, i: nat, j: nat, n: nat, helper: set<nat>,
                                        cmp: Cmp)
    requires Within(cells, live) && n !in live
    ensures forall c :: c in Absorb(cells, i, j, n, helper, cmp) ==> Origin(cells, i, j, n, c)
  {
    if cells != [] {
      var c, r := cells[0], cells[1..];
      assert c in cells && forall d :: d in r ==> d in cells;
      var k := Bystander(c, i, j);
      AbsorbOrigin(r, live, i, j, n, helper, cmp);
      AbsorbOrigin(r, live, i, j, n, Without(helper, k, cmp), cmp);
      AbsorbOrigin(r, live, i, j, n, helper + {k}, cmp);
      assert forall d :: Origin(r, i, j, n, d) ==> Origin(cells, i, j, n, d);
    }
  }

  lemma AbsorbLesserFirst(cells: seq<Cell>, live: set<nat>, i: nat, j: nat, n: nat, helper: set<nat>, cmp: Cmp, k: nat)
    requires Setting(live, i, j, n, helper, cmp) && Within(cells, live) && Count(cells, i, j) == 0
    requires SortedCells(cells, cmp)
    requires k in live && k != i && k != j && k !in helper && Pending(cells, i, j, k) != 1
             && Pending(cells, i, j, k) <= 2
    requires cells != [] && Touches(cells[0], i, j) && Bystander(cells[0], i, j) == k
    ensures forall c, d :: c in Absorb(cells, i, j, n, helper, cmp) && c.Joins(n, k)
                           && d in cells && (d.Joins(i, k) || d.Joins(j, k))
                           ==> cmp(c.key, d.key) <= 0
  {
    hide Separates, TotalOrder, SortedCells;
    var h, r := cells[0], cells[1..];
    assert h in cells && forall d :: d in r ==> d in cells;
    assert !h.Joins(i, j);
    SortedTail(cells, cmp);
    Converse(cmp, h.key, h.key);
    FoundIsMember(helper, k, live - {i, j}, cmp);
    AbsorbJoinsOnce(r, live, i, j, n, helper + {k}, cmp, k);
    NoneCounted(Absorb(r, i, j, n, helper + {k}, cmp), n, k);
  }

  /** The cell kept for a bystander is the first of its two, hence the one with the lesser key. */
  lemma {:induction false} AbsorbLesser(cells: seq<Cell>, live: set<nat>, i: nat, j: nat, n: nat, helper: set<nat>,
                                        cmp: Cmp, k: nat)
    requires Setting(live, i, j, n, helper, cmp) && Within(cells, live) && Count(cells, i, j) == 0
    requires SortedCells(cells, cmp)
    requires k in live && k != i && k != j && k !in helper && Pending(cells, i, j, k) != 1
             && Pending(cells, i, j, k) <= 2
    ensures forall c, d :: c in Absorb(cells, i, j, n, helper, cmp) && c.Joins(n, k)
                           && d in cells && (d.Joins(i, k) || d.Joins(j, k))
                           ==> cmp(c.key, d.key) <= 0
  {
    hide Separates, TotalOrder, SortedCells;
    if cells != [] {
      var h, r := cells[0], cells[1..];
      assert h in cells && forall d :: d in r ==> d in cells;
      assert !h.Joins(i, j);
      SortedTail(cells, cmp);
      var b := Bystander(h, i, j);
      if !Touches(h, i, j) {
        AbsorbLesser(r, live, i, j, n, helper, cmp, k);
      } else if b == k {
        AbsorbLesserFirst(cells, live, i, j, n, helper, cmp, k);
      } else {
        FoundIsMember(helper, b, live - {i, j}, cmp);
        AbsorbLesser(r, live, i, j, n, if b in helper then helper - {b} else helper + {b}, cmp, k);
      }
    }
  }

  lemma {:induction false} NoneCounted(cells: seq<Cell>, a: nat, b: nat)
    ensures Count(cells, a, b) == 0 <==> forall c :: c in cells ==> !c.Joins(a, b)
  {
    if cells != [] {
      NoneCounted(cells[1..], a, b);
      assert forall c :: c in cells <==> c == cells[0] || c in cells[1..];
    }
  }

  // ---------- the whole run ----------

  /** The next cluster number, the leaves of each live cluster, the table, and the couples merged so far. */
  datatype State = State(n: nat, leaves: map<nat, set<nat>>, table: seq<Cell>, merges: seq<Cell>)

  /** The least couple is merged into cluster n. */
  function Step(s: State, cmp: Cmp): State
    requires s.table != [] && s.table[0].i in s.leaves && s.table[0].j in s.leaves
  {
    var c := s.table[0];
    State(s.n + 1, Merged(s.leaves, c.i, c.j, s.n),
          Absorb(s.table[1..], c.i, c.j, s.n, {}, cmp), s.merges + [c])
  }

  /** key is a least distance, under cmp, between a leaf of a and a leaf of b. */
  ghost predicate IsLeast(f: Metric, cmp: Cmp, key: int, a: set<nat>, b: set<nat>) {
    && (exists x, y :: x in a && y in b && Dist(f, x, y) == key)
    && (forall x, y :: x in a && y in b ==> cmp(key, Dist(f, x, y)) <= 0)
  }

  ghost predicate Owned(leaves: map<nat, set<nat>>, x: nat) {
    exists a :: a in leaves && x in leaves[a]
  }

  /** The clusters are a partition of the leaves 0 .. size. */
  ghost predicate Partition(leaves: map<nat, set<nat>>, size: nat) {
    && (forall a, x :: a in leaves && x in leaves[a] ==> x < size)
    && (forall a, b, x :: a in leaves && b in leaves && x in leaves[a] && x in leaves[b] ==> a == b)
    && (forall x: nat :: x < size ==> Owned(leaves, x))
    && (forall a :: a in leaves ==> leaves[a] != {})
  }

  /** The table is a complete graph of minimum distances over the live clusters. */
  ghost predicate Inv(s: State, f: Metric, cmp: Cmp, size: nat) {
    && Partition(s.leaves, size)
    && s.n >= size && |s.leaves| == 2 * size - s.n && (forall a :: a in s.leaves ==> a < s.n)
    && |s.merges| == s.n - size
    && Complete(s.table, s.leaves.Keys)
    && SortedCells(s.table, cmp)
    && (forall c :: c in s.table ==> IsLeast(f, cmp, c.key, s.leaves[c.i], s.leaves[c.j]))
  }

  /** A round keeps every table of its clusters complete exactly when the comparison tells the bystanders apart: the
      helper tree is ordered by the same comparison as the distances. */
  lemma HelperNeedsSeparation(cmp: Cmp, live: set<nat>, i: nat, j: nat, n: nat)
    requires TotalOrder(cmp) && i in live && j in live && i != j && n !in live
    ensures (forall m :: RoundTable(m, cmp, i, j, live)
                         ==> Complete(Absorb(m[1..], i, j, n, {}, cmp), live - {i, j} + {n}))
            <==> Separates(cmp, live - {i, j})
  {
    hide TotalOrder;
    if Separates(cmp, live - {i, j}) {
      forall m | RoundTable(m, cmp, i, j, live)
        ensures Complete(Absorb(m[1..], i, j, n, {}, cmp), live - {i, j} + {n})
      {
        StepComplete(m, live, n, cmp);
      }
    } else {
      var a, b :| a in live - {i, j} && b in live - {i, j} && cmp(a, b) == 0 && a != b;
      Converse(cmp, a, b);
      Confused(cmp, live, i, j, a, b, n);
    }
  }

  /** An ordered, complete table whose least couple is (i, j). */
  ghost predicate RoundTable(m: seq<Cell>, cmp: Cmp, i: nat, j: nat, live: set<nat>) {
    m != [] && m[0].i == i && m[0].j == j && SortedCells(m, cmp) && Complete(m, live)
  }

  /** A cell for each of the pairs, all at the same distance. */
  lemma {:induction false} FlatCells(ps: set<(nat, nat)>) returns (t: seq<Cell>)
    requires forall p :: p in ps ==> p.0 < p.1
    ensures forall c :: c in t ==> c.key == 0 && (c.i, c.j) in ps
    ensures forall x, y :: x < y ==> Count(t, x, y) == Count(t, y, x) == if (x, y) in ps then 1 else 0
    decreases ps
  {
    if ps == {} {
      t := [];
    } else {
      var p :| p in ps;
      var r := FlatCells(ps - {p});
      t := [Flat(p.0, p.1)] + r;
      assert t[1..] == r;
    }
  }

  lemma {:induction false} CountJoined(s: seq<Cell>, t: seq<Cell>, x: nat, y: nat)
    ensures Count(s + t, x, y) == Count(s, x, y) + Count(t, x, y)
  {
    if s == [] {
      assert s + t == t;
    } else {
      CountJoined(s[1..], t, x, y);
      assert s + t == [s[0]] + (s[1..] + t);
      CountCons(s[0], s[1..] + t, x, y);
    }
  }

  /** The couples that a round with a and b confused meets first. */
  function FlatHead(i: nat, j: nat, a: nat, b: nat): seq<Cell> {
    [Flat(i, j)] + ([Flat(i, a)] + ([Flat(i, b)] + [Flat(j, a)]))
  }

  lemma FlatHeadCount(i: nat, j: nat, a: nat, b: nat, x: nat, y: nat)
    requires i != j && i != a && i != b && j != a && j != b && a != b
    ensures Count(FlatHead(i, j, a, b), x, y) <= 1
    ensures Count(FlatHead(i, j, a, b), x, y) == Count(FlatHead(i, j, a, b), y, x)
  {
    CountCons(Flat(j, a), [], x, y);
    CountCons(Flat(i, b), [Flat(j, a)], x, y);
    CountCons(Flat(i, a), [Flat(i, b)] + [Flat(j, a)], x, y);
    CountCons(Flat(i, j), [Flat(i, a)] + ([Flat(i, b)] + [Flat(j, a)]), x, y);
    assert [Flat(j, a)] + [] == [Flat(j, a)];
    CountSwap(FlatHead(i, j, a, b), x, y);
  }

  /** The head completed to a table of all clusters. */
  lemma FlatTable(cmp: Cmp, live: set<nat>, i: nat, j: nat, a: nat, b: nat) returns (t: seq<Cell>)
    requires TotalOrder(cmp) && {i, j, a, b} <= live
    requires i != j && i != a && i != b && j != a && j != b && a != b
    ensures RoundTable(FlatHead(i, j, a, b) + t, cmp, i, j, live)
  {
    hide TotalOrder, Count;
    var h := FlatHead(i, j, a, b);
    t := FlatCells(set x, y | x in live && y in live && x < y && Count(h, x, y) == 0 :: (x, y));
    forall x, y | x in live && y in live && x != y
      ensures Count(h + t, x, y) == 1
    {
      FlatHeadCount(i, j, a, b, x, y);
      CountJoined(h, t, x, y);
      if y < x {
        assert Count(t, y, x) == Count(t, x, y);
      }
    }
    Converse(cmp, 0, 0);
    assert forall c :: c in h + t ==> c in h || c in t;
    FlatSorted(h + t, cmp);
  }

  lemma FlatSorted(m: seq<Cell>, cmp: Cmp)
    requires cmp(0, 0) == 0 && forall c :: c in m ==> c.key == 0
    ensures SortedCells(m, cmp)
  {
  }

  /** All distances equal: with a and b confused, the couple (n, a) is kept twice. */
  lemma Confused(cmp: Cmp, live: set<nat>, i: nat, j: nat, a: nat, b: nat, n: nat)
    requires TotalOrder(cmp) && cmp(b, a) == 0 && {i, j, a, b} <= live && n !in live
    requires i != j && i != a && i != b && j != a && j != b && a != b
    ensures exists m :: RoundTable(m, cmp, i, j, live)
                        && !Complete(Absorb(m[1..], i, j, n, {}, cmp), live - {i, j} + {n})
  {
    hide RoundTable, Absorb, Complete, Count;
    var t := FlatTable(cmp, live, i, j, a, b);
    ConfusedRound(cmp, i, j, a, b, n, t, live - {i, j} + {n});
    var m := FlatHead(i, j, a, b) + t;
    assert m[1..] == [Flat(i, a)] + ([Flat(i, b)] + ([Flat(j, a)] + t));
  }

  function Flat(a: nat, b: nat): Cell {
    Cell(0, a, 0, b, 0)
  }

  lemma CountCons(c: Cell, m: seq<Cell>, a: nat, b: nat)
    ensures Count([c] + m, a, b) == (if c.Joins(a, b) then 1 else 0) + Count(m, a, b)
  {
    assert ([c] + m)[1..] == m;
  }

  lemma ConfusedRound(cmp: Cmp, i: nat, j: nat, a: nat, b: nat, n: nat, tail: seq<Cell>, live: set<nat>)
    requires cmp(b, a) == 0 && i != j && i != a && i != b && j != a && j != b && a != b && n !in {i, j, a, b}
    requires a in live && n in live
    ensures !Complete(Absorb([Flat(i, a)] + ([Flat(i, b)] + ([Flat(j, a)] + tail)), i, j, n, {}, cmp), live)
  {
    var s3 := [Flat(j, a)] + tail;
    var s2 := [Flat(i, b)] + s3;
    var s1 := [Flat(i, a)] + s2;
    assert s1[1..] == s2 && s2[1..] == s3 && s3[1..] == tail;
    assert a in {a} && Found({a}, b, cmp);
    assert Without({a}, b, cmp) == {};
    var t := Absorb(tail, i, j, n, {a}, cmp);
    assert {} + {a} == {a};
    assert Absorb(s3, i, j, n, {}, cmp) == [Flat(n, a)] + t;
    assert Absorb(s2, i, j, n, {a}, cmp) == [Flat(n, a)] + t;
    assert Absorb(s1, i, j, n, {}, cmp) == [Flat(n, a)] + ([Flat(n, a)] + t);
    CountCons(Flat(n, a), [Flat(n, a)] + t, n, a);
    CountCons(Flat(n, a), t, n, a);
  }

  lemma LeastSwap(f: Metric, cmp: Cmp, key: int, a: set<nat>, b: set<nat>)
    ensures IsLeast(f, cmp, key, a, b) <==> IsLeast(f, cmp, key, b, a)
  {
    assert forall x, y :: Dist(f, x, y) == Dist(f, y, x);
  }

  lemma LeastJoin(f: Metric, cmp: Cmp, key: int, a: set<nat>, b: set<nat>, k: set<nat>, ka: int, kb: int)
    requires TotalOrder(cmp) && IsLeast(f, cmp, ka, a, k) && IsLeast(f, cmp, kb, b, k)
    requires (key == ka || key == kb) && cmp(key, ka) <= 0 && cmp(key, kb) <= 0
    ensures IsLeast(f, cmp, key, a + b, k)
  {
    hide TotalOrder;
    forall x, y | x in a + b && y in k
      ensures cmp(key, Dist(f, x, y)) <= 0
    {
      Transitive(cmp, key, if x in a then ka else kb, Dist(f, x, y));
    }
  }

  /** The distance of a cell, its clusters given in either order. */
  lemma CellLeast(s: State, f: Metric, cmp: Cmp, size: nat, c: Cell, a: nat, b: nat)
    requires Inv(s, f, cmp, size) && c in s.table && c.Joins(a, b)
    ensures a in s.leaves && b in s.leaves && IsLeast(f, cmp, c.key, s.leaves[a], s.leaves[b])
  {
    LeastSwap(f, cmp, c.key, s.leaves[c.i], s.leaves[c.j]);
  }

  /** In a complete table any two clusters have a cell. */
  lemma CellOf(m: seq<Cell>, live: set<nat>, a: nat, b: nat) returns (c: Cell)
    requires Complete(m, live) && a in live && b in live && a != b
    ensures c in m && c.Joins(a, b)
  {
    NoneCounted(m, a, b);
    c :| c in m && c.Joins(a, b);
  }

  lemma CountSwap(m: seq<Cell>, a: nat, b: nat)
    ensures Count(m, a, b) == Count(m, b, a)
  {
  }

  /** After a round the table is complete over the new live clusters. */
  lemma {:induction false} StepComplete(m: seq<Cell>, live: set<nat>, n: nat, cmp: Cmp)
    requires m != [] && Complete(m, live) && n !in live && TotalOrder(cmp) && Separates(cmp, live - {m[0].i, m[0].j})
    ensures var c := m[0];
            && Complete(Absorb(m[1..], c.i, c.j, n, {}, cmp), live - {c.i, c.j} + {n})
            && Leftover(m[1..], c.i, c.j, {}, cmp) !! live - {c.i, c.j}
  {
    var c, r := m[0], m[1..];
    var i, j := c.i, c.j;
    assert c in m && forall d :: d in r ==> d in m;
    assert Count(m, i, j) == 1;
    AbsorbElsewhere(r, live, i, j, n, {}, cmp);
    var out := Absorb(r, i, j, n, {}, cmp);
    forall k | k in live - {i, j}
      ensures Count(out, n, k) == 1 && Count(out, k, n) == 1 && k !in Leftover(r, i, j, {}, cmp)
    {
      assert Count(m, i, k) == 1 && Count(m, j, k) == 1;
      assert Pending(r, i, j, k) == 2;
      AbsorbJoinsOnce(r, live, i, j, n, {}, cmp, k);
      CountSwap(out, n, k);
    }
    forall a, b | a in live - {i, j} && b in live - {i, j} && a != b
      ensures Count(out, a, b) == 1
    {
      assert Count(m, a, b) == 1;
    }
  }

  /** The clusters that the next round does not merge. */
  function Others(s: State): set<nat>
    requires s.table != []
  {
    s.leaves.Keys - {s.table[0].i, s.table[0].j}
  }

  lemma {:induction false} StepLeast(s: State, f: Metric, cmp: Cmp, size: nat, c: Cell)
    requires TotalOrder(cmp) && Inv(s, f, cmp, size) && s.table != [] && Separates(cmp, Others(s))
    requires c in Step(s, cmp).table
    ensures var s' := Step(s, cmp);
            c.i in s'.leaves && c.j in s'.leaves && IsLeast(f, cmp, c.key, s'.leaves[c.i], s'.leaves[c.j])
  {
    var s', h, r := Step(s, cmp), s.table[0], s.table[1..];
    var i, j, live := h.i, h.j, s.leaves.Keys;
    StepComplete(s.table, live, s.n, cmp);
    AbsorbOrigin(r, live, i, j, s.n, {}, cmp);
    assert Origin(r, i, j, s.n, c);
    assert forall d :: d in r ==> d in s.table;
    if c.i == s.n || c.j == s.n {
      var d :| d in r && Touches(d, i, j) && Renamed(d, i, j, s.n) == c;
      BystanderLive(s, f, cmp, size, d);
      NewLeast(s, f, cmp, size, c, d, Bystander(d, i, j));
    }
  }

  /** The two cells that join a bystander to the clusters being merged. */
  lemma {:induction false} TwoCells(s: State, f: Metric, cmp: Cmp, size: nat, k: nat) returns (ci: Cell, cj: Cell)
    requires Inv(s, f, cmp, size) && s.table != [] && k in s.leaves && k != s.table[0].i && k != s.table[0].j
    ensures var h := s.table[0]; var r := s.table[1..];
            && h.i in s.leaves && h.j in s.leaves && h.i != h.j && Count(r, h.i, h.j) == 0 && Within(r, s.leaves.Keys)
            && Pending(r, h.i, h.j, k) == 2
            && ci in r && ci.Joins(h.i, k) && cj in r && cj.Joins(h.j, k)
            && (forall d :: d in r && d.Joins(h.i, k) ==> d == ci)
            && (forall d :: d in r && d.Joins(h.j, k) ==> d == cj)
  {
    hide IsLeast, Partition, SortedCells;
    var h, r := s.table[0], s.table[1..];
    assert h in s.table && forall e :: e in r ==> e in s.table;
    assert Count(s.table, h.i, h.j) == 1 && Count(s.table, h.i, k) == 1 && Count(s.table, h.j, k) == 1;
    NoneCounted(r, h.i, k);
    NoneCounted(r, h.j, k);
    ci :| ci in r && ci.Joins(h.i, k);
    cj :| cj in r && cj.Joins(h.j, k);
    forall d | d in r && d.Joins(h.i, k)
      ensures d == ci
    {
      OnlyOne(r, h.i, k, d, ci);
    }
    forall d | d in r && d.Joins(h.j, k)
      ensures d == cj
    {
      OnlyOne(r, h.j, k, d, cj);
    }
  }

  /** The cell that comes to join n and k is one of the two, and its key is the lesser one. */
  lemma NewKey(s: State, f: Metric, cmp: Cmp, size: nat, c: Cell, d: Cell, k: nat) returns (ci: Cell, cj: Cell)
    requires TotalOrder(cmp) && Inv(s, f, cmp, size) && s.table != [] && Separates(cmp, Others(s))
    requires var h := s.table[0];
             && c in Step(s, cmp).table && d in s.table[1..] && Touches(d, h.i, h.j)
             && Renamed(d, h.i, h.j, s.n) == c && k == Bystander(d, h.i, h.j)
    requires k in s.leaves && k != s.table[0].i && k != s.table[0].j
    ensures var h := s.table[0];
            ci in s.table && ci.Joins(h.i, k) && cj in s.table && cj.Joins(h.j, k)
    ensures cmp(c.key, ci.key) <= 0 && cmp(c.key, cj.key) <= 0 && (c.key == ci.key || c.key == cj.key)
  {
    hide IsLeast, TotalOrder, Separates, Complete, Partition, Absorb;
    var h, r := s.table[0], s.table[1..];
    ci, cj := TwoCells(s, f, cmp, size, k);
    assert d.Joins(h.i, k) || d.Joins(h.j, k);
    assert c.Joins(s.n, k);
    SortedTail(s.table, cmp);
    AbsorbLesser(r, s.leaves.Keys, h.i, h.j, s.n, {}, cmp, k);
  }

  lemma {:induction false} NewLeast(s: State, f: Metric, cmp: Cmp, size: nat, c: Cell, d: Cell, k: nat)
    requires TotalOrder(cmp) && Inv(s, f, cmp, size) && s.table != [] && Separates(cmp, Others(s))
    requires var h := s.table[0];
             && c in Step(s, cmp).table && d in s.table[1..] && Touches(d, h.i, h.j)
             && Renamed(d, h.i, h.j, s.n) == c && k == Bystander(d, h.i, h.j)
    requires k in s.leaves && k != s.table[0].i && k != s.table[0].j
    ensures var h := s.table[0];
            && IsLeast(f, cmp, c.key, s.leaves[h.i] + s.leaves[h.j], s.leaves[k])
            && IsLeast(f, cmp, c.key, s.leaves[k], s.leaves[h.i] + s.leaves[h.j])
  {
    hide IsLeast, TotalOrder, Separates, Complete, Partition, Absorb;
    var h := s.table[0];
    var ci, cj := NewKey(s, f, cmp, size, c, d, k);
    CellLeast(s, f, cmp, size, ci, h.i, k);
    CellLeast(s, f, cmp, size, cj, h.j, k);
    LeastJoin(f, cmp, c.key, s.leaves[h.i], s.leaves[h.j], s.leaves[k], ci.key, cj.key);
    LeastSwap(f, cmp, c.key, s.leaves[h.i] + s.leaves[h.j], s.leaves[k]);
  }

  /** The bystander of a cell that goes to the new cluster is a live cluster. */
  lemma BystanderLive(s: State, f: Metric, cmp: Cmp, size: nat, d: Cell)
    requires Inv(s, f, cmp, size) && s.table != [] && d in s.table[1..] && Touches(d, s.table[0].i, s.table[0].j)
    ensures var k := Bystander(d, s.table[0].i, s.table[0].j);
            k in s.leaves && k != s.table[0].i && k != s.table[0].j
  {
    var h, r := s.table[0], s.table[1..];
    assert h in s.table && d in s.table;
    assert Count(s.table, h.i, h.j) == 1;
    NoneCounted(r, h.i, h.j);
  }

  lemma {:induction false} OnlyOne(m: seq<Cell>, a: nat, b: nat, c: Cell, d: Cell)
    requires Count(m, a, b) == 1 && c in m && d in m && c.Joins(a, b) && d.Joins(a, b)
    ensures c == d
  {
    NoneCounted(m[1..], a, b);
    assert m == [m[0]] + m[1..];
    if !m[0].Joins(a, b) {
      OnlyOne(m[1..], a, b, c, d);
    }
  }

  /** The clusters after i and j were merged into n. */
  function Merged(leaves: map<nat, set<nat>>, i: nat, j: nat, n: nat): (l: map<nat, set<nat>>)
    requires i in leaves && j in leaves
    ensures l.Keys == leaves.Keys - {i, j} + {n}
    ensures l[n] == leaves[i] + leaves[j] && forall a :: a in l && a != n ==> l[a] == leaves[a]
  {
    (leaves - {i, j})[n := leaves[i] + leaves[j]]
  }

  lemma MergedSize(leaves: map<nat, set<nat>>, i: nat, j: nat, n: nat)
    requires i in leaves && j in leaves && i != j && n !in leaves
    ensures |Merged(leaves, i, j, n)| == |leaves| - 1
  {
    assert |leaves.Keys - {i, j}| == |leaves.Keys| - 2;
    assert |Merged(leaves, i, j, n).Keys| == |leaves.Keys - {i, j}| + 1;
  }

  lemma StepPartition(leaves: map<nat, set<nat>>, size: nat, i: nat, j: nat, n: nat)
    requires Partition(leaves, size) && i in leaves && j in leaves && i != j && n !in leaves
    ensures Partition(Merged(leaves, i, j, n), size)
  {
    var l := Merged(leaves, i, j, n);
    forall x: nat | x < size
      ensures Owned(l, x)
    {
      assert Owned(leaves, x);
      var a :| a in leaves && x in leaves[a];
      assert x in l[if a == i || a == j then n else a];
    }
    forall a, b, x | a in l && b in l && x in l[a] && x in l[b]
      ensures a == b
    {
      var p := if a == n then (if x in leaves[i] then i else j) else a;
      var q := if b == n then (if x in leaves[i] then i else j) else b;
      assert x in leaves[p] && x in leaves[q];
    }
  }

  /** Every merge round keeps the table a complete graph of minimum distances, and empties the helper tree. */
  lemma {:induction false} StepInv(s: State, f: Metric, cmp: Cmp, size: nat)
    requires TotalOrder(cmp) && Inv(s, f, cmp, size) && s.table != [] && Separates(cmp, Others(s))
    ensures s.table[0] in s.table && Inv(Step(s, cmp), f, cmp, size)
    ensures Leftover(s.table[1..], s.table[0].i, s.table[0].j, {}, cmp) == {}
    ensures forall c :: c in Step(s, cmp).table ==> cmp(s.table[0].key, c.key) <= 0
  {
    hide Partition, IsLeast, TotalOrder, Separates, Complete, SortedCells, Absorb, Leftover;
    var h, r := s.table[0], s.table[1..];
    assert h in s.table;
    HeadOf(s.table, s.leaves.Keys);
    var s' := Step(s, cmp);
    StepPartition(s.leaves, size, h.i, h.j, s.n);
    MergedSize(s.leaves, h.i, h.j, s.n);
    StepComplete(s.table, s.leaves.Keys, s.n, cmp);
    SortedTail(s.table, cmp);
    AbsorbSorted(r, h.i, h.j, s.n, {}, cmp);
    AbsorbKeys(r, h.i, h.j, s.n, {}, cmp, h.key);
    forall c | c in s'.table
      ensures c.i in s'.leaves && c.j in s'.leaves && IsLeast(f, cmp, c.key, s'.leaves[c.i], s'.leaves[c.j])
    {
      StepLeast(s, f, cmp, size, c);
    }
    LeftoverWithin(r, s.leaves.Keys, h.i, h.j, {}, cmp);
  }

  lemma HeadOf(m: seq<Cell>, live: set<nat>)
    requires m != [] && Complete(m, live)
    ensures m[0].i in live && m[0].j in live && m[0].i != m[0].j
    ensures Within(m[1..], live) && Count(m[1..], m[0].i, m[0].j) == 0
  {
    assert m[0] in m && forall d :: d in m[1..] ==> d in m;
    assert Count(m, m[0].i, m[0].j) == 1;
  }

  lemma {:induction false} LeftoverWithin(cells: seq<Cell>, live: set<nat>, i: nat, j: nat, helper: set<nat>, cmp: Cmp)
    requires Within(cells, live) && Count(cells, i, j) == 0 && i != j && helper <= live - {i, j}
    ensures Leftover(cells, i, j, helper, cmp) <= live - {i, j}
  {
    if cells != [] {
      var c, r := cells[0], cells[1..];
      assert c in cells && !c.Joins(i, j) && forall d :: d in r ==> d in cells;
      if !Touches(c, i, j) {
        LeftoverWithin(r, live, i, j, helper, cmp);
      } else {
        var k := Bystander(c, i, j);
        LeftoverWithin(r, live, i, j, if Found(helper, k, cmp) then Without(helper, k, cmp) else helper + {k}, cmp);
      }
    }
  }

  /** One round, if there is a couple left. */
  function Advance(s: State, cmp: Cmp): State {
    if s.table != [] && s.table[0].i in s.leaves && s.table[0].j in s.leaves then Step(s, cmp) else s
  }

  function Run(s: State, k: nat, cmp: Cmp): State {
    if k == 0 then s else Advance(Run(s, k - 1, cmp), cmp)
  }

  /** The heights of the merges never decrease, and no couple left is lower than the last of them. */
  ghost predicate Rising(s: State, cmp: Cmp) {
    && SortedCells(s.merges, cmp)
    && (s.merges != [] ==> KeysAtLeast(s.table, s.merges[|s.merges| - 1].key, cmp))
  }

  /** x and y are joined by a chain of leaves, each at distance at most h from the next. */
  ghost predicate Chain(f: Metric, cmp: Cmp, size: nat, h: int, p: seq<nat>, x: nat, y: nat) {
    && p != [] && p[0] == x && p[|p| - 1] == y
    && (forall i :: 0 <= i < |p| ==> p[i] < size)
    && (forall i :: 0 <= i < |p| - 1 ==> cmp(Dist(f, p[i], p[i + 1]), h) <= 0)
  }

  ghost predicate Linked(f: Metric, cmp: Cmp, size: nat, h: int, x: nat, y: nat) {
    exists p :: Chain(f, cmp, size, h, p, x, y)
  }

  /** Two leaves that share a cluster are linked at every height that the merges have reached. */
  ghost predicate Joined(s: State, f: Metric, cmp: Cmp, size: nat) {
    forall h, a, x, y :: a in s.leaves && x in s.leaves[a] && y in s.leaves[a]
                         && (s.merges == [] || cmp(s.merges[|s.merges| - 1].key, h) <= 0)
                         ==> Linked(f, cmp, size, h, x, y)
  }

  lemma LinkedSelf(f: Metric, cmp: Cmp, size: nat, h: int, x: nat)
    requires x < size
    ensures Linked(f, cmp, size, h, x, x)
  {
    assert Chain(f, cmp, size, h, [x], x, x);
  }

  lemma LinkedPair(f: Metric, cmp: Cmp, size: nat, h: int, x: nat, y: nat)
    requires x < size && y < size && cmp(Dist(f, x, y), h) <= 0
    ensures Linked(f, cmp, size, h, x, y)
  {
    assert Chain(f, cmp, size, h, [x, y], x, y);
  }

  lemma LinkedTransitive(f: Metric, cmp: Cmp, size: nat, h: int, x: nat, y: nat, z: nat)
    requires Linked(f, cmp, size, h, x, y) && Linked(f, cmp, size, h, y, z)
    ensures Linked(f, cmp, size, h, x, z)
  {
    var p :| Chain(f, cmp, size, h, p, x, y);
    var q :| Chain(f, cmp, size, h, q, y, z);
    assert Chain(f, cmp, size, h, p + q[1..], x, z);
  }

  lemma LinkedSymmetric(f: Metric, cmp: Cmp, size: nat, h: int, x: nat, y: nat)
    requires Linked(f, cmp, size, h, x, y)
    ensures Linked(f, cmp, size, h, y, x)
  {
    var p :| Chain(f, cmp, size, h, p, x, y);
    var q := seq(|p|, i requires 0 <= i < |p| => p[|p| - 1 - i]);
    forall i | 0 <= i < |q| - 1
      ensures cmp(Dist(f, q[i], q[i + 1]), h) <= 0
    {
      var j := |p| - 2 - i;
      assert cmp(Dist(f, p[j], p[j + 1]), h) <= 0;
    }
    assert Chain(f, cmp, size, h, q, y, x);
  }

  /** A round makes no merge lower than the one before, whatever the helper tree does. */
  lemma {:induction false} StepRising(s: State, f: Metric, cmp: Cmp, size: nat)
    requires TotalOrder(cmp) && Inv(s, f, cmp, size) && s.table != [] && Rising(s, cmp)
    ensures s.table[0] in s.table && Rising(Step(s, cmp), cmp)
  {
    hide Inv, TotalOrder, Absorb, KeysAtLeast;
    var h := s.table[0];
    assert h in s.table;
    InvParts(s, f, cmp, size);
    HeadOf(s.table, s.leaves.Keys);
    SortedTail(s.table, cmp);
    AbsorbKeys(s.table[1..], h.i, h.j, s.n, {}, cmp, h.key);
    MergesRise(s, cmp);
  }

  lemma InvParts(s: State, f: Metric, cmp: Cmp, size: nat)
    requires Inv(s, f, cmp, size)
    ensures Complete(s.table, s.leaves.Keys) && SortedCells(s.table, cmp)
  {
  }

  lemma MergesRise(s: State, cmp: Cmp)
    requires TotalOrder(cmp) && Rising(s, cmp) && s.table != []
    ensures SortedCells(s.merges + [s.table[0]], cmp)
  {
    hide TotalOrder;
    var h, m := s.table[0], s.merges;
    assert h in s.table;
    forall p | 0 <= p < |m|
      ensures cmp(m[p].key, h.key) <= 0
    {
      if p < |m| - 1 {
        Transitive(cmp, m[p].key, m[|m| - 1].key, h.key);
      }
    }
  }

  lemma {:induction false} StepJoined(s: State, f: Metric, cmp: Cmp, size: nat)
    requires TotalOrder(cmp) && Inv(s, f, cmp, size) && s.table != [] && Rising(s, cmp) && Joined(s, f, cmp, size)
    ensures s.table[0] in s.table && Joined(Step(s, cmp), f, cmp, size)
  {
    var c := s.table[0];
    assert c in s.table;
    var s' := Step(s, cmp);
    forall h, a, x, y | a in s'.leaves && x in s'.leaves[a] && y in s'.leaves[a] && cmp(c.key, h) <= 0
      ensures Linked(f, cmp, size, h, x, y)
    {
      OldJoined(s, f, cmp, size, h);
      if a == s.n && (x in s.leaves[c.i] <==> y !in s.leaves[c.i]) {
        AcrossJoined(s, f, cmp, size, h, if x in s.leaves[c.i] then x else y, if x in s.leaves[c.i] then y else x);
        if x !in s.leaves[c.i] {
          LinkedSymmetric(f, cmp, size, h, y, x);
        }
      }
    }
  }

  /** At the height of the next couple the clusters are still joined. */
  lemma OldJoined(s: State, f: Metric, cmp: Cmp, size: nat, h: int)
    requires TotalOrder(cmp) && s.table != [] && Rising(s, cmp) && Joined(s, f, cmp, size)
             && cmp(s.table[0].key, h) <= 0
    ensures forall a, x, y :: a in s.leaves && x in s.leaves[a] && y in s.leaves[a] ==> Linked(f, cmp, size, h, x, y)
  {
    hide TotalOrder;
    assert s.table[0] in s.table;
    if s.merges != [] {
      Transitive(cmp, s.merges[|s.merges| - 1].key, s.table[0].key, h);
    }
  }

  lemma AcrossJoined(s: State, f: Metric, cmp: Cmp, size: nat, h: int, x: nat, y: nat)
    requires TotalOrder(cmp) && Inv(s, f, cmp, size) && s.table != [] && Rising(s, cmp) && Joined(s, f, cmp, size)
    requires cmp(s.table[0].key, h) <= 0 && s.table[0] in s.table
    requires x in s.leaves[s.table[0].i] && y in s.leaves[s.table[0].j]
    ensures Linked(f, cmp, size, h, x, y)
  {
    hide TotalOrder, Joined, Rising, Complete, SortedCells;
    var c := s.table[0];
    OldJoined(s, f, cmp, size, h);
    CellLeast(s, f, cmp, size, c, c.i, c.j);
    var u, v :| u in s.leaves[c.i] && v in s.leaves[c.j] && Dist(f, u, v) == c.key;
    LinkedPair(f, cmp, size, h, u, v);
    LinkedTransitive(f, cmp, size, h, x, u, v);
    LinkedTransitive(f, cmp, size, h, x, v, y);
  }

  /** x and y are leaves of one live cluster. */
  ghost predicate Together(s: State, x: nat, y: nat) {
    exists a :: a in s.leaves && x in s.leaves[a] && y in s.leaves[a]
  }

  /** With all merges of height at most h made and no others, two leaves share a cluster exactly when they are
      linked at height h. */
  lemma {:induction false} ClustersAreComponents(s: State, f: Metric, cmp: Cmp, size: nat, h: int, x: nat, y: nat)
    requires TotalOrder(cmp) && Inv(s, f, cmp, size) && Joined(s, f, cmp, size)
    requires s.merges == [] || cmp(s.merges[|s.merges| - 1].key, h) <= 0
    requires forall c :: c in s.table ==> cmp(c.key, h) > 0
    requires x < size && y < size
    ensures Together(s, x, y) <==> Linked(f, cmp, size, h, x, y)
  {
    if Linked(f, cmp, size, h, x, y) {
      var p :| Chain(f, cmp, size, h, p, x, y);
      ChainTogether(s, f, cmp, size, h, p, x, y);
    }
  }

  lemma {:induction false} ChainTogether(s: State, f: Metric, cmp: Cmp, size: nat, h: int, p: seq<nat>, x: nat, y: nat)
    requires TotalOrder(cmp) && Inv(s, f, cmp, size)
    requires forall c :: c in s.table ==> cmp(c.key, h) > 0
    requires Chain(f, cmp, size, h, p, x, y)
    ensures Together(s, x, y)
    decreases |p|
  {
    assert Owned(s.leaves, x);
    var a :| a in s.leaves && x in s.leaves[a];
    if |p| > 1 {
      var z := p[1];
      assert Chain(f, cmp, size, h, p[1..], z, y);
      ChainTogether(s, f, cmp, size, h, p[1..], z, y);
      var b :| b in s.leaves && z in s.leaves[b] && y in s.leaves[b];
      assert cmp(Dist(f, p[0], p[1]), h) <= 0;
      if a != b {
        NotApart(s, f, cmp, size, h, a, b, x, z);
      }
    }
  }

  /** Leaves of different clusters are farther apart than the least couple left. */
  lemma NotApart(s: State, f: Metric, cmp: Cmp, size: nat, h: int, a: nat, b: nat, x: nat, z: nat)
    requires TotalOrder(cmp) && Inv(s, f, cmp, size) && forall c :: c in s.table ==> cmp(c.key, h) > 0
    requires a in s.leaves && b in s.leaves && a != b && x in s.leaves[a] && z in s.leaves[b]
    ensures cmp(Dist(f, x, z), h) > 0
  {
    hide TotalOrder, Complete, Partition;
    var c := CellOf(s.table, s.leaves.Keys, a, b);
    CellLeast(s, f, cmp, size, c, a, b);
    if cmp(Dist(f, x, z), h) <= 0 {
      Transitive(cmp, c.key, Dist(f, x, z), h);
    }
  }

  // ---------- every reachable state ----------

  /** What every state of a run satisfies. */
  ghost predicate Sound(s: State, f: Metric, cmp: Cmp, size: nat) {
    Inv(s, f, cmp, size) && Rising(s, cmp) && Joined(s, f, cmp, size)
  }

  /** There is a couple left exactly as long as there are two clusters. */
  lemma CouplesLeft(s: State, f: Metric, cmp: Cmp, size: nat)
    requires Inv(s, f, cmp, size)
    ensures s.table != [] <==> |s.leaves| >= 2
    ensures s.table != [] ==> s.table[0].i in s.leaves && s.table[0].j in s.leaves
  {
    if s.table != [] {
      var c := s.table[0];
      assert c in s.table;
      assert {c.i, c.j} <= s.leaves.Keys;
      assert |s.leaves.Keys - {c.i, c.j}| == |s.leaves.Keys| - 2;
    }
    if |s.leaves| >= 2 {
      var a :| a in s.leaves.Keys;
      assert |s.leaves.Keys - {a}| >= 1;
      var b :| b in s.leaves.Keys - {a};
      assert Count(s.table, a, b) == 1;
    }
  }

  lemma SeparatesLess(cmp: Cmp, a: set<nat>, b: set<nat>)
    requires Separates(cmp, b) && a <= b
    ensures Separates(cmp, a)
  {
  }

  lemma Counted(s: State, f: Metric, cmp: Cmp, size: nat)
    requires Inv(s, f, cmp, size)
    ensures |s.leaves| == 2 * size - s.n && |s.merges| == s.n - size && forall a :: a in s.leaves ==> a < s.n
  {
  }

  // ---------- the table at the start ----------

  /** The place of a new key in the ordered table: after all keys that are not greater. */
  function Slot(m: seq<Cell>, key: int, cmp: Cmp): (p: nat)
    ensures p <= |m|
  {
    if m == [] || cmp(key, m[0].key) < 0 then 0 else 1 + Slot(m[1..], key, cmp)
  }

  function Insert(m: seq<Cell>, c: Cell, cmp: Cmp): seq<Cell> {
    var p := Slot(m, c.key, cmp);
    m[..p] + [c] + m[p..]
  }

  lemma InsertHead(m: seq<Cell>, c: Cell, cmp: Cmp)
    ensures if m == [] || cmp(c.key, m[0].key) < 0 then Insert(m, c, cmp) == [c] + m
            else Insert(m, c, cmp) == [m[0]] + Insert(m[1..], c, cmp)
  {
  }

  lemma MembersFirst(m: seq<Cell>)
    requires m != []
    ensures m == [m[0]] + m[1..] && forall d :: d in m <==> d == m[0] || d in m[1..]
  {
    assert m == [m[0]] + m[1..];
  }

  lemma {:induction false} InsertCounts(m: seq<Cell>, c: Cell, cmp: Cmp, a: nat, b: nat)
    ensures Count(Insert(m, c, cmp), a, b) == Count(m, a, b) + if c.Joins(a, b) then 1 else 0
    ensures forall d :: d in Insert(m, c, cmp) <==> d == c || d in m
  {
    hide Insert, Cell.Joins, Count;
    InsertHead(m, c, cmp);
    if m == [] || cmp(c.key, m[0].key) < 0 {
      CountCons(c, m, a, b);
    } else {
      InsertCounts(m[1..], c, cmp, a, b);
      MembersFirst(m);
      CountCons(m[0], m[1..], a, b);
      CountCons(m[0], Insert(m[1..], c, cmp), a, b);
    }
  }

  lemma SortedAll(m: seq<Cell>, key: int, cmp: Cmp)
    requires TotalOrder(cmp) && SortedCells(m, cmp) && m != [] && cmp(key, m[0].key) <= 0
    ensures KeysAtLeast(m, key, cmp)
  {
    hide TotalOrder;
    forall d | d in m
      ensures cmp(key, d.key) <= 0
    {
      var q :| 0 <= q < |m| && m[q] == d;
      if q > 0 {
        Transitive(cmp, key, m[0].key, m[q].key);
      }
    }
  }

  lemma KeysWith(m: seq<Cell>, c: Cell, out: seq<Cell>, key: int, cmp: Cmp)
    requires KeysAtLeast(m, key, cmp) && cmp(key, c.key) <= 0 && forall d :: d in out <==> d == c || d in m
    ensures KeysAtLeast(out, key, cmp)
  {
  }

  lemma {:induction false} InsertSorted(m: seq<Cell>, c: Cell, cmp: Cmp)
    requires TotalOrder(cmp) && SortedCells(m, cmp)
    ensures SortedCells(Insert(m, c, cmp), cmp)
  {
    hide TotalOrder, Insert, KeysAtLeast;
    InsertHead(m, c, cmp);
    if m != [] {
      Converse(cmp, c.key, m[0].key);
      if cmp(c.key, m[0].key) < 0 {
        SortedAll(m, c.key, cmp);
        SortedCons(c, m, cmp);
      } else {
        SortedTail(m, cmp);
        InsertSorted(m[1..], c, cmp);
        InsertCounts(m[1..], c, cmp, 0, 0);
        KeysWith(m[1..], c, Insert(m[1..], c, cmp), m[0].key, cmp);
        SortedCons(m[0], Insert(m[1..], c, cmp), cmp);
      }
    }
  }

  /** The couple of leaves i and j. */
  function Couple(f: Metric, ids: nat -> int, i: nat, j: nat): Cell {
    Cell(f(i, j), i, ids(i), j, ids(j))
  }

  /** The couples (i, j), (i, j + 1), ... inserted into the table. */
  function Row(m: seq<Cell>, f: Metric, ids: nat -> int, size: nat, i: nat, j: nat, cmp: Cmp): seq<Cell>
    decreases size - j
  {
    if j >= size then m else Row(Insert(m, Couple(f, ids, i, j), cmp), f, ids, size, i, j + 1, cmp)
  }

  function Rows(m: seq<Cell>, f: Metric, ids: nat -> int, size: nat, i: nat, cmp: Cmp): seq<Cell>
    decreases size - i
  {
    if i + 1 >= size then m else Rows(Row(m, f, ids, size, i, i + 1, cmp), f, ids, size, i + 1, cmp)
  }

  function Start(f: Metric, ids: nat -> int, size: nat, cmp: Cmp): State {
    State(size, Singletons(size), Rows([], f, ids, size, 0, cmp), [])
  }

  /** The table holds the couples up to (i, j) in lexicographic order, and no others. */
  ghost predicate Filled(m: seq<Cell>, f: Metric, size: nat, i: nat, j: nat, cmp: Cmp) {
    && SortedCells(m, cmp)
    && (forall c :: c in m ==> c.i < c.j < size && c.key == f(c.i, c.j))
    && (forall a, b :: 0 <= a < b < size ==> Count(m, a, b) == if a < i || (a == i && b < j) then 1 else 0)
  }

  lemma {:induction false} RowFilled(m: seq<Cell>, f: Metric, ids: nat -> int, size: nat, i: nat, j: nat, cmp: Cmp)
    requires TotalOrder(cmp) && i < j <= size && Filled(m, f, size, i, j, cmp)
    ensures Filled(Row(m, f, ids, size, i, j, cmp), f, size, i, size, cmp)
    decreases size - j
  {
    hide TotalOrder, Insert, SortedCells, Count;
    if j < size {
      var c := Couple(f, ids, i, j);
      var m' := Insert(m, c, cmp);
      InsertSorted(m, c, cmp);
      InsertCounts(m, c, cmp, 0, 0);
      forall a, b | 0 <= a < b < size
        ensures Count(m', a, b) == if a < i || (a == i && b < j + 1) then 1 else 0
      {
        InsertCounts(m, c, cmp, a, b);
      }
      RowFilled(m', f, ids, size, i, j + 1, cmp);
    }
  }

  lemma {:induction false} RowsFilled(m: seq<Cell>, f: Metric, ids: nat -> int, size: nat, i: nat, cmp: Cmp)
    requires TotalOrder(cmp) && i < size && Filled(m, f, size, i, i + 1, cmp)
    ensures Filled(Rows(m, f, ids, size, i, cmp), f, size, size, size, cmp)
    decreases size - i
  {
    hide TotalOrder, SortedCells, Row, Count;
    if i + 1 < size {
      var m' := Row(m, f, ids, size, i, i + 1, cmp);
      RowFilled(m, f, ids, size, i, i + 1, cmp);
      assert Filled(m', f, size, i + 1, i + 2, cmp);
      RowsFilled(m', f, ids, size, i + 1, cmp);
    }
  }

  lemma SingletonCount(n: nat)
    ensures |(map a | 0 <= a < n :: {a})| == n
  {
    var l := map a | 0 <= a < n :: {a};
    if n > 0 {
      SingletonCount(n - 1);
      var k := map a | 0 <= a < n - 1 :: {a};
      assert l.Keys == k.Keys + {n - 1};
    } else {
      assert l == map[];
    }
  }

  lemma SingletonLeast(f: Metric, cmp: Cmp, x: nat, y: nat)
    requires TotalOrder(cmp) && x < y
    ensures IsLeast(f, cmp, f(x, y), {x}, {y})
  {
    Converse(cmp, f(x, y), f(x, y));
    assert x in {x} && y in {y} && Dist(f, x, y) == f(x, y);
  }

  function Singletons(size: nat): (l: map<nat, set<nat>>)
    ensures forall a :: (a in l <==> 0 <= a < size) && (a in l ==> l[a] == {a})
  {
    map a | 0 <= a < size :: {a}
  }

  lemma SingletonPartition(size: nat)
    ensures Partition(Singletons(size), size) && |Singletons(size)| == size
  {
    var l := Singletons(size);
    forall x: nat | x < size
      ensures Owned(l, x)
    {
      assert x in l[x];
    }
    SingletonCount(size);
  }

  lemma FilledComplete(m: seq<Cell>, f: Metric, size: nat, cmp: Cmp)
    requires Filled(m, f, size, size, size, cmp)
    ensures Complete(m, Singletons(size).Keys)
  {
    hide Count;
    forall a, b | a in Singletons(size) && b in Singletons(size) && a != b
      ensures Count(m, a, b) == 1
    {
      CountSwap(m, a, b);
    }
  }

  lemma FilledLeast(m: seq<Cell>, f: Metric, size: nat, cmp: Cmp)
    requires TotalOrder(cmp) && Filled(m, f, size, size, size, cmp)
    ensures forall c :: c in m ==> c.i < size && c.j < size && IsLeast(f, cmp, c.key, {c.i}, {c.j})
  {
    hide TotalOrder, SortedCells, Count, IsLeast;
    forall c | c in m
      ensures IsLeast(f, cmp, c.key, {c.i}, {c.j})
    {
      SingletonLeast(f, cmp, c.i, c.j);
    }
  }

  lemma StartJoined(f: Metric, ids: nat -> int, size: nat, cmp: Cmp)
    ensures Joined(Start(f, ids, size, cmp), f, cmp, size)
  {
    hide Rows, Linked;
    forall h, x | 0 <= x < size
      ensures Linked(f, cmp, size, h, x, x)
    {
      LinkedSelf(f, cmp, size, h, x);
    }
  }

  /** The first table is a complete graph of minimum distances. */
  lemma StartSound(f: Metric, ids: nat -> int, size: nat, cmp: Cmp)
    requires TotalOrder(cmp) && size > 0
    ensures Sound(Start(f, ids, size, cmp), f, cmp, size)
  {
    hide TotalOrder, Partition, Complete, IsLeast, SortedCells, Count, Rows, Joined, Singletons;
    NothingFilled(f, size, cmp);
    RowsFilled([], f, ids, size, 0, cmp);
    var m := Rows([], f, ids, size, 0, cmp);
    SingletonPartition(size);
    FilledComplete(m, f, size, cmp);
    FilledLeast(m, f, size, cmp);
    StartJoined(f, ids, size, cmp);
  }

  lemma NothingFilled(f: Metric, size: nat, cmp: Cmp)
    requires size > 0
    ensures Filled([], f, size, 0, 1, cmp) && SortedCells([], cmp)
  {
  }
}
