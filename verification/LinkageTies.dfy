/** Which of equal couples comes first: the order of the table at the start, and what a round leaves of it. */
module LinkageTies {
  import opened RbOrder
  import opened Linkage

  // ---------- the table at the start ----------

  /** The couple of c comes before (i, j) in the order of the two loops. */
  predicate Earlier(c: Cell, i: nat, j: nat) {
    c.i < i || (c.i == i && c.j < j)
  }

  ghost predicate AllEarlier(m: seq<Cell>, i: nat, j: nat) {
    forall c :: c in m ==> Earlier(c, i, j)
  }

  /** A cell before another has the lesser key, or an equal key and the earlier couple. */
  ghost predicate Stable(m: seq<Cell>, cmp: Cmp) {
    forall p, q :: 0 <= p < q < |m|
                   ==> cmp(m[p].key, m[q].key) < 0
                       || (cmp(m[p].key, m[q].key) <= 0 && Earlier(m[p], m[q].i, m[q].j))
  }

  /** All of m may follow c. */
  ghost predicate Leads(c: Cell, m: seq<Cell>, cmp: Cmp) {
    forall d :: d in m ==> cmp(c.key, d.key) < 0 || (cmp(c.key, d.key) <= 0 && Earlier(c, d.i, d.j))
  }

  lemma StableTail(m: seq<Cell>, cmp: Cmp)
    requires Stable(m, cmp) && m != []
    ensures Stable(m[1..], cmp) && Leads(m[0], m[1..], cmp)
  {
  }

  lemma StableCons(c: Cell, m: seq<Cell>, cmp: Cmp)
    requires Stable(m, cmp) && Leads(c, m, cmp)
    ensures Stable([c] + m, cmp)
  {
  }

  lemma LeadsAll(c: Cell, m: seq<Cell>, cmp: Cmp)
    requires TotalOrder(cmp) && Stable(m, cmp) && m != [] && cmp(c.key, m[0].key) < 0
    ensures Leads(c, m, cmp)
  {
    forall d | d in m
      ensures cmp(c.key, d.key) < 0
    {
      var q :| 0 <= q < |m| && m[q] == d;
      Less(cmp, c.key, m[0].key, d.key);
    }
  }

  lemma Less(cmp: Cmp, x: int, y: int, z: int)
    requires TotalOrder(cmp) && cmp(x, y) < 0 && (y == z || cmp(y, z) <= 0)
    ensures cmp(x, z) < 0
  {
    if y != z && cmp(x, z) >= 0 {
      Converse(cmp, x, z);
      Transitive(cmp, y, z, x);
      Converse(cmp, x, y);
    }
  }

  lemma {:induction false} InsertStable(m: seq<Cell>, c: Cell, cmp: Cmp)
    requires TotalOrder(cmp) && Stable(m, cmp) && AllEarlier(m, c.i, c.j)
    ensures Stable(Insert(m, c, cmp), cmp)
  {
    hide TotalOrder, Insert, Stable;
    InsertHead(m, c, cmp);
    if m == [] {
      StableNone(cmp);
      StableCons(c, m, cmp);
    } else if cmp(c.key, m[0].key) < 0 {
      LeadsAll(c, m, cmp);
      StableCons(c, m, cmp);
    } else {
      Converse(cmp, c.key, m[0].key);
      StableTail(m, cmp);
      InsertStable(m[1..], c, cmp);
      InsertCounts(m[1..], c, cmp, 0, 0);
      StableCons(m[0], Insert(m[1..], c, cmp), cmp);
    }
  }

  lemma StableNone(cmp: Cmp)
    ensures Stable([], cmp)
  {
  }

  lemma InsertEarlier(m: seq<Cell>, c: Cell, cmp: Cmp)
    requires AllEarlier(m, c.i, c.j)
    ensures AllEarlier(Insert(m, c, cmp), c.i, c.j + 1)
  {
    InsertCounts(m, c, cmp, 0, 0);
  }

  lemma {:induction false} RowStable(m: seq<Cell>, f: Metric, ids: nat -> int, size: nat, i: nat, j: nat, cmp: Cmp)
    requires TotalOrder(cmp) && Stable(m, cmp) && AllEarlier(m, i, j)
    ensures Stable(Row(m, f, ids, size, i, j, cmp), cmp) && AllEarlier(Row(m, f, ids, size, i, j, cmp), i + 1, 0)
    decreases size - j
  {
    hide TotalOrder, Insert, Stable;
    if j < size {
      var c := Couple(f, ids, i, j);
      InsertStable(m, c, cmp);
      InsertEarlier(m, c, cmp);
      RowStable(Insert(m, c, cmp), f, ids, size, i, j + 1, cmp);
    }
  }

  lemma {:induction false} RowsStable(m: seq<Cell>, f: Metric, ids: nat -> int, size: nat, i: nat, cmp: Cmp)
    requires TotalOrder(cmp) && Stable(m, cmp) && AllEarlier(m, i, 0)
    ensures Stable(Rows(m, f, ids, size, i, cmp), cmp)
    decreases size - i
  {
    hide TotalOrder, Row, Stable;
    if i + 1 < size {
      RowStable(m, f, ids, size, i, i + 1, cmp);
      RowsStable(Row(m, f, ids, size, i, i + 1, cmp), f, ids, size, i + 1, cmp);
    }
  }

  /** Couples of equal keys are in the order of the two loops. */
  lemma StartStable(f: Metric, ids: nat -> int, size: nat, cmp: Cmp)
    requires TotalOrder(cmp)
    ensures Stable(Start(f, ids, size, cmp).table, cmp)
  {
    StableNone(cmp);
    RowsStable([], f, ids, size, 0, cmp);
  }

  // ---------- a round ----------

  /** The cell at q is dropped: its bystander was met before. */
  ghost predicate Dropped(cells: seq<Cell>, i: nat, j: nat, helper: set<nat>, q: nat)
    requires q < |cells|
  {
    && Touches(cells[q], i, j)
    && (Bystander(cells[q], i, j) in helper || MetBefore(cells, i, j, Bystander(cells[q], i, j), q))
  }

  ghost predicate MetBefore(cells: seq<Cell>, i: nat, j: nat, k: nat, q: nat)
    requires q <= |cells|
  {
    exists r :: 0 <= r < q && Touches(cells[r], i, j) && Bystander(cells[r], i, j) == k
  }

  function Kept(c: Cell, i: nat, j: nat, n: nat): Cell {
    if Touches(c, i, j) then Renamed(c, i, j, n) else c
  }

  /** The places are those of the cells that are not dropped, in order, and out holds what they become. */
  ghost predicate Places(cells: seq<Cell>, i: nat, j: nat, n: nat, helper: set<nat>, out: seq<Cell>, at: seq<nat>) {
    && |at| == |out|
    && (forall a, b :: 0 <= a < b < |at| ==> at[a] < at[b])
    && (forall a :: 0 <= a < |at| ==> at[a] < |cells| && out[a] == Kept(cells[at[a]], i, j, n))
    && (forall q :: 0 <= q < |cells| ==> (q in at <==> !Dropped(cells, i, j, helper, q)))
  }

  /** Every bystander has two cells left, or one if it is in the helper tree, or none. */
  ghost predicate Paired(cells: seq<Cell>, live: set<nat>, i: nat, j: nat, helper: set<nat>) {
    forall k :: k in live && k != i && k != j
                ==> Pending(cells, i, j, k) <= 2 && (Pending(cells, i, j, k) == 1 <==> k in helper)
  }

  function Shift(at: seq<nat>): (r: seq<nat>)
    ensures |r| == |at| && forall a :: 0 <= a < |at| ==> r[a] == at[a] + 1
  {
    seq(|at|, a requires 0 <= a < |at| => at[a] + 1)
  }

  lemma InShift(at: seq<nat>, q: nat)
    ensures q in Shift(at) <==> q > 0 && q - 1 in at
  {
    if q > 0 && q - 1 in at {
      var a :| 0 <= a < |at| && at[a] == q - 1;
      assert Shift(at)[a] == q;
    }
  }

  lemma MetNext(cells: seq<Cell>, i: nat, j: nat, k: nat, q: nat)
    requires 0 < q <= |cells|
    ensures MetBefore(cells, i, j, k, q)
            <==> (Touches(cells[0], i, j) && Bystander(cells[0], i, j) == k) || MetBefore(cells[1..], i, j, k, q - 1)
  {
    var rest := cells[1..];
    assert forall r :: 0 <= r < q - 1 ==> rest[r] == cells[r + 1];
    if r :| 0 <= r < q && Touches(cells[r], i, j) && Bystander(cells[r], i, j) == k {
      assert r > 0 ==> rest[r - 1] == cells[r];
    }
  }

  lemma NoneLeft(cells: seq<Cell>, i: nat, j: nat, k: nat, q: nat)
    requires Pending(cells, i, j, k) == 0 && q < |cells|
    ensures !(Touches(cells[q], i, j) && Bystander(cells[q], i, j) == k)
  {
    NoneCounted(cells, i, k);
    NoneCounted(cells, j, k);
    assert cells[q] in cells;
  }

  /** Whether a later cell is dropped, said of the cells that are left. */
  lemma DroppedNext(cells: seq<Cell>, i: nat, j: nat, helper: set<nat>, next: set<nat>, q: nat)
    requires 0 < q < |cells|
    requires var c := cells[0]; var b := Bystander(c, i, j);
             if !Touches(c, i, j) then next == helper
             else if b in helper then next == helper - {b} && Pending(cells[1..], i, j, b) == 0
             else next == helper + {b}
    ensures Dropped(cells, i, j, helper, q) <==> Dropped(cells[1..], i, j, next, q - 1)
  {
    hide MetBefore, Touches, Bystander;
    var c, b := cells[0], Bystander(cells[0], i, j);
    assert cells[1..][q - 1] == cells[q];
    MetNext(cells, i, j, Bystander(cells[q], i, j), q);
    if Touches(c, i, j) && b in helper {
      NoneLeft(cells[1..], i, j, b, q - 1);
    }
  }

  lemma PlacesNext(cells: seq<Cell>, i: nat, j: nat, n: nat, helper: set<nat>, next: set<nat>, out: seq<Cell>,
                   at: seq<nat>)
    requires cells != [] && Places(cells[1..], i, j, n, next, out, at)
    requires forall q :: 0 < q < |cells|
                         ==> (Dropped(cells, i, j, helper, q) <==> Dropped(cells[1..], i, j, next, q - 1))
    ensures if Dropped(cells, i, j, helper, 0) then Places(cells, i, j, n, helper, out, Shift(at))
            else Places(cells, i, j, n, helper, [Kept(cells[0], i, j, n)] + out, [0] + Shift(at))
  {
    hide Dropped, Kept;
    forall q | 0 <= q < |cells|
      ensures q in Shift(at) <==> q > 0 && !Dropped(cells, i, j, helper, q)
      ensures q in [0] + Shift(at) <==> q == 0 || !Dropped(cells, i, j, helper, q)
    {
      InShift(at, q);
    }
  }

  lemma PairedNext(cells: seq<Cell>, live: set<nat>, i: nat, j: nat, helper: set<nat>, next: set<nat>)
    requires cells != [] && Within(cells, live) && Count(cells, i, j) == 0 && i in live && j in live && i != j
    requires Paired(cells, live, i, j, helper)
    requires var c := cells[0]; var b := Bystander(c, i, j);
             if !Touches(c, i, j) then next == helper
             else if b in helper then next == helper - {b}
             else next == helper + {b}
    ensures Paired(cells[1..], live, i, j, next) && Within(cells[1..], live) && Count(cells[1..], i, j) == 0
    ensures Touches(cells[0], i, j)
            ==> var b := Bystander(cells[0], i, j);
                b in live && b != i && b != j && (b in helper ==> Pending(cells[1..], i, j, b) == 0)
  {
    var c := cells[0];
    assert c in cells && forall d :: d in cells[1..] ==> d in cells;
    assert !c.Joins(i, j);
  }

  /** A round keeps the cells in their order: those of bystanders as they are, the first one of each bystander under the
      new number, and drops just the second ones. */
  lemma {:induction false} AbsorbPlaces(cells: seq<Cell>, live: set<nat>, i: nat, j: nat, n: nat, helper: set<nat>,
                                        cmp: Cmp) returns (at: seq<nat>)
    requires Setting(live, i, j, n, helper, cmp) && Within(cells, live) && Count(cells, i, j) == 0
    requires Paired(cells, live, i, j, helper)
    ensures Places(cells, i, j, n, helper, Absorb(cells, i, j, n, helper, cmp), at)
  {
    hide Separates, TotalOrder, Paired, Within, Places, Dropped, Pending, Found, Without, Bystander, Renamed;
    if cells == [] {
      at := [];
      NoPlaces(i, j, n, helper);
    } else {
      var c, b := cells[0], Bystander(cells[0], i, j);
      var touched, known := Touches(c, i, j), b in helper;
      var next := if !touched then helper else if known then helper - {b} else helper + {b};
      PairedNext(cells, live, i, j, helper, next);
      if touched {
        FoundIsMember(helper, b, live - {i, j}, cmp);
      }
      at := AbsorbPlaces(cells[1..], live, i, j, n, next, cmp);
      forall q | 0 < q < |cells|
        ensures Dropped(cells, i, j, helper, q) <==> Dropped(cells[1..], i, j, next, q - 1)
      {
        DroppedNext(cells, i, j, helper, next, q);
      }
      FirstDropped(cells, i, j, helper);
      PlacesNext(cells, i, j, n, helper, next, Absorb(cells[1..], i, j, n, next, cmp), at);
      at := if touched && known then Shift(at) else [0] + Shift(at);
    }
  }

  lemma NoPlaces(i: nat, j: nat, n: nat, helper: set<nat>)
    ensures Places([], i, j, n, helper, [], [])
  {
  }

  lemma FirstDropped(cells: seq<Cell>, i: nat, j: nat, helper: set<nat>)
    requires cells != []
    ensures Dropped(cells, i, j, helper, 0) <==> Touches(cells[0], i, j) && Bystander(cells[0], i, j) in helper
  {
  }

  /** So does every step of a run: of two equal couples the one that came first stays first. */
  lemma StepPlaces(s: State, f: Metric, cmp: Cmp, size: nat) returns (at: seq<nat>)
    requires TotalOrder(cmp) && Inv(s, f, cmp, size) && s.table != [] && Separates(cmp, Others(s))
    requires s.table[0].i in s.leaves && s.table[0].j in s.leaves
    ensures Places(s.table[1..], s.table[0].i, s.table[0].j, s.n, {}, Step(s, cmp).table, at)
  {
    hide TotalOrder, Separates, Partition, IsLeast, SortedCells, Places, Absorb, Pending;
    var h, r, live := s.table[0], s.table[1..], s.leaves.Keys;
    assert h in s.table && forall d :: d in r ==> d in s.table;
    assert h.Joins(h.i, h.j) && Count(s.table, h.i, h.j) == 1;
    forall k | k in live && k != h.i && k != h.j
      ensures Pending(r, h.i, h.j, k) == 2
    {
      var ci, cj := TwoCells(s, f, cmp, size, k);
    }
    at := AbsorbPlaces(r, live, h.i, h.j, s.n, {}, cmp);
  }
}
