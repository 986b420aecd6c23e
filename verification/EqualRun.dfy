/** Runs under a comparison that finds all numbers equal: five leaves come out right, four or more than five do not. */
module EqualRun {
  import opened RbOrder
  import opened Linkage

  ghost predicate AllEqual(cmp: Cmp) {
    forall x, y :: cmp(x, y) == 0
  }

  // ---------- the table and the rounds ----------

  function RowCells(f: Metric, ids: nat -> int, size: nat, i: nat, j: nat): seq<Cell>
    decreases size - j
  {
    if j >= size then [] else [Couple(f, ids, i, j)] + RowCells(f, ids, size, i, j + 1)
  }

  function AllCells(f: Metric, ids: nat -> int, size: nat, i: nat): seq<Cell>
    decreases size - i
  {
    if i + 1 >= size then [] else RowCells(f, ids, size, i, i + 1) + AllCells(f, ids, size, i + 1)
  }

  lemma {:induction false} InsertLast(m: seq<Cell>, c: Cell, cmp: Cmp)
    requires AllEqual(cmp)
    ensures Insert(m, c, cmp) == m + [c]
  {
    if m != [] {
      InsertLast(m[1..], c, cmp);
      assert Slot(m, c.key, cmp) == 1 + Slot(m[1..], c.key, cmp);
      SlotLast(m, c.key, cmp);
    }
  }

  lemma {:induction false} SlotLast(m: seq<Cell>, key: int, cmp: Cmp)
    requires AllEqual(cmp)
    ensures Slot(m, key, cmp) == |m|
  {
    if m != [] {
      SlotLast(m[1..], key, cmp);
    }
  }

  lemma {:induction false} RowIs(m: seq<Cell>, f: Metric, ids: nat -> int, size: nat, i: nat, j: nat, cmp: Cmp)
    requires AllEqual(cmp)
    ensures Row(m, f, ids, size, i, j, cmp) == m + RowCells(f, ids, size, i, j)
    decreases size - j
  {
    if j < size {
      InsertLast(m, Couple(f, ids, i, j), cmp);
      RowIs(m + [Couple(f, ids, i, j)], f, ids, size, i, j + 1, cmp);
      assert m + [Couple(f, ids, i, j)] + RowCells(f, ids, size, i, j + 1)
          == m + ([Couple(f, ids, i, j)] + RowCells(f, ids, size, i, j + 1));
    } else {
      assert m + [] == m;
    }
  }

  lemma {:induction false} RowsAre(m: seq<Cell>, f: Metric, ids: nat -> int, size: nat, i: nat, cmp: Cmp)
    requires AllEqual(cmp)
    ensures Rows(m, f, ids, size, i, cmp) == m + AllCells(f, ids, size, i)
    decreases size - i
  {
    if i + 1 < size {
      RowIs(m, f, ids, size, i, i + 1, cmp);
      var r := RowCells(f, ids, size, i, i + 1);
      RowsAre(m + r, f, ids, size, i + 1, cmp);
      assert m + r + AllCells(f, ids, size, i + 1) == m + (r + AllCells(f, ids, size, i + 1));
    } else {
      assert m + [] == m;
    }
  }

  lemma StartCells(f: Metric, ids: nat -> int, size: nat, cmp: Cmp)
    requires AllEqual(cmp)
    ensures Start(f, ids, size, cmp).table == AllCells(f, ids, size, 0)
  {
    RowsAre([], f, ids, size, 0, cmp);
    assert [] + AllCells(f, ids, size, 0) == AllCells(f, ids, size, 0);
  }

  /** A round keeps every other cell that touches the couple; held says that the helper tree is not empty. */
  function Halved(cells: seq<Cell>, i: nat, j: nat, n: nat, held: bool): seq<Cell> {
    if cells == [] then []
    else if !Touches(cells[0], i, j) then [cells[0]] + Halved(cells[1..], i, j, n, held)
    else if held then Halved(cells[1..], i, j, n, false)
    else [Renamed(cells[0], i, j, n)] + Halved(cells[1..], i, j, n, true)
  }

  /** Whether the helper tree is not empty afterwards. */
  function After(cells: seq<Cell>, i: nat, j: nat, held: bool): bool {
    if cells == [] then held else After(cells[1..], i, j, if Touches(cells[0], i, j) then !held else held)
  }

  lemma {:induction false} AbsorbHalves(cells: seq<Cell>, i: nat, j: nat, n: nat, helper: set<nat>, cmp: Cmp)
    requires AllEqual(cmp)
    ensures Absorb(cells, i, j, n, helper, cmp) == Halved(cells, i, j, n, helper != {})
    ensures Leftover(cells, i, j, helper, cmp) != {} <==> After(cells, i, j, helper != {})
  {
    if cells != [] {
      if !Touches(cells[0], i, j) {
        AbsorbHalves(cells[1..], i, j, n, helper, cmp);
      } else {
        var k := Bystander(cells[0], i, j);
        assert Without(helper, k, cmp) == {};
        assert k in helper + {k};
        if helper != {} {
          var x :| x in helper;
          assert Found(helper, k, cmp);
        }
        AbsorbHalves(cells[1..], i, j, n, if Found(helper, k, cmp) then Without(helper, k, cmp) else helper + {k}, cmp);
      }
    }
  }

  lemma {:induction false} HalvedJoined(a: seq<Cell>, b: seq<Cell>, i: nat, j: nat, n: nat, held: bool)
    ensures Halved(a + b, i, j, n, held) == Halved(a, i, j, n, held) + Halved(b, i, j, n, After(a, i, j, held))
    ensures After(a + b, i, j, held) == After(b, i, j, After(a, i, j, held))
  {
    if a == [] {
      assert a + b == b && [] + Halved(b, i, j, n, held) == Halved(b, i, j, n, held);
    } else {
      var c, r := a[0], a[1..];
      var held' := if Touches(c, i, j) then !held else held;
      assert a == [c] + r;
      Associate([c], r, b);
      HalvedFirst(c, r, i, j, n, held);
      HalvedFirst(c, r + b, i, j, n, held);
      HalvedJoined(r, b, i, j, n, held');
      Associate(Kept(c, i, j, n, held), Halved(r, i, j, n, held'), Halved(b, i, j, n, After(r, i, j, held')));
    }
  }

  lemma Associate(a: seq<Cell>, b: seq<Cell>, c: seq<Cell>)
    ensures a + (b + c) == a + b + c
  {
  }

  function Kept(c: Cell, i: nat, j: nat, n: nat, held: bool): seq<Cell> {
    if !Touches(c, i, j) then [c] else if held then [] else [Renamed(c, i, j, n)]
  }

  lemma HalvedFirst(c: Cell, r: seq<Cell>, i: nat, j: nat, n: nat, held: bool)
    ensures var held' := if Touches(c, i, j) then !held else held;
            && Halved([c] + r, i, j, n, held) == Kept(c, i, j, n, held) + Halved(r, i, j, n, held')
            && After([c] + r, i, j, held) == After(r, i, j, held')
  {
    assert ([c] + r)[1..] == r;
  }

  // ---------- leaves at the same distance ----------

  function Same(): Metric {
    (x: nat, y: nat) => 0
  }

  function NoIds(): nat -> int {
    x => 0
  }

  /** The couples of n with the leaves from k on, every other one. */
  function EveryOther(n: nat, k: nat, size: nat, held: bool): (t: seq<Cell>)
    ensures forall c :: c in t ==> c.i == n && k <= c.j < size && (c.j % 2 == k % 2 <==> !held)
    decreases size - k
  {
    if k >= size then [] else (if held then [] else [Flat(n, k)]) + EveryOther(n, k + 1, size, !held)
  }

  /** A row that touches the couple is halved. */
  lemma {:induction false} RowHalved(size: nat, w: nat, k: nat, i: nat, j: nat, n: nat, held: bool)
    requires w == i || w == j
    ensures var r := RowCells(Same(), NoIds(), size, w, k);
            Halved(r, i, j, n, held) == EveryOther(n, k, size, held)
    decreases size - k
  {
    if k < size {
      var c, r := Flat(w, k), RowCells(Same(), NoIds(), size, w, k + 1);
      assert Couple(Same(), NoIds(), w, k) == c;
      HalvedFirst(c, r, i, j, n, held);
      RowHalved(size, w, k + 1, i, j, n, !held);
    }
  }

  lemma {:induction false} RowAfter(size: nat, w: nat, k: nat, i: nat, j: nat, held: bool)
    requires (w == i || w == j) && k <= size
    ensures After(RowCells(Same(), NoIds(), size, w, k), i, j, held) <==> (held <==> (size - k) % 2 == 0)
    decreases size - k
  {
    if k < size {
      var c, r := Flat(w, k), RowCells(Same(), NoIds(), size, w, k + 1);
      assert Couple(Same(), NoIds(), w, k) == c;
      HalvedFirst(c, r, i, j, 0, held);
      RowAfter(size, w, k + 1, i, j, !held);
    }
  }

  /** How many of m couples are kept. */
  function HalfOf(m: nat, held: bool): nat {
    (m + if held then 0 else 1) / 2
  }

  lemma HalfStep(m: nat, held: bool)
    ensures HalfOf(m + 1, held) == HalfOf(m, !held) + if held then 0 else 1
    ensures HalfOf(0, held) == 0
  {
  }

  predicate IsEven(n: nat) {
    n % 2 == 0
  }

  lemma EvenStep(n: nat)
    ensures IsEven(0) && (IsEven(n + 1) <==> !IsEven(n))
  {
  }

  /** So is what a round has left of one. */
  lemma {:induction false} EveryOtherAfter(n: nat, k: nat, size: nat, held: bool, i: nat, j: nat, h: bool)
    requires (n == i || n == j) && k <= size
    ensures After(EveryOther(n, k, size, held), i, j, h) <==> (h <==> IsEven(HalfOf(size - k, held)))
    decreases size - k
  {
    hide HalfOf, IsEven, After;
    if k < size {
      HalfStep(size - k - 1, held);
      EvenStep(HalfOf(size - k - 1, !held));
      EveryOtherAfter(n, k + 1, size, !held, i, j, if held then h else !h);
      if !held {
        HalvedFirst(Flat(n, k), EveryOther(n, k + 1, size, true), i, j, 0, h);
      } else {
        assert EveryOther(n, k, size, held) == EveryOther(n, k + 1, size, !held);
      }
    } else {
      HalfStep(0, held);
      EvenStep(0);
      AfterNone(i, j, h);
    }
  }

  lemma AfterNone(i: nat, j: nat, h: bool)
    ensures After([], i, j, h) == h
  {
  }

  /** Cells between higher leaves are untouched. */
  lemma {:induction false} RestHalved(size: nat, w: nat, k: nat, i: nat, j: nat, n: nat, held: bool)
    requires w > i && w > j && k > w
    ensures Halved(RowCells(Same(), NoIds(), size, w, k), i, j, n, held) == RowCells(Same(), NoIds(), size, w, k)
    decreases size - k
  {
    if k < size {
      RestHalved(size, w, k + 1, i, j, n, held);
    }
  }

  lemma {:induction false} RestAllHalved(size: nat, w: nat, i: nat, j: nat, n: nat, held: bool)
    requires w > i && w > j
    ensures Halved(AllCells(Same(), NoIds(), size, w), i, j, n, held) == AllCells(Same(), NoIds(), size, w)
    decreases size - w
  {
    if w + 1 < size {
      var r, more := RowCells(Same(), NoIds(), size, w, w + 1), AllCells(Same(), NoIds(), size, w + 1);
      HalvedJoined(r, more, i, j, n, held);
      RestHalved(size, w, w + 1, i, j, n, held);
      RestAllHalved(size, w + 1, i, j, n, After(r, i, j, held));
    }
  }

  lemma {:induction false} RowMembers(f: Metric, ids: nat -> int, size: nat, w: nat, k: nat)
    ensures forall c :: c in RowCells(f, ids, size, w, k) ==> c.i == w && k <= c.j < size
    decreases size - k
  {
    if k < size {
      RowMembers(f, ids, size, w, k + 1);
    }
  }

  lemma {:induction false} AllMembers(f: Metric, ids: nat -> int, size: nat, w: nat)
    ensures forall c :: c in AllCells(f, ids, size, w) ==> w <= c.i < c.j < size
    decreases size - w
  {
    if w + 1 < size {
      RowMembers(f, ids, size, w, w + 1);
      AllMembers(f, ids, size, w + 1);
    }
  }

  /** The table after the first round. */
  function Second(size: nat): seq<Cell>
    requires size >= 2
  {
    EveryOther(size, 2, size, false)
    + (EveryOther(size, 2, size, size % 2 == 1) + AllCells(Same(), NoIds(), size, 2))
  }

  lemma FirstRow(f: Metric, ids: nat -> int, size: nat, w: nat)
    requires w + 1 < size
    ensures RowCells(f, ids, size, w, w + 1) == [Couple(f, ids, w, w + 1)] + RowCells(f, ids, size, w, w + 2)
    ensures AllCells(f, ids, size, w)
         == [Couple(f, ids, w, w + 1)] + (RowCells(f, ids, size, w, w + 2) + AllCells(f, ids, size, w + 1))
  {
    Associate([Couple(f, ids, w, w + 1)], RowCells(f, ids, size, w, w + 2), AllCells(f, ids, size, w + 1));
  }

  /** The rest of the first table, halved. */
  lemma SecondHalved(size: nat)
    requires size >= 4
    ensures var r0, r1, more := RowCells(Same(), NoIds(), size, 0, 2), RowCells(Same(), NoIds(), size, 1, 2),
                                AllCells(Same(), NoIds(), size, 2);
            Halved(r0 + (r1 + more), 0, 1, size, false) == Second(size)
  {
    hide Halved, After, RowCells, AllCells;
    var r0, r1, more := RowCells(Same(), NoIds(), size, 0, 2), RowCells(Same(), NoIds(), size, 1, 2),
                        AllCells(Same(), NoIds(), size, 2);
    HalvedJoined(r0, r1 + more, 0, 1, size, false);
    RowHalved(size, 0, 2, 0, 1, size, false);
    RowAfter(size, 0, 2, 0, 1, false);
    var h := After(r0, 0, 1, false);
    HalvedJoined(r1, more, 0, 1, size, h);
    RowHalved(size, 1, 2, 0, 1, size, h);
    RestAllHalved(size, 2, 0, 1, size, After(r1, 0, 1, h));
  }

  lemma FirstTable(size: nat, cmp: Cmp)
    requires AllEqual(cmp) && size >= 4
    ensures var r0, r1, more := RowCells(Same(), NoIds(), size, 0, 2), RowCells(Same(), NoIds(), size, 1, 2),
                                AllCells(Same(), NoIds(), size, 2);
            Start(Same(), NoIds(), size, cmp).table == [Flat(0, 1)] + (r0 + (r1 + more))
  {
    hide RowCells, AllCells, Rows;
    StartCells(Same(), NoIds(), size, cmp);
    FirstRow(Same(), NoIds(), size, 0);
    AllSplit(Same(), NoIds(), size, 1);
  }

  lemma SecondTable(size: nat, cmp: Cmp)
    requires AllEqual(cmp) && size >= 4
    ensures var s := Run(Start(Same(), NoIds(), size, cmp), 1, cmp);
            s.table == Second(size) && s.leaves.Keys == Numbers(size) - {0, 1} + {size} && s.n == size + 1
  {
    hide Halved, RowCells, AllCells, Rows, Absorb, Second, Run;
    var s := Start(Same(), NoIds(), size, cmp);
    FirstTable(size, cmp);
    var r := s.table[1..];
    assert s.table[0] == Flat(0, 1);
    OneRound(s, cmp);
    AbsorbHalves(r, 0, 1, size, {}, cmp);
    SecondHalved(size);
  }

  lemma OneRound(s: State, cmp: Cmp)
    requires s.table != [] && s.table[0].i in s.leaves && s.table[0].j in s.leaves
    ensures Run(s, 1, cmp) == Step(s, cmp)
  {
    assert Run(s, 0, cmp) == s;
  }

  lemma AllSplit(f: Metric, ids: nat -> int, size: nat, w: nat)
    requires w + 1 < size
    ensures AllCells(f, ids, size, w) == RowCells(f, ids, size, w, w + 1) + AllCells(f, ids, size, w + 1)
  {
  }

  /** An even number of leaves: the couple of the new cluster and leaf 2 is there twice. */
  lemma EvenFails(size: nat, cmp: Cmp)
    requires AllEqual(cmp) && size >= 4 && size % 2 == 0
    ensures !Complete(Run(Start(Same(), NoIds(), size, cmp), 1, cmp).table,
                      Run(Start(Same(), NoIds(), size, cmp), 1, cmp).leaves.Keys)
  {
    hide AllCells, Start, Run;
    SecondTable(size, cmp);
    var more := EveryOther(size, 3, size, true);
    assert EveryOther(size, 2, size, false) == [Flat(size, 2)] + more;
    CountJoined([Flat(size, 2)] + more, [Flat(size, 2)] + more + AllCells(Same(), NoIds(), size, 2), size, 2);
    CountJoined([Flat(size, 2)] + more, AllCells(Same(), NoIds(), size, 2), size, 2);
    CountCons(Flat(size, 2), more, size, 2);
  }

  /** Cells that do not lead to k leave nothing between n and k. */
  lemma {:induction false} NoneTo(cells: seq<Cell>, i: nat, j: nat, n: nat, held: bool, k: nat)
    requires forall c :: c in cells ==> c.i != n && c.j != n && (Touches(c, i, j) ==> Bystander(c, i, j) != k)
    ensures Count(Halved(cells, i, j, n, held), n, k) == 0
  {
    if cells != [] {
      var c, r := cells[0], cells[1..];
      assert c in cells && forall d :: d in r ==> d in cells;
      assert cells == [c] + r;
      HalvedFirst(c, r, i, j, n, held);
      NoneTo(r, i, j, n, if Touches(c, i, j) then !held else held, k);
      CountJoined(Kept(c, i, j, n, held), Halved(r, i, j, n, if Touches(c, i, j) then !held else held), n, k);
    }
  }

  lemma Regroup(a: seq<Cell>, b: seq<Cell>, c: seq<Cell>, e: seq<Cell>, r: seq<Cell>)
    ensures a + (b + (c + e)) + r == a + (b + c + (e + r))
  {
  }

  /** The rest of the second table for an odd number of leaves. */
  lemma OddRest(size: nat)
    requires size >= 7 && size % 2 == 1
    ensures Second(size)
         == [Flat(size, 2)]
            + ([Flat(size, 4)] + [Flat(size, 6)]
               + (EveryOther(size, 7, size, true)
                  + (EveryOther(size, 2, size, true)
                     + (RowCells(Same(), NoIds(), size, 2, 3) + AllCells(Same(), NoIds(), size, 3)))))
  {
    hide RowCells, AllCells, EveryOther;
    AllSplit(Same(), NoIds(), size, 2);
    EveryOtherTwo(size, 2, size);
    EveryOtherTwo(size, 4, size);
    EveryOtherTwo(size, 6, size);
    Regroup([Flat(size, 2)], [Flat(size, 4)], [Flat(size, 6)], EveryOther(size, 7, size, true),
            EveryOther(size, 2, size, true) + AllCells(Same(), NoIds(), size, 2));
  }

  lemma EveryOtherTwo(n: nat, k: nat, size: nat)
    requires k < size
    ensures EveryOther(n, k, size, false) == [Flat(n, k)] + EveryOther(n, k + 1, size, true)
    ensures k + 1 < size ==> EveryOther(n, k + 1, size, true) == EveryOther(n, k + 2, size, false)
    ensures k + 1 >= size ==> EveryOther(n, k + 1, size, true) == []
  {
  }

  lemma OddHeld(size: nat)
    requires size >= 7 && size % 2 == 1
    ensures var h := After(EveryOther(size, 7, size, true), size, 2, false);
            !After(EveryOther(size, 2, size, true), size, 2, h)
  {
    hide After, EveryOther, HalfOf, IsEven;
    var h := After(EveryOther(size, 7, size, true), size, 2, false);
    EveryOtherAfter(size, 7, size, true, size, 2, false);
    EveryOtherAfter(size, 2, size, true, size, 2, h);
    OddHalves(size);
  }

  lemma OddHalves(size: nat)
    requires size >= 7 && size % 2 == 1
    ensures IsEven(HalfOf(size - 7, true)) <==> IsEven(HalfOf(size - 2, true))
  {
    var q := (size - 7) / 2;
    assert size == 2 * q + 7;
    assert HalfOf(size - 7, true) == q && HalfOf(size - 2, true) == q + 2;
  }

  lemma FourAndSix(size: nat, more: seq<Cell>)
    requires size >= 7
    ensures Halved([Flat(size, 4)] + [Flat(size, 6)] + more, size, 2, size + 1, false)
         == [Flat(size + 1, 4)] + Halved(more, size, 2, size + 1, false)
  {
    hide Halved;
    assert [Flat(size, 4)] + [Flat(size, 6)] + more == [Flat(size, 4)] + ([Flat(size, 6)] + more);
    HalvedFirst(Flat(size, 4), [Flat(size, 6)] + more, size, 2, size + 1, false);
    HalvedFirst(Flat(size, 6), more, size, 2, size + 1, true);
    assert [] + Halved(more, size, 2, size + 1, false) == Halved(more, size, 2, size + 1, false);
  }

  /** In the second round nothing is left between the new cluster and leaf 6. */
  lemma OddNone(size: nat)
    requires size >= 7 && size % 2 == 1
    ensures Count(Halved(Second(size)[1..], size, 2, size + 1, false), size + 1, 6) == 0
  {
    hide Halved, RowCells, AllCells, Count, After;
    var n := size + 1;
    var a, b := EveryOther(size, 7, size, true), EveryOther(size, 2, size, true);
    var r, more := RowCells(Same(), NoIds(), size, 2, 3), AllCells(Same(), NoIds(), size, 3);
    OddRest(size);
    FourAndSix(size, a + (b + (r + more)));
    var h := After(a, size, 2, false);
    HalvedJoined(a, b + (r + more), size, 2, n, false);
    HalvedJoined(b, r + more, size, 2, n, h);
    OddHeld(size);
    HalvedJoined(r, more, size, 2, n, false);
    NoneTo(a, size, 2, n, false, 6);
    NoneTo(b, size, 2, n, h, 6);
    RowHalved(size, 2, 3, size, 2, n, false);
    NoneCounted(EveryOther(n, 3, size, false), n, 6);
    AllMembers(Same(), NoIds(), size, 3);
    NoneTo(more, size, 2, n, After(r, size, 2, false), 6);
    OddCounts(size, Halved(a, size, 2, n, false), Halved(b, size, 2, n, h), EveryOther(n, 3, size, false),
              Halved(more, size, 2, n, After(r, size, 2, false)));
  }

  lemma OddCounts(size: nat, a: seq<Cell>, b: seq<Cell>, c: seq<Cell>, d: seq<Cell>)
    requires Count(a, size + 1, 6) == 0 && Count(b, size + 1, 6) == 0
    requires Count(c, size + 1, 6) == 0 && Count(d, size + 1, 6) == 0
    ensures Count([Flat(size + 1, 4)] + (a + (b + (c + d))), size + 1, 6) == 0
  {
    hide Count;
    CountCons(Flat(size + 1, 4), a + (b + (c + d)), size + 1, 6);
    CountJoined(a, b + (c + d), size + 1, 6);
    CountJoined(b, c + d, size + 1, 6);
    CountJoined(c, d, size + 1, 6);
  }

  /** An odd number of leaves, at least seven: the second round loses the couple of its cluster and leaf 6. */
  lemma OddFails(size: nat, cmp: Cmp)
    requires AllEqual(cmp) && size >= 7 && size % 2 == 1
    ensures !Complete(Run(Start(Same(), NoIds(), size, cmp), 2, cmp).table,
                      Run(Start(Same(), NoIds(), size, cmp), 2, cmp).leaves.Keys)
  {
    hide Halved, Second, Count, Start, Step;
    var s0 := Start(Same(), NoIds(), size, cmp);
    var s := Run(s0, 1, cmp);
    SecondTable(size, cmp);
    OddHead(size);
    OddStep(s, size, cmp);
    assert Run(s0, 2, cmp) == Advance(s, cmp) == Step(s, cmp);
  }

  lemma OddHead(size: nat)
    requires size >= 7 && size % 2 == 1
    ensures Second(size) != [] && Second(size)[0] == Flat(size, 2)
  {
    OddRest(size);
  }

  lemma OddStep(s: State, size: nat, cmp: Cmp)
    requires AllEqual(cmp) && size >= 7 && size % 2 == 1 && s.table == Second(size) && s.n == size + 1
    requires s.table != [] && s.table[0] == Flat(size, 2) && s.leaves.Keys == Numbers(size) - {0, 1} + {size}
    ensures !Complete(Step(s, cmp).table, Step(s, cmp).leaves.Keys)
  {
    hide Halved, Second, Count, Absorb;
    AbsorbHalves(s.table[1..], size, 2, size + 1, {}, cmp);
    OddNone(size);
    var keys := Step(s, cmp).leaves.Keys;
    assert size + 1 in keys && 6 in keys;
  }

  // ---------- five leaves ----------

  /** Every key is least, so a round only has to keep the table complete. */
  lemma EqualStepInv(s: State, f: Metric, cmp: Cmp, size: nat)
    requires TotalOrder(cmp) && AllEqual(cmp) && Inv(s, f, cmp, size) && s.table != []
    requires s.table[0].i in s.leaves && s.table[0].j in s.leaves
    requires Complete(Step(s, cmp).table, Step(s, cmp).leaves.Keys)
    ensures Inv(Step(s, cmp), f, cmp, size)
  {
    hide Partition, TotalOrder, AllEqual, Complete, SortedCells, Absorb, IsLeast;
    var h, s' := s.table[0], Step(s, cmp);
    HeadOf(s.table, s.leaves.Keys);
    StepPartition(s.leaves, size, h.i, h.j, s.n);
    MergedSize(s.leaves, h.i, h.j, s.n);
    EqualSorted(s'.table, cmp);
    EqualAllLeast(s, f, cmp, size);
  }

  lemma EqualAllLeast(s: State, f: Metric, cmp: Cmp, size: nat)
    requires TotalOrder(cmp) && AllEqual(cmp) && Inv(s, f, cmp, size) && s.table != []
    requires s.table[0].i in s.leaves && s.table[0].j in s.leaves
    requires Complete(Step(s, cmp).table, Step(s, cmp).leaves.Keys)
    ensures var s' := Step(s, cmp);
            forall c :: c in s'.table
              ==> c.i in s'.leaves && c.j in s'.leaves && IsLeast(f, cmp, c.key, s'.leaves[c.i], s'.leaves[c.j])
  {
    hide Partition, TotalOrder, AllEqual, Complete, SortedCells, Absorb, IsLeast, Origin;
    var h, r, s' := s.table[0], s.table[1..], Step(s, cmp);
    HeadOf(s.table, s.leaves.Keys);
    CompleteWithin(s'.table, s'.leaves.Keys);
    AbsorbOrigin(r, s.leaves.Keys, h.i, h.j, s.n, {}, cmp);
    forall c | c in s'.table
      ensures c.i in s'.leaves && c.j in s'.leaves && IsLeast(f, cmp, c.key, s'.leaves[c.i], s'.leaves[c.j])
    {
      assert Origin(r, h.i, h.j, s.n, c);
      EqualLeast(s, f, cmp, size, c);
    }
  }

  lemma EqualSorted(m: seq<Cell>, cmp: Cmp)
    requires AllEqual(cmp)
    ensures SortedCells(m, cmp)
  {
  }

  lemma CompleteWithin(m: seq<Cell>, live: set<nat>)
    requires Complete(m, live)
    ensures Within(m, live)
  {
  }

  lemma EqualLeast(s: State, f: Metric, cmp: Cmp, size: nat, c: Cell)
    requires AllEqual(cmp) && Inv(s, f, cmp, size) && s.table != []
    requires s.table[0].i in s.leaves && s.table[0].j in s.leaves
    requires Origin(s.table[1..], s.table[0].i, s.table[0].j, s.n, c)
    requires var s' := Step(s, cmp); c.i in s'.leaves && c.j in s'.leaves
    ensures var s' := Step(s, cmp); IsLeast(f, cmp, c.key, s'.leaves[c.i], s'.leaves[c.j])
  {
    hide Partition, SortedCells, Absorb, Count;
    var h, r, s' := s.table[0], s.table[1..], Step(s, cmp);
    var d: Cell;
    if c.i == s.n || c.j == s.n {
      d :| d in r && Touches(d, h.i, h.j) && Renamed(d, h.i, h.j, s.n) == c;
    } else {
      d := c;
    }
    assert d in s.table && d.i in s.leaves && d.j in s.leaves;
    var x, y := KeyFrom(f, cmp, d.key, s.leaves[d.i], s.leaves[d.j]);
    KeyIs(f, cmp, c.key, s'.leaves[c.i], s'.leaves[c.j], x, y);
  }

  lemma KeyFrom(f: Metric, cmp: Cmp, key: int, a: set<nat>, b: set<nat>) returns (x: nat, y: nat)
    requires IsLeast(f, cmp, key, a, b)
    ensures x in a && y in b && Dist(f, x, y) == key
  {
    x, y :| x in a && y in b && Dist(f, x, y) == key;
  }

  lemma KeyIs(f: Metric, cmp: Cmp, key: int, a: set<nat>, b: set<nat>, x: nat, y: nat)
    requires AllEqual(cmp) && x in a && y in b && Dist(f, x, y) == key
    ensures IsLeast(f, cmp, key, a, b)
  {
  }

  lemma FiveTable(f: Metric, ids: nat -> int, cmp: Cmp)
    requires AllEqual(cmp)
    ensures Start(f, ids, 5, cmp).table
         == [Couple(f, ids, 0, 1), Couple(f, ids, 0, 2), Couple(f, ids, 0, 3), Couple(f, ids, 0, 4),
             Couple(f, ids, 1, 2), Couple(f, ids, 1, 3), Couple(f, ids, 1, 4),
             Couple(f, ids, 2, 3), Couple(f, ids, 2, 4), Couple(f, ids, 3, 4)]
  {
    hide Rows, Couple;
    StartCells(f, ids, 5, cmp);
    assert RowCells(f, ids, 5, 0, 1)
        == [Couple(f, ids, 0, 1), Couple(f, ids, 0, 2), Couple(f, ids, 0, 3), Couple(f, ids, 0, 4)];
    assert RowCells(f, ids, 5, 1, 2) == [Couple(f, ids, 1, 2), Couple(f, ids, 1, 3), Couple(f, ids, 1, 4)];
    assert RowCells(f, ids, 5, 2, 3) == [Couple(f, ids, 2, 3), Couple(f, ids, 2, 4)];
    assert RowCells(f, ids, 5, 3, 4) == [Couple(f, ids, 3, 4)];
    assert AllCells(f, ids, 5, 4) == [];
    assert AllCells(f, ids, 5, 3) == [Couple(f, ids, 3, 4)];
  }

  /** The cells of the first round, as clusters. */
  lemma FiveFirst(a: Cell, b: Cell, c: Cell, d: Cell, e: Cell, g: Cell, h: Cell, k: Cell, l: Cell)
    requires (a.i, a.j) == (0, 2) && (b.i, b.j) == (0, 3) && (c.i, c.j) == (0, 4) && (d.i, d.j) == (1, 2)
    requires (e.i, e.j) == (1, 3) && (g.i, g.j) == (1, 4) && (h.i, h.j) == (2, 3) && (k.i, k.j) == (2, 4)
    requires (l.i, l.j) == (3, 4)
    ensures var r := [a, b, c, d, e, g, h, k, l];
            && Halved(r, 0, 1, 5, false) == [a.(i := 5), c.(i := 5), e.(i := 5), h, k, l] && !After(r, 0, 1, false)
  {
    hide Halved, After;
    var r := [h, k, l];
    Untouched3(h, k, l, 0, 1, 5);
    Halved2(e, g, r, 0, 1, 5);
    Halved2(c, d, [e, g] + r, 0, 1, 5);
    Halved2(a, b, [c, d] + ([e, g] + r), 0, 1, 5);
    assert [a, b] + ([c, d] + ([e, g] + r)) == [a, b, c, d, e, g, h, k, l];
  }

  lemma Halved2(a: Cell, b: Cell, r: seq<Cell>, i: nat, j: nat, n: nat)
    requires Touches(a, i, j) && Touches(b, i, j)
    ensures Halved([a, b] + r, i, j, n, false) == [Renamed(a, i, j, n)] + Halved(r, i, j, n, false)
    ensures After([a, b] + r, i, j, false) == After(r, i, j, false)
  {
    hide Halved, After;
    assert [a, b] + r == [a] + ([b] + r);
    HalvedFirst(a, [b] + r, i, j, n, false);
    HalvedFirst(b, r, i, j, n, true);
    assert [] + Halved(r, i, j, n, false) == Halved(r, i, j, n, false);
  }

  lemma Untouched3(a: Cell, b: Cell, c: Cell, i: nat, j: nat, n: nat)
    requires !Touches(a, i, j) && !Touches(b, i, j) && !Touches(c, i, j)
    ensures Halved([a, b, c], i, j, n, false) == [a, b, c] && !After([a, b, c], i, j, false)
  {
    HalvedFirst(a, [b, c], i, j, n, false);
    HalvedFirst(b, [c], i, j, n, false);
    HalvedFirst(c, [], i, j, n, false);
    assert [a] + [b, c] == [a, b, c] && [b] + [c] == [b, c] && [c] + [] == [c];
  }

  /** The cells of the second round. */
  lemma FiveSecond(c: Cell, e: Cell, h: Cell, k: Cell, l: Cell)
    requires (c.i, c.j) == (5, 4) && (e.i, e.j) == (5, 3) && (h.i, h.j) == (2, 3) && (k.i, k.j) == (2, 4)
             && (l.i, l.j) == (3, 4)
    ensures var r := [c, e, h, k, l];
            && Halved(r, 5, 2, 6, false) == [c.(i := 6), h.(i := 6), l] && !After(r, 5, 2, false)
  {
    hide Halved, After;
    Halved2(h, k, [l], 5, 2, 6);
    Halved2(c, e, [h, k] + [l], 5, 2, 6);
    assert [c, e] + ([h, k] + [l]) == [c, e, h, k, l];
    HalvedFirst(l, [], 5, 2, 6, false);
    assert Halved([], 5, 2, 6, false) == [] && !After([], 5, 2, false) by {
      HalvedNone(5, 2, 6);
    }
    assert [l] + [] == [l];
  }

  lemma HalvedNone(i: nat, j: nat, n: nat)
    ensures Halved([], i, j, n, false) == [] && !After([], i, j, false)
  {
  }

  lemma FiveRoundOne(f: Metric, ids: nat -> int, cmp: Cmp)
    requires TotalOrder(cmp) && AllEqual(cmp)
    ensures var s0 := Start(f, ids, 5, cmp); var s := Run(s0, 1, cmp);
            && s0.table != [] && s0.table[0].i == 0 && s0.table[0].j == 1
            && Leftover(s0.table[1..], 0, 1, {}, cmp) == {} && Inv(s, f, cmp, 5) && s.n == 6
            && |s.table| == 6 && (s.table[0].i, s.table[0].j) == (5, 2) && (s.table[1].i, s.table[1].j) == (5, 4)
            && (s.table[2].i, s.table[2].j) == (5, 3) && (s.table[3].i, s.table[3].j) == (2, 3)
            && (s.table[4].i, s.table[4].j) == (2, 4) && (s.table[5].i, s.table[5].j) == (3, 4)
            && s.leaves.Keys == {2, 3, 4, 5}
  {
    hide TotalOrder, AllEqual, Inv, Halved, After, Absorb, Leftover, Rows, Complete, Run;
    var s0 := Start(f, ids, 5, cmp);
    StartSound(f, ids, 5, cmp);
    FiveTable(f, ids, cmp);
    var t := s0.table;
    FiveFirst(t[1], t[2], t[3], t[4], t[5], t[6], t[7], t[8], t[9]);
    assert t[1..] == [t[1], t[2], t[3], t[4], t[5], t[6], t[7], t[8], t[9]];
    AbsorbHalves(t[1..], 0, 1, 5, {}, cmp);
    OneRound(s0, cmp);
    var s := Step(s0, cmp);
    assert s.leaves.Keys == {2, 3, 4, 5};
    SixComplete(s.table);
    EqualStepInv(s0, f, cmp, 5);
  }

  /** The six couples of four clusters. */
  lemma SixComplete(t: seq<Cell>)
    requires |t| == 6 && (t[0].i, t[0].j) == (5, 2) && (t[1].i, t[1].j) == (5, 4) && (t[2].i, t[2].j) == (5, 3)
    requires (t[3].i, t[3].j) == (2, 3) && (t[4].i, t[4].j) == (2, 4) && (t[5].i, t[5].j) == (3, 4)
    ensures Complete(t, {2, 3, 4, 5})
  {
    hide Count;
    forall a, b | a in {2, 3, 4, 5} && b in {2, 3, 4, 5} && a != b
      ensures Count(t, a, b) == 1
    {
      SixCount(t, a, b);
    }
  }

  lemma SixCount(t: seq<Cell>, a: nat, b: nat)
    requires |t| == 6
    ensures Count(t, a, b) == (if t[0].Joins(a, b) then 1 else 0) + (if t[1].Joins(a, b) then 1 else 0)
                              + (if t[2].Joins(a, b) then 1 else 0) + Count([t[3], t[4], t[5]], a, b)
    ensures Count([t[3], t[4], t[5]], a, b)
         == (if t[3].Joins(a, b) then 1 else 0) + (if t[4].Joins(a, b) then 1 else 0)
             + (if t[5].Joins(a, b) then 1 else 0)
  {
    hide Cell.Joins;
    assert t == [t[0]] + ([t[1]] + ([t[2]] + [t[3], t[4], t[5]]));
    CountCons(t[0], [t[1]] + ([t[2]] + [t[3], t[4], t[5]]), a, b);
    CountCons(t[1], [t[2]] + [t[3], t[4], t[5]], a, b);
    CountCons(t[2], [t[3], t[4], t[5]], a, b);
    ThreeCount([t[3], t[4], t[5]], a, b);
  }

  lemma ThreeCount(t: seq<Cell>, a: nat, b: nat)
    requires |t| == 3
    ensures Count(t, a, b) == (if t[0].Joins(a, b) then 1 else 0) + (if t[1].Joins(a, b) then 1 else 0)
                              + (if t[2].Joins(a, b) then 1 else 0)
  {
    hide Cell.Joins;
    assert t == [t[0]] + ([t[1]] + ([t[2]] + []));
    CountCons(t[0], [t[1]] + ([t[2]] + []), a, b);
    CountCons(t[1], [t[2]] + [], a, b);
    CountCons(t[2], [], a, b);
  }

  lemma FiveRoundTwo(f: Metric, ids: nat -> int, cmp: Cmp)
    requires TotalOrder(cmp) && AllEqual(cmp)
    ensures var s := Run(Start(f, ids, 5, cmp), 1, cmp); var s' := Run(Start(f, ids, 5, cmp), 2, cmp);
            && s.table != [] && Leftover(s.table[1..], s.table[0].i, s.table[0].j, {}, cmp) == {}
            && Inv(s', f, cmp, 5) && s'.n == 7 && s'.leaves.Keys == {3, 4, 6}
  {
    hide TotalOrder, AllEqual, Inv, Halved, After, Absorb, Leftover, Start, Complete;
    FiveRoundOne(f, ids, cmp);
    var s := Run(Start(f, ids, 5, cmp), 1, cmp);
    var t := s.table;
    FiveSecond(t[1], t[2], t[3], t[4], t[5]);
    assert t[1..] == [t[1], t[2], t[3], t[4], t[5]];
    AbsorbHalves(t[1..], 5, 2, 6, {}, cmp);
    var s' := Step(s, cmp);
    assert s'.leaves.Keys == {3, 4, 6};
    ThreeComplete(s'.table);
    EqualStepInv(s, f, cmp, 5);
  }

  lemma ThreeComplete(t: seq<Cell>)
    requires |t| == 3 && (t[0].i, t[0].j) == (6, 4) && (t[1].i, t[1].j) == (6, 3) && (t[2].i, t[2].j) == (3, 4)
    ensures Complete(t, {3, 4, 6})
  {
    hide Count;
    forall a, b | a in {3, 4, 6} && b in {3, 4, 6} && a != b
      ensures Count(t, a, b) == 1
    {
      ThreeCount(t, a, b);
    }
  }
}
