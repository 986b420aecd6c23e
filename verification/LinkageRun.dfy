/** Whole runs of the clustering, and the exact condition on the comparison under which they come out right. */
module LinkageRun {
  import opened RbOrder
  import opened Linkage
  import opened Steering
  import opened ChainMetric
  import opened TieMetric
  import opened EqualRun

  /** The comparison tells apart all numbers that can be bystanders of one round: with four clusters left the next
      number is 2 * size - 4. It need not with three leaves, nor with five if all numbers are equal to it. */
  ghost predicate Suits(cmp: Cmp, size: nat) {
    size < 4 || Separates(cmp, Numbers(2 * size - 4)) || (size == 5 && AllEqual(cmp))
  }

  // ---------- every reachable state ----------

  lemma OthersLow(s: State, f: Metric, cmp: Cmp, size: nat)
    requires Inv(s, f, cmp, size) && s.table != [] && s.table[0].i in s.leaves && s.table[0].j in s.leaves
    ensures |Others(s)| == 2 * size - s.n - 2
    ensures size >= 4 && |s.leaves| >= 4 ==> Others(s) <= Numbers(2 * size - 4)
  {
    hide Partition, SortedCells, Complete;
    HeadOf(s.table, s.leaves.Keys) by { InvParts(s, f, cmp, size); }
    assert |s.leaves.Keys - {s.table[0].i, s.table[0].j}| == |s.leaves.Keys| - 2;
  }

  lemma {:induction false} FewSeparated(cmp: Cmp, ns: set<nat>)
    requires |ns| <= 1
    ensures Separates(cmp, ns)
  {
    forall x, y | x in ns && y in ns && cmp(x, y) == 0
      ensures x == y
    {
      assert |ns - {x}| == |ns| - 1;
      assert y !in ns - {x};
    }
  }

  /** The next round of a state whose bystanders are told apart. */
  lemma RoundReady(s: State, f: Metric, cmp: Cmp, size: nat)
    requires TotalOrder(cmp) && Inv(s, f, cmp, size) && |s.leaves| >= 2
    requires size < 4 || |s.leaves| < 4 || Separates(cmp, Numbers(2 * size - 4))
    ensures s.table != [] && s.table[0].i in s.leaves && s.table[0].j in s.leaves
    ensures Leftover(s.table[1..], s.table[0].i, s.table[0].j, {}, cmp) == {}
    ensures Advance(s, cmp) == Step(s, cmp) && Inv(Step(s, cmp), f, cmp, size)
  {
    hide Inv, TotalOrder, Separates;
    CouplesLeft(s, f, cmp, size);
    OthersLow(s, f, cmp, size);
    Counted(s, f, cmp, size);
    if |s.leaves| < 4 {
      FewSeparated(cmp, Others(s));
    } else {
      SeparatesLess(cmp, Others(s), Numbers(2 * size - 4));
    }
    StepInv(s, f, cmp, size);
  }

  /** The state has a couple to merge, a round leaves its helper tree empty and its table complete. */
  ghost predicate GoesWell(s: State, f: Metric, cmp: Cmp, size: nat) {
    && s.table != [] && s.table[0].i in s.leaves && s.table[0].j in s.leaves
    && Leftover(s.table[1..], s.table[0].i, s.table[0].j, {}, cmp) == {}
    && Inv(Step(s, cmp), f, cmp, size)
  }

  lemma FiveWell(f: Metric, ids: nat -> int, cmp: Cmp, k: nat)
    requires TotalOrder(cmp) && AllEqual(cmp) && k < 2
    ensures GoesWell(Run(Start(f, ids, 5, cmp), k, cmp), f, cmp, 5)
  {
    hide TotalOrder, AllEqual, Inv, Leftover, Start, Absorb;
    var s0 := Start(f, ids, 5, cmp);
    FiveRoundOne(f, ids, cmp);
    FiveRoundTwo(f, ids, cmp);
    StartSound(f, ids, 5, cmp);
    assert Run(s0, 0, cmp) == s0;
    StartNumber(f, ids, 5, cmp);
    assert Run(s0, 1, cmp) == Advance(s0, cmp) && Run(s0, 2, cmp) == Advance(Run(s0, 1, cmp), cmp);
    CouplesLeft(Run(s0, 1, cmp), f, cmp, 5);
  }

  lemma StartNumber(f: Metric, ids: nat -> int, size: nat, cmp: Cmp)
    ensures Start(f, ids, size, cmp).n == size && forall a :: 0 <= a < size ==> a in Start(f, ids, size, cmp).leaves
  {
  }

  lemma NextWell(f: Metric, ids: nat -> int, size: nat, cmp: Cmp, k: nat)
    requires TotalOrder(cmp) && Suits(cmp, size) && k + 1 < size
    requires var s := Run(Start(f, ids, size, cmp), k, cmp); Inv(s, f, cmp, size) && s.n == size + k
    ensures GoesWell(Run(Start(f, ids, size, cmp), k, cmp), f, cmp, size)
  {
    hide Inv, TotalOrder, Separates, AllEqual, Start, Leftover;
    var s := Run(Start(f, ids, size, cmp), k, cmp);
    Counted(s, f, cmp, size);
    if size < 4 || |s.leaves| < 4 || Separates(cmp, Numbers(2 * size - 4)) {
      RoundReady(s, f, cmp, size);
    } else {
      FiveWell(f, ids, cmp, k);
    }
  }

  /** Every state of a run has a complete graph of minimum distances for its table. */
  lemma {:induction false} RunInv(f: Metric, ids: nat -> int, size: nat, cmp: Cmp, k: nat)
    requires TotalOrder(cmp) && Suits(cmp, size) && k < size
    ensures var s := Run(Start(f, ids, size, cmp), k, cmp); Inv(s, f, cmp, size) && s.n == size + k
  {
    hide Inv, TotalOrder, Suits, Start, Leftover, Absorb;
    if k == 0 {
      StartSound(f, ids, size, cmp);
      StartNumber(f, ids, size, cmp);
    } else {
      RunInv(f, ids, size, cmp, k - 1);
      NextWell(f, ids, size, cmp, k - 1);
    }
  }

  lemma SoundNext(s: State, f: Metric, cmp: Cmp, size: nat)
    requires TotalOrder(cmp) && Sound(s, f, cmp, size) && GoesWell(s, f, cmp, size)
    ensures Sound(Advance(s, cmp), f, cmp, size)
  {
    hide Inv, Rising, Joined, TotalOrder, Step, Leftover;
    StepRising(s, f, cmp, size);
    StepJoined(s, f, cmp, size);
  }

  /** Every state of a run is sound; its table is complete, its merges rise, and clusters are linked. */
  lemma {:induction false} RunSound(f: Metric, ids: nat -> int, size: nat, cmp: Cmp, k: nat)
    requires TotalOrder(cmp) && Suits(cmp, size) && k < size
    ensures var s := Run(Start(f, ids, size, cmp), k, cmp); Sound(s, f, cmp, size) && s.n == size + k
  {
    hide Sound, Inv, TotalOrder, Suits, Start, Advance, GoesWell;
    RunInv(f, ids, size, cmp, k);
    if k == 0 {
      StartSound(f, ids, size, cmp);
    } else {
      RunSound(f, ids, size, cmp, k - 1);
      RunInv(f, ids, size, cmp, k - 1);
      NextWell(f, ids, size, cmp, k - 1);
      SoundNext(Run(Start(f, ids, size, cmp), k - 1, cmp), f, cmp, size);
    }
  }

  /** The merges of a run are those of any longer run, as far as they go. */
  lemma {:induction false} RunPrefix(s: State, k: nat, l: nat, cmp: Cmp)
    requires k <= l
    ensures Run(s, k, cmp).merges <= Run(s, l, cmp).merges
    decreases l
  {
    if k < l {
      RunPrefix(s, k, l - 1, cmp);
    }
  }

  /** Cutting a complete run at any height h: the merges of height at most h come first, and after exactly those
      the clusters are the components of the leaves linked at height h. */
  lemma {:induction false} CutIsComponents(f: Metric, ids: nat -> int, size: nat, cmp: Cmp, h: int) returns (k: nat)
    requires TotalOrder(cmp) && Suits(cmp, size) && size > 0
    ensures k < size
    ensures var all := Run(Start(f, ids, size, cmp), size - 1, cmp).merges;
            |all| == size - 1 && forall r :: 0 <= r < |all| ==> (cmp(all[r].key, h) <= 0 <==> r < k)
    ensures forall x, y :: 0 <= x < size && 0 <= y < size
                           ==> (Together(Run(Start(f, ids, size, cmp), k, cmp), x, y)
                                <==> Linked(f, cmp, size, h, x, y))
  {
    hide Joined, Linked, Together, Suits, Inv, Run, TotalOrder, SortedCells, KeysAtLeast, Start;
    var s := Start(f, ids, size, cmp);
    var last := Run(s, size - 1, cmp);
    RunSound(f, ids, size, cmp, size - 1);
    Counted(last, f, cmp, size);
    var all := last.merges;
    k := 0;
    while k < |all| && cmp(all[k].key, h) <= 0
      invariant 0 <= k <= |all| && forall r :: 0 <= r < k ==> cmp(all[r].key, h) <= 0
    {
      k := k + 1;
    }
    AboveCut(all, k, h, cmp);
    RunSound(f, ids, size, cmp, k);
    RunPrefix(s, k, size - 1, cmp);
    var c := Run(s, k, cmp);
    Counted(c, f, cmp, size);
    CouplesLeft(c, f, cmp, size);
    if c.table != [] {
      RunPrefix(s, k + 1, size - 1, cmp);
      NextMerge(s, k, cmp);
      InOrderTable(c, f, cmp, size);
      TableAbove(c, h, cmp);
    }
    forall x, y | 0 <= x < size && 0 <= y < size
      ensures Together(c, x, y) <==> Linked(f, cmp, size, h, x, y)
    {
      ClustersAreComponents(c, f, cmp, size, h, x, y);
    }
  }

  lemma NextMerge(s: State, k: nat, cmp: Cmp)
    requires var c := Run(s, k, cmp); c.table != [] && c.table[0].i in c.leaves && c.table[0].j in c.leaves
    ensures var c := Run(s, k, cmp); Run(s, k + 1, cmp).merges == c.merges + [c.table[0]]
  {
  }

  lemma InOrderTable(s: State, f: Metric, cmp: Cmp, size: nat)
    requires Inv(s, f, cmp, size)
    ensures SortedCells(s.table, cmp)
  {
  }

  lemma AboveCut(all: seq<Cell>, k: nat, h: int, cmp: Cmp)
    requires TotalOrder(cmp) && SortedCells(all, cmp) && k <= |all| && (k < |all| ==> cmp(all[k].key, h) > 0)
    ensures forall r :: k <= r < |all| ==> cmp(all[r].key, h) > 0
  {
    hide TotalOrder;
    forall r | k <= r < |all|
      ensures cmp(all[r].key, h) > 0
    {
      if r > k && cmp(all[r].key, h) <= 0 {
        Transitive(cmp, all[k].key, all[r].key, h);
      }
    }
  }

  lemma TableAbove(s: State, h: int, cmp: Cmp)
    requires TotalOrder(cmp) && SortedCells(s.table, cmp) && s.table != [] && cmp(s.table[0].key, h) > 0
    ensures forall c :: c in s.table ==> cmp(c.key, h) > 0
  {
    AboveCut(s.table, 0, h, cmp);
  }

  // ---------- the exact condition ----------

  /** Whatever the distances, every state of a run has a complete graph of minimum distances for its table. */
  ghost predicate AlwaysRight(cmp: Cmp, size: nat) {
    forall f: Metric, ids: nat -> int, k: nat :: k < size ==> Inv(Run(Start(f, ids, size, cmp), k, cmp), f, cmp, size)
  }

  lemma Wrong(f: Metric, ids: nat -> int, size: nat, cmp: Cmp, k: nat)
    requires k < size && !Inv(Run(Start(f, ids, size, cmp), k, cmp), f, cmp, size)
    ensures !AlwaysRight(cmp, size)
  {
  }

  lemma EqualWrong(size: nat, cmp: Cmp)
    requires AllEqual(cmp) && size >= 4 && size != 5
    ensures !AlwaysRight(cmp, size)
  {
    hide AllEqual, Run, Start, Complete, AlwaysRight;
    if size % 2 == 0 {
      EvenFails(size, cmp);
      Incomplete(Run(Start(Same(), NoIds(), size, cmp), 1, cmp), Same(), cmp, size);
      Wrong(Same(), NoIds(), size, cmp, 1);
    } else {
      OddFails(size, cmp);
      Incomplete(Run(Start(Same(), NoIds(), size, cmp), 2, cmp), Same(), cmp, size);
      Wrong(Same(), NoIds(), size, cmp, 2);
    }
  }

  lemma Incomplete(s: State, f: Metric, cmp: Cmp, size: nat)
    requires !Complete(s.table, s.leaves.Keys)
    ensures !Inv(s, f, cmp, size)
  {
  }

  lemma PlanWrong(z: Plan, cmp: Cmp)
    requires TotalOrder(cmp) && z.Valid() && Increasing(z.lev, cmp) && cmp(z.First(), z.Second()) == 0
    requires z.Rounds() > 0 ==> Separates(cmp, Numbers(z.size + z.Rounds() - 1))
    ensures !AlwaysRight(cmp, z.size)
  {
    hide TotalOrder, Increasing, Separates, AlwaysRight, Run, Start, Plan.First, Plan.Second;
    PlanFails(z, NoIds(), cmp);
    Wrong(z.Distances(), NoIds(), z.size, cmp, z.Rounds() + 1);
  }

  /** Leaf 0 confused with leaf b, all other leaves told apart. */
  lemma ZeroWrong(size: nat, b: nat, cmp: Cmp)
    requires TotalOrder(cmp) && size >= 4 && 1 <= b < size && cmp(0, b) == 0
    requires Separates(cmp, Numbers(size) - {0})
    ensures !AlwaysRight(cmp, size)
  {
    hide TotalOrder, Separates, AlwaysRight, Increasing;
    NumbersCount(size);
    assert |Numbers(size) - {0}| == size - 1;
    var lev := Levels(Numbers(size) - {0}, cmp, 3);
    var z := Plan(size, 0, 0, 1, b, lev);
    PlanWrong(z, cmp);
  }

  /** Cluster b confused with a lower number, all numbers below b told apart. */
  lemma ClusterWrong(size: nat, a: nat, b: nat, cmp: Cmp)
    requires TotalOrder(cmp) && size <= b && b + 4 < 2 * size && a < b && cmp(a, b) == 0
    requires Separates(cmp, Numbers(b))
    ensures !AlwaysRight(cmp, size)
  {
    hide TotalOrder, Separates, AlwaysRight, Increasing, Plan.First, Plan.Second, Plan.Apart, Plan.Owner;
    NumbersCount(b);
    var lev := Levels(Numbers(b), cmp, b - size + 4);
    var z := PlanFor(size, a, b, lev);
    PlanOwners(size, a, b, lev);
    PlanWrong(z, cmp);
  }

  /** Builds number a, unless it is a leaf, and then cluster b. */
  function PlanFor(size: nat, a: nat, b: nat, lev: seq<int>): Plan
    requires size <= b && b + 4 < 2 * size && a < b && |lev| == b - size + 4
  {
    var alpha := if a < size then 0 else a - size + 1;
    Plan(size, alpha, b - size + 1 - alpha, 0, if a < size then a else 0, lev)
  }

  lemma PlanOwners(size: nat, a: nat, b: nat, lev: seq<int>)
    requires size <= b && b + 4 < 2 * size && a < b && |lev| == b - size + 4
    ensures var z := PlanFor(size, a, b, lev);
            z.Valid() && z.size == size && z.Rounds() == b - size + 1 && z.First() == a && z.Second() == b
  {
  }

  /** The least number that is confused with a lower one. */
  lemma FirstConfused(cmp: Cmp, n: nat) returns (a: nat, b: nat)
    requires TotalOrder(cmp) && !Separates(cmp, Numbers(n))
    ensures a < b < n && cmp(a, b) == 0 && Separates(cmp, Numbers(b))
  {
    if Separates(cmp, Numbers(n - 1)) {
      var x, y :| x in Numbers(n) && y in Numbers(n) && cmp(x, y) == 0 && x != y;
      Converse(cmp, x, y);
      b := n - 1;
      a := if x == b then y else x;
    } else {
      a, b := FirstConfused(cmp, n - 1);
    }
  }

  lemma SomeApart(cmp: Cmp) returns (lo: int, hi: int)
    requires TotalOrder(cmp) && !AllEqual(cmp)
    ensures cmp(lo, hi) < 0
  {
    var x, y :| cmp(x, y) != 0;
    Converse(cmp, x, y);
    lo, hi := if cmp(x, y) < 0 then x else y, if cmp(x, y) < 0 then y else x;
  }

  lemma NotSuitedWrong(cmp: Cmp, size: nat)
    requires TotalOrder(cmp) && !Suits(cmp, size)
    ensures !AlwaysRight(cmp, size)
  {
    hide TotalOrder, Separates, AllEqual, AlwaysRight, Run, Start;
    if AllEqual(cmp) {
      EqualWrong(size, cmp);
    } else if a, b :| 1 <= a < size && 1 <= b < size && a != b && cmp(a, b) == 0 {
      var lo, hi := SomeApart(cmp);
      var f := TieFails(NoIds(), size, a, b, lo, hi, cmp);
      Wrong(f, NoIds(), size, cmp, 1);
    } else {
      var a, b := FirstConfused(cmp, 2 * size - 4);
      if b < size {
        LeavesApart(cmp, size);
        ZeroWrong(size, b, cmp);
      } else {
        ClusterWrong(size, a, b, cmp);
      }
    }
  }

  lemma LeavesApart(cmp: Cmp, size: nat)
    requires forall a, b :: 1 <= a < size && 1 <= b < size && a != b ==> cmp(a, b) != 0
    ensures Separates(cmp, Numbers(size) - {0})
  {
  }

  /** Exactly the suitable comparisons come out right for all distances. */
  lemma SuitsExact(cmp: Cmp, size: nat)
    requires TotalOrder(cmp)
    ensures AlwaysRight(cmp, size) <==> Suits(cmp, size)
  {
    hide TotalOrder, Suits, Inv, Run, Start;
    if Suits(cmp, size) {
      forall f: Metric, ids: nat -> int, k: nat | k < size
        ensures Inv(Run(Start(f, ids, size, cmp), k, cmp), f, cmp, size)
      {
        RunInv(f, ids, size, cmp, k);
      }
    } else {
      NotSuitedWrong(cmp, size);
    }
  }

  // ---------- an input that fails ----------

  /** A comparison that takes 2 and 3 for equal. */
  function ByHalves(): Cmp {
    (x: int, y: int) => Compare(x / 2, y / 2)
  }

  lemma {:induction false} InsertEqual(m: seq<Cell>, c: Cell, cmp: Cmp)
    requires forall d :: d in m ==> cmp(c.key, d.key) == 0
    ensures Insert(m, c, cmp) == m + [c]
  {
    SlotEqual(m, c.key, cmp);
  }

  lemma {:induction false} SlotEqual(m: seq<Cell>, key: int, cmp: Cmp)
    requires forall d :: d in m ==> cmp(key, d.key) == 0
    ensures Slot(m, key, cmp) == |m|
  {
    if m != [] {
      assert m[0] in m && forall d :: d in m[1..] ==> d in m;
      SlotEqual(m[1..], key, cmp);
    }
  }

  lemma FourTable()
    ensures Start(Same(), NoIds(), 4, ByHalves()).table
         == [Flat(0, 1), Flat(0, 2), Flat(0, 3), Flat(1, 2), Flat(1, 3), Flat(2, 3)]
  {
    hide Insert;
    var f, ids, cmp := Same(), NoIds(), ByHalves();
    var m1, m2, m := [Flat(0, 1)], [Flat(0, 1), Flat(0, 2)], [Flat(0, 1), Flat(0, 2), Flat(0, 3)];
    InsertEqual([], Flat(0, 1), cmp);
    InsertEqual(m1, Flat(0, 2), cmp);
    InsertEqual(m2, Flat(0, 3), cmp);
    assert [] + [Flat(0, 1)] == m1 && m1 + [Flat(0, 2)] == m2 && m2 + [Flat(0, 3)] == m;
    assert Row(m2, f, ids, 4, 0, 3, cmp) == m;
    assert Row(m1, f, ids, 4, 0, 2, cmp) == m;
    assert Row([], f, ids, 4, 0, 1, cmp) == m;
    InsertEqual(m, Flat(1, 2), cmp);
    InsertEqual(m + [Flat(1, 2)], Flat(1, 3), cmp);
    assert Row(m, f, ids, 4, 1, 2, cmp) == m + [Flat(1, 2)] + [Flat(1, 3)];
    assert Rows(m, f, ids, 4, 1, cmp) == Rows(m + [Flat(1, 2)] + [Flat(1, 3)], f, ids, 4, 2, cmp);
    InsertEqual(m + [Flat(1, 2)] + [Flat(1, 3)], Flat(2, 3), cmp);
    assert Row(m + [Flat(1, 2)] + [Flat(1, 3)], f, ids, 4, 2, 3, cmp) == m + [Flat(1, 2)] + [Flat(1, 3)] + [Flat(2, 3)];
  }

  /** Four leaves at the same distance: after one round the couple of cluster 4 and leaf 2 is in the table twice, and
      that of cluster 4 and leaf 3 is missing. */
  lemma FourLeavesFail()
    ensures TotalOrder(ByHalves())
    ensures Run(Start(Same(), NoIds(), 4, ByHalves()), 1, ByHalves()).table == [Flat(4, 2), Flat(4, 2), Flat(2, 3)]
  {
    hide Absorb, Rows;
    var cmp := ByHalves();
    var s := Start(Same(), NoIds(), 4, cmp);
    FourTable();
    OneRound(s, cmp);
    AbsorbPair([], Flat(0, 2), [], Flat(0, 3), [Flat(1, 2), Flat(1, 3), Flat(2, 3)], 0, 1, 4, cmp);
    AbsorbPair([], Flat(1, 2), [], Flat(1, 3), [Flat(2, 3)], 0, 1, 4, cmp);
    AbsorbJoined([Flat(2, 3)], [], 0, 1, 4, {}, cmp);
    FourCells(cmp, s.table);
  }

  lemma FourCells(cmp: Cmp, t: seq<Cell>)
    requires t == [Flat(0, 1), Flat(0, 2), Flat(0, 3), Flat(1, 2), Flat(1, 3), Flat(2, 3)]
    requires var post := [Flat(1, 2), Flat(1, 3), Flat(2, 3)];
             && Absorb([] + ([Flat(0, 2)] + ([] + ([Flat(0, 3)] + post))), 0, 1, 4, {}, cmp)
                == [] + ([Flat(4, 2)] + ([] + Absorb(post, 0, 1, 4, {}, cmp)))
             && Absorb([] + ([Flat(1, 2)] + ([] + ([Flat(1, 3)] + [Flat(2, 3)]))), 0, 1, 4, {}, cmp)
                == [] + ([Flat(4, 2)] + ([] + Absorb([Flat(2, 3)], 0, 1, 4, {}, cmp)))
             && Absorb([Flat(2, 3)] + [], 0, 1, 4, {}, cmp) == [Flat(2, 3)] + Absorb([], 0, 1, 4, {}, cmp)
    ensures Absorb(t[1..], 0, 1, 4, {}, cmp) == [Flat(4, 2), Flat(4, 2), Flat(2, 3)]
  {
    var post := [Flat(1, 2), Flat(1, 3), Flat(2, 3)];
    assert [] + ([Flat(0, 2)] + ([] + ([Flat(0, 3)] + post))) == t[1..];
    assert [] + ([Flat(1, 2)] + ([] + ([Flat(1, 3)] + [Flat(2, 3)]))) == post;
    assert [Flat(2, 3)] + [] == [Flat(2, 3)];
  }
}
