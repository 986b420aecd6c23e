/** The tree that the merges of a clustering build, and the leaves whose identifiers its records carry. */
module LinkageTree {
  import opened RbOrder
  import opened Linkage
  import opened LinkageRun
  import opened SingleLinkage

  // ---------- the tree ----------

  /** The leaves below a number: itself, or those of the two numbers merged into it. */
  function Members(merges: seq<Cell>, size: nat, a: nat): set<nat>
    decreases a
  {
    if a < size then {a}
    else if a - size < |merges| && merges[a - size].i < a && merges[a - size].j < a then
      Members(merges, size, merges[a - size].i) + Members(merges, size, merges[a - size].j)
    else {}
  }

  /** How often a number was merged. */
  function Times(merges: seq<Cell>, a: nat): nat {
    if merges == [] then 0
    else
      var c := merges[|merges| - 1];
      Times(merges[..|merges| - 1], a) + (if c.i == a then 1 else 0) + (if c.j == a then 1 else 0)
  }

  /** The cell carries the identifiers of a leaf of a and a leaf of b that are just its key apart. */
  ghost predicate Carries(c: Cell, f: Metric, ids: nat -> int, a: set<nat>, b: set<nat>) {
    exists x, y :: x in a && y in b && Dist(f, x, y) == c.key && c.car == ids(x) && c.cdr == ids(y)
  }

  /** The k-th merge joined two different lower numbers, whose leaves it carries. */
  ghost predicate MergeCarries(merges: seq<Cell>, f: Metric, ids: nat -> int, size: nat, k: nat)
    requires k < |merges|
  {
    var c := merges[k];
    && c.i < size + k && c.j < size + k && c.i != c.j
    && Carries(c, f, ids, Members(merges, size, c.i), Members(merges, size, c.j))
  }

  /** Clusters are what the merges have put together; each number below the next is live or was merged just once;
      couples and merges carry the identifiers of leaves of theirs. */
  ghost predicate Tree(s: State, f: Metric, ids: nat -> int, size: nat) {
    && |s.merges| == s.n - size && s.n >= size
    && (forall a :: a in s.leaves ==> a < s.n && s.leaves[a] == Members(s.merges, size, a))
    && (forall a :: 0 <= a < s.n ==> Times(s.merges, a) == if a in s.leaves then 0 else 1)
    && (forall a :: a >= s.n ==> Times(s.merges, a) == 0)
    && (forall c :: c in s.table
                    ==> c.i in s.leaves && c.j in s.leaves && Carries(c, f, ids, s.leaves[c.i], s.leaves[c.j]))
    && (forall k :: 0 <= k < |s.merges| ==> MergeCarries(s.merges, f, ids, size, k))
  }

  lemma {:induction false} MembersLonger(merges: seq<Cell>, c: Cell, size: nat, a: nat)
    requires a < size + |merges|
    ensures Members(merges + [c], size, a) == Members(merges, size, a)
    decreases a
  {
    if a >= size && merges[a - size].i < a && merges[a - size].j < a {
      MembersLonger(merges, c, size, merges[a - size].i);
      MembersLonger(merges, c, size, merges[a - size].j);
    }
  }

  lemma MergeLonger(merges: seq<Cell>, c: Cell, f: Metric, ids: nat -> int, size: nat, k: nat)
    requires k < |merges| && MergeCarries(merges, f, ids, size, k)
    ensures MergeCarries(merges + [c], f, ids, size, k)
  {
    hide Members, Carries;
    MembersLonger(merges, c, size, merges[k].i);
    MembersLonger(merges, c, size, merges[k].j);
  }

  lemma TimesLonger(merges: seq<Cell>, c: Cell, a: nat)
    ensures Times(merges + [c], a) == Times(merges, a) + (if c.i == a then 1 else 0) + (if c.j == a then 1 else 0)
  {
    assert (merges + [c])[..|merges|] == merges;
  }

  lemma CarriesMore(c: Cell, d: Cell, f: Metric, ids: nat -> int, a: set<nat>, b: set<nat>, a': set<nat>, b': set<nat>)
    requires Carries(c, f, ids, a, b) && a <= a' && b <= b' && c.key == d.key && c.car == d.car && c.cdr == d.cdr
    ensures Carries(d, f, ids, a', b')
  {
  }

  // ---------- a round keeps it ----------

  lemma StepTable(s: State, f: Metric, cmp: Cmp, ids: nat -> int, size: nat, c: Cell)
    requires Inv(s, f, cmp, size) && Tree(s, f, ids, size) && s.table != []
    requires s.table[0].i in s.leaves && s.table[0].j in s.leaves && c in Step(s, cmp).table
    ensures var s' := Step(s, cmp);
            c.i in s'.leaves && c.j in s'.leaves && Carries(c, f, ids, s'.leaves[c.i], s'.leaves[c.j])
  {
    hide Partition, IsLeast, SortedCells, Absorb, Carries, Members, Times, MergeCarries, Count;
    var h, r, s' := s.table[0], s.table[1..], Step(s, cmp);
    InvParts(s, f, cmp, size);
    HeadOf(s.table, s.leaves.Keys);
    AbsorbOrigin(r, s.leaves.Keys, h.i, h.j, s.n, {}, cmp);
    assert Origin(r, h.i, h.j, s.n, c);
    var d: Cell;
    if c.i == s.n || c.j == s.n {
      d :| d in r && Touches(d, h.i, h.j) && Renamed(d, h.i, h.j, s.n) == c;
      assert d in s.table;
      BystanderLive(s, f, cmp, size, d);
    } else {
      d := c;
      assert d in s.table;
    }
    CarriesMore(d, c, f, ids, s.leaves[d.i], s.leaves[d.j], s'.leaves[c.i], s'.leaves[c.j]);
  }

  lemma StepClusters(s: State, f: Metric, cmp: Cmp, ids: nat -> int, size: nat)
    requires Inv(s, f, cmp, size) && Tree(s, f, ids, size) && s.table != []
    requires s.table[0].i in s.leaves && s.table[0].j in s.leaves && s.table[0].i != s.table[0].j
    ensures var s' := Step(s, cmp);
            forall a :: a in s'.leaves ==> a < s'.n && s'.leaves[a] == Members(s'.merges, size, a)
  {
    hide Partition, IsLeast, SortedCells, Complete, Absorb, Carries, Times, MergeCarries;
    var h, s' := s.table[0], Step(s, cmp);
    MembersLonger(s.merges, h, size, h.i);
    MembersLonger(s.merges, h, size, h.j);
    forall a | a in s'.leaves
      ensures a < s'.n && s'.leaves[a] == Members(s'.merges, size, a)
    {
      if a != s.n {
        MembersLonger(s.merges, h, size, a);
      }
    }
  }

  lemma StepTimes(s: State, f: Metric, cmp: Cmp, ids: nat -> int, size: nat)
    requires Inv(s, f, cmp, size) && Tree(s, f, ids, size) && s.table != []
    requires s.table[0].i in s.leaves && s.table[0].j in s.leaves && s.table[0].i != s.table[0].j
    ensures var s' := Step(s, cmp);
            && (forall a :: 0 <= a < s'.n ==> Times(s'.merges, a) == if a in s'.leaves then 0 else 1)
            && (forall a :: a >= s'.n ==> Times(s'.merges, a) == 0)
  {
    hide Partition, IsLeast, SortedCells, Complete, Absorb, Carries, Times, MergeCarries, Members;
    var h, s' := s.table[0], Step(s, cmp);
    forall a: nat
      ensures Times(s'.merges, a) == if a < s'.n && a !in s'.leaves then 1 else 0
    {
      TimesLonger(s.merges, h, a);
    }
  }

  lemma StepMerges(s: State, f: Metric, cmp: Cmp, ids: nat -> int, size: nat)
    requires Inv(s, f, cmp, size) && Tree(s, f, ids, size) && s.table != []
    requires s.table[0].i in s.leaves && s.table[0].j in s.leaves && s.table[0].i != s.table[0].j
    ensures var s' := Step(s, cmp); forall k :: 0 <= k < |s'.merges| ==> MergeCarries(s'.merges, f, ids, size, k)
  {
    hide Partition, IsLeast, SortedCells, Complete, Absorb, Carries, Times, Members;
    var h, s' := s.table[0], Step(s, cmp);
    assert h in s.table;
    MembersLonger(s.merges, h, size, h.i);
    MembersLonger(s.merges, h, size, h.j);
    forall k | 0 <= k < |s'.merges|
      ensures MergeCarries(s'.merges, f, ids, size, k)
    {
      if k < |s.merges| {
        MergeLonger(s.merges, h, f, ids, size, k);
      }
    }
  }

  lemma StepTree(s: State, f: Metric, cmp: Cmp, ids: nat -> int, size: nat)
    requires Inv(s, f, cmp, size) && Tree(s, f, ids, size) && s.table != []
    ensures s.table[0].i in s.leaves && s.table[0].j in s.leaves && Tree(Step(s, cmp), f, ids, size)
  {
    hide Inv, Absorb, Carries, Times, MergeCarries, Members;
    InvParts(s, f, cmp, size);
    HeadOf(s.table, s.leaves.Keys);
    StepClusters(s, f, cmp, ids, size);
    StepTimes(s, f, cmp, ids, size);
    StepMerges(s, f, cmp, ids, size);
    forall c | c in Step(s, cmp).table
      ensures var s' := Step(s, cmp);
              c.i in s'.leaves && c.j in s'.leaves && Carries(c, f, ids, s'.leaves[c.i], s'.leaves[c.j])
    {
      StepTable(s, f, cmp, ids, size, c);
    }
  }

  // ---------- the first table ----------

  lemma {:induction false} RowCarries(m: seq<Cell>, f: Metric, ids: nat -> int, size: nat, i: nat, j: nat, cmp: Cmp)
    requires i < j && forall c :: c in m ==> c.i < c.j && c.car == ids(c.i) && c.cdr == ids(c.j)
    ensures forall c :: c in Row(m, f, ids, size, i, j, cmp) ==> c.i < c.j && c.car == ids(c.i) && c.cdr == ids(c.j)
    decreases size - j
  {
    hide Insert;
    if j < size {
      InsertCounts(m, Couple(f, ids, i, j), cmp, 0, 0);
      RowCarries(Insert(m, Couple(f, ids, i, j), cmp), f, ids, size, i, j + 1, cmp);
    }
  }

  lemma {:induction false} RowsCarry(m: seq<Cell>, f: Metric, ids: nat -> int, size: nat, i: nat, cmp: Cmp)
    requires forall c :: c in m ==> c.i < c.j && c.car == ids(c.i) && c.cdr == ids(c.j)
    ensures forall c :: c in Rows(m, f, ids, size, i, cmp) ==> c.i < c.j && c.car == ids(c.i) && c.cdr == ids(c.j)
    decreases size - i
  {
    hide Row;
    if i + 1 < size {
      RowCarries(m, f, ids, size, i, i + 1, cmp);
      RowsCarry(Row(m, f, ids, size, i, i + 1, cmp), f, ids, size, i + 1, cmp);
    }
  }

  lemma StartTree(f: Metric, ids: nat -> int, size: nat, cmp: Cmp)
    requires TotalOrder(cmp) && size > 0
    ensures Tree(Start(f, ids, size, cmp), f, ids, size)
  {
    hide TotalOrder, Rows, SortedCells, Count;
    var m := Rows([], f, ids, size, 0, cmp);
    NothingFilled(f, size, cmp);
    RowsFilled([], f, ids, size, 0, cmp);
    RowsCarry([], f, ids, size, 0, cmp);
    forall c | c in m
      ensures c.i < size && c.j < size && Carries(c, f, ids, {c.i}, {c.j})
    {
      assert c.i in {c.i} && c.j in {c.j} && Dist(f, c.i, c.j) == c.key;
    }
  }

  /** Every state of a run is such a tree. */
  lemma {:induction false} RunTree(f: Metric, ids: nat -> int, size: nat, cmp: Cmp, k: nat)
    requires TotalOrder(cmp) && Suits(cmp, size) && k < size
    ensures Tree(Run(Start(f, ids, size, cmp), k, cmp), f, ids, size)
  {
    hide TotalOrder, Suits, Tree, Inv, Start, Step, Leftover;
    if k == 0 {
      StartTree(f, ids, size, cmp);
    } else {
      RunTree(f, ids, size, cmp, k - 1);
      RunInv(f, ids, size, cmp, k - 1);
      NextWell(f, ids, size, cmp, k - 1);
      StepTree(Run(Start(f, ids, size, cmp), k - 1, cmp), f, cmp, ids, size);
    }
  }

  // ---------- the records ----------

  /** Where the two records of the k-th merge are, the latest merge first. */
  lemma {:induction false} RecordsAt(merges: seq<Cell>, size: nat, k: nat)
    requires k < |merges|
    ensures var t := Records(merges, size); var p := 2 * (|merges| - 1 - k);
            && t[p] == Record(merges[k].j, merges[k].cdr, size + k)
            && t[p + 1] == Record(merges[k].i, merges[k].car, size + k)
    decreases |merges|
  {
    if k < |merges| - 1 {
      RecordsAt(merges[..|merges| - 1], size, k);
    }
  }

  /** Every record is one of the two of some merge. */
  lemma RecordOf(merges: seq<Cell>, size: nat, p: nat) returns (k: nat)
    requires p < 2 * |merges|
    ensures k < |merges| && p / 2 == |merges| - 1 - k
    ensures Records(merges, size)[p] == if p % 2 == 0 then Record(merges[k].j, merges[k].cdr, size + k)
                                        else Record(merges[k].i, merges[k].car, size + k)
  {
    k := |merges| - 1 - p / 2;
    RecordsAt(merges, size, k);
  }

  /** A record carries the identifier of a leaf of the number that it says was merged, so a leaf's record its own; the
      number it went to has its leaves. */
  lemma RecordIds(f: Metric, ids: nat -> int, size: nat, cmp: Cmp, rounds: nat, p: nat)
    requires TotalOrder(cmp) && Suits(cmp, size) && rounds < size && p < 2 * rounds
    ensures var g := Run(Start(f, ids, size, cmp), rounds, cmp);
            && |g.merges| == rounds
            && var r := Records(g.merges, size)[p];
               && r.i < r.j < size + rounds
               && (r.i < size ==> r.car == ids(r.i))
               && (exists x :: x in Members(g.merges, size, r.i) && r.car == ids(x))
               && Members(g.merges, size, r.i) <= Members(g.merges, size, r.j)
  {
    hide TotalOrder, Suits, Start, Run, Records, Times, Inv;
    var g := Run(Start(f, ids, size, cmp), rounds, cmp);
    RunTree(f, ids, size, cmp, rounds);
    RunInv(f, ids, size, cmp, rounds);
    Counted(g, f, cmp, size);
    var k := RecordOf(g.merges, size, p);
    assert MergeCarries(g.merges, f, ids, size, k);
    var c := g.merges[k];
    var x, y :| x in Members(g.merges, size, c.i) && y in Members(g.merges, size, c.j)
                && Dist(f, x, y) == c.key && c.car == ids(x) && c.cdr == ids(y);
  }

  // ---------- where the run stops ----------

  /** One of the three stops applies after r merges. */
  predicate Stops(size: nat, initial: nat, final: nat, r: nat) {
    (initial > 0 && r == initial) || (final > 0 && size - r == final) || r + 1 == size
  }

  /** A run makes at least one merge and stops at the first that one of the stops applies to. */
  lemma RoundsFirst(size: nat, initial: nat, final: nat)
    requires size >= 2
    ensures var k := Rounds(size, initial, final);
            && 1 <= k < size && Stops(size, initial, final, k)
            && forall r :: 1 <= r < k ==> !Stops(size, initial, final, r)
  {
  }

  /** After so many merges there are so many clusters and records. */
  lemma StopsThere(f: Metric, ids: nat -> int, size: nat, cmp: Cmp, initial: nat, final: nat)
    requires TotalOrder(cmp) && Suits(cmp, size) && size >= 2
    ensures var k := Rounds(size, initial, final); var g := Run(Start(f, ids, size, cmp), k, cmp);
            && |g.merges| == k && |g.leaves| == size - k && |Records(g.merges, size)| == 2 * k
            && (0 < initial < size && final == 0 ==> k == initial)
            && (0 < initial < size && 0 < final < size
                ==> k == if initial <= size - final then initial else size - final)
  {
    hide TotalOrder, Suits, Inv, Start, Run;
    var k := Rounds(size, initial, final);
    RunInv(f, ids, size, cmp, k);
    Counted(Run(Start(f, ids, size, cmp), k, cmp), f, cmp, size);
  }
}
