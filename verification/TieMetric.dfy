/** A metric of two distances under which the first round meets two given leaves as bystanders. */
module TieMetric {
  import opened RbOrder
  import opened Linkage
  import opened Steering

  /** The couples (0, j), (j, a) and (j, b) are near, all others far. */
  function Tied(j: nat, a: nat, b: nat, lo: int, hi: int): Metric {
    (u: nat, v: nat) => if (u == 0 && v == j) || {u, v} == {j, a} || {u, v} == {j, b} then lo else hi
  }

  /** A least couple at the head of the table stays there. */
  lemma InsertBehind(m: seq<Cell>, c: Cell, cmp: Cmp)
    requires m != [] && cmp(c.key, m[0].key) >= 0
    ensures Insert(m, c, cmp) != [] && Insert(m, c, cmp)[0] == m[0]
  {
  }

  lemma InsertAhead(m: seq<Cell>, c: Cell, cmp: Cmp)
    requires m == [] || cmp(c.key, m[0].key) < 0
    ensures Insert(m, c, cmp) != [] && Insert(m, c, cmp)[0] == c
  {
  }

  lemma {:induction false} RowBehind(m: seq<Cell>, f: Metric, ids: nat -> int, size: nat, i: nat, j: nat, cmp: Cmp)
    requires m != [] && forall u, v :: cmp(f(u, v), m[0].key) >= 0
    ensures Row(m, f, ids, size, i, j, cmp) != [] && Row(m, f, ids, size, i, j, cmp)[0] == m[0]
    decreases size - j
  {
    if j < size {
      InsertBehind(m, Couple(f, ids, i, j), cmp);
      RowBehind(Insert(m, Couple(f, ids, i, j), cmp), f, ids, size, i, j + 1, cmp);
    }
  }

  lemma {:induction false} RowsBehind(m: seq<Cell>, f: Metric, ids: nat -> int, size: nat, i: nat, cmp: Cmp)
    requires m != [] && forall u, v :: cmp(f(u, v), m[0].key) >= 0
    ensures Rows(m, f, ids, size, i, cmp) != [] && Rows(m, f, ids, size, i, cmp)[0] == m[0]
    decreases size - i
  {
    if i + 1 < size {
      RowBehind(m, f, ids, size, i, i + 1, cmp);
      RowsBehind(Row(m, f, ids, size, i, i + 1, cmp), f, ids, size, i + 1, cmp);
    }
  }

  /** The first near couple of row 0 comes to the head. */
  lemma {:induction false} RowAhead(m: seq<Cell>, f: Metric, ids: nat -> int, size: nat, t: nat, j: nat, cmp: Cmp)
    requires t <= j < size && (m == [] || cmp(f(0, j), m[0].key) < 0)
    requires forall v :: t <= v < j ==> cmp(f(0, j), f(0, v)) < 0
    requires forall u, v :: cmp(f(u, v), f(0, j)) >= 0
    ensures Row(m, f, ids, size, 0, t, cmp) != [] && Row(m, f, ids, size, 0, t, cmp)[0] == Couple(f, ids, 0, j)
    decreases size - t
  {
    var c := Couple(f, ids, 0, t);
    if t == j {
      InsertAhead(m, c, cmp);
      RowBehind(Insert(m, c, cmp), f, ids, size, 0, t + 1, cmp);
    } else {
      if m == [] || cmp(c.key, m[0].key) < 0 {
        InsertAhead(m, c, cmp);
      } else {
        InsertBehind(m, c, cmp);
      }
      RowAhead(Insert(m, c, cmp), f, ids, size, t + 1, j, cmp);
    }
  }

  lemma TiedFirst(ids: nat -> int, size: nat, j: nat, a: nat, b: nat, lo: int, hi: int, cmp: Cmp)
    requires TotalOrder(cmp) && cmp(lo, hi) < 0 && 1 <= j < size && 1 <= a && 1 <= b && a != j && b != j
    ensures var t := Start(Tied(j, a, b, lo, hi), ids, size, cmp).table;
            t != [] && t[0] == Couple(Tied(j, a, b, lo, hi), ids, 0, j)
  {
    var f := Tied(j, a, b, lo, hi);
    Converse(cmp, lo, lo);
    Converse(cmp, lo, hi);
    RowAhead([], f, ids, size, 1, j, cmp);
    RowsBehind(Row([], f, ids, size, 0, 1, cmp), f, ids, size, 1, cmp);
  }

  lemma TiedDist(j: nat, a: nat, b: nat, lo: int, hi: int, u: nat, v: nat)
    requires 1 <= j && 1 <= a && 1 <= b && u != v
    ensures Dist(Tied(j, a, b, lo, hi), u, v)
            == if {u, v} == {0, j} || {u, v} == {j, a} || {u, v} == {j, b} then lo else hi
  {
    assert {u, v} == {v, u};
  }

  lemma TiedTrap(ids: nat -> int, size: nat, j: nat, a: nat, b: nat, lo: int, hi: int, cmp: Cmp)
    requires TotalOrder(cmp) && cmp(lo, hi) < 0 && 1 <= j < size && 1 <= a < size && 1 <= b < size
    requires a != j && b != j && a != b && cmp(a, b) == 0
    ensures var f := Tied(j, a, b, lo, hi); Trap(Start(f, ids, size, cmp), f, cmp, j, a, b, hi)
  {
    hide TotalOrder, Rows, Tied;
    var f := Tied(j, a, b, lo, hi);
    var s := Start(f, ids, size, cmp);
    TiedFirst(ids, size, j, a, b, lo, hi, cmp);
    TiedDist(j, a, b, lo, hi, j, a);
    TiedDist(j, a, b, lo, hi, j, b);
    assert j in s.leaves[j] && a in s.leaves[a] && b in s.leaves[b];
    Converse(cmp, hi, hi);
    forall w, k | w in {s.table[0].i, s.table[0].j} && k in Others(s) && !(w == j && (k == a || k == b))
      ensures Far(s, f, cmp, w, k, hi)
    {
      TiedDist(j, a, b, lo, hi, w, k);
      assert k != 0 && k != j && (w == 0 || w == j);
      assert k in {w, k} && w in {w, k};
    }
  }

  /** A comparison that tells some distances apart but not two leaves other than 0 fails in the first round. */
  lemma TieFails(ids: nat -> int, size: nat, a: nat, b: nat, lo: int, hi: int, cmp: Cmp) returns (f: Metric)
    requires TotalOrder(cmp) && cmp(lo, hi) < 0 && size >= 4
    requires 1 <= a < size && 1 <= b < size && a != b && cmp(a, b) == 0
    ensures !Inv(Run(Start(f, ids, size, cmp), 1, cmp), f, cmp, size)
  {
    hide TotalOrder, Inv, Start, Trap, Tied;
    var j := if 1 !in {a, b} then 1 else if 2 !in {a, b} then 2 else 3;
    f := Tied(j, a, b, lo, hi);
    var s := Start(f, ids, size, cmp);
    StartSound(f, ids, size, cmp);
    TiedTrap(ids, size, j, a, b, lo, hi, cmp);
    Trapped(s, f, cmp, size, j, a, b, hi);
    FirstRound(s, f, cmp, j, a, b, hi);
  }

  lemma FirstRound(s: State, f: Metric, cmp: Cmp, x: nat, a: nat, b: nat, z: int)
    requires Trap(s, f, cmp, x, a, b, z)
    ensures Run(s, 1, cmp) == Step(s, cmp)
  {
    assert Run(s, 0, cmp) == s;
  }
}
