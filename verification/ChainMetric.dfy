/** Metrics under which the clustering builds two given clusters first, and then meets them as bystanders. */
module ChainMetric {
  import opened RbOrder
  import opened Linkage
  import opened Steering

  /** The leaves in a row of places, two of them exchanged. Places 0 .. alpha merge first, one after the other; then
      places alpha + 1 .. alpha + beta + 1; then the two next places, while both clusters are near the first of
      these. */
  datatype Plan = Plan(size: nat, alpha: nat, beta: nat, c: nat, d: nat, lev: seq<int>) {
    predicate Valid() {
      alpha + beta + 4 <= size && c < size && d < size && |lev| == Rounds() + 3
    }

    /** The rounds before the two clusters are bystanders. */
    function Rounds(): nat {
      alpha + beta
    }

    /** The leaf at a place, and the place of a leaf. */
    function Leaf(p: nat): (x: nat)
      ensures p < size && c < size && d < size ==> x < size
    {
      if p == c then d else if p == d then c else p
    }

    /** Which of the increasing levels the leaves at two places u < v are apart. */
    function Apart(u: nat, v: nat): (l: nat)
      requires Valid() && u < v
      ensures l < |lev|
    {
      if v <= alpha then v - 1
      else if u > alpha && v <= Rounds() + 1 then v - 2
      else if u == Rounds() + 2 && v == Rounds() + 3 then Rounds()
      else if u <= Rounds() + 1 && v == Rounds() + 2 then Rounds() + 1
      else Rounds() + 2
    }

    function Between(u: nat, v: nat): int
      requires Valid()
    {
      if u < v then lev[Apart(u, v)] else if v < u then lev[Apart(v, u)] else 0
    }

    function Distances(): Metric
      requires Valid()
    {
      (x: nat, y: nat) => Between(Leaf(x), Leaf(y))
    }

    /** The cluster of the place p after t rounds. */
    function Owner(t: nat, p: nat): nat {
      var built := if t <= alpha then t else alpha;
      if p <= built then (if built == 0 then Leaf(0) else size + built - 1)
      else if alpha < t && alpha < p <= t + 1 then size + t - 1
      else Leaf(p)
    }

    function First(): nat {
      Owner(Rounds(), 0)
    }

    function Second(): nat {
      Owner(Rounds(), alpha + 1)
    }
  }

  lemma LeafBack(z: Plan, p: nat)
    ensures z.Leaf(z.Leaf(p)) == p
  {
  }

  lemma DistAt(z: Plan, p: nat, q: nat)
    requires z.Valid()
    ensures Dist(z.Distances(), z.Leaf(p), z.Leaf(q)) == z.Between(p, q)
  {
    LeafBack(z, p);
    LeafBack(z, q);
  }

  /** After t rounds each leaf is in the cluster that the plan says. */
  ghost predicate Stage(z: Plan, s: State, t: nat) {
    && s.n == z.size + t
    && forall p :: 0 <= p < z.size ==> z.Owner(t, p) in s.leaves && z.Leaf(p) in s.leaves[z.Owner(t, p)]
  }

  /** So the clusters are just those of the plan. */
  lemma PlaceIn(z: Plan, s: State, f: Metric, cmp: Cmp, t: nat, a: nat, x: nat)
    requires z.Valid() && Inv(s, f, cmp, z.size) && Stage(z, s, t) && a in s.leaves && x in s.leaves[a]
    ensures z.Leaf(x) < z.size && z.Leaf(z.Leaf(x)) == x && z.Owner(t, z.Leaf(x)) == a
  {
    LeafBack(z, x);
    assert Owned(s.leaves, x);
    assert x < z.size;
    var p := z.Leaf(x);
    assert z.Owner(t, p) in s.leaves && x in s.leaves[z.Owner(t, p)];
  }

  /** The two places at which round t merges. */
  function Left(z: Plan, t: nat): nat {
    if t < z.alpha then t else if t < z.Rounds() then t + 1 else z.Rounds() + 2
  }

  function Right(z: Plan, t: nat): nat {
    if t < z.alpha then t + 1 else if t < z.Rounds() then t + 2 else z.Rounds() + 3
  }

  lemma Planned(z: Plan, t: nat, p: nat, q: nat)
    requires z.Valid() && t <= z.Rounds() && p < q < z.size && z.Owner(t, p) != z.Owner(t, q)
    requires {z.Owner(t, p), z.Owner(t, q)} != {z.Owner(t, Left(z, t)), z.Owner(t, Right(z, t))}
    ensures z.Apart(p, q) > t
  {
  }

  lemma PlannedPair(z: Plan, t: nat)
    requires z.Valid() && t <= z.Rounds()
    ensures Left(z, t) < Right(z, t) < z.size && z.Apart(Left(z, t), Right(z, t)) == t
    ensures z.Owner(t, Left(z, t)) != z.Owner(t, Right(z, t))
  {
  }

  lemma NextOwner(z: Plan, t: nat, p: nat)
    requires z.Valid() && t < z.Rounds() && p < z.size
    ensures var o := z.Owner(t, p);
            z.Owner(t + 1, p) == if o == z.Owner(t, Left(z, t)) || o == z.Owner(t, Right(z, t)) then z.size + t else o
  {
  }

  lemma BetweenAbove(z: Plan, cmp: Cmp, t: nat, p: nat, q: nat)
    requires z.Valid() && Increasing(z.lev, cmp) && t <= z.Rounds() && p < z.size && q < z.size
    requires z.Owner(t, p) != z.Owner(t, q)
    requires {z.Owner(t, p), z.Owner(t, q)} != {z.Owner(t, Left(z, t)), z.Owner(t, Right(z, t))}
    ensures cmp(z.lev[t], z.Between(p, q)) < 0
  {
    var (u, v) := if p < q then (p, q) else (q, p);
    assert {z.Owner(t, p), z.Owner(t, q)} == {z.Owner(t, u), z.Owner(t, v)};
    Planned(z, t, u, v);
  }

  /** At stage t the couple to be merged is the planned one. */
  lemma StageFirst(z: Plan, s: State, cmp: Cmp, t: nat)
    requires TotalOrder(cmp) && z.Valid() && Increasing(z.lev, cmp) && t <= z.Rounds()
    requires Inv(s, z.Distances(), cmp, z.size) && Stage(z, s, t)
    ensures s.table != []
    ensures {s.table[0].i, s.table[0].j} == {z.Owner(t, Left(z, t)), z.Owner(t, Right(z, t))}
  {
    hide TotalOrder, Inv, Increasing, Plan.Owner, Plan.Apart;
    var f := z.Distances();
    var l, r := Left(z, t), Right(z, t);
    PlannedPair(z, t);
    DistAt(z, l, r);
    var p, q, u, v := z.Owner(t, l), z.Owner(t, r), z.Leaf(l), z.Leaf(r);
    forall a, b, x, y | a in s.leaves && b in s.leaves && a != b && {a, b} != {p, q} && x in s.leaves[a]
        && y in s.leaves[b]
      ensures cmp(Dist(f, u, v), Dist(f, x, y)) < 0
    {
      PlaceIn(z, s, f, cmp, t, a, x);
      PlaceIn(z, s, f, cmp, t, b, y);
      BetweenAbove(z, cmp, t, z.Leaf(x), z.Leaf(y));
      DistAt(z, z.Leaf(x), z.Leaf(y));
    }
    assert Nearest(s, f, cmp, p, q, u, v);
    NearestFirst(s, f, cmp, z.size, p, q, u, v);
  }

  lemma StageMerged(z: Plan, s: State, cmp: Cmp, t: nat)
    requires z.Valid() && t < z.Rounds() && Stage(z, s, t) && s.n !in s.leaves
    requires s.table != [] && s.table[0].i in s.leaves && s.table[0].j in s.leaves
    requires {s.table[0].i, s.table[0].j} == {z.Owner(t, Left(z, t)), z.Owner(t, Right(z, t))}
    ensures Stage(z, Step(s, cmp), t + 1)
  {
    hide Absorb, Plan.Owner, Plan.Leaf, Plan.Valid, Left, Right;
    var h, s', u := s.table[0], Step(s, cmp), t + 1;
    forall p | 0 <= p < z.size
      ensures z.Owner(u, p) in s'.leaves && z.Leaf(p) in s'.leaves[z.Owner(u, p)]
    {
      NextOwner(z, t, p);
      var o := z.Owner(t, p);
      assert o in s.leaves && z.Leaf(p) in s.leaves[o];
      assert o == h.i || o == h.j <==> o in {h.i, h.j};
    }
    assert Stage(z, s', u);
  }

  /** One planned round. */
  lemma StageNext(z: Plan, s: State, cmp: Cmp, t: nat)
    requires TotalOrder(cmp) && z.Valid() && Increasing(z.lev, cmp) && t < z.Rounds()
    requires Separates(cmp, Numbers(z.size + z.Rounds() - 1))
    requires Inv(s, z.Distances(), cmp, z.size) && Stage(z, s, t)
    ensures Inv(Advance(s, cmp), z.Distances(), cmp, z.size) && Stage(z, Advance(s, cmp), t + 1)
  {
    hide TotalOrder, Increasing, Separates, Inv, Stage, Step, Plan.Valid, Plan.Rounds, Plan.Distances;
    hide Left, Right, Numbers, Others;
    StageFirst(z, s, cmp, t);
    InvParts(s, z.Distances(), cmp, z.size);
    HeadOf(s.table, s.leaves.Keys);
    Counted(s, z.Distances(), cmp, z.size);
    StageMerged(z, s, cmp, t);
    StageNumbers(z, s, z.Distances(), cmp, t);
    SeparatesLess(cmp, Others(s), Numbers(z.size + z.Rounds() - 1));
    StepInv(s, z.Distances(), cmp, z.size);
  }

  lemma StageStart(z: Plan, ids: nat -> int, cmp: Cmp)
    requires z.Valid()
    ensures Stage(z, Start(z.Distances(), ids, z.size, cmp), 0)
  {
    hide Rows;
    var s := Start(z.Distances(), ids, z.size, cmp);
    forall p | 0 <= p < z.size
      ensures z.Owner(0, p) in s.leaves && z.Leaf(p) in s.leaves[z.Owner(0, p)]
    {
      assert z.Owner(0, p) == z.Leaf(p);
    }
  }

  /** The plan is followed as long as the comparison tells the clusters so far apart. */
  lemma {:induction false} StageAt(z: Plan, ids: nat -> int, cmp: Cmp, t: nat)
    requires TotalOrder(cmp) && z.Valid() && Increasing(z.lev, cmp) && t <= z.Rounds()
    requires t > 0 ==> Separates(cmp, Numbers(z.size + z.Rounds() - 1))
    ensures var s := Run(Start(z.Distances(), ids, z.size, cmp), t, cmp);
            Inv(s, z.Distances(), cmp, z.size) && Stage(z, s, t)
  {
    hide TotalOrder, Increasing, Separates, Inv, Stage, Start, Advance, Plan.Distances, Numbers;
    if t == 0 {
      StartSound(z.Distances(), ids, z.size, cmp);
      StageStart(z, ids, cmp);
    } else {
      StageAt(z, ids, cmp, t - 1);
      StageNext(z, Run(Start(z.Distances(), ids, z.size, cmp), t - 1, cmp), cmp, t - 1);
    }
  }

  lemma StageNumbers(z: Plan, s: State, f: Metric, cmp: Cmp, t: nat)
    requires z.Valid() && t < z.Rounds() && Inv(s, f, cmp, z.size) && Stage(z, s, t) && s.table != []
    ensures Others(s) <= Numbers(z.size + z.Rounds() - 1)
  {
  }

  /** The pair at places (w, k) is far unless it is one of the two chosen ones. */
  lemma BetweenFar(z: Plan, cmp: Cmp, w: nat, k: nat)
    requires TotalOrder(cmp) && z.Valid() && Increasing(z.lev, cmp) && k < z.size
    requires w == z.Rounds() + 2 || w == z.Rounds() + 3
    requires k != z.Rounds() + 2 && k != z.Rounds() + 3
    ensures w == z.Rounds() + 2 && k < z.Rounds() + 2 ==> cmp(z.Between(w, k), z.lev[z.Rounds() + 2]) < 0
    ensures !(w == z.Rounds() + 2 && k < z.Rounds() + 2) ==> cmp(z.Between(w, k), z.lev[z.Rounds() + 2]) >= 0
  {
    hide TotalOrder;
    Converse(cmp, z.lev[z.Rounds() + 2], z.lev[z.Rounds() + 2]);
  }

  lemma LastOwners(z: Plan, p: nat)
    requires z.Valid() && p < z.size
    ensures var t := z.Rounds(); var o := z.Owner(t, p);
            && (p <= z.alpha <==> o == z.First()) && (z.alpha < p <= t + 1 <==> o == z.Second())
            && (p == t + 2 <==> o == z.Owner(t, t + 2)) && (p == t + 3 <==> o == z.Owner(t, t + 3))
  {
  }

  lemma StageNear(z: Plan, s: State, cmp: Cmp, k: nat)
    requires TotalOrder(cmp) && z.Valid() && Increasing(z.lev, cmp) && Stage(z, s, z.Rounds())
    requires k == 0 || k == z.alpha + 1
    ensures var t := z.Rounds();
            && z.Owner(t, t + 2) in s.leaves && z.Owner(t, k) in s.leaves
            && Near(s, z.Distances(), cmp, z.Owner(t, t + 2), z.Owner(t, k), z.lev[t + 2])
  {
    hide TotalOrder, Increasing, Plan.Owner, Plan.Apart, Plan.Leaf;
    var t := z.Rounds();
    BetweenFar(z, cmp, t + 2, k);
    DistAt(z, t + 2, k);
    assert z.Leaf(t + 2) in s.leaves[z.Owner(t, t + 2)] && z.Leaf(k) in s.leaves[z.Owner(t, k)];
  }

  predicate Chosen(z: Plan, w: nat, k: nat) {
    w == z.Owner(z.Rounds(), z.Rounds() + 2) && (k == z.First() || k == z.Second())
  }

  lemma StageFar(z: Plan, s: State, cmp: Cmp, w: nat, k: nat)
    requires TotalOrder(cmp) && z.Valid() && Increasing(z.lev, cmp)
    requires Inv(s, z.Distances(), cmp, z.size) && Stage(z, s, z.Rounds())
    requires var t := z.Rounds();
             && w in s.leaves && k in s.leaves && (w == z.Owner(t, t + 2) || w == z.Owner(t, t + 3))
             && k != z.Owner(t, t + 2) && k != z.Owner(t, t + 3)
             && !Chosen(z, w, k)
    ensures Far(s, z.Distances(), cmp, w, k, z.lev[z.Rounds() + 2])
  {
    hide TotalOrder, Increasing, Inv, Stage, Plan.Owner, Plan.Apart, Plan.First, Plan.Second;
    var t, f := z.Rounds(), z.Distances();
    forall u, v | u in s.leaves[w] && v in s.leaves[k]
      ensures cmp(Dist(f, u, v), z.lev[t + 2]) >= 0
    {
      PlaceIn(z, s, f, cmp, t, w, u);
      PlaceIn(z, s, f, cmp, t, k, v);
      var p, q := z.Leaf(u), z.Leaf(v);
      LastOwners(z, p);
      LastOwners(z, q);
      DistAt(z, p, q);
      BetweenFar(z, cmp, p, q);
    }
  }

  lemma StageTraps(z: Plan, s: State, cmp: Cmp)
    requires TotalOrder(cmp) && z.Valid() && Increasing(z.lev, cmp) && cmp(z.First(), z.Second()) == 0
    requires Inv(s, z.Distances(), cmp, z.size) && Stage(z, s, z.Rounds())
    ensures Trap(s, z.Distances(), cmp, z.Owner(z.Rounds(), z.Rounds() + 2), z.First(), z.Second(),
                 z.lev[z.Rounds() + 2])
  {
    hide TotalOrder, Increasing, Inv, Plan.Owner, Plan.Apart, Plan.Leaf, Near, Far;
    var t := z.Rounds();
    StageFirst(z, s, cmp, t);
    StageNear(z, s, cmp, 0);
    StageNear(z, s, cmp, z.alpha + 1);
    LastOwners(z, 0);
    LastOwners(z, z.alpha + 1);
    LastOwners(z, t + 2);
    LastOwners(z, t + 3);
    var h := s.table[0];
    assert h.i in {h.i, h.j} && h.j in {h.i, h.j};
    var f, l := z.Distances(), z.lev[t + 2];
    forall w, k | w in {h.i, h.j} && k in Others(s) && !Chosen(z, w, k)
      ensures Far(s, f, cmp, w, k, l)
    {
      assert k !in {h.i, h.j};
      StageFar(z, s, cmp, w, k);
    }
  }

  /** Once the plan has built two clusters that the comparison confuses, the next round goes wrong. */
  lemma PlanFails(z: Plan, ids: nat -> int, cmp: Cmp)
    requires TotalOrder(cmp) && z.Valid() && Increasing(z.lev, cmp) && cmp(z.First(), z.Second()) == 0
    requires z.Rounds() > 0 ==> Separates(cmp, Numbers(z.size + z.Rounds() - 1))
    ensures !Inv(Run(Start(z.Distances(), ids, z.size, cmp), z.Rounds() + 1, cmp), z.Distances(), cmp, z.size)
  {
    hide TotalOrder, Increasing, Separates, Inv, Stage, Start, Plan.Owner, Plan.First, Plan.Second;
    var t, f := z.Rounds(), z.Distances();
    var s := Run(Start(f, ids, z.size, cmp), t, cmp);
    StageAt(z, ids, cmp, t);
    StageTraps(z, s, cmp);
    Trapped(s, f, cmp, z.size, z.Owner(t, t + 2), z.First(), z.Second(), z.lev[t + 2]);
  }
}
