/** Which entry hangs below which: every link of the forest goes from the side of a lower entry to that of a higher one
    near it, and the entries near the first one form a chain in their order. */
module GroupingLinks {
  import opened Grouping

  // ---------- links are kept ----------

  /** What lies within an entry that is linked, or beside it, stays so when roots are linked. */
  lemma {:induction false} WithinKept(p: seq<nat>, s: Shape, a: nat, b: nat, x: nat, i: nat)
    requires Forest(p, s) && 1 <= a < |p| && 1 <= b < |p| && a != b && p[a] == 0 && p[b] == 0
    requires 1 <= x < |p| && 1 <= i < |p| && Forest(p[a := b], Link(p, s, a, b))
    ensures Within(p, s, x, i) ==> Within(p[a := b], Link(p, s, a, b), x, i)
    ensures p[i] > 0 && Within(p[a := b], Link(p, s, a, b), x, i) ==> Within(p, s, x, i)
    decreases s.bound - s.rank[x]
  {
    hide Link;
    if p[x] > 0 {
      WithinKept(p, s, a, b, p[x], i);
    } else {
      assert !Under(p[a := b], Link(p, s, a, b), b, i);
    }
  }

  /** The link of r comes from a near pair: the lower entry is within r, the higher one is within its parent, and it is
      not within r itself. */
  ghost predicate Upward(metric: Metric, p: seq<nat>, s: Shape, r: nat)
    requires Forest(p, s) && 1 <= r < |p| && p[r] > 0
  {
    exists x, y :: UpwardBy(metric, p, s, r, x, y)
  }

  ghost predicate UpwardBy(metric: Metric, p: seq<nat>, s: Shape, r: nat, x: nat, y: nat)
    requires Forest(p, s) && 1 <= r < |p| && p[r] > 0
  {
    && 1 <= x < y < |p| && Near(metric, x, y)
    && Within(p, s, x, r) && Within(p, s, y, p[r]) && !Within(p, s, y, r)
  }

  ghost predicate AllUpward(metric: Metric, p: seq<nat>, s: Shape)
    requires Forest(p, s)
  {
    forall r :: 1 <= r < |p| && p[r] > 0 ==> Upward(metric, p, s, r)
  }

  lemma WithinRoot(p: seq<nat>, s: Shape, x: nat)
    requires Forest(p, s) && 1 <= x < |p|
    ensures 1 <= s.root[x] < |p| && p[s.root[x]] == 0 && Within(p, s, x, s.root[x])
  {
    UnderRoot(p, s, x, s.root[x]);
  }

  /** A new link is upward. */
  lemma NewUpward(metric: Metric, p: seq<nat>, s: Shape, x: nat, y: nat)
    requires Forest(p, s) && 1 <= x < y < |p| && Near(metric, x, y) && s.root[x] != s.root[y]
    ensures var (a, b) := (s.root[x], s.root[y]); var (q, t) := (p[a := b], Link(p, s, a, b));
            Forest(q, t) && q[a] > 0 && Upward(metric, q, t, a)
  {
    var a, b := s.root[x], s.root[y];
    var q, t := p[a := b], Link(p, s, a, b);
    LinkForest(p, s, a, b);
    hide Forest, Link, Near;
    WithinRoot(p, s, x);
    WithinRoot(p, s, y);
    WithinKept(p, s, a, b, x, a);
    WithinKept(p, s, a, b, y, b);
    NotBeside(p, s, a, b, y);
    assert UpwardBy(metric, q, t, a, x, y);
  }

  /** What is below the root b is not within a, though a now hangs below b. */
  lemma {:induction false} NotBeside(p: seq<nat>, s: Shape, a: nat, b: nat, y: nat)
    requires Forest(p, s) && 1 <= a < |p| && 1 <= b < |p| && a != b && p[a] == 0 && p[b] == 0
    requires 1 <= y < |p| && s.root[y] == b && Forest(p[a := b], Link(p, s, a, b))
    ensures !Within(p[a := b], Link(p, s, a, b), y, a)
    decreases s.bound - s.rank[y]
  {
    hide Link;
    if p[y] > 0 {
      NotBeside(p, s, a, b, p[y]);
    }
  }

  lemma UpwardKept(metric: Metric, p: seq<nat>, s: Shape, a: nat, b: nat, r: nat)
    requires Forest(p, s) && 1 <= a < |p| && 1 <= b < |p| && a != b && p[a] == 0 && p[b] == 0
    requires Forest(p[a := b], Link(p, s, a, b)) && 1 <= r < |p| && p[r] > 0 && Upward(metric, p, s, r)
    ensures p[a := b][r] == p[r] && Upward(metric, p[a := b], Link(p, s, a, b), r)
  {
    var x, y :| UpwardBy(metric, p, s, r, x, y);
    ParentThere(p, s, r);
    hide Forest, Link, Near, Within;
    WithinKept(p, s, a, b, x, r);
    WithinKept(p, s, a, b, y, p[r]);
    WithinKept(p, s, a, b, y, r);
    assert UpwardBy(metric, p[a := b], Link(p, s, a, b), r, x, y);
  }

  lemma ParentThere(p: seq<nat>, s: Shape, r: nat)
    requires Forest(p, s) && 1 <= r < |p|
    ensures p[r] < |p|
  {
  }

  lemma PairUpward(metric: Metric, l: Links, x: nat, y: nat)
    requires Forest(l.p, l.s) && 1 <= x < y < |l.p| && AllUpward(metric, l.p, l.s)
    ensures var m := LinkPair(metric, l, x, y); AllUpward(metric, m.p, m.s)
  {
    RootsInForest(l.p, l.s);
    var a, b := l.s.root[x], l.s.root[y];
    if a != b && Near(metric, x, y) {
      LinkForest(l.p, l.s, a, b);
      hide Forest, Link, Near, Upward;
      NewUpward(metric, l.p, l.s, x, y);
      var m := LinkPair(metric, l, x, y);
      forall r | 1 <= r < |m.p| && m.p[r] > 0
        ensures Upward(metric, m.p, m.s, r)
      {
        if r != a {
          UpwardKept(metric, l.p, l.s, a, b, r);
        }
      }
    }
  }

  /** All links of the forest are upward, whatever the metric. */
  lemma {:induction false} LinksUpward(metric: Metric, n: nat, x: nat, y: nat)
    requires 1 <= x < y && (y <= n + 1 || y == x + 1) && x <= n + 1
    ensures var l := LinksBefore(metric, n, x, y); AllUpward(metric, l.p, l.s)
    decreases x, y
  {
    hide Forest, Upward, LinkPair;
    if y > x + 1 {
      LinksUpward(metric, n, x, y - 1);
      PairUpward(metric, LinksBefore(metric, n, x, y - 1), x, y - 1);
    } else if x > 1 {
      LinksUpward(metric, n, x - 1, n + 1);
    }
  }

  // ---------- the first entry ----------

  /** v is the next entry after u that is near the first one, u being one of these or the first itself. */
  ghost predicate NextNear(metric: Metric, u: nat, v: nat) {
    1 <= u < v && (u == 1 || Near(metric, 1, u)) && Near(metric, 1, v)
    && forall w :: u < w < v ==> !Near(metric, 1, w)
  }

  /** The last entry before y that is near the first one, or the first itself. */
  function LastNear(metric: Metric, y: nat): (u: nat)
    requires y >= 2
    ensures 1 <= u < y && (u == 1 || Near(metric, 1, u)) && forall w :: u < w < y ==> !Near(metric, 1, w)
  {
    if y == 2 then 1 else if Near(metric, 1, y - 1) then y - 1 else LastNear(metric, y - 1)
  }

  /** In the first row, the chain so far ends at the last entry near the first, and later entries are alone. */
  ghost predicate FirstRow(metric: Metric, l: Links, n: nat, y: nat)
    requires 2 <= y <= n + 1
  {
    && |l.p| == |l.s.root| == n + 1
    && l.s.root[1] == LastNear(metric, y) && (forall w :: y <= w <= n ==> l.s.root[w] == w)
    && (forall u: nat, v: nat :: NextNear(metric, u, v) && v < y ==> l.p[u] == v)
  }

  lemma FirstRowNext(metric: Metric, l: Links, n: nat, y: nat)
    requires 2 <= y <= n && Forest(l.p, l.s) && FirstRow(metric, l, n, y)
    ensures FirstRow(metric, LinkPair(metric, l, 1, y), n, y + 1)
  {
    var a, m := LastNear(metric, y), LinkPair(metric, l, 1, y);
    RootsInForest(l.p, l.s);
    LastStep(metric, y);
    if Near(metric, 1, y) {
      LinkRoots(l.p, l.s, a, y);
    }
    assert m.p == if Near(metric, 1, y) then l.p[a := y] else l.p;
    hide Forest, Link, Near, NextNear, LastNear, LinkPair;
    forall u: nat, v: nat | NextNear(metric, u, v) && v < y + 1
      ensures m.p[u] == v
    {
      LastIsNext(metric, u, v, y);
      assert v < y ==> l.p[u] == v;
    }
  }

  lemma LastStep(metric: Metric, y: nat)
    requires y >= 2
    ensures LastNear(metric, y + 1) == if Near(metric, 1, y) then y else LastNear(metric, y)
  {
  }

  lemma LastIsNext(metric: Metric, u: nat, v: nat, y: nat)
    requires NextNear(metric, u, v) && v <= y && y >= 2
    ensures 1 <= u < v && Near(metric, 1, v)
    ensures v == y <==> u == LastNear(metric, y)
  {
  }

  lemma {:induction false} FirstLinks(metric: Metric, n: nat, y: nat)
    requires 2 <= y <= n + 1
    ensures FirstRow(metric, LinksBefore(metric, n, 1, y), n, y)
    decreases y
  {
    hide Forest, FirstRow, LinkPair;
    if y > 2 {
      FirstLinks(metric, n, y - 1);
      FirstRowNext(metric, LinksBefore(metric, n, 1, y - 1), n, y - 1);
    } else {
      FirstAlone(metric, n);
    }
  }

  lemma FirstAlone(metric: Metric, n: nat)
    requires n >= 1
    ensures FirstRow(metric, NoLinks(n), n, 2)
  {
  }

  lemma {:induction false} LinksStay(metric: Metric, n: nat, x: nat, y: nat, u: nat)
    requires 2 <= x < y && (y <= n + 1 || y == x + 1) && x <= n + 1 && u <= n
    ensures var p := LinksBefore(metric, n, 1, n + 1).p; p[u] > 0 ==> LinksBefore(metric, n, x, y).p[u] == p[u]
    decreases x, y
  {
    hide Forest, Link;
    if y > x + 1 {
      LinksStay(metric, n, x, y - 1, u);
      RootsInForest(LinksBefore(metric, n, x, y - 1).p, LinksBefore(metric, n, x, y - 1).s);
    } else if x > 2 {
      LinksStay(metric, n, x - 1, n + 1, u);
    }
  }

  /** In the forest, the first entry hangs below the first one near it, that one below the next one near the first, and
      so on. */
  lemma FirstChain(metric: Metric, n: nat, u: nat, v: nat)
    requires NextNear(metric, u, v) && v <= n
    ensures LinksBefore(metric, n, n + 1, n + 2).p[u] == v
  {
    hide Forest, LinksBefore, NextNear;
    NextBounds(metric, u, v);
    FirstLinks(metric, n, n + 1);
    LinksStay(metric, n, n + 1, n + 2, u);
  }

  lemma NextBounds(metric: Metric, u: nat, v: nat)
    requires NextNear(metric, u, v)
    ensures 1 <= u < v
  {
  }
}
