/** The O(NP) shortest edit script: furthest points on diagonals, kept in two arrays with offset m + 1. */
module Lcs {
  import opened Options
  import opened EditScript

  /** Shared, never mutated cons lists that record the moves made, latest first. */
  datatype Path = Nil | Cons(car: int, cdr: Path)

  /** The moves of a path in the order they were made. */
  function Reversed(w: Path): seq<int> {
    match w
    case Nil => []
    case Cons(v, rest) => Reversed(rest) + [v]
  }

  /** A path is read in order, and its first, spurious move is dropped. */
  function Script(w: Path): seq<int>
    requires w.Cons?
  {
    ReversedLength(w);
    Reversed(w)[1..]
  }

  lemma {:induction false} ReversedLength(w: Path)
    ensures w.Cons? ==> |Reversed(w)| > 0
  {
  }

  lemma ScriptPush(v: int, w: Path)
    requires w.Cons?
    ensures Script(Cons(v, w)) == Script(w) + [v]
  {
    ReversedLength(w);
  }

  /** The row where the matches that start at row y of diagonal k end. */
  function Slide(g: Grid, k: int, y: int): (r: int)
    requires y <= |g.b|
    ensures y <= r <= |g.b| && !g.Match(r - k, r)
    decreases |g.b| - y
  {
    if g.Match(y - k, y) then Slide(g, k, y + 1) else y
  }

  function PushZeros(w: Path, n: nat): Path
    decreases n
  {
    if n == 0 then w else PushZeros(Cons(0, w), n - 1)
  }

  lemma {:induction false} SlideLeads(g: Grid, k: int, y: int, w: Path)
    requires g.Valid() && w.Cons? && y <= |g.b| && Leads(g, Script(w), y - k, y)
    ensures var r := Slide(g, k, y); var w' := PushZeros(w, r - y);
            w'.Cons? && Leads(g, Script(w'), r - k, r) && Cost(g, Script(w'), k) == Cost(g, Script(w), k)
    decreases |g.b| - y
  {
    if g.Match(y - k, y) {
      ScriptPush(0, w);
      SlideLeads(g, k, y + 1, Cons(0, w));
    }
  }

  lemma {:induction false} SlideInGrid(g: Grid, k: int, y: int)
    requires y <= |g.b| && y - k <= |g.a|
    ensures Slide(g, k, y) - k <= |g.a|
    decreases |g.b| - y
  {
    if g.Match(y - k, y) {
      SlideInGrid(g, k, y + 1);
    }
  }

  function PathAt(g: Grid, q: seq<Path>, k: int): Path
    requires |q| == |g.a| + |g.b| + 3 && -|g.a| - 1 <= k <= |g.b| + 1
  {
    q[k + |g.a| + 1]
  }

  /** The point stored for diagonal k lies in the grid and its path is a script of compressed distance at most p. */
  predicate Reached(g: Grid, f: seq<int>, q: seq<Path>, k: int, p: int)
    requires |f| == |q| == |g.a| + |g.b| + 3 && -|g.a| - 1 <= k <= |g.b| + 1
  {
    && 0 <= At(g, f, k) <= |g.b| && 0 <= At(g, f, k) - k <= |g.a|
    && PathAt(g, q, k).Cons?
    && Leads(g, Script(PathAt(g, q, k)), At(g, f, k) - k, At(g, f, k))
    && Cost(g, Script(PathAt(g, q, k)), k) <= p
  }

  /** The point is short of the far edge it is heading for. */
  predicate Short(g: Grid, f: seq<int>, k: int)
    requires |f| == |g.a| + |g.b| + 3 && -|g.a| - 1 <= k <= |g.b| + 1
  {
    if k < g.Delta() then At(g, f, k) - k < |g.a| else At(g, f, k) < |g.b|
  }

  predicate Touched(g: Grid, p: int, k: int) {
    p > 0 && -p < k < g.Delta() + p
  }

  /** The arrays before round p. */
  ghost predicate RoundStart(g: Grid, f: seq<int>, q: seq<Path>, p: int) {
    && |f| == |q| == |g.a| + |g.b| + 3
    && 0 <= p <= |g.a|
    && (forall k :: -|g.a| - 1 <= k <= |g.b| + 1 && Touched(g, p, k) ==> Reached(g, f, q, k, p - 1) && Short(g, f, k))
    && (forall k :: -|g.a| - 1 <= k <= |g.b| + 1 && !Touched(g, p, k) ==> At(g, f, k) == -1 && PathAt(g, q, k) == Nil)
  }

  /** Diagonal k has been processed in round p, o being the rows before the round. */
  predicate Done(g: Grid, o: seq<int>, f: seq<int>, q: seq<Path>, k: int, p: int)
    requires |o| == |f| == |q| == |g.a| + |g.b| + 3 && -|g.a| <= k <= |g.b|
  {
    Reached(g, f, q, k, p) && Closed(g, o, f, k)
  }

  /** The row from which diagonal k is swept, and the path that leads there. */
  function StartRow(g: Grid, f: seq<int>, k: int): int
    requires |f| == |g.a| + |g.b| + 3 && -|g.a| <= k <= |g.b|
  {
    var y1, y2 := At(g, f, k - 1) + 1, At(g, f, k + 1);
    if y1 < y2 then y2 else y1
  }

  function StartPath(g: Grid, f: seq<int>, q: seq<Path>, k: int): Path
    requires |f| == |q| == |g.a| + |g.b| + 3 && -|g.a| <= k <= |g.b|
  {
    if At(g, f, k - 1) + 1 > At(g, f, k + 1) then Cons(g.u, PathAt(g, q, k - 1)) else Cons(-g.u, PathAt(g, q, k + 1))
  }

  /** A sweep that starts with a take from diagonal k - 1. */
  lemma StepTake(g: Grid, f: seq<int>, q: seq<Path>, k: int, p: int)
    requires g.Valid() && |f| == |q| == |g.a| + |g.b| + 3 && -|g.a| <= k <= |g.b|
    requires Reached(g, f, q, k - 1, if k <= g.Delta() then p else p - 1) && At(g, f, k - 1) < |g.b|
    ensures var y := At(g, f, k - 1) + 1; var w := Cons(g.u, PathAt(g, q, k - 1));
            0 <= y <= |g.b| && 0 <= y - k <= |g.a| && Leads(g, Script(w), y - k, y) && Cost(g, Script(w), k) <= p
  {
    ScriptPush(g.u, PathAt(g, q, k - 1));
  }

  /** A sweep that starts with a drop from diagonal k + 1. */
  lemma StepDrop(g: Grid, f: seq<int>, q: seq<Path>, k: int, p: int)
    requires g.Valid() && |f| == |q| == |g.a| + |g.b| + 3 && -|g.a| <= k <= |g.b|
    requires Reached(g, f, q, k + 1, if k >= g.Delta() then p else p - 1) && At(g, f, k + 1) - k <= |g.a|
    ensures var y := At(g, f, k + 1); var w := Cons(-g.u, PathAt(g, q, k + 1));
            0 <= y <= |g.b| && 0 <= y - k <= |g.a| && Leads(g, Script(w), y - k, y) && Cost(g, Script(w), k) <= p
  {
    ScriptPush(-g.u, PathAt(g, q, k + 1));
  }

  /** The arrays as round p finds them around diagonal k: o and oq are those before the round. */
  predicate Around(g: Grid, o: seq<int>, oq: seq<Path>, f: seq<int>, q: seq<Path>, k: int, p: int)
    requires |o| == |oq| == |f| == |q| == |g.a| + |g.b| + 3 && -|g.a| <= k <= |g.b|
  {
    && (if k <= g.Delta() && k > -p then k > -|g.a| && Done(g, o, f, q, k - 1, p)
        else At(g, f, k - 1) == At(g, o, k - 1) && PathAt(g, q, k - 1) == PathAt(g, oq, k - 1))
    && (if k >= g.Delta() && k < g.Delta() + p then k < |g.b| && Done(g, o, f, q, k + 1, p)
        else At(g, f, k + 1) == At(g, o, k + 1) && PathAt(g, q, k + 1) == PathAt(g, oq, k + 1))
  }

  lemma LeftReady(g: Grid, o: seq<int>, oq: seq<Path>, f: seq<int>, q: seq<Path>, k: int, p: int)
    requires g.Valid() && RoundStart(g, o, oq, p) && |f| == |q| == |o|
    requires -p <= k <= g.Delta() + p && Around(g, o, oq, f, q, k, p)
    requires At(g, f, k - 1) >= 0
    ensures Reached(g, f, q, k - 1, if k <= g.Delta() then p else p - 1) && At(g, f, k - 1) < |g.b|
  {
    if !(-p < k <= g.Delta()) {
      assert Touched(g, p, k - 1);
    }
  }

  lemma RightReady(g: Grid, o: seq<int>, oq: seq<Path>, f: seq<int>, q: seq<Path>, k: int, p: int)
    requires g.Valid() && RoundStart(g, o, oq, p) && |f| == |q| == |o|
    requires -p <= k <= g.Delta() + p && Around(g, o, oq, f, q, k, p)
    requires At(g, f, k + 1) >= 0
    ensures Reached(g, f, q, k + 1, if k >= g.Delta() then p else p - 1) && At(g, f, k + 1) - k <= |g.a|
  {
    if !(g.Delta() <= k < g.Delta() + p) {
      assert Touched(g, p, k + 1);
    }
  }

  /** Only the very first sweep finds nothing on its left. */
  lemma FirstSweep(g: Grid, o: seq<int>, oq: seq<Path>, f: seq<int>, q: seq<Path>, k: int, p: int)
    requires g.Valid() && RoundStart(g, o, oq, p) && |f| == |q| == |o|
    requires -p <= k <= g.Delta() + p && Around(g, o, oq, f, q, k, p)
    requires At(g, f, k - 1) < 0
    ensures At(g, f, k + 1) < 0 ==> k == 0 && p == 0 && At(g, f, -1) == -1 && PathAt(g, q, -1) == Nil
    ensures At(g, f, k - 1) == -1
  {
    assert !(-p < k <= g.Delta());
    assert p > 0 && k != -p ==> Touched(g, p, k - 1);
    assert p == 0 || k == -p ==> !Touched(g, p, k - 1);
    assert p > 0 && k == -p ==> Touched(g, p, k + 1);
  }

  /** In round p, the point from which diagonal k is swept lies in the grid, at the end of a cheap enough script. */
  lemma {:induction false} SweepStart(g: Grid, o: seq<int>, oq: seq<Path>, f: seq<int>, q: seq<Path>, k: int, p: int)
    requires g.Valid() && RoundStart(g, o, oq, p) && |f| == |q| == |o|
    requires -p <= k <= g.Delta() + p && Around(g, o, oq, f, q, k, p)
    ensures var y := StartRow(g, f, k); var w := StartPath(g, f, q, k);
            0 <= y <= |g.b| && 0 <= y - k <= |g.a| && Leads(g, Script(w), y - k, y) && Cost(g, Script(w), k) <= p
  {
    if At(g, f, k - 1) < 0 {
      FirstSweep(g, o, oq, f, q, k, p);
    } else {
      LeftReady(g, o, oq, f, q, k, p);
    }
    if At(g, f, k + 1) >= 0 {
      RightReady(g, o, oq, f, q, k, p);
    }
    SweepCases(g, f, q, k, p);
  }

  lemma {:induction false} SweepCases(g: Grid, f: seq<int>, q: seq<Path>, k: int, p: int)
    requires g.Valid() && |f| == |q| == |g.a| + |g.b| + 3 && -|g.a| <= k <= |g.b| && 0 <= p
    requires At(g, f, k - 1) >= -1
    requires At(g, f, k - 1) >= 0 ==> Reached(g, f, q, k - 1, if k <= g.Delta() then p else p - 1)
                                      && At(g, f, k - 1) < |g.b|
    requires At(g, f, k + 1) >= 0 ==> Reached(g, f, q, k + 1, if k >= g.Delta() then p else p - 1)
                                      && At(g, f, k + 1) - k <= |g.a|
    requires At(g, f, k - 1) < 0 && At(g, f, k + 1) < 0 ==> k == 0 && PathAt(g, q, -1) == Nil
    ensures var y := StartRow(g, f, k); var w := StartPath(g, f, q, k);
            0 <= y <= |g.b| && 0 <= y - k <= |g.a| && Leads(g, Script(w), y - k, y) && Cost(g, Script(w), k) <= p
  {
    if At(g, f, k - 1) + 1 <= At(g, f, k + 1) {
      StepDrop(g, f, q, k, p);
    } else if At(g, f, k - 1) >= 0 {
      StepTake(g, f, q, k, p);
    } else {
      assert Script(Cons(g.u, Nil)) == [];
    }
  }

  /** A diagonal that is done does not depend on the ones swept later. */
  lemma DoneStays(g: Grid, o: seq<int>, f: seq<int>, q: seq<Path>, f': seq<int>, q': seq<Path>, k: int, j: int, p: int)
    requires |o| == |f| == |q| == |f'| == |q'| == |g.a| + |g.b| + 3 && -|g.a| <= j <= |g.b|
    requires forall i :: 0 <= i < |f| && i != k + |g.a| + 1 ==> f'[i] == f[i] && q'[i] == q[i]
    requires j != k && (j <= g.Delta() ==> j - 1 != k) && (j >= g.Delta() ==> j + 1 != k)
    requires Done(g, o, f, q, j, p)
    ensures Done(g, o, f', q', j, p)
  {
  }

  /** If some diagonal reached its far edge in a round, so did the final diagonal. */
  lemma {:induction false} EdgeReachesCorner(g: Grid, o: seq<int>, f: seq<int>, q: seq<Path>, k: int, p: int)
    requires g.Valid() && |o| == |f| == |q| == |g.a| + |g.b| + 3 && 0 <= p <= |g.a| && -p <= k <= g.Delta() + p
    requires forall j: int :: -p <= j <= g.Delta() + p ==> Done(g, o, f, q, j, p)
    requires !Short(g, f, k)
    ensures At(g, f, g.Delta()) == |g.b|
    decreases if k < g.Delta() then g.Delta() - k else k - g.Delta()
  {
    assert Done(g, o, f, q, k, p);
    if k < g.Delta() {
      assert Done(g, o, f, q, k + 1, p);
      EdgeReachesCorner(g, o, f, q, k + 1, p);
    } else if k > g.Delta() {
      assert Done(g, o, f, q, k - 1, p);
      EdgeReachesCorner(g, o, f, q, k - 1, p);
    }
  }

  /** Once all its diagonals are done, a round dominates one compressed step more. */
  lemma {:induction false} RoundEnds(g: Grid, o: seq<int>, oq: seq<Path>, f: seq<int>, q: seq<Path>, p: int)
    requires g.Valid() && RoundStart(g, o, oq, p) && Dominates(g, o, p - 1) && |f| == |q| == |o|
    requires forall j: int :: -p <= j <= g.Delta() + p ==> Done(g, o, f, q, j, p)
    requires forall j: int :: -|g.a| - 1 <= j <= |g.b| + 1 && !(-p <= j <= g.Delta() + p) ==> At(g, f, j) == At(g, o, j)
    ensures Dominates(g, f, p)
  {
    forall k | -|g.a| - 1 <= k <= |g.b| + 1
      ensures At(g, f, k) >= -1
      ensures -p <= k <= g.Delta() + p ==> Closed(g, o, f, k)
    {
      if -p <= k <= g.Delta() + p {
        assert Done(g, o, f, q, k, p);
      } else {
        assert !Touched(g, p, k);
      }
    }
    RoundDominates(g, o, f, p);
  }

  /** By round |a| the corner is reached, because dropping all of a costs no more. */
  lemma LastRound(g: Grid, f: seq<int>, p: int)
    requires g.Valid() && Dominates(g, f, p) && |g.a| <= p
    ensures At(g, f, g.Delta()) >= |g.b|
  {
    DropTakeLeads(g, |g.a|, |g.b|);
    BoundedBy(g, f, p, DropTake(g, |g.a|, |g.b|), |g.a|, |g.b|);
  }

  /** A round that stops short of the corner sets up the next one. */
  lemma {:induction false} NextRound(g: Grid, o: seq<int>, oq: seq<Path>, f: seq<int>, q: seq<Path>, p: int)
    requires g.Valid() && RoundStart(g, o, oq, p) && |f| == |q| == |o|
    requires forall j: int :: -p <= j <= g.Delta() + p ==> Done(g, o, f, q, j, p)
    requires forall j: int :: -|g.a| - 1 <= j <= |g.b| + 1 && !(-p <= j <= g.Delta() + p)
                         ==> At(g, f, j) == At(g, o, j) && PathAt(g, q, j) == PathAt(g, oq, j)
    requires At(g, f, g.Delta()) != |g.b| && p < |g.a|
    ensures RoundStart(g, f, q, p + 1)
  {
    forall k | -|g.a| - 1 <= k <= |g.b| + 1
      ensures if Touched(g, p + 1, k) then Reached(g, f, q, k, p) && Short(g, f, k)
              else At(g, f, k) == -1 && PathAt(g, q, k) == Nil
    {
      if Touched(g, p + 1, k) {
        assert Done(g, o, f, q, k, p);
        if !Short(g, f, k) {
          EdgeReachesCorner(g, o, f, q, k, p);
        }
      } else {
        assert !Touched(g, p, k);
      }
    }
  }

  /** The diagonals of round p that are done once the two inner loops have come to lo and hi. */
  ghost predicate Swept(g: Grid, o: seq<int>, oq: seq<Path>, f: seq<int>, q: seq<Path>, lo: int, hi: int, p: int) {
    && |o| == |oq| == |f| == |q| == |g.a| + |g.b| + 3
    && (forall j :: -|g.a| <= j <= |g.b| && (-p <= j < lo || hi < j <= g.Delta() + p) ==> Done(g, o, f, q, j, p))
    && (forall j :: -|g.a| - 1 <= j <= |g.b| + 1 && !(-p <= j < lo || hi < j <= g.Delta() + p)
                    ==> At(g, f, j) == At(g, o, j) && PathAt(g, q, j) == PathAt(g, oq, j))
  }

  /** Diagonal k is the next one to sweep: upwards to Delta, then downwards, Delta itself last. */
  predicate Next(g: Grid, k: int, lo: int, hi: int, p: int) {
    && -p <= lo <= g.Delta() <= hi <= g.Delta() + p
    && if lo < g.Delta() then k == lo && hi == g.Delta() + p else k == hi
  }

  /** The point from which diagonal k is swept lies in the grid, at the end of a cheap enough script. */
  predicate Ready(g: Grid, o: seq<int>, f: seq<int>, q: seq<Path>, k: int, p: int)
    requires |o| == |f| == |q| == |g.a| + |g.b| + 3 && -|g.a| <= k <= |g.b|
  {
    var y := StartRow(g, f, k);
    var w := StartPath(g, f, q, k);
    && 0 <= y <= |g.b| && 0 <= y - k <= |g.a| && Leads(g, Script(w), y - k, y) && Cost(g, Script(w), k) <= p
    && (At(g, f, k - 1) == At(g, o, k - 1) || k <= g.Delta())
    && (At(g, f, k + 1) == At(g, o, k + 1) || k >= g.Delta())
  }

  lemma {:induction false} SweepReady(g: Grid, o: seq<int>, oq: seq<Path>, f: seq<int>, q: seq<Path>, lo: int, hi: int,
                                      k: int, p: int)
    requires g.Valid() && RoundStart(g, o, oq, p) && Swept(g, o, oq, f, q, lo, hi, p) && Next(g, k, lo, hi, p)
    ensures Ready(g, o, f, q, k, p)
  {
    assert k <= g.Delta() && k > -p ==> Done(g, o, f, q, k - 1, p);
    assert k >= g.Delta() && k < g.Delta() + p ==> Done(g, o, f, q, k + 1, p);
    SweepStart(g, o, oq, f, q, k, p);
  }

  /** The rows and the paths after a sweep of diagonal k. */
  function SweptRows(g: Grid, f: seq<int>, k: int): (f': seq<int>)
    requires |f| == |g.a| + |g.b| + 3 && -|g.a| <= k <= |g.b| && StartRow(g, f, k) <= |g.b|
    ensures |f'| == |f|
  {
    f[k + |g.a| + 1 := Slide(g, k, StartRow(g, f, k))]
  }

  function SweptPaths(g: Grid, f: seq<int>, q: seq<Path>, k: int): (q': seq<Path>)
    requires |f| == |q| == |g.a| + |g.b| + 3 && -|g.a| <= k <= |g.b| && StartRow(g, f, k) <= |g.b|
    ensures |q'| == |q|
  {
    var y := StartRow(g, f, k);
    q[k + |g.a| + 1 := PushZeros(StartPath(g, f, q, k), Slide(g, k, y) - y)]
  }

  /** The swept diagonal is done. */
  lemma DoneNow(g: Grid, o: seq<int>, f: seq<int>, q: seq<Path>, k: int, p: int)
    requires g.Valid() && |o| == |f| == |q| == |g.a| + |g.b| + 3 && -|g.a| <= k <= |g.b|
    requires Ready(g, o, f, q, k, p)
    ensures Done(g, o, SweptRows(g, f, k), SweptPaths(g, f, q, k), k, p)
  {
    SlideLeads(g, k, StartRow(g, f, k), StartPath(g, f, q, k));
    SlideInGrid(g, k, StartRow(g, f, k));
  }

  lemma {:induction false} SweepStep(g: Grid, o: seq<int>, oq: seq<Path>, f: seq<int>, q: seq<Path>, lo: int, hi: int,
                                     k: int, p: int)
    requires g.Valid() && 0 <= p <= |g.a| && Swept(g, o, oq, f, q, lo, hi, p) && Next(g, k, lo, hi, p)
    requires Ready(g, o, f, q, k, p)
    ensures Swept(g, o, oq, SweptRows(g, f, k), SweptPaths(g, f, q, k),
                  if k == lo then lo + 1 else lo, if k == lo then hi else hi - 1, p)
  {
    var f', q' := SweptRows(g, f, k), SweptPaths(g, f, q, k);
    DoneNow(g, o, f, q, k, p);
    StaysSwept(g, o, oq, f, q, f', q', lo, hi, k, p);
  }

  lemma {:induction false} StaysSwept(g: Grid, o: seq<int>, oq: seq<Path>, f: seq<int>, q: seq<Path>, f': seq<int>,
                                      q': seq<Path>,
                                      lo: int, hi: int, k: int, p: int)
    requires 0 <= p <= |g.a| <= |g.b| && Swept(g, o, oq, f, q, lo, hi, p) && Next(g, k, lo, hi, p)
    requires |f'| == |f| && |q'| == |q|
    requires forall i :: 0 <= i < |f| && i != k + |g.a| + 1 ==> f'[i] == f[i] && q'[i] == q[i]
    requires Done(g, o, f', q', k, p)
    ensures Swept(g, o, oq, f', q', if k == lo then lo + 1 else lo, if k == lo then hi else hi - 1, p)
  {
    hide Done;
    forall j | -|g.a| <= j <= |g.b| && j != k && (-p <= j < lo || hi < j <= g.Delta() + p)
      ensures Done(g, o, f', q', j, p)
    {
      assert Done(g, o, f, q, j, p);
      DoneStays(g, o, f, q, f', q', k, j, p);
    }
  }

  lemma SweptStart(g: Grid, o: seq<int>, oq: seq<Path>, p: int)
    requires g.Valid() && RoundStart(g, o, oq, p)
    ensures 0 <= p <= |g.a| && Swept(g, o, oq, o, oq, -p, g.Delta() + p, p)
  {
  }

  /** A whole round has been swept. */
  lemma RoundResult(g: Grid, o: seq<int>, oq: seq<Path>, f: seq<int>, q: seq<Path>, p: int)
    requires g.Valid() && RoundStart(g, o, oq, p) && Dominates(g, o, p - 1)
    requires Swept(g, o, oq, f, q, g.Delta() + 1, g.Delta(), p)
    ensures Dominates(g, f, p) && Reached(g, f, q, g.Delta(), p)
    ensures At(g, f, g.Delta()) == |g.b| || (p < |g.a| && RoundStart(g, f, q, p + 1))
  {
    RoundEnds(g, o, oq, f, q, p);
    assert Done(g, o, f, q, g.Delta(), p);
    if At(g, f, g.Delta()) != |g.b| {
      if p >= |g.a| {
        LastRound(g, f, p);
      }
      NextRound(g, o, oq, f, q, p);
    }
  }

  /** The corner, reached in round p for the first time, costs p drops, and no script does with fewer. */
  lemma CornerCost(g: Grid, o: seq<int>, oq: seq<Path>, f: seq<int>, q: seq<Path>, p: int)
    requires g.Valid() && RoundStart(g, o, oq, p) && Dominates(g, o, p - 1)
    requires |f| == |q| == |o| && Reached(g, f, q, g.Delta(), p) && At(g, f, g.Delta()) == |g.b|
    ensures var w := PathAt(g, q, g.Delta());
            w.Cons? && Leads(g, Script(w), |g.a|, |g.b|) && Count(Script(w), -g.u) == p
    ensures forall s :: Leads(g, s, |g.a|, |g.b|) ==> p <= Count(s, -g.u)
  {
    assert p > 0 ==> Touched(g, p, g.Delta());
    forall s | Leads(g, s, |g.a|, |g.b|)
      ensures p <= Count(s, -g.u)
    {
      if Count(s, -g.u) < p {
        BoundedBy(g, o, p - 1, s, |g.a|, |g.b|);
      }
    }
  }

  predicate EqDefault(x: int, y: int) {
    x == y
  }

  /** The problem as the algorithm sees it: the shorter sequence first. */
  class Onp {
    const g: Grid
    const m: int
    const n: int
    const fp: array<int>
    const path: array<Path>

    ghost predicate Valid() {
      && g.Valid() && m == |g.a| && n == |g.b|
      && fp.Length == path.Length == m + n + 3
    }

    constructor (g: Grid)
      requires g.Valid()
      ensures Valid() && this.g == g && fresh(fp) && fresh(path)
      ensures RoundStart(g, fp[..], path[..], 0) && Dominates(g, fp[..], -1)
    {
      this.g := g;
      m, n := |g.a|, |g.b|;
      fp := new int[|g.a| + |g.b| + 3];
      path := new Path[|g.a| + |g.b| + 3](_ => Nil);
      new;
      for i := 0 to fp.Length
        invariant forall j :: 0 <= j < i ==> fp[j] == -1 && path[j] == Nil
      {
        fp[i], path[i] := -1, Nil;
      }
    }

    method PathPush(k: int, v: int)
      requires Valid() && -m - 1 <= k <= n + 1
      modifies path
      ensures path[..] == old(path[..])[k + m + 1 := Cons(v, PathAt(g, old(path[..]), k))]
    {
      path[k + m + 1] := Cons(v, path[k + m + 1]);
    }

    /** Sweeps diagonal k: one step from the better neighbour, then along all matches. */
    method Snake(k: int)
      requires Valid() && -m <= k <= n
      requires 0 <= StartRow(g, fp[..], k) <= n && 0 <= StartRow(g, fp[..], k) - k
      modifies fp, path
      ensures fp[..] == SweptRows(g, old(fp[..]), k)
      ensures path[..] == SweptPaths(g, old(fp[..]), old(path[..]), k)
    {
      var y := Branch(k);
      Follow(k, y);
    }

    /** The better neighbour of diagonal k hands over its path and its row, with one move more. */
    method Branch(k: int) returns (y: int)
      requires Valid() && -m <= k <= n
      modifies path
      ensures y == StartRow(g, fp[..], k)
      ensures path[..] == old(path[..])[k + m + 1 := StartPath(g, fp[..], old(path[..]), k)]
    {
      var y1, y2 := fp[k - 1 + m + 1] + 1, fp[k + 1 + m + 1];
      y := if y1 < y2 then y2 else y1;
      if y1 > y2 {
        path[k + m + 1] := path[k - 1 + m + 1];
        PathPush(k, g.u);
      } else {
        path[k + m + 1] := path[k + 1 + m + 1];
        PathPush(k, -g.u);
      }
    }

    /** Advances over all matches from row y of diagonal k, recording a 0 for each. */
    method Follow(k: int, y0: int)
      requires Valid() && -m <= k <= n && 0 <= y0 <= n && 0 <= y0 - k
      modifies fp, path
      ensures fp[..] == old(fp[..])[k + m + 1 := Slide(g, k, y0)]
      ensures path[..] == old(path[..])[k + m + 1 := PushZeros(PathAt(g, old(path[..]), k), Slide(g, k, y0) - y0)]
    {
      var x, y := y0 - k, y0;
      ghost var q := path[..];
      ghost var r := Slide(g, k, y);
      while x < m && y < n
        invariant x == y - k && 0 <= x && 0 <= y <= n
        invariant Slide(g, k, y) == r && fp[..] == old(fp[..])
        invariant path[..] == q[k + m + 1 := path[k + m + 1]]
        invariant PushZeros(path[k + m + 1], r - y) == PushZeros(PathAt(g, q, k), r - y0)
        decreases n - y
      {
        if !g.eq(g.a[x], g.b[y]) {
          break;
        }
        PathPush(k, 0);
        x, y := x + 1, y + 1;
      }
      fp[k + m + 1] := y;
    }

    /** One sweep of a round: diagonal k becomes done. */
    method Sweep(k: int, p: int, ghost o: seq<int>, ghost oq: seq<Path>, ghost lo: int, ghost hi: int)
      requires Valid() && RoundStart(g, o, oq, p) && Swept(g, o, oq, fp[..], path[..], lo, hi, p)
      requires Next(g, k, lo, hi, p)
      modifies fp, path
      ensures Swept(g, o, oq, fp[..], path[..], if k == lo then lo + 1 else lo, if k == lo then hi else hi - 1, p)
    {
      ghost var f, q := fp[..], path[..];
      SweepReady(g, o, oq, f, q, lo, hi, k, p);
      Snake(k);
      SweepStep(g, o, oq, f, q, lo, hi, k, p);
    }

    /** One round: the diagonals below Delta upwards, those above downwards, then Delta. */
    method Round(p: int)
      requires Valid() && RoundStart(g, fp[..], path[..], p) && Dominates(g, fp[..], p - 1)
      modifies fp, path
      ensures Dominates(g, fp[..], p) && Reached(g, fp[..], path[..], n - m, p)
      ensures fp[n + 1] == n || (p < m && RoundStart(g, fp[..], path[..], p + 1))
    {
      hide RoundStart, Dominates, Swept;
      ghost var o, oq := fp[..], path[..];
      var d := n - m;
      SweptStart(g, o, oq, p);
      var k := -p;
      while k != d
        invariant -p <= k <= d && Swept(g, o, oq, fp[..], path[..], k, d + p, p)
        decreases d - k
      {
        Sweep(k, p, o, oq, k, d + p);
        k := k + 1;
      }
      k := d + p;
      while k != d
        invariant d <= k <= d + p && Swept(g, o, oq, fp[..], path[..], d, k, p)
        decreases k - d
      {
        Sweep(k, p, o, oq, d, k);
        k := k - 1;
      }
      Sweep(d, p, o, oq, d, d);
      RoundResult(g, o, oq, fp[..], path[..], p);
    }

    /** All rounds: the last one ends at the far corner with a script of exactly p drops. */
    method Run() returns (p: int)
      requires Valid() && RoundStart(g, fp[..], path[..], 0) && Dominates(g, fp[..], -1)
      modifies fp, path
      ensures 0 <= p <= m
      ensures var w := path[n + 1]; w.Cons? && Leads(g, Script(w), m, n) && Count(Script(w), -g.u) == p
      ensures forall s :: Leads(g, s, m, n) ==> p <= Count(s, -g.u)
    {
      hide RoundStart, Dominates;
      p := 0;
      while true
        invariant 0 <= p <= m
        invariant RoundStart(g, fp[..], path[..], p) && Dominates(g, fp[..], p - 1)
        decreases m - p
      {
        ghost var o, oq := fp[..], path[..];
        Round(p);
        if fp[n + 1] == n {
          CornerCost(g, o, oq, fp[..], path[..], p);
          return;
        }
        p := p + 1;
      }
    }
  }

  /** Drops and takes of a script across the grid, counted from the drops alone. */
  lemma EditsOf(g: Grid, s: seq<int>)
    requires g.Valid() && Leads(g, s, |g.a|, |g.b|)
    ensures Edits(s) == g.Delta() + 2 * Count(s, -g.u)
    ensures Count(s, 0) + Count(s, -g.u) == |g.a|
  {
    LeadsInGrid(g, s, |g.a|, |g.b|);
  }

  /** The match relation in force between elements of vx and elements of vy: the arguments of eq are exchanged
      together with the sequences. */
  function Relation(vx: seq<int>, vy: seq<int>, eq: (int, int) -> bool): (int, int) -> bool {
    if |vx| <= |vy| then eq else (x, y) => eq(y, x)
  }

  lemma {:induction false} ReadsSame(s: seq<int>, xs: seq<int>, ys: seq<int>, e: (int, int) -> bool,
                                     e': (int, int) -> bool)
    requires forall x, y :: e(x, y) == e'(x, y)
    ensures Reads(s, xs, ys, e) <==> Reads(s, xs, ys, e')
    decreases |s|
  {
    if s != [] {
      if s[0] != 1 && xs != [] {
        ReadsSame(s[1..], xs[1..], if s[0] == 0 && ys != [] then ys[1..] else ys, e, e');
      } else if s[0] == 1 && ys != [] {
        ReadsSame(s[1..], xs, ys[1..], e, e');
      }
    }
  }

  /** For a symmetric relation the exchange makes no difference. */
  lemma SymmetricReads(s: seq<int>, vx: seq<int>, vy: seq<int>, eq: (int, int) -> bool)
    requires forall x, y :: eq(x, y) == eq(y, x)
    ensures Reads(s, vx, vy, Relation(vx, vy, eq)) <==> Reads(s, vx, vy, eq)
  {
    ReadsSame(s, vx, vy, Relation(vx, vy, eq), eq);
  }

  function GridOf(vx: seq<int>, vy: seq<int>, eq: (int, int) -> bool): (g: Grid)
    ensures g.Valid()
  {
    if |vx| <= |vy| then Grid(vx, vy, eq, 1) else Grid(vy, vx, eq, -1)
  }

  lemma ReadsOnGrid(vx: seq<int>, vy: seq<int>, eq: (int, int) -> bool, s: seq<int>)
    ensures var g := GridOf(vx, vy, eq);
            Reads(s, vx, vy, Relation(vx, vy, eq)) <==> Leads(g, s, |g.a|, |g.b|)
  {
    ReadsIsLeads(vx, vy, Relation(vx, vy, eq), s);
    if |vx| > |vy| {
      FlipLeads(vx, vy, eq, s, |vx|, |vy|);
    }
  }

  /** A least script has as many matches as a longest common subsequence has elements. */
  lemma LeastIsLongest(xs: seq<int>, ys: seq<int>, eq: (int, int) -> bool, s: seq<int>)
    requires Reads(s, xs, ys, eq) && forall t :: Reads(t, xs, ys, eq) ==> Edits(s) <= Edits(t)
    ensures exists c :: IsCommon(c, xs, ys, eq) && |c| == Count(s, 0)
    ensures forall c :: IsCommon(c, xs, ys, eq) ==> |c| <= Count(s, 0)
  {
    var g := Grid(xs, ys, eq, 1);
    ReadsIsLeads(xs, ys, eq, s);
    var c := ScriptToCommon(g, s, |xs|, |ys|);
    CountMatches(g, s);
    forall c | IsCommon(c, xs, ys, eq)
      ensures |c| <= Count(s, 0)
    {
      var t := CommonToScript(g, c, |xs|, |ys|);
      ReadsIsLeads(xs, ys, eq, t);
      CountMatches(g, t);
    }
  }

  lemma {:induction false} CountMatches(g: Grid, s: seq<int>)
    requires g.u == 1 && Leads(g, s, |g.a|, |g.b|)
    ensures 2 * Count(s, 0) + Edits(s) == |g.a| + |g.b|
  {
    CountPoint(g, s, |g.a|, |g.b|);
  }

  lemma {:induction false} CountPoint(g: Grid, s: seq<int>, x: int, y: int)
    requires g.u == 1 && Leads(g, s, x, y)
    ensures Count(s, 0) + Count(s, -1) == x && Count(s, 0) + Count(s, 1) == y
    decreases |s|
  {
    if s != [] {
      var r, l := s[..|s| - 1], s[|s| - 1];
      CountPoint(g, r, if l == 1 then x else x - 1, if l == -1 then y else y - 1);
    }
  }

  /** The edit distance of vx and vy without substitutions, with a shortest edit script. */
  method Compute(vx: seq<int>, vy: seq<int>, eq: Option<(int, int) -> bool>) returns (dist: int, ses: seq<int>)
    ensures var e := Relation(vx, vy, if eq.Some? then eq.value else EqDefault);
            && Reads(ses, vx, vy, e) && Edits(ses) == dist
            && (forall s :: Reads(s, vx, vy, e) ==> dist <= Edits(s))
            && (exists c :: IsCommon(c, vx, vy, e) && |c| == Count(ses, 0))
            && (forall c :: IsCommon(c, vx, vy, e) ==> |c| <= Count(ses, 0))
    ensures eq.None? ==> var e := (x: int, y: int) => x == y;
                         && Reads(ses, vx, vy, e) && (forall s :: Reads(s, vx, vy, e) ==> dist <= Edits(s))
                         && (exists c :: IsCommon(c, vx, vy, e) && |c| == Count(ses, 0))
                         && (forall c :: IsCommon(c, vx, vy, e) ==> |c| <= Count(ses, 0))
  {
    var e := if eq.Some? then eq.value else EqDefault;
    var g := GridOf(vx, vy, e);
    var onp := new Onp(g);
    var p := onp.Run();
    var d := onp.n - onp.m;
    ses := Script(onp.path[onp.n + 1]);
    dist := d + 2 * p;
    EditsOf(g, ses);
    ReadsOnGrid(vx, vy, e, ses);
    forall s | Reads(s, vx, vy, Relation(vx, vy, e))
      ensures dist <= Edits(s)
    {
      ReadsOnGrid(vx, vy, e, s);
      EditsOf(g, s);
    }
    LeastIsLongest(vx, vy, Relation(vx, vy, e), ses);
    if eq.None? {
      var same := (x: int, y: int) => x == y;
      SymmetricReads(ses, vx, vy, e);
      ReadsSame(ses, vx, vy, e, same);
      forall s | Reads(s, vx, vy, same)
        ensures dist <= Edits(s)
      {
        SymmetricReads(s, vx, vy, e);
        ReadsSame(s, vx, vy, e, same);
      }
      LeastIsLongest(vx, vy, same, ses);
    }
  }
}
