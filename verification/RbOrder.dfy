/** Search order, insertion and deletion of red-black trees as functions on shapes, and their contents. */
module RbOrder {
  import opened RbShape
  import opened RbFix

  type Cmp = (int, int) -> int

  /** The sign of a comparison is that of a total preorder. */
  ghost predicate TotalOrder(cmp: Cmp) {
    && (forall x, y :: cmp(x, y) < 0 <==> cmp(y, x) > 0)
    && (forall x, y, z :: cmp(x, y) <= 0 && cmp(y, z) <= 0 ==> cmp(x, z) <= 0)
  }

  /** The default comparison (rbtree.c). */
  function Compare(x: int, y: int): int {
    (if x > y then 1 else 0) - (if x < y then 1 else 0)
  }

  lemma CompareOrders()
    ensures TotalOrder(Compare)
  {
  }

  /** The (key, attr) pairs of entries. */
  function Pairs(s: seq<Entry>): (p: seq<(int, int)>)
    ensures |p| == |s| && forall i :: 0 <= i < |s| ==> p[i] == (s[i].key, s[i].attr)
  {
    seq(|s|, i requires 0 <= i < |s| => (s[i].key, s[i].attr))
  }

  /** What a tree holds, in order. */
  function Contents(t: Shape): seq<(int, int)> {
    Pairs(InOrder(t))
  }

  ghost predicate Sorted(p: seq<(int, int)>, cmp: Cmp) {
    forall i, j :: 0 <= i < j < |p| ==> cmp(p[i].0, p[j].0) <= 0
  }

  /** Every key of p is at most k, respectively greater than k. */
  ghost predicate AllUpTo(p: seq<(int, int)>, k: int, cmp: Cmp) {
    forall i :: 0 <= i < |p| ==> cmp(p[i].0, k) <= 0
  }

  ghost predicate AllAbove(p: seq<(int, int)>, k: int, cmp: Cmp) {
    forall i :: 0 <= i < |p| ==> cmp(k, p[i].0) < 0
  }

  ghost predicate AllBelow(p: seq<(int, int)>, k: int, cmp: Cmp) {
    forall i :: 0 <= i < |p| ==> cmp(k, p[i].0) > 0
  }

  lemma PairsConcat(a: seq<Entry>, b: seq<Entry>)
    ensures Pairs(a + b) == Pairs(a) + Pairs(b)
  {
  }

  // ---------- search ----------

  /** The subtree at which the search for key stops. */
  function Find(t: Shape, key: int, cmp: Cmp): Shape {
    if t.E? then E
    else
      var c := cmp(key, t.e.key);
      if c == 0 then t else if c < 0 then Find(t.l, key, cmp) else Find(t.r, key, cmp)
  }

  lemma ContentsSplit(t: Shape)
    requires t.T?
    ensures Contents(t) == Contents(t.l) + [(t.e.key, t.e.attr)] + Contents(t.r)
  {
    PairsConcat(InOrder(t.l) + [t.e], InOrder(t.r));
    PairsConcat(InOrder(t.l), [t.e]);
  }

  lemma Transitive(cmp: Cmp, x: int, y: int, z: int)
    requires TotalOrder(cmp) && cmp(x, y) <= 0 && cmp(y, z) <= 0
    ensures cmp(x, z) <= 0
  {
  }

  lemma Converse(cmp: Cmp, x: int, y: int)
    requires TotalOrder(cmp)
    ensures cmp(x, y) < 0 <==> cmp(y, x) > 0
    ensures cmp(x, y) > 0 <==> cmp(y, x) < 0
  {
  }

  /** A sorted sequence, split at an entry. */
  lemma SplitSorted(a: seq<(int, int)>, e: (int, int), b: seq<(int, int)>, cmp: Cmp)
    requires Sorted(a + [e] + b, cmp)
    ensures Sorted(a, cmp) && Sorted(b, cmp)
    ensures forall i :: 0 <= i < |a| ==> cmp(a[i].0, e.0) <= 0
    ensures forall i :: 0 <= i < |b| ==> cmp(e.0, b[i].0) <= 0
  {
    hide Sorted;
    var s := a + [e] + b;
    PartsOf(a, e, b);
    SortedPart(s, a, 0, cmp);
    SortedPart(s, b, |a| + 1, cmp);
    forall i | 0 <= i < |a|
      ensures cmp(a[i].0, e.0) <= 0
    {
      SortedAt(s, i, |a|, cmp);
    }
    forall i | 0 <= i < |b|
      ensures cmp(e.0, b[i].0) <= 0
    {
      SortedAt(s, |a|, |a| + 1 + i, cmp);
    }
  }

  lemma PartsOf(a: seq<(int, int)>, e: (int, int), b: seq<(int, int)>)
    ensures var s := a + [e] + b;
            && |s| == |a| + 1 + |b| && s[|a|] == e
            && (forall i :: 0 <= i < |a| ==> s[i] == a[i]) && (forall i :: 0 <= i < |b| ==> s[|a| + 1 + i] == b[i])
  {
  }

  lemma SortedAt(s: seq<(int, int)>, i: nat, j: nat, cmp: Cmp)
    requires Sorted(s, cmp) && i < j < |s|
    ensures cmp(s[i].0, s[j].0) <= 0
  {
  }

  lemma SortedPart(s: seq<(int, int)>, p: seq<(int, int)>, at: nat, cmp: Cmp)
    requires Sorted(s, cmp) && at + |p| <= |s| && forall i :: 0 <= i < |p| ==> s[at + i] == p[i]
    ensures Sorted(p, cmp)
  {
    forall i, j | 0 <= i < j < |p|
      ensures cmp(p[i].0, p[j].0) <= 0
    {
      assert s[at + i] == p[i] && s[at + j] == p[j];
    }
  }

  /** A key below, or not below, the entry that splits a sorted sequence lies so to one whole side. */
  lemma SideOf(a: seq<(int, int)>, e: (int, int), b: seq<(int, int)>, key: int, cmp: Cmp)
    requires TotalOrder(cmp) && Sorted(a + [e] + b, cmp)
    ensures Sorted(a, cmp) && Sorted(b, cmp)
    ensures cmp(key, e.0) < 0 ==> AllAbove([e] + b, key, cmp)
    ensures cmp(key, e.0) > 0 ==> AllBelow(a + [e], key, cmp)
    ensures cmp(key, e.0) >= 0 ==> AllUpTo(a + [e], key, cmp)
  {
    hide TotalOrder, Sorted;
    SplitSorted(a, e, b, cmp);
    Converse(cmp, key, e.0);
    forall i | 0 <= i < |b| && cmp(key, e.0) < 0
      ensures cmp(key, b[i].0) < 0
    {
      Below(cmp, key, e.0, b[i].0);
    }
    forall i | 0 <= i < |a| && cmp(key, e.0) >= 0
      ensures cmp(a[i].0, key) <= 0
    {
      Transitive(cmp, a[i].0, e.0, key);
    }
    forall i | 0 <= i < |a| && cmp(key, e.0) > 0
      ensures cmp(key, a[i].0) > 0
    {
      Above(cmp, key, e.0, a[i].0);
    }
  }

  lemma Below(cmp: Cmp, x: int, y: int, z: int)
    requires TotalOrder(cmp) && cmp(x, y) < 0 && cmp(y, z) <= 0
    ensures cmp(x, z) < 0
  {
    hide TotalOrder;
    Converse(cmp, x, y);
    Converse(cmp, x, z);
    if cmp(x, z) >= 0 {
      Transitive(cmp, y, z, x);
    }
  }

  lemma Above(cmp: Cmp, x: int, y: int, z: int)
    requires TotalOrder(cmp) && cmp(x, y) > 0 && cmp(z, y) <= 0
    ensures cmp(x, z) > 0
  {
    hide TotalOrder;
    if cmp(x, z) <= 0 {
      Transitive(cmp, x, z, y);
    }
  }

  /** Some entry of p has a key equal to key. */
  ghost predicate Holds(p: seq<(int, int)>, key: int, cmp: Cmp) {
    exists i :: 0 <= i < |p| && cmp(key, p[i].0) == 0
  }

  lemma HoldsSide(a: seq<(int, int)>, e: (int, int), b: seq<(int, int)>, key: int, cmp: Cmp)
    requires TotalOrder(cmp) && Sorted(a + [e] + b, cmp)
    ensures var c := cmp(key, e.0);
            Holds(a + [e] + b, key, cmp)
            <==> if c == 0 then true else if c < 0 then Holds(a, key, cmp) else Holds(b, key, cmp)
  {
    hide TotalOrder, Sorted;
    SideOf(a, e, b, key, cmp);
    HoldsJoin(a, [e] + b, key, cmp);
    HoldsJoin(a + [e], b, key, cmp);
    assert a + ([e] + b) == a + [e] + b;
    assert (a + [e] + b)[|a|] == e;
  }

  lemma HoldsJoin(a: seq<(int, int)>, b: seq<(int, int)>, key: int, cmp: Cmp)
    ensures Holds(a + b, key, cmp) <==> Holds(a, key, cmp) || Holds(b, key, cmp)
  {
    var s := a + b;
    assert forall i :: 0 <= i < |a| ==> s[i] == a[i];
    assert forall i :: 0 <= i < |b| ==> s[|a| + i] == b[i];
    if Holds(b, key, cmp) {
      var i :| 0 <= i < |b| && cmp(key, b[i].0) == 0;
      assert cmp(key, s[|a| + i].0) == 0;
    }
  }

  /** A search stops at an entry with an equal key exactly when there is one. */
  lemma {:induction false} FindExact(t: Shape, key: int, cmp: Cmp)
    requires TotalOrder(cmp) && Sorted(Contents(t), cmp)
    ensures Find(t, key, cmp).T? <==> Holds(Contents(t), key, cmp)
    ensures Find(t, key, cmp).T? ==> cmp(key, Find(t, key, cmp).e.key) == 0
  {
    hide TotalOrder, Sorted, Holds;
    if t.T? {
      ContentsSplit(t);
      HoldsSide(Contents(t.l), (t.e.key, t.e.attr), Contents(t.r), key, cmp);
      SideOf(Contents(t.l), (t.e.key, t.e.attr), Contents(t.r), key, cmp);
      FindExact(t.l, key, cmp);
      FindExact(t.r, key, cmp);
    } else {
      NoneHeld(key, cmp);
    }
  }

  lemma NoneHeld(key: int, cmp: Cmp)
    ensures !Holds(Contents(E), key, cmp)
  {
  }

  // ---------- insertion ----------

  /** The hole at the foot of the path an insertion descends: left only when strictly less. */
  function Descend(z: Zip, t: Shape, key: int, cmp: Cmp): Zip
    decreases t
  {
    if t.E? then z
    else if cmp(key, t.e.key) < 0 then Descend(InLeft(z, t.c, t.e, t.r), t.l, key, cmp)
    else Descend(InRight(z, t.l, t.c, t.e), t.r, key, cmp)
  }

  lemma {:induction false} DescendPlug(z: Zip, t: Shape, key: int, cmp: Cmp)
    ensures Plug(Descend(z, t, key, cmp), E) == Plug(z, t)
    ensures t.T? ==> !Descend(z, t, key, cmp).Top?
    decreases t
  {
    if t.T? {
      DescendPlug(InLeft(z, t.c, t.e, t.r), t.l, key, cmp);
      DescendPlug(InRight(z, t.l, t.c, t.e), t.r, key, cmp);
    }
  }

  lemma AllJoin(a: seq<(int, int)>, b: seq<(int, int)>, key: int, cmp: Cmp)
    ensures AllUpTo(a, key, cmp) && AllUpTo(b, key, cmp) ==> AllUpTo(a + b, key, cmp)
    ensures AllAbove(a, key, cmp) && AllAbove(b, key, cmp) ==> AllAbove(a + b, key, cmp)
  {
  }

  lemma {:induction false} DescendPlace(z: Zip, t: Shape, key: int, cmp: Cmp)
    requires TotalOrder(cmp) && Sorted(Contents(t), cmp)
    requires AllUpTo(Pairs(Before(z)), key, cmp) && AllAbove(Pairs(After(z)), key, cmp)
    ensures AllUpTo(Pairs(Before(Descend(z, t, key, cmp))), key, cmp)
    ensures AllAbove(Pairs(After(Descend(z, t, key, cmp))), key, cmp)
    decreases t
  {
    hide TotalOrder, Sorted, AllUpTo, AllAbove;
    if t.T? {
      ContentsSplit(t);
      var l, e, r := Contents(t.l), (t.e.key, t.e.attr), Contents(t.r);
      SideOf(l, e, r, key, cmp);
      if cmp(key, t.e.key) < 0 {
        PairsConcat([t.e] + InOrder(t.r), After(z));
        PairsConcat([t.e], InOrder(t.r));
        AllJoin([e] + r, Pairs(After(z)), key, cmp);
        assert Pairs([t.e]) == [e];
        DescendPlace(InLeft(z, t.c, t.e, t.r), t.l, key, cmp);
      } else {
        PairsConcat(Before(z), InOrder(t.l) + [t.e]);
        PairsConcat(InOrder(t.l), [t.e]);
        assert Pairs([t.e]) == [e];
        AllJoin(Pairs(Before(z)), l + [e], key, cmp);
        DescendPlace(InRight(z, t.l, t.c, t.e), t.r, key, cmp);
      }
    }
  }

  /** The tree after an insertion. */
  function Inserted(t: Shape, e: Entry, cmp: Cmp): Shape
    requires Colored(t)
  {
    if t.E? then T(E, Black, e, E)
    else
      DescendColored(t, e.key, cmp);
      Fix1(Descend(Top, t, e.key, cmp), T(E, Red, e, E))
  }

  lemma DescendColored(t: Shape, key: int, cmp: Cmp)
    requires Colored(t) && t.T?
    ensures var z := Descend(Top, t, key, cmp); !z.Top? && RootBlackZip(z) && NoRedRedZip(z, false)
  {
    var z := Descend(Top, t, key, cmp);
    DescendPlug(Top, t, key, cmp);
    RootBlackSplit(z, E);
    NoRedRedPlug(z, E);
  }

  /** p is s with x put after all keys up to its own and before all greater ones. */
  ghost predicate InsertedAfterEquals(s: seq<(int, int)>, x: (int, int), p: seq<(int, int)>, cmp: Cmp) {
    exists i :: 0 <= i <= |s| && p == s[..i] + [x] + s[i..] && AllUpTo(s[..i], x.0, cmp) && AllAbove(s[i..], x.0, cmp)
  }

  /** Insertion puts the entry after all equal keys, keeps the colors, and keeps equal black heights. */
  lemma InsertionKeeps(t: Shape, e: Entry, cmp: Cmp)
    requires TotalOrder(cmp) && Sorted(Contents(t), cmp) && Colored(t)
    ensures var t' := Inserted(t, e, cmp);
            && Colored(t') && (Even(t) ==> Even(t'))
            && InsertedAfterEquals(Contents(t), (e.key, e.attr), Contents(t'), cmp)
            && Sorted(Contents(t'), cmp)
  {
    hide TotalOrder, Sorted, InsertedAfterEquals, Colored, Even, Inserted, Contents;
    InsertionPlace(t, e, cmp);
    InsertedColored(t, e, cmp);
    if Even(t) {
      InsertedEven(t, e, cmp);
    }
    SortedInsertion(Contents(t), (e.key, e.attr), Contents(Inserted(t, e, cmp)), cmp);
  }

  lemma InsertionPlace(t: Shape, e: Entry, cmp: Cmp)
    requires TotalOrder(cmp) && Sorted(Contents(t), cmp) && Colored(t)
    ensures InsertedAfterEquals(Contents(t), (e.key, e.attr), Contents(Inserted(t, e, cmp)), cmp)
  {
    if t.E? {
      NoneBeside(e.key, cmp);
      InsertedBetween([], e, [], cmp);
    } else {
      BelowPlace(t, e, cmp);
    }
  }

  lemma BelowPlace(t: Shape, e: Entry, cmp: Cmp)
    requires TotalOrder(cmp) && Sorted(Contents(t), cmp) && Colored(t) && t.T?
    ensures InsertedAfterEquals(Contents(t), (e.key, e.attr), Contents(Inserted(t, e, cmp)), cmp)
  {
    hide TotalOrder, Sorted, AllUpTo, AllAbove, Descend, Fix1, NoRedRedZip, RootBlackZip, InsertedAfterEquals, Colored;
    var z, n := Descend(Top, t, e.key, cmp), T(E, Red, e, E);
    DescendColored(t, e.key, cmp);
    DescendPlug(Top, t, e.key, cmp);
    NoneBeside(e.key, cmp);
    DescendPlace(Top, t, e.key, cmp);
    Fix1InOrder(z, n);
    InOrderPlug(z, n);
    InOrderPlug(z, E);
    InsertedBetween(Before(z), e, After(z), cmp);
    assert InOrder(n) == [e];
  }

  lemma InsertedBetween(b: seq<Entry>, e: Entry, a: seq<Entry>, cmp: Cmp)
    requires AllUpTo(Pairs(b), e.key, cmp) && AllAbove(Pairs(a), e.key, cmp)
    ensures InsertedAfterEquals(Pairs(b + [] + a), (e.key, e.attr), Pairs(b + [e] + a), cmp)
  {
    var s := Pairs(b + a);
    assert b + [] + a == b + a;
    SplitAt(b, e, a);
    assert Pairs(b + [e] + a) == s[..|b|] + [(e.key, e.attr)] + s[|b|..];
  }

  lemma NoneBeside(key: int, cmp: Cmp)
    ensures AllUpTo(Pairs([]), key, cmp) && AllAbove(Pairs([]), key, cmp)
  {
  }

  lemma SplitAt(a: seq<Entry>, e: Entry, b: seq<Entry>)
    ensures var s := Pairs(a + b); s[..|a|] == Pairs(a) && s[|a|..] == Pairs(b)
    ensures Pairs(a + [e] + b) == Pairs(a) + [(e.key, e.attr)] + Pairs(b)
  {
    PairsConcat(a, b);
    PairsConcat(a + [e], b);
    PairsConcat(a, [e]);
    assert Pairs([e]) == [(e.key, e.attr)];
  }

  lemma InsertedEven(t: Shape, e: Entry, cmp: Cmp)
    requires Colored(t) && Even(t)
    ensures Even(Inserted(t, e, cmp))
  {
    if t.T? {
      var z := Descend(Top, t, e.key, cmp);
      DescendColored(t, e.key, cmp);
      DescendPlug(Top, t, e.key, cmp);
      EvenPlug(z, E);
      Fix1Even(z, T(E, Red, e, E));
    }
  }

  lemma SortedInsertion(s: seq<(int, int)>, x: (int, int), p: seq<(int, int)>, cmp: Cmp)
    requires TotalOrder(cmp) && Sorted(s, cmp) && InsertedAfterEquals(s, x, p, cmp)
    ensures Sorted(p, cmp)
  {
    hide TotalOrder;
    var i :| 0 <= i <= |s| && p == s[..i] + [x] + s[i..] && AllUpTo(s[..i], x.0, cmp) && AllAbove(s[i..], x.0, cmp);
    forall j, k | 0 <= j < k < |p|
      ensures cmp(p[j].0, p[k].0) <= 0
    {
      if j < i {
        assert p[j] == s[j] == s[..i][j];
        assert k < i ==> p[k] == s[k];
        assert k > i ==> p[k] == s[k - 1];
      } else if j == i {
        assert p[k] == s[k - 1] == s[i..][k - i - 1];
      } else {
        assert p[j] == s[j - 1] && p[k] == s[k - 1];
      }
    }
  }

  // ---------- height ----------

  function Height(t: Shape): nat {
    if t.E? then 0 else 1 + if Height(t.l) > Height(t.r) then Height(t.l) else Height(t.r)
  }

  function Pow2(n: nat): nat {
    if n == 0 then 1 else 2 * Pow2(n - 1)
  }

  lemma {:induction false} HeightBound(t: Shape)
    requires NoRedRed(t) && Even(t)
    ensures Height(t) <= 2 * BlackHeight(t) + if IsRed(t) then 1 else 0
    ensures Pow2(BlackHeight(t)) <= |InOrder(t)| + 1
  {
    if t.T? {
      HeightBound(t.l);
      HeightBound(t.r);
    }
  }

  lemma {:induction false} Pow2Monotone(a: nat, b: nat)
    requires a <= b
    ensures Pow2(a) <= Pow2(b)
  {
    if a < b {
      Pow2Monotone(a, b - 1);
    }
  }

  lemma {:induction false} Pow2Double(a: nat)
    ensures Pow2(2 * a) == Pow2(a) * Pow2(a)
  {
    if a > 0 {
      Pow2Double(a - 1);
      assert Pow2(2 * a) == 2 * Pow2(2 * a - 1) == 4 * Pow2(2 * (a - 1));
    }
  }

  lemma MulMonotone(a: nat, b: nat, k: nat)
    requires a <= b
    ensures a * k <= b * k
  {
    assert (b - a) * k >= 0;
  }

  lemma SquareMonotone(a: nat, b: nat)
    requires a <= b
    ensures a * a <= b * b
  {
    MulMonotone(a, b, a);
    MulMonotone(a, b, b);
  }

  /** The shapes that insertions alone build from the empty tree. */
  function InsertAll(es: seq<Entry>, cmp: Cmp): (t: Shape)
    ensures Colored(t)
  {
    if es == [] then E
    else
      var t := InsertAll(es[..|es| - 1], cmp);
      InsertedColored(t, es[|es| - 1], cmp);
      Inserted(t, es[|es| - 1], cmp)
  }

  lemma InsertedColored(t: Shape, e: Entry, cmp: Cmp)
    requires Colored(t)
    ensures Colored(Inserted(t, e, cmp))
  {
    if t.T? {
      DescendColored(t, e.key, cmp);
      Fix1Colored(Descend(Top, t, e.key, cmp), T(E, Red, e, E));
    }
  }

  /** A tree built by N insertions has equal black heights and height at most 2 log2 (N + 1). */
  lemma {:induction false} InsertOnlyHeight(es: seq<Entry>, cmp: Cmp)
    requires TotalOrder(cmp)
    ensures var t := InsertAll(es, cmp); var n := |es|;
            && Even(t) && |InOrder(t)| == n && Sorted(Contents(t), cmp)
            && Pow2(Height(t)) <= (n + 1) * (n + 1)
    decreases |es|
  {
    var t := InsertAll(es, cmp);
    if es != [] {
      InsertOnlyHeight(es[..|es| - 1], cmp);
      InsertionKeeps(InsertAll(es[..|es| - 1], cmp), es[|es| - 1], cmp);
    }
    HeightBound(t);
    Pow2Monotone(Height(t), 2 * BlackHeight(t));
    Pow2Double(BlackHeight(t));
    SquareMonotone(Pow2(BlackHeight(t)), |es| + 1);
  }

  // ---------- deletion ----------

  /** The hole of the rightmost node of t, and that node's subtree. */
  function MaxZip(z: Zip, t: Shape): Zip
    requires t.T?
    decreases t
  {
    if t.r.E? then z else MaxZip(InRight(z, t.l, t.c, t.e), t.r)
  }

  function MaxTree(t: Shape): (m: Shape)
    requires t.T?
    ensures m.T? && m.r.E?
  {
    if t.r.E? then t else MaxTree(t.r)
  }

  lemma {:induction false} MaxPlug(z: Zip, t: Shape)
    requires t.T?
    ensures Plug(MaxZip(z, t), MaxTree(t)) == Plug(z, t)
    decreases t
  {
    if t.r.T? {
      MaxPlug(InRight(z, t.l, t.c, t.e), t.r);
    }
  }

  /** The rightmost node holds the last entry. */
  lemma {:induction false} MaxIsLast(z: Zip, t: Shape)
    requires t.T?
    ensures var s := InOrder(t); |s| > 0 && MaxTree(t).e == s[|s| - 1]
    ensures var s := InOrder(t); Before(MaxZip(z, t)) + InOrder(MaxTree(t).l) == Before(z) + s[..|s| - 1]
    ensures After(MaxZip(z, t)) == After(z)
    decreases t
  {
    var s := InOrder(t);
    if t.r.E? {
      assert InOrder(t.r) == [] && s == InOrder(t.l) + [t.e];
      assert s[..|s| - 1] == InOrder(t.l);
    } else {
      var z' := InRight(z, t.l, t.c, t.e);
      MaxIsLast(z', t.r);
      var u := InOrder(t.r);
      assert Before(z') + u[..|u| - 1] == Before(z) + s[..|s| - 1];
    }
  }

  /** Unlinks a node with at most one child. */
  function Unlinked(z: Zip, t: Shape): Shape
    requires t.T? && (t.l.E? || t.r.E?)
  {
    var c := if t.l.T? then t.l else t.r;
    if t.c == Black && c.T? then
      if IsRed(c) then Plug(z, Paint(c, Black)) else Del1(z, c)
    else Plug(z, c)
  }

  /** The context of a node that took over key and attr of its predecessor. */
  function Overwritten(z: Zip, t: Shape): Zip
    requires t.T? && t.l.T?
  {
    var m := MaxTree(t.l).e;
    InLeft(z, t.c, Entry(t.e.n, m.key, m.attr), t.r)
  }

  /** The tree after the deletion of the node at the root of t. */
  function Deleted(z: Zip, t: Shape): Shape
    requires t.T?
  {
    if t.l.T? && t.r.T? then Unlinked(MaxZip(Overwritten(z, t), t.l), MaxTree(t.l)) else Unlinked(z, t)
  }

  lemma UnlinkedColored(z: Zip, t: Shape)
    requires t.T? && (t.l.E? || t.r.E?) && Colored(Plug(z, t))
    ensures Colored(Unlinked(z, t))
  {
    hide Del1;
    var c := if t.l.T? then t.l else t.r;
    NoRedRedPlug(z, t);
    RootBlackSplit(z, t);
    if t.c == Black && c.T? {
      if IsRed(c) {
        NoRedRedPlug(z, Paint(c, Black));
        RootBlackPlug(z, Paint(c, Black));
      } else {
        Del1Colored(z, c);
      }
    } else {
      NoRedRedPlug(z, c);
      RootBlackPlug(z, c);
    }
  }

  lemma UnlinkedInOrder(z: Zip, t: Shape)
    requires t.T? && (t.l.E? || t.r.E?)
    ensures InOrder(Unlinked(z, t)) == (Before(z) + InOrder(t.l)) + (InOrder(t.r) + After(z))
  {
    hide Del1, Plug, Before, After;
    var c := if t.l.T? then t.l else t.r;
    InOrderPlug(z, c);
    assert (Before(z) + InOrder(t.l)) + (InOrder(t.r) + After(z)) == Before(z) + InOrder(c) + After(z);
    if t.c == Black && c.T? {
      if IsRed(c) {
        InOrderPlug(z, Paint(c, Black));
      } else {
        Del1InOrder(z, c);
      }
    }
  }

  lemma UnlinkedKeeps(z: Zip, t: Shape)
    requires t.T? && (t.l.E? || t.r.E?) && Colored(Plug(z, t))
    ensures Colored(Unlinked(z, t))
    ensures InOrder(Unlinked(z, t)) == (Before(z) + InOrder(t.l)) + (InOrder(t.r) + After(z))
  {
    hide *;
    UnlinkedColored(z, t);
    UnlinkedInOrder(z, t);
  }

  /** Deletion removes exactly the chosen entry and keeps the colors. */
  lemma DeletionKeeps(z: Zip, t: Shape)
    requires t.T? && Colored(Plug(z, t))
    ensures Colored(Deleted(z, t))
    ensures var i := |Before(z)| + |InOrder(t.l)|;
            var s := Contents(Plug(z, t));
            && i < |s| && s[i] == (t.e.key, t.e.attr)
            && Contents(Deleted(z, t)) == s[..i] + s[i + 1..]
  {
    hide Colored, Deleted, Before, After, Plug, Pairs, InOrder;
    var b, a := Before(z) + InOrder(t.l), InOrder(t.r) + After(z);
    PlugAround(z, t);
    DeletedInOrder(z, t);
    Removed(b, t.e, a);
  }

  lemma PlugAround(z: Zip, t: Shape)
    requires t.T?
    ensures InOrder(Plug(z, t)) == (Before(z) + InOrder(t.l)) + [t.e] + (InOrder(t.r) + After(z))
  {
    hide Plug, Before, After;
    InOrderPlug(z, t);
    assert Before(z) + (InOrder(t.l) + [t.e] + InOrder(t.r)) + After(z)
        == (Before(z) + InOrder(t.l)) + [t.e] + (InOrder(t.r) + After(z));
  }

  lemma Removed(b: seq<Entry>, e: Entry, a: seq<Entry>)
    ensures var s := Pairs(b + [e] + a);
            && |b| < |s| && s[|b|] == (e.key, e.attr)
            && Pairs(b + a) == s[..|b|] + s[|b| + 1..]
  {
  }

  lemma DeletedInOrder(z: Zip, t: Shape)
    requires t.T? && Colored(Plug(z, t))
    ensures Colored(Deleted(z, t))
    ensures Contents(Deleted(z, t)) == Pairs((Before(z) + InOrder(t.l)) + (InOrder(t.r) + After(z)))
  {
    if t.l.T? && t.r.T? {
      OverwrittenColored(z, t);
      OverwrittenInOrder(z, t);
    } else {
      UnlinkedKeeps(z, t);
    }
  }

  lemma OverwrittenInOrder(z: Zip, t: Shape)
    requires t.T? && t.l.T? && t.r.T? && Colored(Plug(Overwritten(z, t), t.l))
    ensures Colored(Deleted(z, t))
    ensures Contents(Deleted(z, t)) == Pairs((Before(z) + InOrder(t.l)) + (InOrder(t.r) + After(z)))
  {
    hide Colored, Plug, InOrder, Before, After, Unlinked, MaxZip, MaxTree, Overwritten, Pairs;
    var y, m := Overwritten(z, t), MaxTree(t.l);
    var q := MaxZip(y, t.l);
    MaxPlug(y, t.l);
    UnlinkedKeeps(q, m);
    MaxIsLast(y, t.l);
    var s := InOrder(t.l);
    OverwrittenPairs(z, t);
    assert Before(q) + InOrder(m.l) == Before(y) + s[..|s| - 1];
    assert InOrder(m.r) + After(q) == InOrder(m.r) + After(y);
  }

  /** The last entry of the left subtree moves into the place of the root. */
  lemma OverwrittenPairs(z: Zip, t: Shape)
    requires t.T? && t.l.T? && t.r.T?
    ensures var (y, s) := (Overwritten(z, t), InOrder(t.l));
            |s| > 0 && Pairs((Before(y) + s[..|s| - 1]) + (InOrder(MaxTree(t.l).r) + After(y)))
                       == Pairs((Before(z) + s) + (InOrder(t.r) + After(z)))
  {
    hide Plug, InOrder, MaxZip, Before, After, Pairs;
    var y, m := Overwritten(z, t), MaxTree(t.l);
    var s, a := InOrder(t.l), InOrder(t.r) + After(z);
    MaxIsLast(y, t.l);
    LastAlone(t.l);
    Beside(z, t, y.e);
    assert s == s[..|s| - 1] + [m.e];
    EntrySwap(Before(z), s[..|s| - 1], m.e, y.e, a);
  }

  lemma LastAlone(t: Shape)
    requires t.T?
    ensures InOrder(MaxTree(t).r) == []
  {
  }

  /** The entries beside the left subtree of t, with another entry at its root. */
  lemma Beside(z: Zip, t: Shape, e: Entry)
    requires t.T?
    ensures var y := InLeft(z, t.c, e, t.r); Before(y) == Before(z) && After(y) == [e] + (InOrder(t.r) + After(z))
  {
    hide InOrder;
    assert [e] + InOrder(t.r) + After(z) == [e] + (InOrder(t.r) + After(z));
  }

  lemma EntrySwap(b: seq<Entry>, s: seq<Entry>, m: Entry, y: Entry, a: seq<Entry>)
    requires m.key == y.key && m.attr == y.attr
    ensures Pairs((b + s) + ([] + ([y] + a))) == Pairs((b + (s + [m])) + a)
  {
  }

  lemma OverwrittenColored(z: Zip, t: Shape)
    requires t.T? && t.l.T? && Colored(Plug(z, t))
    ensures Colored(Plug(Overwritten(z, t), t.l))
  {
    var y := Overwritten(z, t);
    NoRedRedPlug(z, t);
    RootBlackSplit(z, t);
    NoRedRedPlug(y, t.l);
    RootBlackPlug(y, t.l);
  }

  /** The node that a deletion takes out of its place: the predecessor of a node with two children. */
  function Victim(t: Shape): (m: Shape)
    requires t.T?
    ensures m.T? && (m.l.E? || m.r.E?)
  {
    if t.l.T? && t.r.T? then MaxTree(t.l) else t
  }

  lemma {:induction false} UnlinkedEven(z: Zip, t: Shape)
    requires t.T? && (t.l.E? || t.r.E?) && Colored(Plug(z, t)) && Even(Plug(z, t))
    ensures Even(Unlinked(z, t)) <==> z.Top? || t.c == Red || t.l.T? || t.r.T?
  {
    var c := if t.l.T? then t.l else t.r;
    NoRedRedPlug(z, t);
    EvenPlug(z, t);
    EvenPlug(z, c);
    assert c.T? ==> BlackHeight(c) == 0 && NoRedRed(c);
    EvenPlug(z, Paint(c, Black));
  }

  /** Deletion keeps equal black heights exactly when the node taken out is red, has a child, or is the whole tree:
      the fix-up is skipped for a black node without a child. */
  lemma DeletionEven(z: Zip, t: Shape)
    requires t.T? && Colored(Plug(z, t)) && Even(Plug(z, t))
    ensures var m := Victim(t);
            Even(Deleted(z, t)) <==> m.c == Red || m.l.T? || m.r.T? || Plug(z, t) == m
  {
    if t.l.T? && t.r.T? {
      var y := Overwritten(z, t);
      OverwrittenColored(z, t);
      EvenPlug(z, t);
      EvenPlug(y, t.l);
      MaxPlug(y, t.l);
      UnlinkedEven(MaxZip(y, t.l), MaxTree(t.l));
      DeeperPlug(z, T(t.l, t.c, t.e, t.r));
      NodeCount(t.l);
      InOrderPlug(z, t);
      MaxZipDeep(y, t.l);
    } else {
      UnlinkedEven(z, t);
      InOrderPlug(z, t);
      DeeperPlug(z, t);
    }
  }

  lemma {:induction false} MaxZipDeep(z: Zip, t: Shape)
    requires t.T? && !z.Top?
    ensures !MaxZip(z, t).Top?
    decreases t
  {
    if t.r.T? {
      MaxZipDeep(InRight(z, t.l, t.c, t.e), t.r);
    }
  }

  lemma {:induction false} NodeCount(t: Shape)
    requires t.T?
    ensures |InOrder(MaxTree(t))| <= |InOrder(t)|
  {
    if t.r.T? {
      NodeCount(t.r);
    }
  }

  lemma DeeperPlug(z: Zip, t: Shape)
    ensures Plug(z, t) == t <==> z.Top?
  {
    InOrderPlug(z, t);
    if !z.Top? {
      assert |Before(z)| + |After(z)| > 0;
    }
  }

  // ---------- a deletion that loses equal black heights ----------

  function Leaf(e: Entry): Shape {
    T(E, Black, e, E)
  }

  lemma InsertNext(es: seq<Entry>, e: Entry, cmp: Cmp)
    ensures InsertAll(es + [e], cmp) == Inserted(InsertAll(es, cmp), e, cmp)
  {
    assert (es + [e])[..|es|] == es;
  }

  /** Four entries inserted in rising order: a black root with two black children, and a red node below the right
      one. */
  lemma FourInserted(a: Entry, b: Entry, c: Entry, d: Entry)
    requires a.key < b.key < c.key < d.key
    ensures InsertAll([a, b, c, d], Compare) == T(Leaf(a), Black, b, T(E, Black, c, T(E, Red, d, E)))
  {
    hide InsertAll;
    NoneInserted(Compare);
    InsertNext([], a, Compare);
    InsertNext([a], b, Compare);
    InsertNext([a, b], c, Compare);
    InsertNext([a, b, c], d, Compare);
    assert [] + [a] == [a] && [a] + [b] == [a, b] && [a, b] + [c] == [a, b, c] && [a, b, c] + [d] == [a, b, c, d];
    FirstInserted(a);
    SecondInserted(a, b);
    ThirdInserted(a, b, c);
    FourthInserted(a, b, c, d);
  }

  lemma NoneInserted(cmp: Cmp)
    ensures InsertAll([], cmp) == E
  {
  }

  lemma FirstInserted(a: Entry)
    ensures Inserted(E, a, Compare) == Leaf(a)
  {
  }

  lemma SecondInserted(a: Entry, b: Entry)
    requires a.key < b.key
    ensures Colored(Leaf(a)) && Inserted(Leaf(a), b, Compare) == T(E, Black, a, T(E, Red, b, E))
  {
    var z := InRight(Top, E, Black, a);
    assert Descend(Top, Leaf(a), b.key, Compare) == Descend(z, E, b.key, Compare) == z;
    assert Fix1(z, T(E, Red, b, E)) == Plug(z, T(E, Red, b, E)) == Plug(Top, T(E, Black, a, T(E, Red, b, E)));
  }

  lemma ThirdInserted(a: Entry, b: Entry, c: Entry)
    requires a.key < b.key < c.key
    ensures var t := T(E, Black, a, T(E, Red, b, E));
            Colored(t) && Inserted(t, c, Compare) == T(T(E, Red, a, E), Black, b, T(E, Red, c, E))
  {
    var t := T(E, Black, a, T(E, Red, b, E));
    var z := InRight(InRight(Top, E, Black, a), E, Red, b);
    assert Descend(Top, t, c.key, Compare) == Descend(InRight(Top, E, Black, a), T(E, Red, b, E), c.key, Compare) == z;
    assert Fix1(z, T(E, Red, c, E)) == Fix4(z, T(E, Red, c, E)) == Fix5(z, T(E, Red, c, E));
  }

  lemma FourthInserted(a: Entry, b: Entry, c: Entry, d: Entry)
    requires a.key < b.key < c.key < d.key
    ensures var t := T(T(E, Red, a, E), Black, b, T(E, Red, c, E));
            && Colored(t)
            && Inserted(t, d, Compare) == T(Leaf(a), Black, b, T(E, Black, c, T(E, Red, d, E)))
  {
    var l := T(E, Red, a, E);
    var t := T(l, Black, b, T(E, Red, c, E));
    var y := InRight(Top, l, Black, b);
    var z := InRight(y, E, Red, c);
    assert Descend(Top, t, d.key, Compare) == Descend(y, T(E, Red, c, E), d.key, Compare) == z;
    assert Fix1(z, T(E, Red, d, E)) == Fix1(Top, Recolored(z, T(E, Red, d, E)));
  }

  /** An even tree built by insertions alone, and a deletion after which it is not even: that of the least entry. */
  lemma UnevenDeletion(a: Entry, b: Entry, c: Entry, d: Entry)
    requires a.key < b.key < c.key < d.key
    ensures var t := InsertAll([a, b, c, d], Compare); var z := InLeft(Top, Black, b, T(E, Black, c, T(E, Red, d, E)));
            t == Plug(z, Leaf(a)) && Even(t) && !Even(Deleted(z, Leaf(a)))
  {
    FourInserted(a, b, c, d);
    var z := InLeft(Top, Black, b, T(E, Black, c, T(E, Red, d, E)));
    assert Even(T(E, Red, d, E)) && BlackHeight(T(E, Red, d, E)) == 0;
    assert Even(T(E, Black, c, T(E, Red, d, E))) && BlackHeight(T(E, Black, c, T(E, Red, d, E))) == 1;
    assert Even(Leaf(a)) && BlackHeight(Leaf(a)) == 1;
    assert Plug(z, Leaf(a)) == Plug(Top, T(Leaf(a), Black, b, T(E, Black, c, T(E, Red, d, E))));
    DeletionEven(z, Leaf(a));
  }
}
