/** Quickselect that compacts the side it keeps by overwriting the elements of the other. */
module QSelect {
  import opened RbOrder

  // ---------- ranks ----------

  /** Elements of s greater than v, and elements not less than v. */
  function Greater(s: seq<int>, v: int, cmp: Cmp): nat {
    if s == [] then 0 else (if cmp(v, s[0]) < 0 then 1 else 0) + Greater(s[1..], v, cmp)
  }

  function NotLess(s: seq<int>, v: int, cmp: Cmp): nat {
    if s == [] then 0 else (if cmp(v, s[0]) <= 0 then 1 else 0) + NotLess(s[1..], v, cmp)
  }

  /** The elements on the kept side of the pivot: the greater ones, or the lesser ones. */
  function Kept(s: seq<int>, pivot: int, up: bool, cmp: Cmp): (t: seq<int>)
    ensures |t| <= |s|
  {
    if s == [] then []
    else (if IsKept(cmp(pivot, s[0]), up) then [s[0]] else []) + Kept(s[1..], pivot, up, cmp)
  }

  predicate IsKept(r: int, up: bool) {
    if up then r < 0 else r > 0
  }

  lemma {:induction false} KeptConcat(a: seq<int>, b: seq<int>, pivot: int, up: bool, cmp: Cmp)
    ensures Kept(a + b, pivot, up, cmp) == Kept(a, pivot, up, cmp) + Kept(b, pivot, up, cmp)
  {
    if a == [] {
      assert a + b == b;
    } else {
      assert (a + b)[1..] == a[1..] + b;
      KeptConcat(a[1..], b, pivot, up, cmp);
      var first := if IsKept(cmp(pivot, a[0]), up) then [a[0]] else [];
      Associate(first, Kept(a[1..], pivot, up, cmp), Kept(b, pivot, up, cmp));
    }
  }

  lemma Associate(a: seq<int>, b: seq<int>, c: seq<int>)
    ensures a + (b + c) == a + b + c
  {
  }

  lemma {:induction false} RankRemove(s: seq<int>, i: nat, v: int, cmp: Cmp)
    requires i < |s|
    ensures var t := s[..i] + s[i + 1..];
            && Greater(s, v, cmp) == Greater(t, v, cmp) + (if cmp(v, s[i]) < 0 then 1 else 0)
            && NotLess(s, v, cmp) == NotLess(t, v, cmp) + (if cmp(v, s[i]) <= 0 then 1 else 0)
  {
    var t := s[..i] + s[i + 1..];
    if i == 0 {
      assert t == s[1..];
    } else {
      assert t[1..] == s[1..][..i - 1] + s[1..][i..];
      RankRemove(s[1..], i - 1, v, cmp);
    }
  }

  lemma TakeOut(s: seq<int>, t: seq<int>) returns (i: nat)
    requires multiset(s) == multiset(t) && s != []
    ensures i < |t| && t[i] == s[0] && multiset(s[1..]) == multiset(t[..i] + t[i + 1..])
  {
    assert s == [s[0]] + s[1..];
    assert s[0] in multiset(t);
    i :| 0 <= i < |t| && t[i] == s[0];
    assert t == t[..i] + [t[i]] + t[i + 1..];
    assert multiset(t[..i] + t[i + 1..]) == multiset(t) - multiset{t[i]};
    assert multiset(s[1..]) == multiset(s) - multiset{s[0]};
  }

  /** Ranks depend only on which elements there are. */
  lemma {:induction false} RankOfMultiset(s: seq<int>, t: seq<int>, v: int, cmp: Cmp)
    requires multiset(s) == multiset(t)
    ensures Greater(s, v, cmp) == Greater(t, v, cmp) && NotLess(s, v, cmp) == NotLess(t, v, cmp)
    decreases |s|
  {
    if s == [] {
      assert |multiset(t)| == 0;
    } else {
      var i := TakeOut(s, t);
      RankOfMultiset(s[1..], t[..i] + t[i + 1..], v, cmp);
      RankRemove(t, i, v, cmp);
    }
  }

  /** For a kept element, what is thrown away is all below it, or all above it. */
  lemma {:induction false} RankKept(s: seq<int>, pivot: int, up: bool, v: int, cmp: Cmp)
    requires TotalOrder(cmp) && IsKept(cmp(pivot, v), up)
    ensures var t := Kept(s, pivot, up, cmp); var gone := if up then 0 else |s| - |t|;
            Greater(s, v, cmp) == Greater(t, v, cmp) + gone && NotLess(s, v, cmp) == NotLess(t, v, cmp) + gone
  {
    hide TotalOrder;
    if s != [] {
      RankKept(s[1..], pivot, up, v, cmp);
      var e, t := s[0], Kept(s[1..], pivot, up, cmp);
      assert ([e] + t)[1..] == t && [] + t == t;
      if IsKept(cmp(pivot, e), up) {
      } else if up {
        Converse(cmp, pivot, e);
        BelowAll(cmp, e, pivot, v);
      } else {
        Converse(cmp, pivot, v);
        BelowAll(cmp, v, pivot, e);
      }
    }
  }

  /** x not above y, y below z: x is below z. */
  lemma BelowAll(cmp: Cmp, x: int, y: int, z: int)
    requires TotalOrder(cmp)
    ensures cmp(x, y) <= 0 && cmp(y, z) < 0 ==> cmp(x, z) < 0 && cmp(z, x) > 0
    ensures cmp(x, y) < 0 && cmp(y, z) <= 0 ==> cmp(x, z) < 0 && cmp(z, x) > 0
  {
    hide TotalOrder;
    Converse(cmp, x, z);
    Converse(cmp, y, z);
    Converse(cmp, x, y);
    if cmp(x, y) <= 0 && cmp(y, z) <= 0 && cmp(x, z) >= 0 {
      if cmp(y, z) < 0 {
        Transitive(cmp, z, x, y);
      } else {
        Transitive(cmp, y, z, x);
      }
    }
  }

  // ---------- the program ----------

  /** The signs of comparing the pivot, the first element of the window, with every other. */
  ghost predicate Signs(w: seq<int>, rv: seq<int>, cmp: Cmp) {
    |w| > 0 && |rv| >= |w| && forall q :: 1 <= q < |w| ==> rv[q] == cmp(w[0], w[q])
  }

  /** The kept elements among w[lo..hi], as a multiset. */
  ghost function Picked(w: seq<int>, lo: nat, hi: nat, up: bool, cmp: Cmp): (m: multiset<int>)
    requires 0 < lo <= hi <= |w|
    ensures |m| <= hi - lo
  {
    multiset(Kept(w[lo..hi], w[0], up, cmp))
  }

  lemma PickFirst(w: seq<int>, lo: nat, hi: nat, up: bool, cmp: Cmp)
    requires 0 < lo < hi <= |w|
    ensures Picked(w, lo, hi, up, cmp)
            == (if IsKept(cmp(w[0], w[lo]), up) then multiset{w[lo]} else multiset{}) + Picked(w, lo + 1, hi, up, cmp)
  {
    var s := w[lo..hi];
    assert s[1..] == w[lo + 1..hi];
    assert multiset([w[lo]] + Kept(s[1..], w[0], up, cmp)) == multiset{w[lo]} + multiset(Kept(s[1..], w[0], up, cmp));
    assert [] + Kept(s[1..], w[0], up, cmp) == Kept(s[1..], w[0], up, cmp);
  }

  lemma PickNo(w: seq<int>, lo: nat, hi: nat, up: bool, cmp: Cmp)
    requires 0 < lo < hi <= |w| && !IsKept(cmp(w[0], w[lo]), up)
    ensures Picked(w, lo, hi, up, cmp) == Picked(w, lo + 1, hi, up, cmp)
  {
    PickFirst(w, lo, hi, up, cmp);
  }

  lemma PickYes(w: seq<int>, lo: nat, hi: nat, up: bool, cmp: Cmp)
    requires 0 < lo < hi <= |w| && IsKept(cmp(w[0], w[lo]), up)
    ensures Picked(w, lo, hi, up, cmp) == multiset{w[lo]} + Picked(w, lo + 1, hi, up, cmp)
  {
    PickFirst(w, lo, hi, up, cmp);
  }

  /** x taken from one of the two rests and appended. */
  lemma Appended(s: seq<int>, x: int, p: multiset<int>, q: multiset<int>, r: multiset<int>)
    requires p == multiset{x} + q
    ensures multiset(s + [x]) + q + r == multiset(s) + p + r
    ensures multiset(s + [x]) + r + q == multiset(s) + r + p
  {
  }

  lemma PickSplit(w: seq<int>, lo: nat, mid: nat, hi: nat, up: bool, cmp: Cmp)
    requires 0 < lo <= mid <= hi <= |w|
    ensures Picked(w, lo, hi, up, cmp) == Picked(w, lo, mid, up, cmp) + Picked(w, mid, hi, up, cmp)
  {
    assert w[lo..hi] == w[lo..mid] + w[mid..hi];
    KeptConcat(w[lo..mid], w[mid..hi], w[0], up, cmp);
  }

  /** The next kept element from j on, if there is one. */
  method Scan(rv: array<int>, j0: nat, nmemb: nat, up: bool, ghost w: seq<int>, ghost cmp: Cmp,
              ghost done: seq<int>, ghost i: nat, ghost n: nat, ghost all: multiset<int>) returns (j: nat)
    requires nmemb == |w| && Signs(w, rv[..], cmp) && Placing(w, done, i, j0, n, up, cmp, all)
    ensures j0 <= j <= nmemb && (j < nmemb ==> IsKept(rv[j], up)) && Placing(w, done, i, j, n, up, cmp, all)
  {
    hide Picked;
    j := j0;
    while j < nmemb && !IsKept(rv[j], up)
      invariant j0 <= j <= nmemb && Placing(w, done, i, j, n, up, cmp, all)
    {
      PlacingSkips(w, done, i, j, n, up, cmp, all);
      j := j + 1;
    }
  }

  lemma PickNone(w: seq<int>, up: bool, cmp: Cmp)
    requires |w| > 0
    ensures Picked(w, |w|, |w|, up, cmp) == multiset{}
  {
  }

  /** The elements placed so far, and those still to be kept at places i .. n and from j on, make up all. */
  ghost predicate Placing(w: seq<int>, done: seq<int>, i: nat, j: nat, n: nat, up: bool, cmp: Cmp, all: multiset<int>) {
    && 1 <= i <= n + 1 <= j <= |w| && |done| == i - 1
    && multiset(done) + Picked(w, i, n + 1, up, cmp) + Picked(w, j, |w|, up, cmp) == all
  }

  lemma PlacingStarts(w: seq<int>, n: nat, up: bool, cmp: Cmp)
    requires n < |w|
    ensures Placing(w, [], 1, n + 1, n, up, cmp, Picked(w, 1, |w|, up, cmp))
  {
    hide Picked;
    PickSplit(w, 1, n + 1, |w|, up, cmp);
  }

  lemma PlacingStays(w: seq<int>, done: seq<int>, i: nat, j: nat, n: nat, up: bool, cmp: Cmp, all: multiset<int>)
    requires i <= n && Placing(w, done, i, j, n, up, cmp, all) && IsKept(cmp(w[0], w[i]), up)
    ensures Placing(w, done + [w[i]], i + 1, j, n, up, cmp, all)
  {
    hide Picked;
    PickYes(w, i, n + 1, up, cmp);
    Appended(done, w[i], Picked(w, i, n + 1, up, cmp), Picked(w, i + 1, n + 1, up, cmp), Picked(w, j, |w|, up, cmp));
  }

  lemma PlacingMoves(w: seq<int>, done: seq<int>, i: nat, j: nat, n: nat, up: bool, cmp: Cmp, all: multiset<int>)
    requires i <= n && Placing(w, done, i, j, n, up, cmp, all) && !IsKept(cmp(w[0], w[i]), up)
    requires j < |w| && IsKept(cmp(w[0], w[j]), up)
    ensures Placing(w, done + [w[j]], i + 1, j + 1, n, up, cmp, all)
  {
    hide Picked;
    PickNo(w, i, n + 1, up, cmp);
    PickYes(w, j, |w|, up, cmp);
    Appended(done, w[j], Picked(w, j, |w|, up, cmp), Picked(w, j + 1, |w|, up, cmp), Picked(w, i + 1, n + 1, up, cmp));
  }

  lemma PlacingSkips(w: seq<int>, done: seq<int>, i: nat, j: nat, n: nat, up: bool, cmp: Cmp, all: multiset<int>)
    requires Placing(w, done, i, j, n, up, cmp, all) && j < |w| && !IsKept(cmp(w[0], w[j]), up)
    ensures Placing(w, done, i, j + 1, n, up, cmp, all)
  {
    hide Picked;
    PickNo(w, j, |w|, up, cmp);
  }

  /** The scan never runs out: with i - 1 elements placed and place i to be filled, one kept element is still ahead. */
  lemma PlacingEnough(w: seq<int>, done: seq<int>, i: nat, j: nat, n: nat, up: bool, cmp: Cmp, all: multiset<int>)
    requires i <= n && Placing(w, done, i, j, n, up, cmp, all) && |all| == n && !IsKept(cmp(w[0], w[i]), up)
    ensures j < |w|
  {
    PickNo(w, i, n + 1, up, cmp);
    PickNone(w, up, cmp);
    assert |multiset(done) + Picked(w, i, n + 1, up, cmp) + Picked(w, j, |w|, up, cmp)| == n;
  }

  lemma PlacingEnds(w: seq<int>, done: seq<int>, j: nat, n: nat, up: bool, cmp: Cmp, all: multiset<int>)
    requires Placing(w, done, n + 1, j, n, up, cmp, all) && |all| == n
    ensures multiset(done) == all
  {
    var p, q := Picked(w, n + 1, n + 1, up, cmp), Picked(w, j, |w|, up, cmp);
    assert |multiset(done) + p + q| == n + |p| + |q|;
    assert |p| == 0 && |q| == 0;
  }

  /** Moves the n kept elements of the window that starts at base to the places right after its pivot. */
  method Compact(a: array<int>, rv: array<int>, base: nat, nmemb: nat, n: nat, up: bool, ghost w: seq<int>,
                 ghost cmp: Cmp)
    requires a != rv && 0 < nmemb && base + nmemb <= a.Length && w == a[base..base + nmemb] && Signs(w, rv[..], cmp)
    requires n < nmemb && n == |Picked(w, 1, nmemb, up, cmp)|
    modifies a
    ensures multiset(a[base + 1..base + 1 + n]) == Picked(w, 1, nmemb, up, cmp)
  {
    hide Picked, Placing;
    var j := n + 1;
    var i := 1;
    ghost var all := Picked(w, 1, nmemb, up, cmp);
    ghost var done: seq<int> := [];
    PlacingStarts(w, n, up, cmp);
    while i <= n
      invariant 1 <= i <= n + 1 <= j <= nmemb && Placing(w, done, i, j, n, up, cmp, all)
      invariant forall q :: base + i <= q < base + nmemb && (q <= base + n || q >= base + j) ==> a[q] == w[q - base]
      invariant |done| == i - 1 && forall q :: base + 1 <= q < base + i ==> a[q] == done[q - base - 1]
      decreases n - i
    {
      if !IsKept(rv[i], up) {
        j := Scan(rv, j, nmemb, up, w, cmp, done, i, n, all);
        PlacingEnough(w, done, i, j, n, up, cmp, all);
        assert j < nmemb;
        PlacingMoves(w, done, i, j, n, up, cmp, all);
        done := done + [w[j]];
        a[base + i] := a[base + j];
        j := j + 1;
      } else {
        PlacingStays(w, done, i, j, n, up, cmp, all);
        done := done + [w[i]];
      }
      i := i + 1;
    }
    assert a[base + 1..base + 1 + n] == done;
    PlacingEnds(w, done, j, n, up, cmp, all);
  }

  lemma KeptNone(pivot: int, cmp: Cmp)
    ensures Kept([], pivot, true, cmp) == [] && Kept([], pivot, false, cmp) == []
  {
  }

  lemma KeptNext(w: seq<int>, i: nat, up: bool, cmp: Cmp)
    requires 1 <= i < |w|
    ensures |Kept(w[1..i + 1], w[0], up, cmp)|
            == |Kept(w[1..i], w[0], up, cmp)| + if IsKept(cmp(w[0], w[i]), up) then 1 else 0
  {
    assert w[1..i + 1] == w[1..i] + [w[i]];
    KeptConcat(w[1..i], [w[i]], w[0], up, cmp);
  }

  /** Compares the pivot with every other element of the window. */
  method Compare(a: array<int>, rv: array<int>, base: nat, nmemb: nat, cmp: Cmp, ghost w: seq<int>)
      returns (lt: nat, gt: nat)
    requires a != rv && 0 < nmemb <= rv.Length && base + nmemb <= a.Length && w == a[base..base + nmemb]
    modifies rv
    ensures Signs(w, rv[..], cmp)
    ensures lt == |Picked(w, 1, nmemb, true, cmp)| && gt == |Picked(w, 1, nmemb, false, cmp)| && lt + gt < nmemb
  {
    hide Kept;
    lt, gt := 0, 0;
    assert w[1..1] == [];
    KeptNone(w[0], cmp);
    for i := 1 to nmemb
      invariant forall q :: 1 <= q < i ==> rv[q] == cmp(w[0], w[q])
      invariant lt == |Kept(w[1..i], w[0], true, cmp)| && gt == |Kept(w[1..i], w[0], false, cmp)|
      invariant lt + gt < i
    {
      var r := cmp(a[base], a[base + i]);
      KeptNext(w, i, true, cmp);
      KeptNext(w, i, false, cmp);
      if r < 0 {
        lt := lt + 1;
      }
      if 0 < r {
        gt := gt + 1;
      }
      rv[i] := r;
    }
  }

  /** v has rank k in s, counted from the greatest. */
  ghost predicate HasRank(s: seq<int>, v: int, k: nat, cmp: Cmp) {
    Greater(s, v, cmp) <= k < NotLess(s, v, cmp)
  }

  lemma {:induction false} RankPivot(s: seq<int>, pivot: int, cmp: Cmp)
    ensures Greater(s, pivot, cmp) == |Kept(s, pivot, true, cmp)|
    ensures NotLess(s, pivot, cmp) == |s| - |Kept(s, pivot, false, cmp)|
  {
    if s != [] {
      RankPivot(s[1..], pivot, cmp);
    }
  }

  lemma {:induction false} KeptMember(s: seq<int>, pivot: int, up: bool, cmp: Cmp, v: int)
    ensures v in Kept(s, pivot, up, cmp) <==> v in s && IsKept(cmp(pivot, v), up)
  {
    if s != [] {
      KeptMember(s[1..], pivot, up, cmp, v);
      assert v in s <==> v == s[0] || v in s[1..];
    }
  }

  /** The window w stands for s: its elements have in s the ranks that they have in w, moved up by the elements left
      out. */
  ghost predicate Stands(s: seq<int>, w: seq<int>, gone: nat, cmp: Cmp) {
    forall v :: v in w ==> v in s && Greater(s, v, cmp) == Greater(w, v, cmp) + gone
                           && NotLess(s, v, cmp) == NotLess(w, v, cmp) + gone
  }

  lemma PickedIsKept(w: seq<int>, up: bool, cmp: Cmp)
    requires TotalOrder(cmp) && |w| > 0
    ensures Picked(w, 1, |w|, up, cmp) == multiset(Kept(w, w[0], up, cmp))
    ensures |Picked(w, 1, |w|, up, cmp)| == |Kept(w, w[0], up, cmp)|
  {
    assert w[1..|w|] == w[1..];
    Converse(cmp, w[0], w[0]);
    assert [] + Kept(w[1..], w[0], up, cmp) == Kept(w[1..], w[0], up, cmp);
  }

  lemma StandsOn(s: seq<int>, w: seq<int>, gone: nat, w': seq<int>, up: bool, cmp: Cmp)
    requires TotalOrder(cmp) && |w| > 0 && Stands(s, w, gone, cmp) && multiset(w') == Picked(w, 1, |w|, up, cmp)
    ensures Stands(s, w', gone + if up then 0 else |w| - |w'|, cmp)
  {
    hide TotalOrder, Picked;
    PickedIsKept(w, up, cmp);
    var t := Kept(w, w[0], up, cmp);
    assert |multiset(w')| == |multiset(t)|;
    forall v | v in w'
      ensures v in s
      ensures Greater(s, v, cmp) == Greater(w', v, cmp) + gone + if up then 0 else |w| - |w'|
      ensures NotLess(s, v, cmp) == NotLess(w', v, cmp) + gone + if up then 0 else |w| - |w'|
    {
      assert v in multiset(w') && v in multiset(t);
      KeptMember(w, w[0], up, cmp, v);
      RankKept(w, w[0], up, v, cmp);
      RankOfMultiset(w', t, v, cmp);
    }
  }

  lemma PivotRank(s: seq<int>, w: seq<int>, gone: nat, k: nat, cmp: Cmp)
    requires TotalOrder(cmp) && |w| > 0 && Stands(s, w, gone, cmp)
    requires |Picked(w, 1, |w|, true, cmp)| <= k < |w| - |Picked(w, 1, |w|, false, cmp)|
    ensures w[0] in s && HasRank(s, w[0], k + gone, cmp)
  {
    hide TotalOrder, Picked;
    PickedIsKept(w, true, cmp);
    PickedIsKept(w, false, cmp);
    RankPivot(w, w[0], cmp);
    assert w[0] in w;
  }

  /** The position of an element of rank k counted from the greatest, or none if there are not so many. */
  method Select(a: array<int>, cmp: Cmp, k0: nat) returns (r: int)
    requires TotalOrder(cmp) && a.Length > 0
    modifies a
    ensures r == -1 <==> a.Length <= k0
    ensures a.Length > k0 ==> 0 <= r < a.Length && a[r] in old(a[..]) && HasRank(old(a[..]), a[r], k0, cmp)
    ensures a.Length <= k0 ==> a[..] == old(a[..])
  {
    hide TotalOrder, Picked, Stands, HasRank, Signs, IsKept;
    if a.Length <= k0 {
      return -1;
    }
    ghost var s := a[..];
    var base: nat, nmemb: nat, k: nat := 0, a.Length, k0;
    StandsSelf(s, cmp);
    assert a[0..0 + a.Length] == s;
    if nmemb == 1 {
      OnlyRank(s, s, 0, cmp);
      return 0;
    }
    var rv := new int[nmemb](_ => 0);
    var found := false;
    while !found && nmemb > 1
      invariant 0 <= k < nmemb && base + nmemb <= a.Length <= rv.Length && k <= k0
      invariant Stands(s, a[base..base + nmemb], k0 - k, cmp)
      invariant found ==> a[base] in s && HasRank(s, a[base], k0, cmp)
      decreases nmemb, !found
    {
      base, nmemb, k, found := Partition(a, rv, base, nmemb, k, cmp, s, k0);
    }
    if !found {
      OnlyRank(s, a[base..base + 1], k0 - k, cmp);
    }
    return base;
  }

  /** One partition by the first element of the window: the next window and rank, or found. */
  method Partition(a: array<int>, rv: array<int>, base: nat, nmemb: nat, k: nat, cmp: Cmp, ghost s: seq<int>,
                   ghost k0: nat)
    returns (base': nat, nmemb': nat, k': nat, found: bool)
    requires TotalOrder(cmp) && a != rv && k < nmemb && 1 < nmemb && base + nmemb <= a.Length <= rv.Length && k <= k0
    requires Stands(s, a[base..base + nmemb], k0 - k, cmp)
    modifies a, rv
    ensures k' < nmemb' && base' + nmemb' <= a.Length && k' <= k0 && Stands(s, a[base'..base' + nmemb'], k0 - k', cmp)
    ensures if found then nmemb' == nmemb && a[base'] in s && HasRank(s, a[base'], k0, cmp) else nmemb' < nmemb
  {
    hide TotalOrder, Picked, Stands, HasRank, Signs, IsKept;
    ghost var w := a[base..base + nmemb];
    var lt, gt := Compare(a, rv, base, nmemb, cmp, w);
    var eq := nmemb - lt - gt;
    if k < lt {
      Compact(a, rv, base, nmemb, lt, true, w, cmp);
      StandsOn(s, w, k0 - k, a[base + 1..base + 1 + lt], true, cmp);
      return base + 1, lt, k, false;
    } else if k >= lt + eq {
      Compact(a, rv, base, nmemb, gt, false, w, cmp);
      StandsOn(s, w, k0 - k, a[base + 1..base + 1 + gt], false, cmp);
      return base + 1, gt, k - (lt + eq), false;
    }
    PivotRank(s, w, k0 - k, k, cmp);
    return base, nmemb, k, true;
  }

  lemma StandsSelf(s: seq<int>, cmp: Cmp)
    ensures Stands(s, s, 0, cmp)
  {
  }

  lemma OnlyRank(s: seq<int>, w: seq<int>, gone: nat, cmp: Cmp)
    requires TotalOrder(cmp) && |w| == 1 && Stands(s, w, gone, cmp)
    ensures w[0] in s && HasRank(s, w[0], gone, cmp)
  {
    var v := w[0];
    assert v in w && cmp(v, v) == 0;
    assert w[1..] == [];
    assert Greater(w, v, cmp) == 0 && NotLess(w, v, cmp) == 1;
  }
}
