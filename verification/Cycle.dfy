/** Cycle detection: a command is run on its own output until an output appears again. */
module Cycle {
  import opened Words
  import opened Options
  import opened Division

  // ---------- orbits ----------

  /** The n-th output; none once the command has failed. */
  function Orbit<C>(step: C -> Option<C>, x: C, n: nat): Option<C> {
    if n == 0 then Some(x)
    else
      match Orbit(step, x, n - 1)
      case None => None
      case Some(y) => step(y)
  }

  /** The outputs up to the last one of v, in order. */
  ghost predicate Follows<C>(step: C -> Option<C>, x: C, v: seq<C>) {
    v != [] && forall i :: 0 <= i < |v| ==> Orbit(step, x, i) == Some(v[i])
  }

  ghost predicate Distinct<C>(v: seq<C>) {
    forall i, j :: 0 <= i < j < |v| ==> v[i] != v[j]
  }

  /** v is all different, and what comes after it is its k-th entry again. */
  ghost predicate Closes<C>(step: C -> Option<C>, x: C, v: seq<C>, k: nat) {
    Follows(step, x, v) && Distinct(v) && k < |v| && Orbit(step, x, |v|) == Some(v[k])
  }

  /** Where in v the n-th output is. */
  function Slot(n: nat, k: nat, len: nat): (i: nat)
    requires k < len
    ensures i < len
  {
    if n < len then n else k + (n - k) % (len - k)
  }

  lemma NextSlotOf(n: nat, k: nat, len: nat)
    requires k < len
    ensures Slot(n + 1, k, len) == (if Slot(n, k, len) + 1 == len then k else Slot(n, k, len) + 1)
  {
    var p := len - k;
    if n + 1 == len {
      Remainder(p, p, 1, 0);
    } else if n >= len {
      NextSlot(n - k, p);
      var r := (n - k) % p;
      if r + 1 == p {
        Remainder(p, p, 1, 0);
      } else {
        Remainder(r + 1, p, 0, r + 1);
      }
    }
  }

  /** The whole orbit, once it closes. */
  lemma {:induction false} OrbitAt<C>(step: C -> Option<C>, x: C, v: seq<C>, k: nat, n: nat)
    requires Closes(step, x, v, k)
    ensures Orbit(step, x, n) == Some(v[Slot(n, k, |v|)])
  {
    if n > 0 {
      OrbitAt(step, x, v, k, n - 1);
      NextSlotOf(n - 1, k, |v|);
      var i := Slot(n - 1, k, |v|);
      assert Orbit(step, x, i) == Some(v[i]);
      assert Orbit(step, x, i + 1) == step(v[i]);
    }
  }

  lemma SameSlot(i: nat, j: nat, k: nat, len: nat)
    requires k < len && i < j
    ensures Slot(i, k, len) == Slot(j, k, len) <==> i >= k && (j - i) % (len - k) == 0
  {
    var p := len - k;
    if i >= k {
      SlotPastStart(i, k, len);
      SlotPastStart(j, k, len);
      SameResidue(i - k, j - k, p);
    } else if j >= k {
      SlotPastStart(j, k, len);
    }
  }

  lemma SlotPastStart(n: nat, k: nat, len: nat)
    requires k < len && k <= n
    ensures Slot(n, k, len) == k + (n - k) % (len - k)
  {
    if n < len {
      Remainder(n - k, len - k, 0, n - k);
    }
  }

  lemma SameResidue(a: nat, b: nat, p: nat)
    requires a < b && p > 0
    ensures a % p == b % p <==> (b - a) % p == 0
  {
    Divided(a, p);
    Divided(b - a, p);
    SumResidue(a, b, p, a / p, a % p, (b - a) / p, (b - a) % p);
  }

  lemma SumResidue(a: nat, b: nat, p: nat, q: int, r: nat, q': int, r': nat)
    requires p > 0 && r < p && r' < p && a == q * p + r && b - a == q' * p + r'
    ensures b % p == r <==> r' == 0
  {
    assert b == (q + q') * p + r + r';
    if r + r' < p {
      Remainder(b, p, q + q', r + r');
    } else {
      Remainder(b, p, q + q' + 1, r + r' - p);
    }
  }

  /** Two outputs are equal exactly if the earlier one is on the cycle and they are whole periods apart: k is the least
      index on the cycle, |v| - k is the least period, and every period is a multiple of it. */
  lemma CycleFound<C>(step: C -> Option<C>, x: C, v: seq<C>, k: nat, i: nat, j: nat)
    requires Closes(step, x, v, k) && i < j
    ensures Orbit(step, x, i).Some?
    ensures Orbit(step, x, i) == Orbit(step, x, j) <==> i >= k && (j - i) % (|v| - k) == 0
  {
    hide Slot, Orbit;
    OrbitAt(step, x, v, k, i);
    OrbitAt(step, x, v, k, j);
    SameSlot(i, j, k, |v|);
  }

  // ---------- when the search ends ----------

  /** Within n runs the command fails, or an output appears again. */
  ghost predicate Ends<C(!new)>(step: C -> Option<C>, x: C, n: nat) {
    Orbit(step, x, n) == None || exists i: nat, j: nat :: i < j <= n && Orbit(step, x, i) == Orbit(step, x, j)
  }

  lemma {:induction false} FailedBefore<C>(step: C -> Option<C>, x: C, i: nat, n: nat)
    requires i <= n && Orbit(step, x, i) == None
    ensures Orbit(step, x, n) == None
    decreases n
  {
    if i < n {
      FailedBefore(step, x, i, n - 1);
    }
  }

  lemma NotEnded<C(!new)>(step: C -> Option<C>, x: C, v: seq<C>, n: nat)
    requires Follows(step, x, v) && Distinct(v) && n < |v|
    ensures !Ends(step, x, n)
  {
    assert Orbit(step, x, n) == Some(v[n]);
    forall i: nat, j: nat | i < j <= n
      ensures Orbit(step, x, i) != Orbit(step, x, j)
    {
      assert Orbit(step, x, i) == Some(v[i]) && Orbit(step, x, j) == Some(v[j]);
    }
  }

  /** The different outputs of an unfinished search are no more than its bound. */
  lemma NotYetEnded<C(!new)>(step: C -> Option<C>, x: C, v: seq<C>, n: nat)
    requires Follows(step, x, v) && Distinct(v) && Ends(step, x, n)
    ensures |v| <= n
  {
    if |v| > n {
      NotEnded(step, x, v, n);
    }
  }

  function Outputs<C>(step: C -> Option<C>, x: C, n: nat): (v: seq<C>)
    requires Orbit(step, x, n).Some?
    ensures |v| == n + 1 && forall i :: 0 <= i <= n ==> Orbit(step, x, i) == Some(v[i])
  {
    if n == 0 then [x] else Outputs(step, x, n - 1) + [Orbit(step, x, n).value]
  }

  lemma {:induction false} Crowded<C>(v: seq<C>, all: set<C>)
    requires |v| > |all| && forall i :: 0 <= i < |v| ==> v[i] in all
    ensures exists i, j :: 0 <= i < j < |v| && v[i] == v[j]
    decreases |v|
  {
    var n := |v| - 1;
    if i :| 0 <= i < n && v[i] == v[n] {
    } else {
      var w := v[..n];
      Crowded(w, all - {v[n]});
      var i, j :| 0 <= i < j < |w| && w[i] == w[j];
      assert v[i] == v[j];
    }
  }

  /** The search ends when the outputs are finitely many. */
  lemma FiniteEnds<C(!new)>(step: C -> Option<C>, x: C, all: set<C>)
    requires forall n: nat :: Orbit(step, x, n).Some? ==> Orbit(step, x, n).value in all
    ensures Ends(step, x, |all|)
  {
    var n := |all|;
    if Orbit(step, x, n).Some? {
      var v := Outputs(step, x, n);
      forall i | 0 <= i < |v|
        ensures v[i] in all
      {
        assert Orbit(step, x, i) == Some(v[i]);
      }
      Crowded(v, all);
      var i, j :| 0 <= i < j < |v| && v[i] == v[j];
      assert Orbit(step, x, i) == Orbit(step, x, j);
    }
  }

  // ---------- the search ----------

  /** The period and the start of the cycle; or the command failed. */
  datatype Found = Found(period: nat, start: nat) | CommandFailed

  /** The indices in the bucket of h, in order. */
  ghost predicate Bucket<C>(q: seq<nat>, h: Word, hash: C -> Word, v: seq<C>) {
    && (forall a :: 0 <= a < |q| ==> q[a] < |v| && hash(v[q[a]]) == h)
    && (forall a, b :: 0 <= a < b < |q| ==> q[a] < q[b])
    && (forall i :: 0 <= i < |v| && hash(v[i]) == h ==> i in q)
  }

  /** Each bucket holds, in order, the indices of the outputs with its hash; every output is in one. */
  ghost predicate Indexed<C>(tree: map<Word, seq<nat>>, hash: C -> Word, v: seq<C>) {
    && (forall h :: h in tree ==> Bucket(tree[h], h, hash, v))
    && (forall i :: 0 <= i < |v| ==> hash(v[i]) in tree)
  }

  lemma BucketOther<C>(q: seq<nat>, h: Word, hash: C -> Word, v: seq<C>, y: C)
    requires Bucket(q, h, hash, v) && hash(y) != h
    ensures Bucket(q, h, hash, v + [y])
  {
    forall i | 0 <= i < |v| + 1 && hash((v + [y])[i]) == h
      ensures i in q
    {
      assert i < |v|;
    }
  }

  lemma BucketMore<C>(q: seq<nat>, h: Word, hash: C -> Word, v: seq<C>, y: C)
    requires Bucket(q, h, hash, v) && hash(y) == h
    ensures Bucket(q + [|v|], h, hash, v + [y])
  {
    var w, r := v + [y], q + [|v|];
    forall i | 0 <= i < |w| && hash(w[i]) == h
      ensures i in r
    {
      if i == |v| {
        assert r[|q|] == i;
      } else {
        assert i in q;
      }
    }
  }

  /** The new output goes into its bucket, old or new. */
  lemma IndexedMore<C>(tree: map<Word, seq<nat>>, hash: C -> Word, v: seq<C>, y: C)
    requires Indexed(tree, hash, v)
    ensures Indexed(tree[hash(y) := (if hash(y) in tree then tree[hash(y)] else []) + [|v|]], hash, v + [y])
  {
    hide Bucket;
    var q := if hash(y) in tree then tree[hash(y)] else [];
    var tree' := tree[hash(y) := q + [|v|]];
    BucketNew(tree, hash, v, hash(y));
    BucketMore(q, hash(y), hash, v, y);
    forall h | h in tree'
      ensures Bucket(tree'[h], h, hash, v + [y])
    {
      if h != hash(y) {
        BucketOther(tree[h], h, hash, v, y);
      }
    }
  }

  lemma BucketNew<C>(tree: map<Word, seq<nat>>, hash: C -> Word, v: seq<C>, h: Word)
    requires Indexed(tree, hash, v)
    ensures Bucket(if h in tree then tree[h] else [], h, hash, v)
  {
  }

  lemma BucketBounds<C>(tree: map<Word, seq<nat>>, hash: C -> Word, v: seq<C>, h: Word)
    requires Indexed(tree, hash, v)
    ensures h in tree ==> forall a :: 0 <= a < |tree[h]| ==> tree[h][a] < |v|
  {
  }

  /** An output that is not in its bucket is not there at all. */
  lemma NewOutput<C>(tree: map<Word, seq<nat>>, hash: C -> Word, v: seq<C>, y: C)
    requires Indexed(tree, hash, v) && Distinct(v)
    requires forall k :: 0 <= k < |v| && hash(y) in tree && k in tree[hash(y)] ==> v[k] != y
    ensures Distinct(v + [y])
  {
    forall i | 0 <= i < |v|
      ensures v[i] != y
    {
      var h := hash(v[i]);
      assert h in tree && Bucket(tree[h], h, hash, v);
      assert i in tree[h];
    }
  }

  lemma FollowsMore<C>(step: C -> Option<C>, x: C, v: seq<C>, y: C)
    requires Follows(step, x, v) && step(v[|v| - 1]) == Some(y)
    ensures Follows(step, x, v + [y])
  {
    assert Orbit(step, x, |v| - 1) == Some(v[|v| - 1]);
  }

  lemma FailedNext<C>(step: C -> Option<C>, x: C, v: seq<C>)
    requires Follows(step, x, v) && step(v[|v| - 1]) == None
    ensures Orbit(step, x, |v|) == None
  {
    assert Orbit(step, x, |v| - 1) == Some(v[|v| - 1]);
  }

  lemma RepeatCloses<C>(step: C -> Option<C>, x: C, v: seq<C>, k: nat)
    requires Follows(step, x, v) && Distinct(v) && k < |v| && step(v[|v| - 1]) == Some(v[k])
    ensures Closes(step, x, v, k)
  {
    assert Orbit(step, x, |v| - 1) == Some(v[|v| - 1]);
  }

  class Search<C(!new, ==)> {
    const step: C -> Option<C>
    const hash: C -> Word
    var v: seq<C>
    var tree: map<Word, seq<nat>>

    constructor (step: C -> Option<C>, hash: C -> Word)
      ensures this.step == step && this.hash == hash && v == [] && tree == map[]
    {
      this.step, this.hash, v, tree := step, hash, [], map[];
    }

    method Insert(n: nat, h: Word)
      modifies this`tree
      ensures tree == old(tree)[h := [n]]
    {
      tree := tree[h := [n]];
    }

    /** The bucket of h, or none: then a new one holds n. */
    method FindOrInsert(n: nat, h: Word) returns (bucket: Option<seq<nat>>)
      modifies this`tree
      ensures if h in old(tree) then bucket == Some(old(tree)[h]) && tree == old(tree)
              else bucket == None && tree == old(tree)[h := [n]]
    {
      if h in tree {
        return Some(tree[h]);
      }
      Insert(n, h);
      return None;
    }

    /** The first index in the bucket whose output is the n-th one again. */
    method Compare(bucket: seq<nat>, n: nat) returns (r: Option<nat>)
      requires n < |v| && forall a :: 0 <= a < |bucket| ==> bucket[a] < n
      ensures match r
              case Some(k) => k in bucket && k < n && v[k] == v[n]
              case None => forall k :: k in bucket ==> v[k] != v[n]
    {
      var a := 0;
      while a < |bucket|
        invariant 0 <= a <= |bucket|
        invariant forall b :: 0 <= b < a ==> v[bucket[b]] != v[n]
      {
        var k := bucket[a];
        if v[k] == v[n] {
          return Some(k);
        }
        a := a + 1;
      }
      return None;
    }

    /** Files the n-th output under its hash, or finds the earlier index of the same output. */
    method File(n: nat) returns (r: Option<nat>)
      requires |v| == n + 1 && Indexed(tree, hash, v[..n]) && Distinct(v[..n])
      modifies this`tree
      ensures match r
              case Some(k) => k < n && v[k] == v[n]
              case None => Indexed(tree, hash, v) && Distinct(v)
    {
      hide Distinct, Indexed, Bucket;
      ghost var was, tree0, y := v[..n], tree, v[n];
      assert v == was + [y];
      IndexedMore(tree, hash, was, y);
      BucketBounds(tree, hash, was, hash(y));
      var bucket := FindOrInsert(n, hash(v[n]));
      if bucket.Some? {
        r := Compare(bucket.value, n);
        if r.Some? {
          return;
        }
        tree := tree[hash(v[n]) := bucket.value + [n]];
      }
      assert [] + [n] == [n];
      NewOutput(tree0, hash, was, y);
      r := None;
    }

    /** Runs the command until an output appears again; the bound only shows that it ends. */
    method Run(x: C, ghost bound: nat) returns (r: Found)
      requires Ends(step, x, bound)
      modifies this
      ensures match r
              case CommandFailed => Orbit(step, x, |v|) == None && Follows(step, x, v) && Distinct(v)
              case Found(period, start) =>
                |v| == start + period + 1 && period > 0 && Closes(step, x, v[..start + period], start)
    {
      hide Indexed, Closes, Orbit, Ends;
      r := CommandFailed;
      v := [x];
      var n: nat := 0;
      tree := map[];
      Insert(n, hash(x));
      StartIndexed(step, x, hash);
      while true
        invariant |v| == n + 1 && Follows(step, x, v) && Distinct(v)
        invariant Indexed(tree, hash, v)
        decreases bound - n
      {
        NotYetEnded(step, x, v, bound);
        ghost var was := v;
        var out := step(v[n]);
        n := n + 1;
        if out.None? {
          FailedNext(step, x, v);
          return;
        }
        v := v + [out.value];
        assert v[..n] == was;
        var k := File(n);
        if k.Some? {
          RepeatCloses(step, x, was, k.value);
          return Found(n - k.value, k.value);
        }
        FollowsMore(step, x, was, out.value);
      }
    }
  }

  lemma StartIndexed<C>(step: C -> Option<C>, x: C, hash: C -> Word)
    ensures Indexed(map[hash(x) := [0]], hash, [x]) && Follows(step, x, [x]) && Distinct([x])
  {
  }
}
