/** The single-linkage analysis as the program runs it: an ordered table of couples rewritten in place. */
module SingleLinkage {
  import opened RbOrder
  import opened Linkage
  import opened LinkageRun

  /** A record of the result: leaf or cluster i, whose identifier is car, went into cluster j. */
  datatype Record = Record(i: nat, car: int, j: nat)

  /** The records of the merges, each unshifted onto the front: two for every merge, the latest first. */
  function Records(merges: seq<Cell>, size: nat): (t: seq<Record>)
    ensures |t| == 2 * |merges|
  {
    if merges == [] then []
    else
      var c := merges[|merges| - 1];
      var n := size + |merges| - 1;
      [Record(c.j, c.cdr, n), Record(c.i, c.car, n)] + Records(merges[..|merges| - 1], size)
  }

  /** How many merges a run makes: the least positive number at which one of its three stops applies. */
  function Rounds(size: nat, initial: nat, final: nat): nat
    requires size >= 2
  {
    var a := if 0 < initial < size then initial else size - 1;
    var b := if 0 < final < size then size - final else size - 1;
    if a < b then a else b
  }

  lemma StartReady(f: Metric, ids: nat -> int, size: nat, cmp: Cmp)
    ensures var s := Start(f, ids, size, cmp);
            && Run(s, 0, cmp) == s && s.table == Rows([], f, ids, size, 0, cmp) && Records(s.merges, size) == []
  {
  }

  lemma RecordsPush(merges: seq<Cell>, c: Cell, size: nat)
    ensures Records(merges + [c], size)
            == [Record(c.j, c.cdr, size + |merges|)] + ([Record(c.i, c.car, size + |merges|)] + Records(merges, size))
  {
    assert (merges + [c])[..|merges|] == merges;
  }

  /** What the loop has made joined to what is still to be made of the cells ahead. */
  ghost predicate Goes(m: seq<Cell>, next: nat, i: nat, j: nat, n: nat, tree: set<nat>, cmp: Cmp, out: seq<Cell>)
    requires 1 <= next <= |m|
  {
    m[1..next] + Absorb(m[next..], i, j, n, tree, cmp) == out && Leftover(m[next..], i, j, tree, cmp) == {}
  }

  lemma GoesOn(m: seq<Cell>, next: nat, i: nat, j: nat, n: nat, tree: set<nat>, cmp: Cmp, out: seq<Cell>)
    requires 1 <= next < |m| && Goes(m, next, i, j, n, tree, cmp, out)
    ensures var c := m[next]; var k := Bystander(c, i, j);
            if !Touches(c, i, j) then Goes(m, next + 1, i, j, n, tree, cmp, out)
            else if Found(tree, k, cmp) then Goes(m[..next] + m[next + 1..], next, i, j, n, Without(tree, k, cmp), cmp,
                                                  out)
            else Goes(m[next := Renamed(c, i, j, n)], next + 1, i, j, n, tree + {k}, cmp, out)
  {
    hide Touches, Bystander, Found, Without;
    var c, rest := m[next], m[next..];
    assert rest[0] == c && rest[1..] == m[next + 1..];
    var m', m'' := m[..next] + m[next + 1..], m[next := Renamed(c, i, j, n)];
    assert m'[next..] == rest[1..] && m'[1..next] == m[1..next];
    assert m''[next + 1..] == rest[1..] && m''[1..next + 1] == m[1..next] + [Renamed(c, i, j, n)];
    assert m[1..next + 1] == m[1..next] + [c];
    var k := Bystander(c, i, j);
    Associate(m[1..next], c, Absorb(rest[1..], i, j, n, tree, cmp));
    Associate(m[1..next], Renamed(c, i, j, n), Absorb(rest[1..], i, j, n, tree + {k}, cmp));
  }

  lemma Associate(a: seq<Cell>, c: Cell, b: seq<Cell>)
    ensures a + ([c] + b) == a + [c] + b
  {
  }

  lemma GoesStart(m: seq<Cell>, i: nat, j: nat, n: nat, cmp: Cmp)
    requires m != [] && Leftover(m[1..], i, j, {}, cmp) == {}
    ensures Goes(m, 1, i, j, n, {}, cmp, Absorb(m[1..], i, j, n, {}, cmp))
  {
    assert m[1..1] == [];
    assert [] + Absorb(m[1..], i, j, n, {}, cmp) == Absorb(m[1..], i, j, n, {}, cmp);
  }

  lemma GoesEnd(m: seq<Cell>, i: nat, j: nat, n: nat, tree: set<nat>, cmp: Cmp, out: seq<Cell>)
    requires m != [] && Goes(m, |m|, i, j, n, tree, cmp, out)
    ensures m[1..] == out && tree == {}
  {
    assert m[|m|..] == [] && m[1..|m|] == m[1..];
    assert m[1..] + [] == m[1..];
  }

  class SingleLinkage {
    const size: nat
    const ids: nat -> int
    const f: Metric
    const cmp: Cmp
    var initial: nat
    var final: nat
    /** The ordered table; the helper tree below holds cluster numbers under the same comparison. */
    var m: seq<Cell>
    var t: seq<Record>

    constructor (size: nat, ids: nat -> int, f: Metric, cmp: Cmp)
      ensures this.size == size && this.ids == ids && this.f == f && this.cmp == cmp
      ensures initial == 0 && final == 0 && m == [] && t == []
    {
      this.size, this.ids, this.f, this.cmp := size, ids, f, cmp;
      initial, final, m, t := 0, 0, [], [];
    }

    /** Calculates the metric of each couple of leaves. */
    method Fill()
      modifies this`m
      ensures m == Rows([], f, ids, size, 0, cmp)
    {
      m := [];
      var i := 0;
      while i + 1 < size
        invariant Rows(m, f, ids, size, i, cmp) == Rows([], f, ids, size, 0, cmp)
        decreases size - i
      {
        var j := i + 1;
        ghost var row := Row(m, f, ids, size, i, j, cmp);
        while j < size
          invariant i < j <= size && Row(m, f, ids, size, i, j, cmp) == row
          decreases size - j
        {
          m := Insert(m, Couple(f, ids, i, j), cmp);
          j := j + 1;
        }
        i := i + 1;
      }
    }

    /** One round over the couples after the least one: those of i and j are renamed to n or dropped. */
    method Merge(i: nat, j: nat, n: nat)
      requires m != [] && Leftover(m[1..], i, j, {}, cmp) == {}
      modifies this`m
      ensures m == [old(m)[0]] + Absorb(old(m)[1..], i, j, n, {}, cmp)
    {
      hide Absorb, Leftover, Goes;
      var tree: set<nat> := {};
      var next := 1;
      ghost var out := Absorb(m[1..], i, j, n, {}, cmp);
      GoesStart(m, i, j, n, cmp);
      while next < |m|
        invariant 1 <= next <= |m| && m[0] == old(m)[0]
        invariant Goes(m, next, i, j, n, tree, cmp, out)
        decreases |m| - next
      {
        GoesOn(m, next, i, j, n, tree, cmp, out);
        var c := m[next];
        if Touches(c, i, j) {
          var k := Bystander(c, i, j);
          if Found(tree, k, cmp) {
            tree := Without(tree, k, cmp);
            m := m[..next] + m[next + 1..];
          } else {
            m := m[next := Renamed(c, i, j, n)];
            tree := tree + {k};
            next := next + 1;
          }
        } else {
          next := next + 1;
        }
      }
      GoesEnd(m, i, j, n, tree, cmp, out);
      assert tree == {};
    }

    /** The body of the outer loop up to its stops: the least couple is merged and recorded. */
    method Round(n: nat, ghost g: State, ghost k: nat) returns (ghost g': State)
      requires TotalOrder(cmp) && Suits(cmp, size) && k + 1 < size && n == size + k
      requires g == Run(Start(f, ids, size, cmp), k, cmp) && m == g.table && t == Records(g.merges, size)
      modifies this`m, this`t
      ensures g' == Run(Start(f, ids, size, cmp), k + 1, cmp)
      ensures m != [] && m[1..] == g'.table && t == Records(g'.merges, size)
      ensures m[1..] == [] <==> k + 2 == size
    {
      hide TotalOrder, Suits, Run, Absorb, Leftover, Rows, Records;
      MergeReady(g, k);
      var p := m[0];
      RecordsPush(g.merges, p, size);
      Merge(p.i, p.j, n);
      t := [Record(p.i, p.car, n)] + t;
      t := [Record(p.j, p.cdr, n)] + t;
      g' := Step(g, cmp);
    }

    /** The whole analysis. The table is destroyed at the end; g is the state that the run has come to. */
    method Analyze() returns (r: int, ghost g: State)
      requires TotalOrder(cmp) && Suits(cmp, size)
      modifies this
      ensures size < 2 ==> r == -1 && unchanged(this)
      ensures size >= 2 ==>
                && r == 0 && initial == old(initial) && final == old(final) && m == []
                && g == Run(Start(f, ids, size, cmp), Rounds(size, initial, final), cmp)
                && t == Records(g.merges, size)
    {
      hide TotalOrder, Suits, Run, Rows, Records, Start;
      g := Start(f, ids, size, cmp);
      r := 0;
      var n, started, left := size, 0, size;
      if n < 2 {
        return -1, g;
      }
      Fill();
      StartReady(f, ids, size, cmp);
      t := [];
      ghost var k := 0;
      while true
        invariant size <= n && n == size + k && k + 1 < size && k < Rounds(size, initial, final)
        invariant initial == old(initial) && final == old(final)
        invariant g == Run(Start(f, ids, size, cmp), k, cmp) && m == g.table && t == Records(g.merges, size)
        invariant (initial > 0 ==> started == k) && (final > 0 ==> left == size - k)
        decreases size - k
      {
        g := Round(n, g, k);
        k := k + 1;
        n := n + 1;
        if initial > 0 {
          started := started + 1;
          if initial == started {
            break;
          }
        }
        if final > 0 {
          left := left - 1;
          if final == left {
            break;
          }
        }
        m := m[1..];
        if m == [] {
          break;
        }
      }
      m := [];
    }

    lemma MergeReady(g: State, k: nat)
      requires TotalOrder(cmp) && Suits(cmp, size) && k + 1 < size
      requires g == Run(Start(f, ids, size, cmp), k, cmp)
      ensures g.table != [] && g.table[0].i in g.leaves && g.table[0].j in g.leaves && |g.merges| == k
              && g.n == size + k
      ensures Leftover(g.table[1..], g.table[0].i, g.table[0].j, {}, cmp) == {}
      ensures Run(Start(f, ids, size, cmp), k + 1, cmp) == Step(g, cmp)
      ensures Step(g, cmp).table == [] <==> k + 2 == size
    {
      hide TotalOrder, Suits, Inv, Start;
      RunInv(f, ids, size, cmp, k);
      NextWell(f, ids, size, cmp, k);
      Counted(g, f, cmp, size);
      Counted(Step(g, cmp), f, cmp, size);
      CouplesLeft(Step(g, cmp), f, cmp, size);
    }
  }

  /** With only a final number of clusters asked for, the run stops with exactly so many; without any stop it
      leaves one cluster and 2(N - 1) records. */
  lemma StopsAtFinal(f: Metric, ids: nat -> int, size: nat, cmp: Cmp, final: nat)
    requires TotalOrder(cmp) && Suits(cmp, size) && size >= 2
    ensures var g := Run(Start(f, ids, size, cmp), Rounds(size, 0, final), cmp);
            && |g.leaves| == (if 0 < final < size then final else 1)
            && |Records(g.merges, size)| == 2 * (size - |g.leaves|)
  {
    var k := Rounds(size, 0, final);
    RunInv(f, ids, size, cmp, k);
    Counted(Run(Start(f, ids, size, cmp), k, cmp), f, cmp, size);
  }
}
