/** What the expander writes, byte by byte, for any script. */
module ExpandLaws {
  import opened Words
  import opened SelfCopy
  import opened Compression

  /** A RUN writes its byte n times. */
  lemma {:induction false} RunBytes(out: seq<Byte>, n: nat, b: Byte)
    ensures RunOf(out, n, b) == out + seq(n, _ => b)
    decreases n
  {
    if n > 0 {
      RunBytes(out + [b], n - 1, b);
      assert [b] + seq(n - 1, _ => b) == seq(n, _ => b);
      assert out + [b] + seq(n - 1, _ => b) == out + ([b] + seq(n - 1, _ => b));
    }
  }

  /** A COPY from a source of its own writes the bytes there. */
  lemma {:induction false} CopyFromSource(source: seq<Byte>, out: seq<Byte>, n: nat, addr: nat)
    requires addr + n <= |source|
    ensures CopyBytes(source, false, out, n, addr) == out + source[addr..addr + n]
    decreases n
  {
    if n > 0 {
      CopyFromSource(source, out + [source[addr]], n - 1, addr + 1);
      assert source[addr..addr + n] == [source[addr]] + source[addr + 1..addr + n];
      assert out + [source[addr]] + source[addr + 1..addr + n] == out + ([source[addr]] + source[addr + 1..addr + n]);
    } else {
      assert out + [] == out;
    }
  }

  /** A COPY from the result writes, as its t-th byte, the one at addr + t, which it may itself have written, or zero if
      addr is not below what was written. */
  lemma {:induction false} CopyFromResult(out: seq<Byte>, n: nat, addr: nat, t: nat)
    requires t < n
    ensures var r := CopyBytes([], true, out, n, addr);
            && |r| == |out| + n && r[..|out|] == out
            && r[|out| + t] == if addr < |out| then r[addr + t] else 0
    decreases n
  {
    var next := out + [ByteAt(out, addr)];
    var r := CopyBytes([], true, out, n, addr);
    CopyKeeps(next, n - 1, addr + 1);
    assert r == CopyBytes([], true, next, n - 1, addr + 1);
    assert out == next[..|out|] == r[..|next|][..|out|] == r[..|out|];
    if t == 0 {
      assert r[|out|] == r[..|next|][|out|] == ByteAt(out, addr);
      if addr < |out| {
        assert r[addr] == r[..|out|][addr];
      }
    } else {
      CopyFromResult(next, n - 1, addr + 1, t - 1);
    }
  }

  lemma {:induction false} CopyKeeps(out: seq<Byte>, n: nat, addr: nat)
    ensures var r := CopyBytes([], true, out, n, addr); |r| == |out| + n && r[..|out|] == out
    decreases n
  {
    if n > 0 {
      var next := out + [ByteAt(out, addr)];
      CopyKeeps(next, n - 1, addr + 1);
      var r := CopyBytes([], true, next, n - 1, addr + 1);
      assert r[..|out|] == r[..|next|][..|out|];
    }
  }

  /** An instruction takes up as much room as it says, NOOP included. */
  lemma RoomTaken(ps: seq<Pcode>, p: nat)
    requires p < |ps|
    ensures Total(ps[..p + 1]) == Total(ps[..p]) + match ps[p]
                                                  case Noop(n) => n
                                                  case Add(d) => |d|
                                                  case Run(n, _) => n
                                                  case CopyOf(n, _) => n
  {
    TotalNext(ps, p);
  }

  // ---------- whole scripts ----------

  /** What the instructions before p have written. */
  function Written(source: seq<Byte>, own: bool, ps: seq<Pcode>, p: nat): seq<Byte>
    requires p <= |ps|
  {
    ApplyAll(source, own, [], ps[..p])
  }

  /** The byte at place at of the result r is the t-th one that the instruction names. */
  predicate Named(source: seq<Byte>, own: bool, r: seq<Byte>, p: Pcode, at: nat, t: nat)
    requires at < |r|
  {
    match p
    case Noop(_) => false
    case Add(d) => t < |d| && r[at] == d[t]
    case Run(_, b) => r[at] == b
    case CopyOf(_, addr) =>
      if own then r[at] == (if addr + t < at then r[addr + t] else 0)
      else addr + t < |source| && r[at] == source[addr + t]
  }

  /** How many bytes an instruction writes: a NOOP none, the others their size. */
  function Writes(p: Pcode): nat {
    if p.Noop? then 0 else SizeOf(p)
  }

  lemma WrittenNext(source: seq<Byte>, own: bool, ps: seq<Pcode>, p: nat)
    requires p < |ps|
    ensures Written(source, own, ps, p + 1) == Apply(source, own, Written(source, own, ps, p), ps[p])
  {
    hide Apply;
    assert ps[..p + 1] == ps[..p] + [ps[p]];
    ApplyConcat(source, own, [], ps[..p], [ps[p]]);
    ApplyOne(source, own, Written(source, own, ps, p), ps[p]);
  }

  /** One instruction keeps what was written and writes what it names. */
  lemma ApplyNames(source: seq<Byte>, own: bool, out: seq<Byte>, p: Pcode, t: nat)
    requires t < Writes(p) && (p.CopyOf? && !own ==> p.addr + p.size <= |source|)
    ensures var r := Apply(source, own, out, p);
            && |r| == |out| + Writes(p) && r[..|out|] == out && Named(source, own, r, p, |out| + t, t)
  {
    match p
    case Add(d) =>
    case Run(n, b) => RunBytes(out, n, b);
    case CopyOf(n, addr) =>
      if own {
        CopyFromOwn(source, out, n, addr);
        CopyFromResult(out, n, addr, t);
      } else {
        CopyFromSource(source, out, n, addr);
      }
  }

  /** Without a source of its own a COPY does not look at it. */
  lemma {:induction false} CopyFromOwn(source: seq<Byte>, out: seq<Byte>, n: nat, addr: nat)
    ensures CopyBytes(source, true, out, n, addr) == CopyBytes([], true, out, n, addr)
    decreases n
  {
    if n > 0 {
      CopyFromOwn(source, out + [ByteAt(out, addr)], n - 1, addr + 1);
    }
  }

  lemma WritesLength(source: seq<Byte>, own: bool, out: seq<Byte>, p: Pcode)
    requires p.CopyOf? && !own ==> p.addr + p.size <= |source|
    ensures var r := Apply(source, own, out, p); |r| == |out| + Writes(p) && r[..|out|] == out
  {
    if Writes(p) > 0 {
      ApplyNames(source, own, out, p, 0);
    } else {
      assert out + [] == out && out[..|out|] == out;
    }
  }

  /** Every copy from a source of its own lies within it. */
  ghost predicate InSource(source: seq<Byte>, own: bool, ps: seq<Pcode>) {
    forall q :: 0 <= q < |ps| && ps[q].CopyOf? && !own ==> ps[q].addr + ps[q].size <= |source|
  }

  /** What was written stays, and more follows. */
  lemma {:induction false} WrittenKeeps(source: seq<Byte>, own: bool, ps: seq<Pcode>, p: nat, q: nat)
    requires p <= q <= |ps| && InSource(source, own, ps)
    ensures var (w, v) := (Written(source, own, ps, p), Written(source, own, ps, q)); |w| <= |v| && v[..|w|] == w
    decreases q
  {
    hide Written, Apply;
    var w := Written(source, own, ps, p);
    if p < q {
      WrittenKeeps(source, own, ps, p, q - 1);
      var u := Written(source, own, ps, q - 1);
      WrittenNext(source, own, ps, q - 1);
      WritesLength(source, own, u, ps[q - 1]);
      var v := Written(source, own, ps, q);
      assert v[..|w|] == v[..|u|][..|w|];
    } else {
      assert w[..|w|] == w;
    }
  }

  lemma {:induction false} PaddedKeeps(out: seq<Byte>, n: nat)
    ensures var r := Padded(out, n);
            |out| <= |r| && r[..|out|] == out && forall k :: |out| <= k < |r| ==> r[k] == 0
    decreases n - |out|
  {
    if |out| < n {
      PaddedKeeps(out + [0], n);
      var r := Padded(out + [0], n);
      assert r[..|out|] == r[..|out| + 1][..|out|];
      assert r[|out|] == r[..|out| + 1][|out|];
    }
  }

  lemma NamedKeeps(source: seq<Byte>, own: bool, w: seq<Byte>, r: seq<Byte>, p: Pcode, at: nat, t: nat)
    requires at < |w| <= |r| && r[..|w|] == w && Named(source, own, w, p, at, t)
    ensures Named(source, own, r, p, at, t)
  {
    assert forall k :: 0 <= k < |w| ==> r[k] == r[..|w|][k];
  }

  /** Every byte of the result is the one that its instruction names: those of an instruction follow those of the
      instructions before it, a NOOP writes none, and what nothing was written to is zero. */
  lemma ExpandedNames(source: seq<Byte>, own: bool, ps: seq<Pcode>, p: nat, t: nat)
    requires InSource(source, own, ps) && p < |ps| && t < Writes(ps[p])
    ensures var r := Expanded(source, own, ps); var at := |Written(source, own, ps, p)| + t;
            && |r| == Total(ps) && at < |Written(source, own, ps, p + 1)| <= |r|
            && Named(source, own, r, ps[p], at, t)
  {
    hide Written, Apply, Padded, Named;
    var w := Written(source, own, ps, p + 1);
    WrittenNext(source, own, ps, p);
    ApplyNames(source, own, Written(source, own, ps, p), ps[p], t);
    ExpandedKeeps(source, own, ps, p + 1);
    NamedKeeps(source, own, w, Expanded(source, own, ps), ps[p], |Written(source, own, ps, p)| + t, t);
  }

  lemma AllKept(source: seq<Byte>, own: bool, ps: seq<Pcode>)
    ensures var (r, w) := (Expanded(source, own, ps), Written(source, own, ps, |ps|));
            && |r| == Total(ps) && |w| <= |r| && r[..|w|] == w && forall k :: |w| <= k < |r| ==> r[k] == 0
  {
    hide Padded, ApplyAll;
    assert ps[..|ps|] == ps;
    ApplyLength(source, own, [], ps);
    PaddedKeeps(Written(source, own, ps, |ps|), Total(ps));
  }

  lemma PrefixOf(u: seq<Byte>, v: seq<Byte>, r: seq<Byte>)
    requires |u| <= |v| <= |r| && v[..|u|] == u && r[..|v|] == v
    ensures r[..|u|] == u
  {
    assert r[..|u|] == r[..|v|][..|u|];
  }

  lemma ExpandedKeeps(source: seq<Byte>, own: bool, ps: seq<Pcode>, p: nat)
    requires InSource(source, own, ps) && p <= |ps|
    ensures var (r, w) := (Expanded(source, own, ps), Written(source, own, ps, p));
            |r| == Total(ps) && |w| <= |r| && r[..|w|] == w
  {
    hide Expanded, Written, Total;
    AllKept(source, own, ps);
    WrittenKeeps(source, own, ps, p, |ps|);
    PrefixOf(Written(source, own, ps, p), Written(source, own, ps, |ps|), Expanded(source, own, ps));
  }

  /** The instructions together write the sum of what each does. */
  lemma WrittenLength(source: seq<Byte>, own: bool, ps: seq<Pcode>, p: nat)
    requires InSource(source, own, ps) && p < |ps|
    ensures Written(source, own, ps, 0) == []
    ensures |Written(source, own, ps, p + 1)| == |Written(source, own, ps, p)| + Writes(ps[p])
  {
    WrittenNext(source, own, ps, p);
    WritesLength(source, own, Written(source, own, ps, p), ps[p]);
  }
}
