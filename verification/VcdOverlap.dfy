/** COPY of target bytes that are not complete yet: what the buffer gives, against copying byte by byte (section 3 of
    RFC 3284). */
module VcdOverlap {
  import opened Words
  import opened Options
  import opened VcdInteger
  import opened VcdCache
  import opened VcdTable
  import opened VcdVm

  // ---------- nothing is written ahead ----------

  /** The target holds zeros from here on. */
  ghost predicate Clear(target: seq<Byte>, here: nat) {
    forall k :: here <= k < |target| ==> target[k] == 0
  }

  lemma SpliceClear(t: seq<Byte>, at: nat, s: seq<Byte>)
    requires at + |s| <= |t| && Clear(t, at)
    ensures Clear(Splice(t, at, s), at + |s|)
  {
  }

  lemma ExecutionClear(x: Env, st: State, inst: Byte, size: Word, mode: Byte)
    requires x.Holds(st) && Clear(st.target, st.here)
    ensures var r := Execution(x, st, inst, size, mode); r.Done? ==> Clear(r.value.target, r.value.here)
  {
    hide Splice, Clear, AddrAt, Updated;
    if inst == ADD {
      if st.here + size <= |st.target| && st.data + size <= |x.data| {
        SpliceClear(st.target, st.here, x.data[st.data..st.data + size]);
      }
    } else if inst == RUN {
      if st.here + size <= |st.target| && st.data + 1 <= |x.data| {
        SpliceClear(st.target, st.here, Repeat(x.data[st.data], size));
      }
    } else if inst == COPY && st.here + size <= |st.target| {
      match AddrAt(st.caches, x.addr, st.addr, Wrap(st.here), mode)
      case None =>
      case Some((addr, p)) =>
        if x.seg.lo + addr + size <= x.seg.hi {
          var from := if x.seg.inTarget then st.target else x.source;
          SpliceClear(st.target, st.here, from[x.seg.lo + addr..x.seg.lo + addr + size]);
        }
    }
  }

  lemma EntryClear(x: Env, st: State, table: Table)
    requires x.Holds(st) && table.Valid() && st.inst < |x.inst| && Clear(st.target, st.here)
    ensures var r := Entry(x, st, table); r.Done? ==> Clear(r.value.target, r.value.here)
  {
    hide Execution, SizeAt, Clear;
    var code := table.entries[x.inst[st.inst]];
    var s1 := SizeAt(x.inst, st.inst + 1, code.first);
    if s1.Some? {
      var s2 := SizeAt(x.inst, s1.value.1, code.second);
      if s2.Some? {
        var st' := st.(inst := s2.value.1);
        ExecutionClear(x, st', code.first.inst, s1.value.0, code.first.mode);
        var mid := Execution(x, st', code.first.inst, s1.value.0, code.first.mode);
        if mid.Done? {
          ExecutionClear(x, mid.value, code.second.inst, s2.value.0, code.second.mode);
        }
      }
    }
  }

  lemma {:induction false} EntriesClear(x: Env, st: State, table: Table)
    requires x.Holds(st) && table.Valid() && Clear(st.target, st.here)
    ensures var r := Entries(x, st, table); r.Done? ==> Clear(r.value.target, r.value.here)
    decreases |x.inst| - st.inst
  {
    hide Entry, Clear;
    if st.inst < |x.inst| {
      EntryClear(x, st, table);
      var next := Entry(x, st, table);
      if next.Done? {
        EntriesClear(x, next.value, table);
      }
    }
  }

  /** Between any windows of a run the target holds zeros from here on. */
  lemma {:induction false} WindowsClear(source: seq<Byte>, table: Table, ws: seq<Window>, g: Progress)
    requires g.Valid() && table.Valid() && Clear(g.target, g.here)
    ensures var r := Windows(source, table, ws, g); r.Done? ==> Clear(r.value.target, r.value.here)
    decreases |ws|
  {
    hide Entries, Clear;
    if ws != [] {
      var seg := SegmentOf(source, |g.target|, g.here, ws[0]);
      if seg.Some? {
        EntriesClear(EnvOf(source, seg.value, ws[0]), State(g.target, g.here, 0, 0, 0, g.caches), table);
      }
      var next := OneWindow(source, table, ws[0], g);
      if next.Done? {
        WindowsClear(source, table, ws[1..], next.value);
      }
    }
  }

  /** What a decoded file does not write of its target is zero. */
  lemma DecodedClear(source: seq<Byte>, table: Table, ws: seq<Window>) returns (here: nat)
    requires table.Valid() && DecodeWith(source, table, ws).Done?
    ensures var t := DecodeWith(source, table, ws).value; |t| == TargetSize(ws) && here <= |t| && Clear(t, here)
    ensures var zeros := Repeat(0, TargetSize(ws));
            var g := Windows(source, table, ws, Progress(zeros, 0, Initial(table.sNear, table.sSame)));
            g.Done? && here == g.value.here
  {
    hide Windows;
    var g := Progress(Repeat(0, TargetSize(ws)), 0, Initial(table.sNear, table.sSame));
    WindowsClear(source, table, ws, g);
    here := Windows(source, table, ws, g).value.here;
  }

  // ---------- byte by byte ----------

  /** n bytes from a on copied one by one, each after those before it. */
  function Sequential(out: seq<Byte>, a: nat, n: nat): (r: seq<Byte>)
    requires a < |out|
    ensures |r| == |out| + n && r[..|out|] == out
    decreases n
  {
    if n == 0 then out else Sequential(out + [out[a]], a + 1, n - 1)
  }

  /** Each byte copied repeats the one a period earlier. */
  lemma {:induction false} SequentialRepeats(out: seq<Byte>, a: nat, n: nat, k: nat)
    requires a < |out| && |out| <= k < |out| + n
    ensures Sequential(out, a, n)[k] == Sequential(out, a, n)[k - (|out| - a)]
    decreases n
  {
    var more := out + [out[a]];
    var r := Sequential(more, a + 1, n - 1);
    if k == |out| {
      assert r[k] == r[..|more|][k] && r[a] == r[..|more|][a];
    } else {
      SequentialRepeats(more, a + 1, n - 1, k);
    }
  }

  /** The bytes that a copy past here would repeat, all within the period from a to here, are zero. */
  predicate PeriodZero(out: seq<Byte>, a: nat, size: nat) {
    forall k :: a <= k < |out| && k < 2 * a + size - |out| ==> out[k] == 0
  }

  lemma BufferAt(target: seq<Byte>, here: nat, a: nat, size: nat, k: nat)
    requires here + size <= |target| && Clear(target, here) && a <= k < a + size && a + size <= |target|
    ensures target[a..a + size][k - a] == if k < here then target[..here][k] else 0
  {
  }

  /** If the bytes of the period that are repeated are zero, so is every byte beyond it. */
  lemma {:induction false} ZeroBeyond(out: seq<Byte>, a: nat, size: nat, k: nat)
    requires a < |out| && PeriodZero(out, a, size) && |out| <= k < a + size && k < |out| + size
    ensures Sequential(out, a, size)[k] == 0
    decreases k
  {
    var p, r := |out| - a, Sequential(out, a, size);
    SequentialRepeats(out, a, size, k);
    if k - p >= |out| {
      ZeroBeyond(out, a, size, k - p);
    } else {
      PrefixAt(r, out, k - p);
    }
  }

  lemma PrefixAt(r: seq<Byte>, out: seq<Byte>, k: nat)
    requires |out| <= |r| && r[..|out|] == out && k < |out|
    ensures r[k] == out[k]
  {
  }

  /** The byte at here + t, from the buffer and byte by byte. */
  lemma BothAt(target: seq<Byte>, here: nat, a: nat, size: nat, t: nat)
    requires a < here && here + size <= |target| && Clear(target, here) && t < size
    ensures var out := target[..here]; var r := Sequential(out, a, size);
            && (out + target[a..a + size])[here + t] == (if a + t < here then out[a + t] else 0)
            && r[here + t] == (if a + t < here then out[a + t] else r[a + t])
  {
    var out := target[..here];
    SequentialRepeats(out, a, size, here + t);
    BufferAt(target, here, a, size, a + t);
    if a + t < here {
      PrefixAt(Sequential(out, a, size), out, a + t);
    }
  }

  lemma SameFrom(s: seq<Byte>, r: seq<Byte>, n: nat)
    requires |s| == |r| && n <= |s| && s[..n] == r[..n] && forall t :: n <= t < |s| ==> s[t] == r[t]
    ensures s == r
  {
    assert s == s[..n] + s[n..] && r == r[..n] + r[n..];
  }

  /** If the buffer gives what copying byte by byte gives, what is repeated is zero. */
  lemma OverlapZero(target: seq<Byte>, here: nat, a: nat, size: nat, k: nat)
    requires a < here && here + size <= |target| && Clear(target, here)
    requires target[..here] + target[a..a + size] == Sequential(target[..here], a, size)
    requires a <= k < here && k < 2 * a + size - here
    ensures target[..here][k] == 0
  {
    BothAt(target, here, a, size, here + (k - a) - a);
    BothAt(target, here, a, size, k - a);
  }

  /** What the buffer gives equals what copying byte by byte gives if and only if the bytes that would be repeated are
      zero: none are when the copy ends before here. */
  lemma OverlapExact(target: seq<Byte>, here: nat, a: nat, size: nat)
    requires a < here && here + size <= |target| && Clear(target, here)
    ensures target[..here] + target[a..a + size] == Sequential(target[..here], a, size)
            <==> PeriodZero(target[..here], a, size)
  {
    hide Sequential, Clear;
    var out, from := target[..here], target[a..a + size];
    var r := Sequential(out, a, size);
    if out + from == r {
      forall k | a <= k < here && k < 2 * a + size - here
        ensures out[k] == 0
      {
        OverlapZero(target, here, a, size, k);
      }
    }
    if PeriodZero(out, a, size) {
      forall k | here <= k < here + size
        ensures (out + from)[k] == r[k]
      {
        BothAt(target, here, a, size, k - here);
        if a + (k - here) >= here {
          ZeroBeyond(out, a, size, a + (k - here));
        }
      }
      assert (out + from)[..here] == out;
      SameFrom(out + from, r, here);
    }
  }

  /** A COPY of target bytes gives what copying byte by byte gives if and only if the bytes that it would repeat are
      zero. */
  lemma CopyOverlap(x: Env, st: State, size: Word, mode: Byte, addr: Word)
    requires x.Holds(st) && Clear(st.target, st.here) && x.seg.inTarget && st.here + size <= |st.target|
    requires var r := AddrAt(st.caches, x.addr, st.addr, Wrap(st.here), mode); r.Some? && r.value.0 == addr
    requires x.seg.lo + addr + size <= x.seg.hi && x.seg.lo + addr < st.here
    ensures var r := Copy(x, st, size, mode); var out := st.target[..st.here];
            && r.Done? && r.value.here == st.here + size
            && (r.value.target[..st.here + size] == Sequential(out, x.seg.lo + addr, size)
                <==> PeriodZero(out, x.seg.lo + addr, size))
  {
    hide Sequential, PeriodZero, Clear, AddrAt, Updated;
    var a := x.seg.lo + addr;
    OverlapExact(st.target, st.here, a, size);
    SpliceFront(st.target, st.here, st.target[a..a + size]);
  }

  lemma SpliceFront(t: seq<Byte>, at: nat, s: seq<Byte>)
    requires at + |s| <= |t|
    ensures Splice(t, at, s)[..at + |s|] == t[..at] + s
  {
  }
}
