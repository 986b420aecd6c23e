/** Scripts of ADD, RUN and COPY: what they mean, how they are coded, and that decoding gives their meaning. */
module VcdScript {
  import opened Words
  import opened Options
  import opened VcdInteger
  import opened VcdCache
  import opened VcdTable
  import opened VcdVm

  datatype Inst =
    | Nothing
    | Added(bytes: seq<Byte>)
    | Repeated(size: Word, byte: Byte)
    | Copied(size: Word, mode: Byte, addr: Word)
  {
    function Size(): nat {
      match this
      case Nothing => 0
      case Added(bytes) => |bytes|
      case Repeated(size, _) => size
      case Copied(size, _, _) => size
    }
  }

  /** The instructions that one entry of a table stands for. */
  datatype Op = Op(idx: Byte, first: Inst, second: Inst)

  /** What the writer has so far: the target built and the caches. */
  datatype Point = Point(out: seq<Byte>, caches: Caches)

  // ---------- meaning ----------

  /** The instruction can be coded: a RUN is at most 255 long, and a COPY lies in the segment, its target bytes being
      complete, in a mode that can code its address. */
  predicate Legal(source: seq<Byte>, seg: Segment, p: Point, i: Inst) {
    match i
    case Nothing => true
    case Added(bytes) => |bytes| < WORD
    case Repeated(size, _) => size <= 255
    case Copied(size, mode, addr) =>
      && seg.lo + addr + size <= seg.hi
      && seg.lo + addr + size <= (if seg.inTarget then |p.out| else |source|)
      && Coded(p.caches, Wrap(|p.out|), mode, addr).Some?
  }

  function Act(source: seq<Byte>, seg: Segment, p: Point, i: Inst): (q: Point)
    requires p.caches.Valid() && Legal(source, seg, p, i)
    ensures q.caches.Valid() && |q.out| == |p.out| + i.Size()
  {
    match i
    case Nothing => p
    case Added(bytes) => p.(out := p.out + bytes)
    case Repeated(size, byte) => p.(out := p.out + Repeat(byte, size))
    case Copied(size, _, addr) =>
      var from := if seg.inTarget then p.out else source;
      Point(p.out + from[seg.lo + addr..seg.lo + addr + size], Updated(p.caches, addr))
  }

  /** The part of an entry stands for the instruction. */
  predicate Stands(part: Part, i: Inst) {
    && (i == Nothing || part.size == 0 || part.size == i.Size())
    && match i
       case Nothing => part.inst == NOOP
       case Added(_) => part.inst == ADD
       case Repeated(_, _) => part.inst == RUN
       case Copied(_, mode, _) => part.inst == COPY && part.mode == mode
  }

  predicate LegalOp(source: seq<Byte>, seg: Segment, table: Table, p: Point, op: Op)
    requires table.Valid() && p.caches.Valid()
  {
    && Stands(table.entries[op.idx].first, op.first) && Stands(table.entries[op.idx].second, op.second)
    && Legal(source, seg, p, op.first)
    && Legal(source, seg, Act(source, seg, p, op.first), op.second)
  }

  function ActOp(source: seq<Byte>, seg: Segment, table: Table, p: Point, op: Op): (q: Point)
    requires table.Valid() && p.caches.Valid() && LegalOp(source, seg, table, p, op)
    ensures q.caches.Valid() && |q.out| == |p.out| + op.first.Size() + op.second.Size()
  {
    Act(source, seg, Act(source, seg, p, op.first), op.second)
  }

  // ---------- coding ----------

  /** Bytes for the data, instructions and addresses sections. */
  datatype Sections = Sections(data: seq<Byte>, inst: seq<Byte>, addr: seq<Byte>) {
    function Then(more: Sections): Sections {
      Sections(data + more.data, inst + more.inst, addr + more.addr)
    }
  }

  function Data(i: Inst): seq<Byte> {
    match i
    case Added(bytes) => bytes
    case Repeated(_, byte) => [byte]
    case _ => []
  }

  function Address(source: seq<Byte>, seg: Segment, p: Point, i: Inst): seq<Byte>
    requires Legal(source, seg, p, i)
  {
    match i
    case Copied(_, mode, addr) => Wire(p.caches, mode, Coded(p.caches, Wrap(|p.out|), mode, addr).value)
    case _ => []
  }

  function Sizes(part: Part, i: Inst): seq<Byte> {
    if part.SizeFollows() then Digits(i.Size()) else []
  }

  function CodeOp(source: seq<Byte>, seg: Segment, table: Table, p: Point, op: Op): (s: Sections)
    requires table.Valid() && p.caches.Valid() && LegalOp(source, seg, table, p, op)
    ensures s.inst != []
  {
    var code := table.entries[op.idx];
    Sections(Data(op.first) + Data(op.second),
             [op.idx] + Sizes(code.first, op.first) + Sizes(code.second, op.second),
             Address(source, seg, p, op.first) + Address(source, seg, Act(source, seg, p, op.first), op.second))
  }

  predicate LegalOps(source: seq<Byte>, seg: Segment, table: Table, p: Point, ops: seq<Op>)
    requires table.Valid() && p.caches.Valid()
    decreases |ops|
  {
    ops == [] || (LegalOp(source, seg, table, p, ops[0])
                  && LegalOps(source, seg, table, ActOp(source, seg, table, p, ops[0]), ops[1..]))
  }

  /** The meaning of a window's script. */
  function ActOps(source: seq<Byte>, seg: Segment, table: Table, p: Point, ops: seq<Op>): (q: Point)
    requires table.Valid() && p.caches.Valid() && LegalOps(source, seg, table, p, ops)
    ensures q.caches.Valid() && |q.out| >= |p.out|
    decreases |ops|
  {
    if ops == [] then p else ActOps(source, seg, table, ActOp(source, seg, table, p, ops[0]), ops[1..])
  }

  function CodeOps(source: seq<Byte>, seg: Segment, table: Table, p: Point, ops: seq<Op>): Sections
    requires table.Valid() && p.caches.Valid() && LegalOps(source, seg, table, p, ops)
    decreases |ops|
  {
    if ops == [] then Sections([], [], [])
    else CodeOp(source, seg, table, p, ops[0])
         .Then(CodeOps(source, seg, table, ActOp(source, seg, table, p, ops[0]), ops[1..]))
  }

  // ---------- decoding one instruction ----------

  /** The machine holds what the writer had, and is where its three pieces start. */
  predicate Agrees(x: Env, st: State, p: Point) {
    && x.Holds(st) && st.here == |p.out| && st.target[..st.here] == p.out && st.caches == p.caches
  }

  lemma SpliceOut(t: seq<Byte>, out: seq<Byte>, s: seq<Byte>)
    requires |out| + |s| <= |t| && t[..|out|] == out
    ensures Splice(t, |out|, s)[..|out| + |s|] == out + s
  {
  }

  lemma AddedReads(x: Env, st: State, p: Point, bytes: seq<Byte>)
    requires Agrees(x, st, p) && |bytes| < WORD && At(x.data, st.data, bytes) && st.here + |bytes| <= |st.target|
    ensures var r := Add(x, st, |bytes|);
            r.Done? && Agrees(x, r.value, p.(out := p.out + bytes))
            && r.value.data == st.data + |bytes| && r.value.inst == st.inst && r.value.addr == st.addr
            && |r.value.target| == |st.target|
  {
    SpliceOut(st.target, p.out, bytes);
  }

  lemma RepeatedReads(x: Env, st: State, p: Point, size: Word, byte: Byte)
    requires Agrees(x, st, p) && size <= 255 && At(x.data, st.data, [byte]) && st.here + size <= |st.target|
    ensures var r := Run(x, st, size);
            r.Done? && Agrees(x, r.value, p.(out := p.out + Repeat(byte, size)))
            && r.value.data == st.data + 1 && r.value.inst == st.inst && r.value.addr == st.addr
            && |r.value.target| == |st.target|
  {
    assert x.data[st.data] == x.data[st.data..st.data + 1][0];
    SpliceOut(st.target, p.out, Repeat(byte, size));
  }

  lemma SlicePrefix(t: seq<Byte>, n: nat, lo: nat, hi: nat)
    requires lo <= hi <= n <= |t|
    ensures t[lo..hi] == t[..n][lo..hi]
  {
  }

  lemma CopiedReads(x: Env, st: State, p: Point, i: Inst)
    requires Agrees(x, st, p) && i.Copied? && Legal(x.source, x.seg, p, i)
    requires At(x.addr, st.addr, Address(x.source, x.seg, p, i)) && st.here + i.size <= |st.target|
    ensures var r := Copy(x, st, i.size, i.mode);
            r.Done? && Agrees(x, r.value, Act(x.source, x.seg, p, i))
            && r.value.data == st.data && r.value.inst == st.inst
            && r.value.addr == st.addr + |Address(x.source, x.seg, p, i)|
            && |r.value.target| == |st.target|
  {
    hide Coded, Meant, Wire, AddrAt, Updated;
    var here := Wrap(|p.out|);
    CodedMeant(p.caches, here, i.mode, i.addr);
    WireRead(p.caches, x.addr, st.addr, here, i.mode, Coded(p.caches, here, i.mode, i.addr).value, i.addr);
    var lo := x.seg.lo + i.addr;
    var from := if x.seg.inTarget then st.target else x.source;
    if x.seg.inTarget {
      SlicePrefix(st.target, st.here, lo, lo + i.size);
    }
    SpliceOut(st.target, p.out, from[lo..lo + i.size]);
  }

  /** One instruction does what it means. */
  lemma InstReads(x: Env, st: State, p: Point, part: Part, i: Inst, size: Word)
    requires Agrees(x, st, p) && Legal(x.source, x.seg, p, i) && Stands(part, i)
    requires i == Nothing || size == i.Size()
    requires At(x.data, st.data, Data(i)) && At(x.addr, st.addr, Address(x.source, x.seg, p, i))
    requires st.here + i.Size() <= |st.target|
    ensures var r := Execution(x, st, part.inst, size, part.mode);
            r.Done? && Agrees(x, r.value, Act(x.source, x.seg, p, i))
            && r.value.data == st.data + |Data(i)| && r.value.inst == st.inst
            && r.value.addr == st.addr + |Address(x.source, x.seg, p, i)|
            && |r.value.target| == |st.target|
  {
    hide Add, Run, Copy, Agrees, At, AddrAt, Coded, Wire, Updated;
    match i
    case Nothing =>
    case Added(bytes) => AddedReads(x, st, p, bytes);
    case Repeated(_, byte) => RepeatedReads(x, st, p, size, byte);
    case Copied(_, _, _) => CopiedReads(x, st, p, i);
  }

  lemma SizeReads(inst: seq<Byte>, pos: nat, part: Part, i: Inst, source: seq<Byte>, seg: Segment, p: Point)
    requires Stands(part, i) && Legal(source, seg, p, i) && At(inst, pos, Sizes(part, i))
    ensures var r := SizeAt(inst, pos, part);
            r.Some? && (i == Nothing || r.value.0 == i.Size()) && r.value.1 == pos + |Sizes(part, i)|
  {
    if part.SizeFollows() {
      DigitsRead(inst, pos, i.Size());
    }
  }

  // ---------- decoding a window ----------

  /** The sections lie at the cursors. */
  predicate Ahead(x: Env, st: State, s: Sections) {
    At(x.data, st.data, s.data) && At(x.inst, st.inst, s.inst) && At(x.addr, st.addr, s.addr)
  }

  /** The cursors have passed the sections. */
  predicate Passed(st: State, next: State, s: Sections) {
    && next.data == st.data + |s.data| && next.inst == st.inst + |s.inst| && next.addr == st.addr + |s.addr|
    && |next.target| == |st.target|
  }

  /** An entry acts as its two instructions in order. */
  lemma OpReads(x: Env, st: State, table: Table, p: Point, op: Op)
    requires table.Valid() && Agrees(x, st, p) && LegalOp(x.source, x.seg, table, p, op)
    requires Ahead(x, st, CodeOp(x.source, x.seg, table, p, op))
             && |ActOp(x.source, x.seg, table, p, op).out| <= |st.target|
    ensures st.inst < |x.inst|
    ensures var r := Entry(x, st, table);
            r.Done? && Agrees(x, r.value, ActOp(x.source, x.seg, table, p, op))
            && Passed(st, r.value, CodeOp(x.source, x.seg, table, p, op))
  {
    hide Stands, Legal, Act, Execution, Address, Data, Sizes, SizeAt;
    var code := table.entries[op.idx];
    var s1, s2 := Sizes(code.first, op.first), Sizes(code.second, op.second);
    var a1 := Address(x.source, x.seg, p, op.first);
    var mid := Act(x.source, x.seg, p, op.first);
    var a2 := Address(x.source, x.seg, mid, op.second);
    AtParts(x.data, st.data, Data(op.first), Data(op.second));
    AtParts(x.addr, st.addr, a1, a2);
    AtParts(x.inst, st.inst, [op.idx] + s1, s2);
    AtParts(x.inst, st.inst, [op.idx], s1);
    assert x.inst[st.inst] == x.inst[st.inst..st.inst + 1][0];
    SizeReads(x.inst, st.inst + 1, code.first, op.first, x.source, x.seg, p);
    var (n1, p1) := SizeAt(x.inst, st.inst + 1, code.first).value;
    SizeReads(x.inst, p1, code.second, op.second, x.source, x.seg, mid);
    var (n2, p2) := SizeAt(x.inst, p1, code.second).value;
    InstReads(x, st.(inst := p2), p, code.first, op.first, n1);
    var m := Execution(x, st.(inst := p2), code.first.inst, n1, code.first.mode).value;
    InstReads(x, m, mid, code.second, op.second, n2);
  }

  lemma AheadParts(x: Env, st: State, s: Sections, more: Sections, next: State)
    requires Ahead(x, st, s.Then(more)) && Passed(st, next, s)
    ensures Ahead(x, st, s) && Ahead(x, next, more)
  {
    hide At;
    AtParts(x.data, st.data, s.data, more.data);
    AtParts(x.inst, st.inst, s.inst, more.inst);
    AtParts(x.addr, st.addr, s.addr, more.addr);
  }

  lemma AheadFirst(x: Env, st: State, s: Sections, more: Sections)
    requires Ahead(x, st, s.Then(more))
    ensures Ahead(x, st, s)
  {
    AheadParts(x, st, s, more, st.(data := st.data + |s.data|, inst := st.inst + |s.inst|, addr := st.addr + |s.addr|));
  }

  lemma PassedAll(st: State, mid: State, last: State, s: Sections, more: Sections)
    requires Passed(st, mid, s) && Passed(mid, last, more)
    ensures Passed(st, last, s.Then(more))
  {
  }

  lemma NoOpsRead(x: Env, st: State, table: Table, p: Point)
    requires table.Valid() && Agrees(x, st, p) && st.inst == |x.inst|
    ensures Entries(x, st, table) == Done(st) && ActOps(x.source, x.seg, table, p, []) == p
    ensures Passed(st, st, CodeOps(x.source, x.seg, table, p, []))
  {
  }

  /** A window's instructions act in order, and all three sections are used up. */
  lemma {:induction false} OpsRead(x: Env, st: State, table: Table, p: Point, ops: seq<Op>)
    requires table.Valid() && Agrees(x, st, p) && LegalOps(x.source, x.seg, table, p, ops)
    requires Ahead(x, st, CodeOps(x.source, x.seg, table, p, ops))
    requires st.inst + |CodeOps(x.source, x.seg, table, p, ops).inst| == |x.inst|
    requires |ActOps(x.source, x.seg, table, p, ops).out| <= |st.target|
    ensures var r := Entries(x, st, table);
            r.Done? && Agrees(x, r.value, ActOps(x.source, x.seg, table, p, ops))
            && Passed(st, r.value, CodeOps(x.source, x.seg, table, p, ops))
    decreases |ops|
  {
    hide LegalOp, ActOp, CodeOp, Entry, Agrees, Ahead, Passed;
    if ops == [] {
      NoOpsRead(x, st, table, p);
    } else {
      AgreesHolds(x, st, p);
      var next := ActOp(x.source, x.seg, table, p, ops[0]);
      var s := CodeOp(x.source, x.seg, table, p, ops[0]);
      var more := CodeOps(x.source, x.seg, table, next, ops[1..]);
      AheadFirst(x, st, s, more);
      OpReads(x, st, table, p, ops[0]);
      var mid := Entry(x, st, table).value;
      EntryPassed(st, mid, s);
      AheadParts(x, st, s, more, mid);
      OpsRead(x, mid, table, next, ops[1..]);
      PassedAll(st, mid, Entries(x, mid, table).value, s, more);
    }
  }

  lemma AgreesHolds(x: Env, st: State, p: Point)
    requires Agrees(x, st, p)
    ensures x.Holds(st) && p.caches.Valid()
  {
  }

  lemma EntryPassed(st: State, mid: State, s: Sections)
    requires Passed(st, mid, s)
    ensures mid.inst == st.inst + |s.inst| && |mid.target| == |st.target|
  {
  }

  // ---------- decoding a file ----------

  /** The window codes the script from p on, in a target of total bytes. */
  predicate CodesWindow(source: seq<Byte>, table: Table, total: nat, p: Point, w: Window, ops: seq<Op>)
    requires table.Valid() && p.caches.Valid()
  {
    match SegmentOf(source, total, |p.out|, w)
    case None => false
    case Some(seg) =>
      && LegalOps(source, seg, table, p, ops)
      && Sections(w.delta.data, w.delta.inst, w.delta.addr) == CodeOps(source, seg, table, p, ops)
      && |ActOps(source, seg, table, p, ops).out| == |p.out| + w.delta.sWindow
  }

  /** The meaning of a window's script. */
  function ActWindow(source: seq<Byte>, table: Table, total: nat, p: Point, w: Window, ops: seq<Op>): (q: Point)
    requires table.Valid() && p.caches.Valid() && CodesWindow(source, table, total, p, w, ops)
    ensures q.caches.Valid() && |q.out| == |p.out| + w.delta.sWindow
  {
    ActOps(source, SegmentOf(source, total, |p.out|, w).value, table, p, ops)
  }

  predicate CodesWindows(source: seq<Byte>, table: Table, total: nat, p: Point, ws: seq<Window>, scripts: seq<seq<Op>>)
    requires table.Valid() && p.caches.Valid()
    decreases |ws|
  {
    |ws| == |scripts| &&
    (ws == [] || (CodesWindow(source, table, total, p, ws[0], scripts[0])
                  && CodesWindows(source, table, total, ActWindow(source, table, total, p, ws[0], scripts[0]), ws[1..],
                                  scripts[1..])))
  }

  /** The meaning of the scripts of all windows, one after the other. */
  function ActWindows(source: seq<Byte>, table: Table, total: nat, p: Point, ws: seq<Window>,
                      scripts: seq<seq<Op>>): (q: Point)
    requires table.Valid() && p.caches.Valid() && CodesWindows(source, table, total, p, ws, scripts)
    decreases |ws|
  {
    if ws == [] then p
    else ActWindows(source, table, total, ActWindow(source, table, total, p, ws[0], scripts[0]), ws[1..], scripts[1..])
  }

  /** The machine between windows holds what the writer has. */
  predicate Follows(g: Progress, p: Point) {
    g.Valid() && g.here == |p.out| && g.target[..g.here] == p.out && g.caches == p.caches
  }

  lemma WindowReads(source: seq<Byte>, table: Table, g: Progress, p: Point, w: Window, ops: seq<Op>)
    requires table.Valid() && Follows(g, p) && CodesWindow(source, table, |g.target|, p, w, ops)
    requires |p.out| + w.delta.sWindow <= |g.target|
    ensures var r := OneWindow(source, table, w, g);
            r.Done? && Follows(r.value, ActWindow(source, table, |g.target|, p, w, ops))
                && |r.value.target| == |g.target|
  {
    hide LegalOps, ActOps, CodeOps, Entries;
    var seg := SegmentOf(source, |g.target|, g.here, w).value;
    var x := EnvOf(source, seg, w);
    OpsRead(x, State(g.target, g.here, 0, 0, 0, g.caches), table, p, ops);
  }

  lemma {:induction false} TargetSizeFirst(ws: seq<Window>)
    requires ws != []
    ensures TargetSize(ws) == ws[0].delta.sWindow + TargetSize(ws[1..])
    decreases |ws|
  {
    if |ws| > 1 {
      TargetSizeFirst(ws[..|ws| - 1]);
      assert ws[..|ws| - 1][1..] == ws[1..][..|ws| - 2];
    }
  }

  lemma {:induction false} WindowsRead(source: seq<Byte>, table: Table, g: Progress, p: Point, ws: seq<Window>,
                                       scripts: seq<seq<Op>>)
    requires table.Valid() && Follows(g, p) && CodesWindows(source, table, |g.target|, p, ws, scripts)
    requires |p.out| + TargetSize(ws) == |g.target|
    ensures var r := Windows(source, table, ws, g);
            && r.Done? && |r.value.target| == |g.target|
            && Follows(r.value, ActWindows(source, table, |g.target|, p, ws, scripts))
            && r.value.here == |g.target|
    decreases |ws|
  {
    hide CodesWindow, ActWindow, OneWindow;
    if ws != [] {
      TargetSizeFirst(ws);
      WindowReads(source, table, g, p, ws[0], scripts[0]);
      var next := OneWindow(source, table, ws[0], g).value;
      WindowsRead(source, table, next, ActWindow(source, table, |g.target|, p, ws[0], scripts[0]), ws[1..],
                  scripts[1..]);
    }
  }

  function Start(table: Table): Point {
    Point([], Initial(table.sNear, table.sSame))
  }

  /** Decoding gives exactly the meaning of the scripts that the windows code, with any table. */
  lemma DecodeReads(source: seq<Byte>, table: Table, ws: seq<Window>, scripts: seq<seq<Op>>)
    requires table.Valid() && CodesWindows(source, table, TargetSize(ws), Start(table), ws, scripts)
    ensures DecodeWith(source, table, ws)
            == Done(ActWindows(source, table, TargetSize(ws), Start(table), ws, scripts).out)
  {
    hide CodesWindows, ActWindows, Windows;
    var g := Progress(Repeat(0, TargetSize(ws)), 0, Initial(table.sNear, table.sSame));
    WindowsRead(source, table, g, Start(table), ws, scripts);
    var r := Windows(source, table, ws, g).value;
    assert r.target[..r.here] == r.target;
  }
}
