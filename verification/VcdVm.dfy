/** The VCDIFF machine (sections 4.3 and 6 of RFC 3284): what it does, and that it undoes the coding of scripts. */
module VcdVm {
  import opened Words
  import opened Options
  import opened VcdInteger
  import opened VcdCache
  import opened VcdTable

  /** A run may end well, with an error, or never. */
  datatype Outcome<T> = Done(value: T) | Failed | Loops

  datatype Delta = Delta(length: Word, sWindow: Word, indicator: Byte,
                         data: seq<Byte>, inst: seq<Byte>, addr: seq<Byte>)

  datatype Window = Window(indicator: Byte, length: Word, position: Word, delta: Delta) {
    predicate SourceP() {
      indicator % 2 == 1
    }

    predicate TargetP() {
      indicator / 2 % 2 == 1
    }
  }

  /** The bytes that a COPY may reach, in the source or in the target. */
  datatype Segment = Segment(inTarget: bool, lo: nat, hi: nat)

  /** What does not change while a window is decoded. */
  datatype Env = Env(source: seq<Byte>, seg: Segment, data: seq<Byte>, inst: seq<Byte>, addr: seq<Byte>) {
    predicate Holds(st: State) {
      && st.here <= |st.target| && st.caches.Valid()
      && st.data <= |data| && st.inst <= |inst| && st.addr <= |addr|
      && seg.lo <= seg.hi <= (if seg.inTarget then |st.target| else |source|)
    }
  }

  datatype State = State(target: seq<Byte>, here: nat, data: nat, inst: nat, addr: nat, caches: Caches)

  function Splice(t: seq<Byte>, at: nat, s: seq<Byte>): (r: seq<Byte>)
    requires at + |s| <= |t|
    ensures |r| == |t|
  {
    t[..at] + s + t[at + |s|..]
  }

  function Repeat(b: Byte, n: nat): (s: seq<Byte>)
    ensures |s| == n && forall i :: 0 <= i < n ==> s[i] == b
  {
    seq(n, _ => b)
  }

  // ---------- one instruction ----------

  function Add(x: Env, st: State, size: Word): Outcome<State>
    requires x.Holds(st)
  {
    if st.here + size > |st.target| || st.data + size > |x.data| then Failed
    else Done(st.(target := Splice(st.target, st.here, x.data[st.data..st.data + size]),
                  data := st.data + size, here := st.here + size))
  }

  function Run(x: Env, st: State, size: Word): Outcome<State>
    requires x.Holds(st)
  {
    if st.here + size > |st.target| || st.data + 1 > |x.data| then Failed
    else if size > 255 then Loops
    else Done(st.(target := Splice(st.target, st.here, Repeat(x.data[st.data], size)),
                  data := st.data + 1, here := st.here + size))
  }

  function Copy(x: Env, st: State, size: Word, mode: Byte): Outcome<State>
    requires x.Holds(st)
  {
    if st.here + size > |st.target| then Failed
    else
      match AddrAt(st.caches, x.addr, st.addr, Wrap(st.here), mode)
      case None => Failed
      case Some((addr, p)) =>
        if x.seg.lo + addr + size > x.seg.hi then Failed
        else
          var from := (if x.seg.inTarget then st.target else x.source)[x.seg.lo + addr..x.seg.lo + addr + size];
          Done(st.(target := Splice(st.target, st.here, from), addr := p, here := st.here + size,
                   caches := Updated(st.caches, addr)))
  }

  function Execution(x: Env, st: State, inst: Byte, size: Word, mode: Byte): (r: Outcome<State>)
    requires x.Holds(st)
    ensures r.Done? ==> x.Holds(r.value) && r.value.inst == st.inst && |r.value.target| == |st.target|
  {
    if inst == NOOP then Done(st)
    else if inst == ADD then Add(x, st, size)
    else if inst == RUN then Run(x, st, size)
    else if inst == COPY then Copy(x, st, size, mode)
    else Failed
  }

  // ---------- a window ----------

  /** The size of an instruction, read if it follows, and the position after it. */
  function SizeAt(inst: seq<Byte>, pos: nat, part: Part): (r: Option<(Word, nat)>)
    requires pos <= |inst|
    ensures r.Some? ==> pos <= r.value.1 <= |inst|
  {
    if part.SizeFollows() then ReadAt(inst, pos, 0) else Some((part.size, pos))
  }

  /** The entry at the cursor: both sizes are read before either instruction is executed. */
  function Entry(x: Env, st: State, table: Table): (r: Outcome<State>)
    requires x.Holds(st) && table.Valid() && st.inst < |x.inst|
    ensures r.Done? ==> x.Holds(r.value) && st.inst < r.value.inst && |r.value.target| == |st.target|
  {
    var code := table.entries[x.inst[st.inst]];
    match SizeAt(x.inst, st.inst + 1, code.first)
    case None => Failed
    case Some((size1, p1)) =>
      match SizeAt(x.inst, p1, code.second)
      case None => Failed
      case Some((size2, p2)) =>
        match Execution(x, st.(inst := p2), code.first.inst, size1, code.first.mode)
        case Done(mid) => Execution(x, mid, code.second.inst, size2, code.second.mode)
        case Failed => Failed
        case Loops => Loops
  }

  function Entries(x: Env, st: State, table: Table): (r: Outcome<State>)
    requires x.Holds(st) && table.Valid()
    ensures r.Done? ==> x.Holds(r.value) && r.value.inst == |x.inst| && |r.value.target| == |st.target|
    decreases |x.inst| - st.inst
  {
    if st.inst == |x.inst| then Done(st)
    else
      match Entry(x, st, table)
      case Done(next) => Entries(x, next, table)
      case Failed => Failed
      case Loops => Loops
  }

  // ---------- all windows ----------

  /** Where a window copies from; none if that is not all there. */
  function SegmentOf(source: seq<Byte>, targetSize: nat, here: nat, w: Window): (r: Option<Segment>)
    ensures r.Some? ==> r.value.lo <= r.value.hi <= (if r.value.inTarget then targetSize else |source|)
  {
    if w.SourceP() then
      if w.position + w.length > |source| then None else Some(Segment(false, w.position, w.position + w.length))
    else if w.TargetP() then
      if w.position + w.length > targetSize then None else Some(Segment(true, w.position, w.position + w.length))
    else
      if here + w.delta.sWindow > targetSize then None else Some(Segment(true, here, here + w.delta.sWindow))
  }

  function EnvOf(source: seq<Byte>, seg: Segment, w: Window): Env {
    Env(source, seg, w.delta.data, w.delta.inst, w.delta.addr)
  }

  /** What the machine holds between windows. */
  datatype Progress = Progress(target: seq<Byte>, here: nat, caches: Caches) {
    predicate Valid() {
      here <= |target| && caches.Valid()
    }
  }

  function OneWindow(source: seq<Byte>, table: Table, w: Window, g: Progress): (r: Outcome<Progress>)
    requires g.Valid() && table.Valid()
    ensures r.Done? ==> r.value.Valid() && |r.value.target| == |g.target|
  {
    match SegmentOf(source, |g.target|, g.here, w)
    case None => Failed
    case Some(seg) =>
      match Entries(EnvOf(source, seg, w), State(g.target, g.here, 0, 0, 0, g.caches), table)
      case Done(st) => Done(Progress(st.target, st.here, st.caches))
      case Failed => Failed
      case Loops => Loops
  }

  function Windows(source: seq<Byte>, table: Table, ws: seq<Window>, g: Progress): (r: Outcome<Progress>)
    requires g.Valid() && table.Valid()
    ensures r.Done? ==> r.value.Valid() && |r.value.target| == |g.target|
    decreases |ws|
  {
    if ws == [] then Done(g)
    else
      match OneWindow(source, table, ws[0], g)
      case Done(next) => Windows(source, table, ws[1..], next)
      case Failed => Failed
      case Loops => Loops
  }

  function TargetSize(ws: seq<Window>): nat
    decreases |ws|
  {
    if ws == [] then 0 else TargetSize(ws[..|ws| - 1]) + ws[|ws| - 1].delta.sWindow
  }

  /** The target that the windows build with a table; the caches are set once. */
  function DecodeWith(source: seq<Byte>, table: Table, ws: seq<Window>): (r: Outcome<seq<Byte>>)
    requires table.Valid()
    ensures r.Done? ==> |r.value| == TargetSize(ws)
  {
    match Windows(source, table, ws, Progress(Repeat(0, TargetSize(ws)), 0, Initial(table.sNear, table.sSame)))
    case Done(g) => Done(g.target)
    case Failed => Failed
    case Loops => Loops
  }
}
