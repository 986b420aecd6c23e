/** The VCDIFF machine in place: one target buffer, three cursors and two caches. */
module VcdMachine {
  import opened Words
  import opened Options
  import opened VcdInteger
  import opened VcdCache
  import opened VcdTable
  import opened VcdVm
  import opened VcdFile
  import opened VcdReader
  import opened VcdDecode

  lemma SpliceNone(t: seq<Byte>, at: nat, b: Byte)
    requires at <= |t|
    ensures Splice(t, at, Repeat(b, 0)) == t
  {
  }

  lemma SpliceNext(t: seq<Byte>, at: nat, b: Byte, i: nat)
    requires at + i < |t|
    ensures Splice(t, at, Repeat(b, i + 1)) == Splice(t, at, Repeat(b, i))[at + i := b]
  {
  }

  class Vm {
    const source: seq<Byte>
    var target: array<Byte>
    var cache: Cache
    var codeTable: Table
    var env: Env
    var data: nat
    var inst: nat
    var addr: nat

    constructor (source: seq<Byte>)
      ensures this.source == source && fresh(cache)
    {
      this.source := source;
      target := new Byte[0];
      cache := new Cache(0, 0);
      codeTable := Default();
      env := Env(source, Segment(false, 0, 0), [], [], []);
      data, inst, addr := 0, 0, 0;
    }

    ghost function Holding(here: nat): State
      reads this, target, cache, cache.near, cache.same
    {
      State(target[..], here, data, inst, addr, cache.Contents())
    }

    ghost predicate Valid(here: nat)
      reads this, target, cache, cache.near, cache.same
    {
      && cache.Valid()
      && env.Holds(Holding(here)) && codeTable.Valid()
      && env.source == source
    }

    /** The size of an instruction, read if it follows. */
    method InstReadSize(part: Part) returns (size: Option<Word>)
      requires inst <= |env.inst|
      modifies this`inst
      ensures match SizeAt(env.inst, old(inst), part)
              case None => size == None
              case Some((n, p)) => size == Some(n) && inst == p
    {
      if part.SizeFollows() {
        var r := ReadInteger(env.inst, inst);
        if r.None? {
          return None;
        }
        inst := r.value.1;
        return Some(r.value.0);
      }
      return Some(part.size);
    }

    /** The address coded at the cursor. */
    method AddrRead(here: nat, mode: Byte) returns (r: Option<Word>)
      requires cache.Valid() && addr <= |env.addr|
      modifies this`addr
      ensures match AddrAt(cache.Contents(), env.addr, old(addr), Wrap(here), mode)
              case None => r == None
              case Some((a, p)) => r == Some(a) && addr == p
    {
      hide ReadAt;
      if mode - 2 < cache.near.Length {
        var d := ReadInteger(env.addr, addr);
        if d.None? {
          return None;
        }
        var offset: int := d.value.0;
        addr := d.value.1;
        if mode == SELF {
          return Some(offset);
        } else if mode == HERE {
          return Some(Wrap(Wrap(here) - offset));
        }
        return Some(Wrap(cache.near[mode - 2] + offset));
      }
      if addr + 1 > |env.addr| {
        return None;
      }
      var i := (mode - 2 - cache.near.Length) * 256 + env.addr[addr];
      addr := addr + 1;
      if i >= cache.same.Length {
        return None;
      }
      return Some(cache.same[i]);
    }

    /** The address coded at the cursor; the caches are updated. */
    method AddrDecode(here: nat, mode: Byte) returns (r: Option<Word>)
      requires cache.Valid() && addr <= |env.addr|
      modifies this`addr, cache`nextSlot, cache.near, cache.same
      ensures cache.Valid()
      ensures match AddrAt(old(cache.Contents()), env.addr, old(addr), Wrap(here), mode)
              case None => r == None
              case Some((a, p)) => r == Some(a) && addr == p && cache.Contents() == Updated(old(cache.Contents()), a)
    {
      hide AddrAt, Updated;
      r := AddrRead(here, mode);
      if r.Some? {
        cache.Update(r.value);
      }
    }

    /** Copies bytes into the target, as if through a buffer of their own. */
    method Move(at: nat, bytes: seq<Byte>)
      requires at + |bytes| <= target.Length
      modifies target
      ensures target[..] == Splice(old(target[..]), at, bytes)
    {
      forall k | 0 <= k < |bytes| {
        target[at + k] := bytes[k];
      }
    }

    method AddInst(here: nat, size: Word) returns (r: Outcome<nat>)
      requires Valid(here)
      modifies this`data, target
      ensures match Add(env, old(Holding(here)), size)
              case Done(st) => r.Done? && Holding(r.value) == st && Valid(r.value)
              case Failed => r == Failed
              case Loops => r == Loops
    {
      hide Splice, Caches.Valid;
      if here + size > target.Length || data + size > |env.data| {
        return Failed;
      }
      Move(here, env.data[data..data + size]);
      data := data + size;
      return Done(here + size);
    }

    method RunInst(here: nat, size: Word) returns (r: Outcome<nat>)
      requires Valid(here)
      modifies this`data, target
      ensures match Run(env, old(Holding(here)), size)
              case Done(st) => r.Done? && Holding(r.value) == st && Valid(r.value)
              case Failed => r == Failed
              case Loops => r == Loops
    {
      if here + size > target.Length || data + 1 > |env.data| {
        return Failed;
      }
      var b := env.data[data];
      data := data + 1;
      if size > 255 {
        return Loops;
      }
      Fill(here, b, size);
      return Done(here + size);
    }

    /** The counter of the loop is a byte, which covers sizes up to 255. */
    method Fill(here: nat, b: Byte, size: nat)
      requires here + size <= target.Length
      modifies target
      ensures target[..] == Splice(old(target[..]), here, Repeat(b, size))
    {
      hide Splice;
      var i: nat := 0;
      ghost var t := target[..];
      SpliceNone(t, here, b);
      while i < size
        invariant i <= size && target[..] == Splice(t, here, Repeat(b, i))
        modifies target
      {
        SpliceNext(t, here, b, i);
        target[here + i] := b;
        i := i + 1;
      }
    }

    method CopyInst(here: nat, size: Word, mode: Byte) returns (r: Outcome<nat>)
      requires Valid(here)
      modifies this`addr, target, cache`nextSlot, cache.near, cache.same
      ensures match Copy(env, old(Holding(here)), size, mode)
              case Done(st) => r.Done? && Holding(r.value) == st && Valid(r.value)
              case Failed => r == Failed
              case Loops => r == Loops
    {
      hide Splice, Caches.Valid, AddrAt, Updated;
      if here + size > target.Length {
        return Failed;
      }
      var a := AddrDecode(here, mode);
      if a.None? || env.seg.lo + a.value + size > env.seg.hi {
        return Failed;
      }
      var from := env.seg.lo + a.value;
      Move(here, if env.seg.inTarget then target[from..from + size] else source[from..from + size]);
      return Done(here + size);
    }

    /** Executes one instruction; gives the position after it. */
    method Execute(here: nat, op: Byte, size: Word, mode: Byte) returns (r: Outcome<nat>)
      requires Valid(here)
      modifies this`data, this`addr, target, cache`nextSlot, cache.near, cache.same
      ensures match Execution(env, old(Holding(here)), op, size, mode)
              case Done(st) => r.Done? && Holding(r.value) == st && Valid(r.value)
              case Failed => r == Failed
              case Loops => r == Loops
    {
      hide Add, Run, Copy;
      if op == NOOP {
        return Done(here);
      } else if op == ADD {
        r := AddInst(here, size);
      } else if op == RUN {
        r := RunInst(here, size);
      } else if op == COPY {
        r := CopyInst(here, size, mode);
      } else {
        return Failed;
      }
    }

    /** The entry at the cursor. */
    method EntryInst(here: nat) returns (r: Outcome<nat>)
      requires Valid(here) && inst < |env.inst|
      modifies this`data, this`inst, this`addr, target, cache`nextSlot, cache.near, cache.same
      ensures match Entry(env, old(Holding(here)), codeTable)
              case Done(st) => r.Done? && Holding(r.value) == st && Valid(r.value)
              case Failed => r == Failed
              case Loops => r == Loops
    {
      hide Execution, SizeAt, Caches.Valid;
      var code := codeTable.entries[env.inst[inst]];
      inst := inst + 1;
      var size1 := InstReadSize(code.first);
      if size1.None? {
        return Failed;
      }
      var size2 := InstReadSize(code.second);
      if size2.None? {
        return Failed;
      }
      r := Execute(here, code.first.inst, size1.value, code.first.mode);
      if r.Done? {
        r := Execute(r.value, code.second.inst, size2.value, code.second.mode);
      }
    }

    /** All entries of a window. */
    method WindowInsts(here: nat) returns (r: Outcome<nat>)
      requires Valid(here)
      modifies this`data, this`inst, this`addr, target, cache`nextSlot, cache.near, cache.same
      ensures match Entries(env, old(Holding(here)), codeTable)
              case Done(st) => r.Done? && Holding(r.value) == st && Valid(r.value)
              case Failed => r == Failed
              case Loops => r == Loops
    {
      hide Entry, Caches.Valid;
      var now := here;
      while inst < |env.inst|
        invariant Valid(now)
        invariant Entries(env, Holding(now), codeTable) == Entries(env, old(Holding(here)), codeTable)
        decreases |env.inst| - inst
      {
        r := EntryInst(now);
        if !r.Done? {
          return;
        }
        now := r.value;
      }
      return Done(now);
    }

    /** What is held between windows. */
    ghost function Between(here: nat): Progress
      reads this, target, cache, cache.near, cache.same
    {
      Progress(target[..], here, cache.Contents())
    }

    ghost predicate Ready(here: nat)
      reads this, target, cache, cache.near, cache.same
    {
      cache.Valid() && codeTable.Valid() && here <= target.Length
    }

    /** Decodes a window; gives the position after it. */
    method Window(here: nat, w: VcdVm.Window) returns (r: Outcome<nat>)
      requires Ready(here)
      modifies this`env, this`data, this`inst, this`addr, target, cache`nextSlot, cache.near, cache.same
      ensures match OneWindow(source, codeTable, w, old(Between(here)))
              case Done(g) => r.Done? && Between(r.value) == g && Ready(r.value)
              case Failed => r == Failed
              case Loops => r == Loops
    {
      hide Entries, Caches.Valid;
      var seg;
      if w.SourceP() {
        if w.position + w.length > |source| {
          return Failed;
        }
        seg := Segment(false, w.position, w.position + w.length);
      } else if w.TargetP() {
        if w.position + w.length > target.Length {
          return Failed;
        }
        seg := Segment(true, w.position, w.position + w.length);
      } else {
        if here + w.delta.sWindow > target.Length {
          return Failed;
        }
        seg := Segment(true, here, here + w.delta.sWindow);
      }
      env := EnvOf(source, seg, w);
      data, inst, addr := 0, 0, 0;
      r := WindowInsts(here);
    }

    /** Decodes all windows into the target, one after the other. */
    method AllWindows(ws: seq<VcdVm.Window>) returns (r: Outcome<nat>)
      requires Ready(0)
      modifies this`env, this`data, this`inst, this`addr, target, cache`nextSlot, cache.near, cache.same
      ensures match Windows(source, codeTable, ws, old(Between(0)))
              case Done(g) => r.Done? && Between(r.value) == g
              case Failed => r == Failed
              case Loops => r == Loops
    {
      hide OneWindow, Caches.Valid;
      var here: nat := 0;
      var i: nat := 0;
      while i < |ws|
        invariant i <= |ws| && Ready(here)
        invariant Windows(source, codeTable, ws[i..], Between(here)) == Windows(source, codeTable, ws, old(Between(0)))
      {
        r := Window(here, ws[i]);
        assert ws[i..][0] == ws[i] && ws[i..][1..] == ws[i + 1..];
        if !r.Done? {
          return;
        }
        here := r.value;
        i := i + 1;
      }
      return Done(here);
    }

    static method SumWindows(ws: seq<VcdVm.Window>) returns (size: nat)
      ensures size == TargetSize(ws)
    {
      size := 0;
      var i: nat := 0;
      while i < |ws|
        invariant i <= |ws| && size == TargetSize(ws[..i])
      {
        size := size + ws[i].delta.sWindow;
        assert ws[..i + 1][..i] == ws[..i];
        i := i + 1;
      }
      assert ws[..i] == ws;
    }

    /** Builds the target of the windows with the code table. */
    method Build(ws: seq<VcdVm.Window>) returns (r: Outcome<nat>)
      requires codeTable.Valid()
      modifies this
      ensures match DecodeWith(source, old(codeTable), ws)
              case Done(t) => r.Done? && target[..] == t
              case Failed => r == Failed && target.Length == 0
              case Loops => r == Loops && target.Length == 0
      ensures fresh(target)
    {
      hide Windows;
      cache := new Cache(codeTable.sNear, codeTable.sSame);
      var sTarget := SumWindows(ws);
      target := new Byte[sTarget](_ => 0);
      assert target[..] == Repeat(0, sTarget);
      r := AllWindows(ws);
      if !r.Done? {
        target := new Byte[0];
      }
    }

    /** Builds the target of a file; a failure leaves none. */
    method Decode(file: File) returns (r: Outcome<nat>)
      modifies this
      ensures match VcdDecode.Decode(source, file)
              case Done(t) => r.Done? && target[..] == t
              case Failed => r == Failed && target.Length == 0
              case Loops => r == Loops && target.Length == 0
      ensures fresh(target)
      decreases |file.codeTable|, 1
    {
      hide DecodeWith;
      target := new Byte[0];
      if file.CodeTableP() {
        var t := TableDecode(file.codeTable);
        if !t.Done? {
          return if t == Failed then Failed else Loops;
        }
        codeTable := t.value;
      } else {
        codeTable := Default();
      }
      r := Build(file.windows);
    }

    /** The table that code table data hold. */
    static method TableDecode(data: seq<Byte>) returns (r: Outcome<Table>)
      ensures r == TableOf(data)
      decreases |data|, 0
    {
      hide FromString, ToString, FileOf;
      if |data| <= 2 {
        return Failed;
      }
      var port := new Port(data[2..]);
      var file := Read(port, true);
      if file.None? {
        return Failed;
      }
      var defaults := EntriesToString(Default().entries);
      var w := new Vm(defaults);
      var end := w.Decode(file.value);
      if !end.Done? {
        return if end == Failed then Failed else Loops;
      }
      if w.target.Length != CODE_TABLE_LENGTH {
        return Failed;
      }
      var entries := EntriesFromString(w.target[..]);
      return Done(Table(data[0], data[1], entries[..]));
    }
  }
}
