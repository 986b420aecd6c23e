/** The reader of VCDIFF files over a port. */
module VcdReader {
  import opened Words
  import opened Options
  import opened VcdInteger
  import opened VcdVm
  import opened VcdFile

  /** What a part of the reader gives is what the bytes at the port's old position hold. */
  ghost predicate Agrees<T>(r: Option<T>, at: Option<(T, nat)>, pos: nat) {
    match at
    case None => r == None
    case Some((x, p)) => r == Some(x) && pos == p
  }

  method CodeTableDataRead(port: Port) returns (r: Option<seq<Byte>>)
    requires port.pos <= |port.head|
    modifies port
    ensures port.pos <= |port.head|
    ensures Agrees(r, CodeTableAt(port.head, old(port.pos), 2), port.pos)
  {
    var length := port.IntegerRead();
    if length.None? {
      return None;
    }
    r := port.ReadBytes(length.value);
  }

  method SectionsRead(port: Port, lengthData: nat, lengthInst: nat, lengthAddr: nat)
    returns (r: Option<(seq<Byte>, seq<Byte>, seq<Byte>)>)
    requires port.pos <= |port.head|
    modifies port
    ensures port.pos <= |port.head|
    ensures Agrees(r, SectionsAt(port.head, old(port.pos), lengthData, lengthInst, lengthAddr), port.pos)
  {
    var data := port.ReadBytes(lengthData);
    if data.None? {
      return None;
    }
    var inst := port.ReadBytes(lengthInst);
    if inst.None? {
      return None;
    }
    var addr := port.ReadBytes(lengthAddr);
    if addr.None? {
      return None;
    }
    return Some((data.value, inst.value, addr.value));
  }

  method DeltaRead(port: Port) returns (r: Option<Delta>)
    requires port.pos <= |port.head|
    modifies port
    ensures port.pos <= |port.head|
    ensures Agrees(r, DeltaAt(port.head, old(port.pos)), port.pos)
  {
    hide ReadAt, SectionsAt;
    var length := port.IntegerRead();
    if length.None? {
      return None;
    }
    var sWindow := port.IntegerRead();
    if sWindow.None? {
      return None;
    }
    var indicator := port.ReadByte();
    if indicator.None? {
      return None;
    }
    var lengthData := port.IntegerRead();
    if lengthData.None? {
      return None;
    }
    var lengthInst := port.IntegerRead();
    if lengthInst.None? {
      return None;
    }
    var lengthAddr := port.IntegerRead();
    if lengthAddr.None? {
      return None;
    }
    var sections := SectionsRead(port, lengthData.value, lengthInst.value, lengthAddr.value);
    if sections.None? {
      return None;
    }
    var (data, inst, addr) := sections.value;
    return Some(Delta(length.value, sWindow.value, indicator.value, data, inst, addr));
  }

  /** The body of the loop over windows, after the indicator byte. */
  method WindowRead(port: Port, indicator: Byte, compatible: bool) returns (r: Option<Window>)
    requires 0 < port.pos <= |port.head| && port.head[port.pos - 1] == indicator
    modifies port
    ensures port.pos <= |port.head|
    ensures Agrees(r, WindowAt(port.head, old(port.pos) - 1, compatible), port.pos)
  {
    hide ReadAt, DeltaAt;
    if compatible && indicator != 0 && BitAnd(indicator, indicator - 1) != 0 {
      return None;
    }
    var length, position: Word := 0, 0;
    if indicator % 2 == 1 || indicator / 2 % 2 == 1 {
      var l := port.IntegerRead();
      if l.None? {
        return None;
      }
      var p := port.IntegerRead();
      if p.None? {
        return None;
      }
      length, position := l.value, p.value;
    }
    var delta := DeltaRead(port);
    if delta.None? {
      return None;
    }
    return Some(Window(indicator, length, position, delta.value));
  }

  /** The windows read so far before those still to be read. */
  function Before(ws: seq<Window>, rest: Option<seq<Window>>): Option<seq<Window>> {
    if rest.Some? then Some(ws + rest.value) else None
  }

  lemma BeforeNext(s: seq<Byte>, pos: nat, compatible: bool, ws: seq<Window>)
    requires pos < |s|
    ensures match WindowAt(s, pos, compatible)
            case None => WindowsAt(s, pos, compatible) == None
            case Some((w, p)) =>
              Before(ws, WindowsAt(s, pos, compatible)) == Before(ws + [w], WindowsAt(s, p, compatible))
  {
    hide WindowAt, WindowFits;
    var r := WindowAt(s, pos, compatible);
    if r.Some? {
      var (w, p) := r.value;
      var rest := WindowsAt(s, p, compatible);
      if rest.Some? {
        assert ws + ([w] + rest.value) == ws + [w] + rest.value;
      }
    }
  }

  method WindowsRead(port: Port, compatible: bool) returns (r: Option<seq<Window>>)
    requires port.pos <= |port.head|
    modifies port
    ensures port.pos <= |port.head|
    ensures r == WindowsAt(port.head, old(port.pos), compatible)
  {
    hide WindowAt, WindowFits;
    var windows: seq<Window> := [];
    ghost var start := port.pos;
    var b := port.ReadByte();
    assert forall ws: seq<Window> :: [] + ws == ws;
    while b.Some?
      invariant port.pos <= |port.head| && (b.Some? ==> port.pos > 0 && port.head[port.pos - 1] == b.value)
      invariant b.None? ==> port.pos == |port.head|
      invariant WindowsAt(port.head, start, compatible)
             == Before(windows, WindowsAt(port.head, if b.Some? then port.pos - 1 else port.pos, compatible))
      decreases |port.head| - port.pos, b.Some?
    {
      BeforeNext(port.head, port.pos - 1, compatible, windows);
      var w := WindowRead(port, b.value, compatible);
      if w.None? {
        return None;
      }
      windows := windows + [w.value];
      b := port.ReadByte();
    }
    assert windows + [] == windows;
    return Some(windows);
  }

  /** The file that the port holds, from its start. */
  method Read(port: Port, compatible: bool) returns (r: Option<File>)
    requires port.pos == 0
    modifies port
    ensures r == FileOf(port.head, compatible)
  {
    hide WindowsAt, ReadAt;
    var b0 := port.ReadByte();
    if b0 != Some(0xD6) {
      return None;
    }
    var b1 := port.ReadByte();
    if b1 != Some(0xC3) {
      return None;
    }
    var b2 := port.ReadByte();
    if b2 != Some(0xC4) {
      return None;
    }
    var version := port.ReadByte();
    if version.None? || (compatible && version.value != 0) {
      return None;
    }
    var indicator := port.ReadByte();
    if indicator.None? {
      return None;
    }
    var compressorId := Some(0);
    if indicator.value % 2 == 1 {
      compressorId := port.ReadByte();
      if compressorId.None? {
        return None;
      }
    }
    var codeTable := Some([]);
    if indicator.value / 2 % 2 == 1 {
      codeTable := CodeTableDataRead(port);
      if codeTable.None? {
        return None;
      }
    }
    var windows := WindowsRead(port, compatible);
    if windows.None? {
      return None;
    }
    return Some(File(version.value, indicator.value, compressorId.value, codeTable.value, windows.value));
  }
}
