/** VCDIFF files (sections 4.1 to 4.3 of RFC 3284): a printer, and the reader that undoes it. */
module VcdFile {
  import opened Words
  import opened Options
  import opened VcdInteger
  import opened VcdVm

  /** Fields that the indicators declare absent are zero or empty. */
  datatype File = File(version: Byte, indicator: Byte, compressorId: Byte, codeTable: seq<Byte>, windows: seq<Window>) {
    predicate DecompressP() {
      indicator % 2 == 1
    }

    predicate CodeTableP() {
      indicator / 2 % 2 == 1
    }
  }

  const MAGIC: seq<Byte> := [0xD6, 0xC3, 0xC4]

  /** Bitwise conjunction: the number whose bits are those set in both x and y. */
  function BitAnd(x: nat, y: nat): nat {
    if x == 0 || y == 0 then 0 else 2 * BitAnd(x / 2, y / 2) + (if x % 2 == 1 && y % 2 == 1 then 1 else 0)
  }

  predicate AtMostOneBit(b: Byte) {
    b == 0 || BitAnd(b, b - 1) == 0
  }

  // ---------- printing ----------

  function PrintSections(d: Delta): seq<Byte> {
    d.data + (d.inst + d.addr)
  }

  function PrintDelta(d: Delta): seq<Byte> {
    Digits(d.length) + (Digits(d.sWindow) + ([d.indicator] + (Digits(|d.data|) + (Digits(|d.inst|) + (Digits(|d.addr|)
    + PrintSections(d))))))
  }

  function PrintSegment(w: Window): seq<Byte> {
    if w.SourceP() || w.TargetP() then Digits(w.length) + Digits(w.position) else []
  }

  function PrintWindow(w: Window): seq<Byte> {
    [w.indicator] + (PrintSegment(w) + PrintDelta(w.delta))
  }

  function PrintWindows(ws: seq<Window>): seq<Byte>
    decreases |ws|
  {
    if ws == [] then [] else PrintWindow(ws[0]) + PrintWindows(ws[1..])
  }

  function PrintCompressor(f: File): seq<Byte> {
    if f.DecompressP() then [f.compressorId] else []
  }

  function PrintCodeTable(f: File): seq<Byte> {
    if f.CodeTableP() then Digits(|f.codeTable|) + f.codeTable else []
  }

  function Print(f: File): seq<Byte> {
    MAGIC + ([f.version] + ([f.indicator] + (PrintCompressor(f) + (PrintCodeTable(f) + PrintWindows(f.windows)))))
  }

  // ---------- what can be printed ----------

  predicate DeltaFits(d: Delta) {
    |d.data| < WORD && |d.inst| < WORD && |d.addr| < WORD
  }

  predicate WindowFits(w: Window, compatible: bool) {
    && (compatible ==> AtMostOneBit(w.indicator)) && DeltaFits(w.delta)
    && (w.SourceP() || w.TargetP() || (w.length == 0 && w.position == 0))
  }

  predicate Fits(f: File, compatible: bool) {
    && (compatible ==> f.version == 0) && |f.codeTable| < WORD
    && (f.DecompressP() || f.compressorId == 0) && (f.CodeTableP() || f.codeTable == [])
    && forall i :: 0 <= i < |f.windows| ==> WindowFits(f.windows[i], compatible)
  }

  // ---------- reading ----------

  function ByteAt(s: seq<Byte>, pos: nat): (r: Option<(Byte, nat)>)
    ensures r.Some? ==> r.value.1 == pos + 1 <= |s|
  {
    if pos < |s| then Some((s[pos], pos + 1)) else None
  }

  function BytesAt(s: seq<Byte>, pos: nat, size: nat): (r: Option<(seq<Byte>, nat)>)
    ensures r.Some? ==> |r.value.0| == size && r.value.1 == pos + size <= |s|
  {
    if pos + size <= |s| then Some((s[pos..pos + size], pos + size)) else None
  }

  function SectionsAt(s: seq<Byte>, pos: nat, sizeData: nat, sizeInst: nat, sizeAddr: nat)
    : (r: Option<((seq<Byte>, seq<Byte>, seq<Byte>), nat)>)
    ensures r.Some? ==> |r.value.0.0| == sizeData && |r.value.0.1| == sizeInst && |r.value.0.2| == sizeAddr
    ensures r.Some? ==> pos <= r.value.1 <= |s|
  {
    var (data, p1) :- BytesAt(s, pos, sizeData);
    var (inst, p2) :- BytesAt(s, p1, sizeInst);
    var (addr, p3) :- BytesAt(s, p2, sizeAddr);
    Some(((data, inst, addr), p3))
  }

  function DeltaAt(s: seq<Byte>, pos: nat): (r: Option<(Delta, nat)>)
    ensures r.Some? ==> pos < r.value.1 <= |s| && DeltaFits(r.value.0)
  {
    var (length, p1) :- ReadAt(s, pos, 0);
    var (sWindow, p2) :- ReadAt(s, p1, 0);
    var (indicator, p3) :- ByteAt(s, p2);
    var (sizeData, p4) :- ReadAt(s, p3, 0);
    var (sizeInst, p5) :- ReadAt(s, p4, 0);
    var (sizeAddr, p6) :- ReadAt(s, p5, 0);
    var ((data, inst, addr), p7) :- SectionsAt(s, p6, sizeData, sizeInst, sizeAddr);
    Some((Delta(length, sWindow, indicator, data, inst, addr), p7))
  }

  /** The length and the position of the source segment, if the indicator says that there is one. */
  function SegmentAt(s: seq<Byte>, pos: nat, indicator: Byte): (r: Option<((Word, Word), nat)>)
    requires pos <= |s|
    ensures r.Some? ==> pos <= r.value.1 <= |s|
  {
    if indicator % 2 == 1 || indicator / 2 % 2 == 1 then
      var (length, p1) :- ReadAt(s, pos, 0);
      var (position, p2) :- ReadAt(s, p1, 0);
      Some(((length, position), p2))
    else Some(((0, 0), pos))
  }

  function WindowAt(s: seq<Byte>, pos: nat, compatible: bool): (r: Option<(Window, nat)>)
    ensures r.Some? ==> pos < r.value.1 <= |s| && WindowFits(r.value.0, compatible)
  {
    var (indicator, p1) :- ByteAt(s, pos);
    if compatible && !AtMostOneBit(indicator) then None
    else
      var (lp, p2) :- SegmentAt(s, p1, indicator);
      var (delta, p3) :- DeltaAt(s, p2);
      Some((Window(indicator, lp.0, lp.1, delta), p3))
  }

  /** Windows up to the end. */
  function WindowsAt(s: seq<Byte>, pos: nat, compatible: bool): (r: Option<seq<Window>>)
    requires pos <= |s|
    ensures r.Some? ==> forall i :: 0 <= i < |r.value| ==> WindowFits(r.value[i], compatible)
    decreases |s| - pos
  {
    if pos == |s| then Some([])
    else
      var (w, p) :- WindowAt(s, pos, compatible);
      var rest :- WindowsAt(s, p, compatible);
      Some([w] + rest)
  }

  function CompressorAt(s: seq<Byte>, pos: nat, indicator: Byte): (r: Option<(Byte, nat)>)
    requires pos <= |s|
    ensures r.Some? ==> pos <= r.value.1 <= |s|
  {
    if indicator % 2 == 1 then ByteAt(s, pos) else Some((0, pos))
  }

  function CodeTableAt(s: seq<Byte>, pos: nat, indicator: Byte): (r: Option<(seq<Byte>, nat)>)
    requires pos <= |s|
    ensures r.Some? ==> pos + |r.value.0| <= r.value.1 <= |s| && |r.value.0| < WORD
  {
    if indicator / 2 % 2 == 1 then
      var (size, p) :- ReadAt(s, pos, 0);
      BytesAt(s, p, size)
    else Some(([], pos))
  }

  /** The file that the bytes hold; its code table is shorter by five bytes at least. */
  function FileOf(s: seq<Byte>, compatible: bool): (r: Option<File>)
    ensures r.Some? ==> Fits(r.value, compatible) && |r.value.codeTable| + 5 <= |s|
  {
    if |s| < 3 || s[..3] != MAGIC then None
    else
      var (version, p1) :- ByteAt(s, 3);
      if compatible && version != 0 then None
      else
        var (indicator, p2) :- ByteAt(s, p1);
        var (compressorId, p3) :- CompressorAt(s, p2, indicator);
        var (codeTable, p4) :- CodeTableAt(s, p3, indicator);
        var windows :- WindowsAt(s, p4, compatible);
        Some(File(version, indicator, compressorId, codeTable, windows))
  }

  // ---------- reading undoes printing ----------

  lemma ByteReads(s: seq<Byte>, pos: nat, b: Byte)
    requires At(s, pos, [b])
    ensures ByteAt(s, pos) == Some((b, pos + 1))
  {
    assert s[pos] == s[pos..pos + 1][0];
  }

  lemma BytesRead(s: seq<Byte>, pos: nat, bytes: seq<Byte>)
    requires At(s, pos, bytes)
    ensures BytesAt(s, pos, |bytes|) == Some((bytes, pos + |bytes|))
  {
  }

  lemma SectionsRead(s: seq<Byte>, pos: nat, d: Delta)
    requires At(s, pos, PrintSections(d))
    ensures SectionsAt(s, pos, |d.data|, |d.inst|, |d.addr|)
            == Some(((d.data, d.inst, d.addr), pos + |PrintSections(d)|))
  {
    hide At, BytesAt;
    AtParts(s, pos, d.data, d.inst + d.addr);
    BytesRead(s, pos, d.data);
    var p := pos + |d.data|;
    AtParts(s, p, d.inst, d.addr);
    BytesRead(s, p, d.inst);
    BytesRead(s, p + |d.inst|, d.addr);
  }

  lemma DigitsFirst(s: seq<Byte>, pos: nat, n: Word, more: seq<Byte>) returns (p: nat)
    requires At(s, pos, Digits(n) + more)
    ensures p == pos + |Digits(n)| && ReadAt(s, pos, 0) == Some((n, p)) && At(s, p, more)
  {
    AtParts(s, pos, Digits(n), more);
    DigitsRead(s, pos, n);
    p := pos + |Digits(n)|;
  }

  lemma DeltaReads(s: seq<Byte>, pos: nat, d: Delta)
    requires DeltaFits(d) && At(s, pos, PrintDelta(d))
    ensures DeltaAt(s, pos) == Some((d, pos + |PrintDelta(d)|))
  {
    hide At, Digits, ReadAt, ByteAt, SectionsAt, PrintSections;
    var d3 := Digits(|d.addr|) + PrintSections(d);
    var d2 := Digits(|d.inst|) + d3;
    var d1 := Digits(|d.data|) + d2;
    var p1 := DigitsFirst(s, pos, d.length, Digits(d.sWindow) + ([d.indicator] + d1));
    var p2 := DigitsFirst(s, p1, d.sWindow, [d.indicator] + d1);
    AtParts(s, p2, [d.indicator], d1);
    ByteReads(s, p2, d.indicator);
    var p4 := DigitsFirst(s, p2 + 1, |d.data|, d2);
    var p5 := DigitsFirst(s, p4, |d.inst|, d3);
    var p6 := DigitsFirst(s, p5, |d.addr|, PrintSections(d));
    SectionsRead(s, p6, d);
  }

  lemma WindowReads(s: seq<Byte>, pos: nat, w: Window, compatible: bool)
    requires WindowFits(w, compatible) && At(s, pos, PrintWindow(w))
    ensures WindowAt(s, pos, compatible) == Some((w, pos + |PrintWindow(w)|))
  {
    hide At, Digits, ReadAt, ByteAt, DeltaAt, PrintDelta, AtMostOneBit;
    AtParts(s, pos, [w.indicator], PrintSegment(w) + PrintDelta(w.delta));
    ByteReads(s, pos, w.indicator);
    AtParts(s, pos + 1, PrintSegment(w), PrintDelta(w.delta));
    if w.SourceP() || w.TargetP() {
      AtParts(s, pos + 1, Digits(w.length), Digits(w.position));
      DigitsRead(s, pos + 1, w.length);
      DigitsRead(s, pos + 1 + |Digits(w.length)|, w.position);
    }
    DeltaReads(s, pos + 1 + |PrintSegment(w)|, w.delta);
  }

  lemma {:induction false} WindowsRead(s: seq<Byte>, pos: nat, ws: seq<Window>, compatible: bool)
    requires forall i :: 0 <= i < |ws| ==> WindowFits(ws[i], compatible)
    requires At(s, pos, PrintWindows(ws)) && pos + |PrintWindows(ws)| == |s|
    ensures WindowsAt(s, pos, compatible) == Some(ws)
    decreases |ws|
  {
    hide At, PrintWindow, WindowAt, WindowFits;
    if ws != [] {
      AtParts(s, pos, PrintWindow(ws[0]), PrintWindows(ws[1..]));
      WindowReads(s, pos, ws[0], compatible);
      WindowsRead(s, pos + |PrintWindow(ws[0])|, ws[1..], compatible);
      assert ws == [ws[0]] + ws[1..];
    }
  }

  lemma MagicReads(s: seq<Byte>)
    requires At(s, 0, MAGIC)
    ensures |s| >= 3 && s[..3] == MAGIC
  {
  }

  lemma CompressorReads(s: seq<Byte>, pos: nat, f: File)
    requires (f.DecompressP() || f.compressorId == 0) && At(s, pos, PrintCompressor(f))
    ensures CompressorAt(s, pos, f.indicator) == Some((f.compressorId, pos + |PrintCompressor(f)|))
  {
    if f.DecompressP() {
      ByteReads(s, pos, f.compressorId);
    }
  }

  lemma CodeTableReads(s: seq<Byte>, pos: nat, f: File)
    requires (f.CodeTableP() || f.codeTable == []) && |f.codeTable| < WORD && At(s, pos, PrintCodeTable(f))
    ensures CodeTableAt(s, pos, f.indicator) == Some((f.codeTable, pos + |PrintCodeTable(f)|))
  {
    hide Digits, ReadAt;
    if f.CodeTableP() {
      var p := DigitsFirst(s, pos, |f.codeTable|, f.codeTable);
      BytesRead(s, p, f.codeTable);
    }
  }

  /** Reading undoes printing, for every file that fits; and what is read always fits. */
  lemma FileReads(f: File, compatible: bool)
    requires Fits(f, compatible)
    ensures FileOf(Print(f), compatible) == Some(f)
  {
    hide At, PrintWindows, WindowsAt, ByteAt, PrintCompressor, PrintCodeTable, CompressorAt, CodeTableAt;
    var s := Print(f);
    var t2 := PrintCodeTable(f) + PrintWindows(f.windows);
    var t1 := PrintCompressor(f) + t2;
    PrintedWhole(s);
    AtParts(s, 0, MAGIC, [f.version] + ([f.indicator] + t1));
    MagicReads(s);
    AtParts(s, 3, [f.version], [f.indicator] + t1);
    ByteReads(s, 3, f.version);
    AtParts(s, 4, [f.indicator], t1);
    ByteReads(s, 4, f.indicator);
    AtParts(s, 5, PrintCompressor(f), t2);
    CompressorReads(s, 5, f);
    var p3 := 5 + |PrintCompressor(f)|;
    AtParts(s, p3, PrintCodeTable(f), PrintWindows(f.windows));
    CodeTableReads(s, p3, f);
    WindowsRead(s, p3 + |PrintCodeTable(f)|, f.windows, compatible);
  }

  lemma PrintedWhole(s: seq<Byte>)
    ensures At(s, 0, s)
  {
  }
}
