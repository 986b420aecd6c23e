/** Whole files, byte by byte, and what they decode to: two of the repository's samples, and an entry of two
    instructions. */
module VcdSample {
  import opened Words
  import opened Options
  import opened VcdInteger
  import opened VcdCache
  import opened VcdTable
  import opened VcdVm
  import opened VcdScript
  import opened VcdFile
  import opened VcdDecode

  /** A file of one window and nothing more. */
  function FileWith(w: Window): File {
    File(0, 0, 0, [], [w])
  }

  function Begin(): Point {
    Point([], Initial(4, 3))
  }

  /** A window of one entry decodes to what the entry does to an empty target. */
  lemma EntryDecodes(source: seq<Byte>, w: Window, seg: Segment, op: Op)
    requires SegmentOf(source, w.delta.sWindow, 0, w) == Some(seg) && LegalOp(source, seg, Default(), Begin(), op)
    requires CodeOp(source, seg, Default(), Begin(), op) == Sections(w.delta.data, w.delta.inst, w.delta.addr)
    requires |ActOp(source, seg, Default(), Begin(), op).out| == w.delta.sWindow
    ensures Decode(source, FileWith(w)) == Done(ActOp(source, seg, Default(), Begin(), op).out)
  {
    hide LegalOp, ActOp, CodeOp, DecodeWith, Default, SegmentOf;
    var ws, ops, total := [w], [op], w.delta.sWindow;
    assert ws[..0] == [] && TargetSize(ws) == total;
    assert ops[1..] == [];
    OneOp(source, seg, op);
    assert CodesWindow(source, Default(), total, Begin(), w, ops);
    DecodeReads(source, Default(), ws, [ops]);
  }

  lemma OneOp(source: seq<Byte>, seg: Segment, op: Op)
    requires LegalOp(source, seg, Default(), Begin(), op)
    ensures LegalOps(source, seg, Default(), Begin(), [op])
    ensures ActOps(source, seg, Default(), Begin(), [op]) == ActOp(source, seg, Default(), Begin(), op)
    ensures CodeOps(source, seg, Default(), Begin(), [op]) == CodeOp(source, seg, Default(), Begin(), op)
  {
    hide LegalOp, ActOp, CodeOp, Default;
    assert [op][1..] == [];
  }

  lemma OneWindowRead(w: Window, compatible: bool)
    requires WindowFits(w, true)
    ensures FileOf(MAGIC + [0, 0] + PrintWindow(w), compatible) == Some(FileWith(w))
  {
    hide PrintWindow, WindowFits, FileOf;
    FitsEither(w, compatible);
    FileReads(FileWith(w), compatible);
    assert PrintWindows([w]) == PrintWindow(w) + PrintWindows([]);
    assert Print(FileWith(w)) == MAGIC + [0, 0] + PrintWindow(w);
  }

  lemma FitsEither(w: Window, compatible: bool)
    requires WindowFits(w, true)
    ensures WindowFits(w, compatible)
  {
  }

  lemma SmallDigits(n: Byte)
    requires n < 128
    ensures Digits(n) == [n]
  {
  }

  lemma FitsSource(length: Word, d: Delta)
    requires DeltaFits(d)
    ensures WindowFits(Window(1, length, 0, d), true)
  {
    assert BitAnd(1, 0) == 0;
  }

  // ---------- hello ----------

  /** test/vcdiff/hello.vcdiff: an empty segment of the source, and one ADD of 14. */
  function Hello(): seq<Byte> {
    [0xD6, 0xC3, 0xC4, 0, 0, 1, 0, 0, 20, 14, 0, 14, 1, 0] + Greeting() + [15]
  }

  /** test/vcdiff/hello: "hello, world." and the end of the line. */
  function Greeting(): (s: seq<Byte>)
    ensures |s| == 14
  {
    [0x68, 0x65, 0x6C, 0x6C, 0x6F, 0x2C, 0x20, 0x77, 0x6F, 0x72, 0x6C, 0x64, 0x2E, 0x0A]
  }

  function HelloFile(): File {
    FileWith(Window(1, 0, 0, Delta(20, 14, 0, Greeting(), [15], [])))
  }

  lemma HelloRead(compatible: bool)
    ensures FileOf(Hello(), compatible) == Some(HelloFile())
  {
    hide FileOf, Digits, WindowFits, Greeting;
    var w := HelloFile().windows[0];
    SmallDigits(0);
    SmallDigits(1);
    SmallDigits(14);
    SmallDigits(20);
    FitsSource(0, w.delta);
    OneWindowRead(w, compatible);
    assert PrintWindow(w) == [1, 0, 0, 20, 14, 0, 14, 1, 0] + Greeting() + [15];
    assert Hello() == MAGIC + [0, 0] + PrintWindow(w);
  }

  lemma HelloDecodes(source: seq<Byte>)
    ensures Decode(source, HelloFile()) == Done(Greeting())
  {
    hide Decode, Greeting;
    var w, op := HelloFile().windows[0], Op(15, Added(Greeting()), Nothing);
    assert DefaultCode(15) == Code(Part(ADD, 14, 0), NOTHING);
    EntryDecodes(source, w, Segment(false, 0, 0), op);
    assert [] + Greeting() == Greeting();
  }

  // ---------- all of a source ----------

  /** test/vcdiff/rfc3284.txt.vcdiff.1: all 64035 bytes of the source, copied at once, with an address that the same
      cache holds. */
  function Whole(): seq<Byte> {
    [0xD6, 0xC3, 0xC4, 0, 0, 1, 0x83, 0xF4, 0x23, 0, 12, 0x83, 0xF4, 0x23, 0, 0, 4, 1, 0x73, 0x83, 0xF4, 0x23, 0]
  }

  function WholeFile(): File {
    FileWith(Window(1, 64035, 0, Delta(12, 64035, 0, [], [0x73, 0x83, 0xF4, 0x23], [0])))
  }

  lemma WholeDigits()
    ensures Digits(64035) == [0x83, 0xF4, 0x23]
  {
    assert Continued(3) == [0x83];
    assert Continued(500) == [0x83, 0xF4];
  }

  lemma WholePrinted()
    ensures PrintDelta(WholeFile().windows[0].delta)
            == [12, 0x83, 0xF4, 0x23, 0, 0, 4, 1, 0x73, 0x83, 0xF4, 0x23, 0]
  {
    hide Digits;
    WholeDigits();
    SmallDigits(0);
    SmallDigits(1);
    SmallDigits(4);
    SmallDigits(12);
  }

  lemma WholeRead(compatible: bool)
    ensures FileOf(Whole(), compatible) == Some(WholeFile())
  {
    hide FileOf, Digits, WindowFits, PrintDelta;
    var w := WholeFile().windows[0];
    WholeDigits();
    SmallDigits(0);
    FitsSource(64035, w.delta);
    OneWindowRead(w, compatible);
    WholePrinted();
    assert PrintSegment(w) == [0x83, 0xF4, 0x23, 0];
    assert Whole() == MAGIC + [0, 0] + PrintWindow(w);
  }

  lemma WholeDecodes(source: seq<Byte>)
    requires |source| == 64035
    ensures Decode(source, WholeFile()) == Done(source)
  {
    hide Decode, Digits;
    var w, op := WholeFile().windows[0], Op(0x73, Copied(64035, 6, 0), Nothing);
    WholeDigits();
    assert DefaultCode(0x73) == Code(Part(COPY, 0, 6), NOTHING);
    assert Coded(Begin().caches, 0, 6, 0) == Some(0);
    EntryDecodes(source, w, Segment(false, 0, 64035), op);
    assert [] + source[0..64035] == source;
  }

  // ---------- two instructions at once ----------

  /** Entry 247 copies four bytes and adds one. */
  lemma PairDecodes(source: seq<Byte>, b: Byte)
    requires |source| == 4
    ensures Decode(source, FileWith(Window(1, 4, 0, Delta(0, 5, 0, [b], [247], [0])))) == Done(source + [b])
  {
    hide Decode;
    var w := Window(1, 4, 0, Delta(0, 5, 0, [b], [247], [0]));
    var op := Op(247, Copied(4, 0, 0), Added([b]));
    assert DefaultCode(247) == Code(Part(COPY, 4, 0), Part(ADD, 1, 0));
    SmallDigits(0);
    EntryDecodes(source, w, Segment(false, 0, 4), op);
    assert [] + source[0..4] + [b] == source + [b];
  }
}
