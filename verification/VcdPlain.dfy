/** Files of plain scripts, coded with the default table: from ADD, RUN and COPY to bytes and back to the target. */
module VcdPlain {
  import opened Words
  import opened Options
  import opened VcdCache
  import opened VcdTable
  import opened VcdVm
  import opened VcdScript
  import opened VcdEncode
  import opened VcdFile
  import opened VcdDecode

  /** The header of a window and its plain script. */
  datatype Draft = Draft(indicator: Byte, length: Word, position: Word, plain: seq<Plain>)

  function SizeOf(i: Plain): nat {
    match i
    case PlainAdd(bytes) => |bytes|
    case PlainRun(size, _) => size
    case PlainCopy(size, _) => size
  }

  /** How many bytes a script adds to the target. */
  function Growth(plain: seq<Plain>): nat
    decreases |plain|
  {
    if plain == [] then 0 else SizeOf(plain[0]) + Growth(plain[1..])
  }

  lemma {:induction false} MeanGrowth(source: seq<Byte>, seg: Segment, out: seq<Byte>, plain: seq<Plain>)
    requires AllPossible(source, seg, out, plain)
    ensures |MeanAll(source, seg, out, plain)| == |out| + Growth(plain)
    decreases |plain|
  {
    if plain != [] {
      MeanGrowth(source, seg, Mean(source, seg, out, plain[0]), plain[1..]);
    }
  }

  /** Where a window copies from when the target so far has here bytes; without a source segment, from its own part. */
  function SegmentFor(d: Draft, here: nat): Segment {
    if d.indicator % 2 == 1 then Segment(false, d.position, d.position + d.length)
    else if d.indicator / 2 % 2 == 1 then Segment(true, d.position, d.position + d.length)
    else Segment(true, here, here + Growth(d.plain))
  }

  predicate DraftPossible(source: seq<Byte>, total: nat, out: seq<Byte>, d: Draft) {
    var seg := SegmentFor(d, |out|);
    && seg.hi <= (if seg.inTarget then total else |source|)
    && Growth(d.plain) < WORD && AllPossible(source, seg, out, d.plain)
  }

  function DraftMean(source: seq<Byte>, total: nat, out: seq<Byte>, d: Draft): (r: seq<Byte>)
    requires DraftPossible(source, total, out, d)
    ensures |r| == |out| + Growth(d.plain)
  {
    MeanGrowth(source, SegmentFor(d, |out|), out, d.plain);
    MeanAll(source, SegmentFor(d, |out|), out, d.plain)
  }

  /** Every window's script can be carried out after those before it, in a target of total bytes. */
  predicate DraftsPossible(source: seq<Byte>, total: nat, out: seq<Byte>, ds: seq<Draft>)
    decreases |ds|
  {
    ds == [] || (DraftPossible(source, total, out, ds[0])
                 && DraftsPossible(source, total, DraftMean(source, total, out, ds[0]), ds[1..]))
  }

  /** The target after all scripts. */
  function DraftsMean(source: seq<Byte>, total: nat, out: seq<Byte>, ds: seq<Draft>): seq<Byte>
    requires DraftsPossible(source, total, out, ds)
    decreases |ds|
  {
    if ds == [] then out else DraftsMean(source, total, DraftMean(source, total, out, ds[0]), ds[1..])
  }

  function TotalGrowth(ds: seq<Draft>): nat
    decreases |ds|
  {
    if ds == [] then 0 else Growth(ds[0].plain) + TotalGrowth(ds[1..])
  }

  // ---------- coding ----------

  function DraftScript(source: seq<Byte>, total: nat, p: Point, d: Draft): seq<Op>
    requires DefaultSizes(p.caches) && DraftPossible(source, total, p.out, d)
  {
    LoneAll(source, SegmentFor(d, |p.out|), p, d.plain)
  }

  function DraftWindow(source: seq<Byte>, total: nat, p: Point, d: Draft): Window
    requires DefaultSizes(p.caches) && DraftPossible(source, total, p.out, d)
  {
    MeanGrowth(source, SegmentFor(d, |p.out|), p.out, d.plain);
    PlainWindow(source, SegmentFor(d, |p.out|), p, d.plain, d.indicator, d.length, d.position)
  }

  /** What the writer has after a window. */
  function DraftPoint(source: seq<Byte>, total: nat, p: Point, d: Draft): (q: Point)
    requires DefaultSizes(p.caches) && DraftPossible(source, total, p.out, d)
    ensures DefaultSizes(q.caches) && q.out == DraftMean(source, total, p.out, d)
  {
    LoneAllLegal(source, SegmentFor(d, |p.out|), p, d.plain);
    ActOps(source, SegmentFor(d, |p.out|), Default(), p, DraftScript(source, total, p, d))
  }

  function DraftWindows(source: seq<Byte>, total: nat, p: Point, ds: seq<Draft>): (ws: seq<Window>)
    requires DefaultSizes(p.caches) && DraftsPossible(source, total, p.out, ds)
    ensures |ws| == |ds|
    decreases |ds|
  {
    if ds == [] then []
    else
      var q := DraftPoint(source, total, p, ds[0]);
      [DraftWindow(source, total, p, ds[0])] + DraftWindows(source, total, q, ds[1..])
  }

  function DraftScripts(source: seq<Byte>, total: nat, p: Point, ds: seq<Draft>): (s: seq<seq<Op>>)
    requires DefaultSizes(p.caches) && DraftsPossible(source, total, p.out, ds)
    ensures |s| == |ds|
    decreases |ds|
  {
    if ds == [] then []
    else
      var q := DraftPoint(source, total, p, ds[0]);
      [DraftScript(source, total, p, ds[0])] + DraftScripts(source, total, q, ds[1..])
  }

  lemma DraftCodes(source: seq<Byte>, total: nat, p: Point, d: Draft)
    requires DefaultSizes(p.caches) && DraftPossible(source, total, p.out, d)
    ensures var (w, s) := (DraftWindow(source, total, p, d), DraftScript(source, total, p, d));
            && w.delta.sWindow == Growth(d.plain) && CodesWindow(source, Default(), total, p, w, s)
            && ActWindow(source, Default(), total, p, w, s) == DraftPoint(source, total, p, d)
  {
    hide AllPossible, MeanAll, LoneAll, LegalOps, ActOps, CodeOps, Default, DefaultSizes;
    var seg := SegmentFor(d, |p.out|);
    MeanGrowth(source, seg, p.out, d.plain);
    PlainWindowCodes(source, total, seg, p, d.plain, d.indicator, d.length, d.position);
  }

  /** Any possible scripts, window after window, are coded, and mean together what they mean one by one. */
  lemma {:induction false} DraftsCode(source: seq<Byte>, total: nat, p: Point, ds: seq<Draft>)
    requires DefaultSizes(p.caches) && DraftsPossible(source, total, p.out, ds)
    ensures var (ws, s) := (DraftWindows(source, total, p, ds), DraftScripts(source, total, p, ds));
            && TargetSize(ws) == TotalGrowth(ds) && CodesWindows(source, Default(), total, p, ws, s)
            && ActWindows(source, Default(), total, p, ws, s).out == DraftsMean(source, total, p.out, ds)
    decreases |ds|
  {
    hide DraftPossible, DraftMean, DraftPoint, DraftWindow, DraftScript, CodesWindow, ActWindow, Default, DefaultSizes;
    if ds != [] {
      DraftCodes(source, total, p, ds[0]);
      var q := DraftPoint(source, total, p, ds[0]);
      DraftsCode(source, total, q, ds[1..]);
      var ws := DraftWindows(source, total, p, ds);
      TargetSizeFirst(ws);
      assert ws[1..] == DraftWindows(source, total, q, ds[1..]);
      assert DraftScripts(source, total, p, ds)[1..] == DraftScripts(source, total, q, ds[1..]);
    }
  }

  lemma StartSizes()
    ensures DefaultSizes(Start(Default()).caches) && Start(Default()).out == []
  {
  }

  /** The file of the scripts, without a code table of its own. */
  function PlainFile(source: seq<Byte>, ds: seq<Draft>): File
    requires DraftsPossible(source, TotalGrowth(ds), [], ds)
  {
    StartSizes();
    File(0, 0, 0, [], DraftWindows(source, TotalGrowth(ds), Start(Default()), ds))
  }

  /** For any possible plain scripts whose file can be printed: reading the printed file and decoding it gives their
      meaning, in order. */
  lemma PlainFileDecodes(source: seq<Byte>, ds: seq<Draft>, compatible: bool)
    requires DraftsPossible(source, TotalGrowth(ds), [], ds) && Fits(PlainFile(source, ds), compatible)
    ensures FileOf(Print(PlainFile(source, ds)), compatible) == Some(PlainFile(source, ds))
    ensures Decode(source, PlainFile(source, ds)) == Done(DraftsMean(source, TotalGrowth(ds), [], ds))
  {
    hide DraftsPossible, DraftsMean, DraftWindows, DraftScripts;
    hide Fits, Print, FileOf, DecodeWith, Default, CodesWindows, ActWindows;
    var f, total := PlainFile(source, ds), TotalGrowth(ds);
    StartSizes();
    DraftsCode(source, total, Start(Default()), ds);
    PrintedDecodes(source, f, Default(), DraftScripts(source, total, Start(Default()), ds), compatible);
  }
}
