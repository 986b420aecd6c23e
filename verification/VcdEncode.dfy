/** Plain scripts coded with the default table: every entry is a lone instruction, and the encoder picks the modes. */
module VcdEncode {
  import opened Words
  import opened Options
  import opened VcdInteger
  import opened VcdCache
  import opened VcdTable
  import opened VcdVm
  import opened VcdScript

  datatype Plain = PlainAdd(bytes: seq<Byte>) | PlainRun(size: Word, byte: Byte) | PlainCopy(size: Word, addr: Word)

  /** The instruction can be carried out when the target built so far has len bytes. */
  predicate Possible(source: seq<Byte>, seg: Segment, len: nat, i: Plain) {
    match i
    case PlainAdd(bytes) => |bytes| < WORD
    case PlainRun(size, _) => size <= 255
    case PlainCopy(size, addr) =>
      seg.lo + addr + size <= seg.hi && seg.lo + addr + size <= (if seg.inTarget then len else |source|)
  }

  /** The target after the instruction. */
  function Mean(source: seq<Byte>, seg: Segment, out: seq<Byte>, i: Plain): seq<Byte>
    requires Possible(source, seg, |out|, i)
  {
    match i
    case PlainAdd(bytes) => out + bytes
    case PlainRun(size, byte) => out + Repeat(byte, size)
    case PlainCopy(size, addr) =>
      out + (if seg.inTarget then out else source)[seg.lo + addr..seg.lo + addr + size]
  }

  predicate AllPossible(source: seq<Byte>, seg: Segment, out: seq<Byte>, plain: seq<Plain>)
    decreases |plain|
  {
    plain == [] || (Possible(source, seg, |out|, plain[0])
                    && AllPossible(source, seg, Mean(source, seg, out, plain[0]), plain[1..]))
  }

  function MeanAll(source: seq<Byte>, seg: Segment, out: seq<Byte>, plain: seq<Plain>): seq<Byte>
    requires AllPossible(source, seg, out, plain)
    decreases |plain|
  {
    if plain == [] then out else MeanAll(source, seg, Mean(source, seg, out, plain[0]), plain[1..])
  }

  /** The caches have the default sizes. */
  predicate DefaultSizes(c: Caches) {
    c.Valid() && |c.near| == 4 && |c.same| == 3 * 256
  }

  lemma ChoiceMode(c: Caches, addr: Word, here: Word)
    requires DefaultSizes(c)
    ensures var (d, mode) := Choice(c, addr, here); mode <= 8 && Coded(c, here, mode, addr) == Some(d)
  {
    hide BestNear, Coded;
    ChoiceCoded(c, addr, here);
    BestNearMode(c, addr, here);
  }

  lemma BestNearMode(c: Caches, addr: Word, here: Word)
    requires DefaultSizes(c)
    ensures var h := Wrap(here - addr); BestNear(c, addr, 0, if h < addr then (h, 1) else (addr, 0)).1 <= 5
  {
    var h := Wrap(here - addr);
    BestNearCoded(c, addr, here, 0, if h < addr then (h, 1) else (addr, 0));
  }

  /** The instruction with the mode that the encoder picks. */
  function Moded(p: Point, i: Plain): (m: Inst)
    requires DefaultSizes(p.caches)
    ensures m.Copied? ==> m.mode <= 8 && Coded(p.caches, Wrap(|p.out|), m.mode, m.addr).Some?
  {
    match i
    case PlainAdd(bytes) => Added(bytes)
    case PlainRun(size, byte) => Repeated(size, byte)
    case PlainCopy(size, addr) =>
      ChoiceMode(p.caches, addr, Wrap(|p.out|));
      Copied(size, Choice(p.caches, addr, Wrap(|p.out|)).1, addr)
  }

  function Lone(p: Point, i: Plain): Op
    requires DefaultSizes(p.caches)
  {
    var m := Moded(p, i);
    var idx := match m
      case Added(bytes) => Single(ADD, |bytes|, 0)
      case Repeated(size, _) => Single(RUN, size, 0)
      case Copied(size, mode, _) => Single(COPY, size, mode)
      case Nothing => 0;
    Op(idx, m, Nothing)
  }

  /** A possible instruction has a legal entry in the default table, which acts as it does. */
  lemma LoneLegal(source: seq<Byte>, seg: Segment, p: Point, i: Plain)
    requires DefaultSizes(p.caches) && Possible(source, seg, |p.out|, i)
    ensures LegalOp(source, seg, Default(), p, Lone(p, i))
    ensures var q := ActOp(source, seg, Default(), p, Lone(p, i));
            q.out == Mean(source, seg, p.out, i) && DefaultSizes(q.caches)
  {
    hide Choice, Coded, DefaultCode, Single;
    match Moded(p, i)
    case Added(bytes) => SinglesThere(ADD, |bytes|, 0);
    case Repeated(size, _) => SinglesThere(RUN, size, 0);
    case Copied(size, mode, _) => SinglesThere(COPY, size, mode);
  }

  function LoneAll(source: seq<Byte>, seg: Segment, p: Point, plain: seq<Plain>): seq<Op>
    requires DefaultSizes(p.caches) && AllPossible(source, seg, p.out, plain)
    decreases |plain|
  {
    if plain == [] then []
    else
      var op := Lone(p, plain[0]);
      LoneLegal(source, seg, p, plain[0]);
      [op] + LoneAll(source, seg, ActOp(source, seg, Default(), p, op), plain[1..])
  }

  /** Every possible script can be coded with the default table, and the coded script has its meaning. */
  lemma {:induction false} LoneAllLegal(source: seq<Byte>, seg: Segment, p: Point, plain: seq<Plain>)
    requires DefaultSizes(p.caches) && AllPossible(source, seg, p.out, plain)
    ensures LegalOps(source, seg, Default(), p, LoneAll(source, seg, p, plain))
    ensures var q := ActOps(source, seg, Default(), p, LoneAll(source, seg, p, plain));
            q.out == MeanAll(source, seg, p.out, plain) && DefaultSizes(q.caches)
    decreases |plain|
  {
    hide Lone, LegalOp, ActOp, Possible, Mean, Default;
    if plain != [] {
      LoneLegal(source, seg, p, plain[0]);
      var op := Lone(p, plain[0]);
      var q := ActOp(source, seg, Default(), p, op);
      var rest := LoneAll(source, seg, q, plain[1..]);
      LoneAllLegal(source, seg, q, plain[1..]);
      assert ([op] + rest)[1..] == rest;
    }
  }

  /** A window whose sections are the coded script; the length of the delta encoding is not looked at. */
  function PlainWindow(source: seq<Byte>, seg: Segment, p: Point, plain: seq<Plain>, indicator: Byte, length: Word,
                       position: Word): Window
    requires DefaultSizes(p.caches) && AllPossible(source, seg, p.out, plain)
    requires 0 <= |MeanAll(source, seg, p.out, plain)| - |p.out| < WORD
  {
    LoneAllLegal(source, seg, p, plain);
    var s := CodeOps(source, seg, Default(), p, LoneAll(source, seg, p, plain));
    Window(indicator, length, position,
           Delta(0, |MeanAll(source, seg, p.out, plain)| - |p.out|, 0, s.data, s.inst, s.addr))
  }

  /** Any possible script of a window whose segment is all there is decoded to its meaning. */
  lemma PlainWindowCodes(source: seq<Byte>, total: nat, seg: Segment, p: Point, plain: seq<Plain>, indicator: Byte,
                         length: Word, position: Word)
    requires DefaultSizes(p.caches) && AllPossible(source, seg, p.out, plain)
    requires 0 <= |MeanAll(source, seg, p.out, plain)| - |p.out| < WORD
    requires SegmentOf(source, total, |p.out|, PlainWindow(source, seg, p, plain, indicator, length, position))
             == Some(seg)
    ensures var w := PlainWindow(source, seg, p, plain, indicator, length, position);
            && CodesWindow(source, Default(), total, p, w, LoneAll(source, seg, p, plain))
            && ActWindow(source, Default(), total, p, w, LoneAll(source, seg, p, plain)).out
                == MeanAll(source, seg, p.out, plain)
  {
    hide LegalOps, ActOps, CodeOps, LoneAll, Default, SegmentOf;
    LoneAllLegal(source, seg, p, plain);
  }
}
