/** What the bytes of VCDIFF hold, field by field: integers, addresses, windows and files (sections 2, 4 and 5 of RFC
    3284), stated on the bytes and proved of the readers, in both directions. */
module VcdForm {
  import opened Words
  import opened Options
  import opened VcdInteger
  import opened VcdCache
  import opened VcdVm
  import opened VcdFile

  // ---------- integers ----------

  /** The number that the low seven bits of the bytes write in base 128, most significant first. */
  function Value(d: seq<Byte>): nat
    decreases |d|
  {
    if d == [] then 0 else Value(d[..|d| - 1]) * 128 + d[|d| - 1] % 128
  }

  /** All bytes but the last one are marked. */
  predicate Marked(d: seq<Byte>) {
    d != [] && d[|d| - 1] < 128 && forall k :: 0 <= k < |d| - 1 ==> d[k] >= 128
  }

  /** The bytes from pos to p are one integer, and n is its value without the bits beyond 32. */
  predicate IntegerLies(s: seq<Byte>, pos: nat, p: nat, n: int) {
    pos < p <= |s| && Marked(s[pos..p]) && n == Value(s[pos..p]) % 0x1_0000_0000
  }

  lemma ShiftValue(t: nat, b: Byte)
    ensures Shift(Wrap(t), b) == Wrap(t * 128 + b % 128)
  {
    var u := t * 128;
    WrapMul(t, 128);
    assert Wrap(u) % 128 == 0;
    assert Wrap(Wrap(u) + b % 128) == Wrap(u) + b % 128;
    WrapAdd(u, b % 128);
  }

  lemma ValueNext(s: seq<Byte>, pos: nat, q: nat)
    requires pos <= q < |s|
    ensures Value(s[pos..q + 1]) == Value(s[pos..q]) * 128 + s[q] % 128
  {
    var d := s[pos..q + 1];
    assert d[..|d| - 1] == s[pos..q];
  }

  /** Marked bytes add their digits to what has been read. */
  lemma {:induction false} ReadPassed(s: seq<Byte>, pos: nat, q: nat)
    requires pos <= q <= |s| && forall k :: pos <= k < q ==> s[k] >= 128
    ensures ReadAt(s, pos, 0) == ReadAt(s, q, Wrap(Value(s[pos..q])))
    decreases q - pos
  {
    hide Shift, ReadAt, Wrap, Value;
    if pos == q {
      assert s[pos..q] == [];
      ValueNone();
    } else {
      ReadPassed(s, pos, q - 1);
      ValueNext(s, pos, q - 1);
      ShiftValue(Value(s[pos..q - 1]), s[q - 1]);
      ReadMarked(s, q - 1, Wrap(Value(s[pos..q - 1])), s[q - 1]);
    }
  }

  lemma ValueNone()
    ensures Value([]) == 0 && Wrap(0) == 0
  {
  }

  lemma {:induction false} ReadEnds(s: seq<Byte>, pos: nat, t: Word)
    requires ReadAt(s, pos, t).Some?
    ensures var p := ReadAt(s, pos, t).value.1;
            pos < p <= |s| && s[p - 1] < 128 && forall k :: pos <= k < p - 1 ==> s[k] >= 128
    decreases |s| - pos
  {
    hide Shift;
    if s[pos] >= 128 {
      ReadEnds(s, pos + 1, Shift(t, s[pos]));
    }
  }

  lemma MarkedLies(s: seq<Byte>, pos: nat, p: nat)
    requires pos < p <= |s|
    ensures Marked(s[pos..p]) <==> s[p - 1] < 128 && forall k :: pos <= k < p - 1 ==> s[k] >= 128
  {
    var d := s[pos..p];
    assert forall k :: pos <= k < p ==> s[k] == d[k - pos];
  }

  lemma ReadLast(s: seq<Byte>, pos: nat, p: nat)
    requires pos < p <= |s| && Marked(s[pos..p])
    ensures ReadAt(s, pos, 0) == Some((Wrap(Value(s[pos..p])), p))
  {
    hide Shift, ReadAt, Wrap, Value, Marked;
    MarkedLies(s, pos, p);
    ReadPassed(s, pos, p - 1);
    ValueNext(s, pos, p - 1);
    ShiftValue(Value(s[pos..p - 1]), s[p - 1]);
    ReadMarked(s, p - 1, Wrap(Value(s[pos..p - 1])), s[p - 1]);
  }

  /** What is read is exactly the integer that lies there, whether its first digits are zeros or not, and of one that
      is too large for 32 bits the low bits. */
  lemma IntegerExact(s: seq<Byte>, pos: nat, n: Word, p: nat)
    ensures ReadAt(s, pos, 0) == Some((n, p)) <==> IntegerLies(s, pos, p, n)
  {
    hide ReadAt, Value, Marked;
    if ReadAt(s, pos, 0) == Some((n, p)) {
      ReadEnds(s, pos, 0);
      MarkedLies(s, pos, p);
      ReadLast(s, pos, p);
    } else if IntegerLies(s, pos, p, n) {
      ReadLast(s, pos, p);
    }
  }

  /** All bytes are marked. */
  predicate AllMarked(d: seq<Byte>) {
    forall k :: 0 <= k < |d| ==> d[k] >= 128
  }

  lemma ValueLast(d: seq<Byte>, b: Byte)
    ensures Value(d + [b]) == Value(d) * 128 + b % 128
  {
    assert (d + [b])[..|d|] == d;
  }

  lemma {:induction false} LeadingForm(n: nat)
    ensures Value(Leading(n)) == n / 128 && AllMarked(Leading(n)) && (Leading(n) != [] ==> Leading(n)[0] != 128)
    decreases n
  {
    hide Continued, Value;
    ContinuedParts(n);
    if n >= 128 {
      var m := n / 128;
      ContinuedParts(m);
      LeadingForm(m);
      ValueLast(Leading(m), m % 128 + 128);
      SmallLeading(m);
    } else {
      ValueNone();
    }
  }

  /** The printed form of n has the value n, and no zero comes first. */
  lemma DigitsForm(n: nat)
    ensures Value(Digits(n)) == n && Marked(Digits(n)) && (|Digits(n)| > 1 ==> Digits(n)[0] != 128)
  {
    hide Value, Continued, Leading;
    ContinuedParts(n);
    LeadingForm(n);
    ValueLast(Leading(n), n % 128);
  }

  lemma ValueDigit(d: seq<Byte>)
    requires d != []
    ensures Value(d) / 128 == Value(d[..|d| - 1]) && Value(d) % 128 == d[|d| - 1] % 128
  {
  }

  lemma {:induction false} OnlyLeading(d: seq<Byte>, n: nat)
    requires AllMarked(d) && (d != [] ==> d[0] != 128) && Value(d) == n / 128
    ensures d == Leading(n)
    decreases |d|
  {
    hide Continued, Value;
    ContinuedParts(n);
    if d == [] {
      ValueNone();
      SmallLeading(n);
    } else {
      var m := n / 128;
      ValueDigit(d);
      ValuePositive(d);
      ContinuedParts(m);
      OnlyLeading(d[..|d| - 1], m);
      assert d == d[..|d| - 1] + [d[|d| - 1]];
    }
  }

  lemma SmallLeading(n: nat)
    ensures Leading(n) == [] <==> n < 128
  {
  }

  lemma {:induction false} ValuePositive(d: seq<Byte>)
    requires AllMarked(d) && d != [] && d[0] != 128
    ensures Value(d) > 0
    decreases |d|
  {
    if |d| > 1 {
      ValuePositive(d[..|d| - 1]);
    } else {
      assert d[..0] == [];
    }
  }

  lemma MarkedParts(d: seq<Byte>)
    requires Marked(d) && (|d| > 1 ==> d[0] != 128)
    ensures var (h, b) := (d[..|d| - 1], d[|d| - 1]);
            AllMarked(h) && (h != [] ==> h[0] != 128) && Value(h) == Value(d) / 128 && b == Value(d) % 128
  {
  }

  lemma OnlyWith(h: seq<Byte>, b: Byte, n: nat)
    requires AllMarked(h) && (h != [] ==> h[0] != 128) && Value(h) == n / 128 && b == n % 128
    ensures h + [b] == Digits(n)
  {
    hide Value, AllMarked, Digits, Continued, Leading;
    OnlyLeading(h, n);
    ContinuedParts(n);
  }

  /** It is the only integer with its value in which no zero comes first. */
  lemma OnlyDigits(d: seq<Byte>)
    requires Marked(d) && (|d| > 1 ==> d[0] != 128)
    ensures d == Digits(Value(d))
  {
    MarkedParts(d);
    OnlyWith(d[..|d| - 1], d[|d| - 1], Value(d));
  }

  /** The integer that section 2 of RFC 3284 gives as an example. */
  lemma StandardExample()
    ensures Digits(123456789) == [0xBA, 0xEF, 0x9A, 0x15]
  {
    assert Continued(58) == [0xBA];
    assert Continued(7535) == [0xBA, 0xEF];
    assert Continued(964506) == [0xBA, 0xEF, 0x9A];
  }

  // ---------- addresses ----------

  /** The bytes from pos to p are an address a: as it is in mode 0, back from here in mode 1, on from a near address in
      the modes after that, and in the others the slot of the same cache that one byte chooses. */
  predicate AddressLies(c: Caches, s: seq<Byte>, pos: nat, p: nat, here: int, mode: nat, a: int) {
    if mode < 2 + |c.near| then
      pos < p <= |s| && Marked(s[pos..p])
      && var v := Value(s[pos..p]);
         a == (if mode == 0 then v else if mode == 1 then here - v else c.near[mode - 2] + v) % 0x1_0000_0000
    else
      pos + 1 == p <= |s|
      && var i := 256 * (mode - 2 - |c.near|) + s[pos];
         i < |c.same| && a == c.same[i]
  }

  /** An address is decoded exactly if it lies there. */
  lemma AddressExact(c: Caches, s: seq<Byte>, pos: nat, here: Word, mode: Byte, a: Word, p: nat)
    ensures AddrAt(c, s, pos, here, mode) == Some((a, p)) <==> AddressLies(c, s, pos, p, here, mode, a)
  {
    hide ReadAt, Value, Marked;
    if mode < 2 + |c.near| {
      if AddrAt(c, s, pos, here, mode) == Some((a, p)) {
        IntegerExact(s, pos, ReadAt(s, pos, 0).value.0, p);
      }
      if pos < p <= |s| && Marked(s[pos..p]) {
        var v := Value(s[pos..p]);
        IntegerExact(s, pos, Wrap(v), p);
        WrapSub(here, v);
        WrapShift(here - v, 0);
        if mode >= 2 {
          WrapAdd(v, c.near[mode - 2]);
        }
      }
    }
  }

  /** What is written for an address in a mode outside of the same cache. */
  function Offset(c: Caches, addr: int, here: int, mode: nat): int
    requires mode < 2 + |c.near|
  {
    if mode == 0 then addr
    else (if mode == 1 then here - addr else addr - c.near[mode - 2]) % 0x1_0000_0000
  }

  /** No mode outside of the same cache writes less, and no mode before this one as little. */
  predicate Foremost(c: Caches, addr: int, here: int, mode: nat, d: int) {
    && mode < 2 + |c.near| && d == Offset(c, addr, here, mode)
    && forall m: nat :: m < 2 + |c.near| ==> d <= Offset(c, addr, here, m)
                                             && (m < mode ==> d < Offset(c, addr, here, m))
  }

  /** Of the modes up to i, this is the foremost. */
  predicate ForemostBefore(c: Caches, addr: int, here: int, i: nat, mode: nat, d: int)
    requires i <= 2 + |c.near|
  {
    && mode < i && d == Offset(c, addr, here, mode)
    && forall m: nat :: m < i ==> d <= Offset(c, addr, here, m) && (m < mode ==> d < Offset(c, addr, here, m))
  }

  lemma {:induction false} BestNearForemost(c: Caches, addr: Word, here: Word, i: nat, best: (Word, nat))
    requires i <= |c.near| && ForemostBefore(c, addr, here, i + 2, best.1, best.0)
    ensures var r := BestNear(c, addr, i, best); Foremost(c, addr, here, r.1, r.0)
    decreases |c.near| - i
  {
    if i < |c.near| {
      var d := Wrap(addr - c.near[i]);
      assert Offset(c, addr, here, i + 2) == d;
      BestNearForemost(c, addr, here, i + 1, if d < best.0 then (d, i + 2) else best);
    }
  }

  lemma ForemostOnce(c: Caches, addr: int, here: int, m1: nat, d1: int, m2: nat, d2: int)
    requires Foremost(c, addr, here, m1, d1) && Foremost(c, addr, here, m2, d2)
    ensures m1 == m2 && d1 == d2
  {
  }

  /** The encoder takes the slot of the same cache if that holds the address, and else the first of the modes that
      write the least. */
  lemma ChoiceExact(c: Caches, addr: Word, here: Word, d: Word, mode: nat)
    requires c.Valid()
    ensures Choice(c, addr, here) == (d, mode)
            <==> if c.same != [] && c.same[addr % |c.same|] == addr then
                   mode >= 2 + |c.near| && d < 256 && 256 * (mode - 2 - |c.near|) + d == addr % |c.same|
                 else Foremost(c, addr, here, mode, d)
  {
    hide BestNear, Foremost;
    if !InSame(c, addr) {
      var r, h := Choice(c, addr, here), Wrap(here - addr);
      var best := if h < addr then (h, 1) else (addr, 0);
      assert Offset(c, addr, here, 0) == addr && Offset(c, addr, here, 1) == h;
      BestNearForemost(c, addr, here, 0, best);
      if Foremost(c, addr, here, mode, d) {
        ForemostOnce(c, addr, here, mode, d, r.1, r.0);
      }
    }
  }

  // ---------- windows ----------

  /** One of the nine bytes without two bits set. */
  predicate OneBit(b: Byte) {
    b == 0 || b == 1 || b == 2 || b == 4 || b == 8 || b == 16 || b == 32 || b == 64 || b == 128
  }

  lemma {:induction false} BitAndSame(x: nat)
    ensures BitAnd(x, x) == x
  {
    if x > 0 {
      BitAndSame(x / 2);
    }
  }

  /** The test for a second bit looks at the rest if the lowest bit is not set, and at all the rest if it is. */
  lemma LowestBit(b: nat)
    requires b > 1
    ensures BitAnd(b, b - 1) == if b % 2 == 1 then b - 1 else 2 * BitAnd(b / 2, b / 2 - 1)
  {
    if b % 2 == 1 {
      BitAndSame(b / 2);
      assert (b - 1) / 2 == b / 2;
    } else {
      assert (b - 1) / 2 == b / 2 - 1;
    }
  }

  lemma {:induction false} OneBitExact(b: Byte)
    ensures AtMostOneBit(b) <==> OneBit(b)
    decreases b
  {
    hide BitAnd;
    if b > 1 {
      LowestBit(b);
      OneBitExact(b / 2);
    } else {
      NoBits();
    }
  }

  lemma NoBits()
    ensures BitAnd(1, 0) == 0
  {
  }

  /** The fields of a delta encoding lie one after the other: its length, the length of its part of the target, its
      indicator, the lengths of the three sections, and the sections. */
  predicate DeltaMarks(s: seq<Byte>, pos: nat, p: nat, d: Delta, p1: nat, p2: nat, p3: nat, p4: nat, p5: nat) {
    && IntegerLies(s, pos, p1, d.length) && IntegerLies(s, p1, p2, d.sWindow)
    && p2 < |s| && s[p2] == d.indicator
    && IntegerLies(s, p2 + 1, p3, |d.data|) && IntegerLies(s, p3, p4, |d.inst|) && IntegerLies(s, p4, p5, |d.addr|)
    && p == p5 + |d.data| + |d.inst| + |d.addr| <= |s| && s[p5..p] == d.data + d.inst + d.addr
  }

  ghost predicate DeltaLies(s: seq<Byte>, pos: nat, p: nat, d: Delta) {
    exists p1: nat, p2: nat, p3: nat, p4: nat, p5: nat :: DeltaMarks(s, pos, p, d, p1, p2, p3, p4, p5)
  }

  lemma SectionsExact(s: seq<Byte>, pos: nat, p: nat, data: seq<Byte>, inst: seq<Byte>, addr: seq<Byte>)
    ensures SectionsAt(s, pos, |data|, |inst|, |addr|) == Some(((data, inst, addr), p))
            <==> p == pos + |data| + |inst| + |addr| <= |s| && s[pos..p] == data + inst + addr
  {
    var p1, p2 := pos + |data|, pos + |data| + |inst|;
    if p == p2 + |addr| <= |s| {
      assert s[pos..p] == s[pos..p1] + s[p1..p2] + s[p2..p];
      SplitParts(s[pos..p1], s[p1..p2], s[p2..p], data, inst, addr);
    }
  }

  lemma SplitParts(a: seq<Byte>, b: seq<Byte>, c: seq<Byte>, a': seq<Byte>, b': seq<Byte>, c': seq<Byte>)
    requires |a| == |a'| && |b| == |b'| && |c| == |c'|
    ensures a + b + c == a' + b' + c' <==> a == a' && b == b' && c == c'
  {
    if a + b + c == a' + b' + c' {
      assert a == (a + b + c)[..|a|] && b == (a + b + c)[|a|..|a| + |b|] && c == (a + b + c)[|a| + |b|..];
      assert a' == (a' + b' + c')[..|a|] && b' == (a' + b' + c')[|a|..|a| + |b|] && c' == (a' + b' + c')[|a| + |b|..];
    }
  }

  lemma DeltaFound(s: seq<Byte>, pos: nat, d: Delta, p: nat)
    requires DeltaAt(s, pos) == Some((d, p))
    ensures DeltaLies(s, pos, p, d)
  {
    hide ReadAt, IntegerLies, SectionsAt;
    var p1 := ReadAt(s, pos, 0).value.1;
    IntegerExact(s, pos, d.length, p1);
    var p2 := ReadAt(s, p1, 0).value.1;
    IntegerExact(s, p1, d.sWindow, p2);
    var p3 := ReadAt(s, p2 + 1, 0).value.1;
    IntegerExact(s, p2 + 1, |d.data|, p3);
    var p4 := ReadAt(s, p3, 0).value.1;
    IntegerExact(s, p3, |d.inst|, p4);
    var p5 := ReadAt(s, p4, 0).value.1;
    IntegerExact(s, p4, |d.addr|, p5);
    SectionsExact(s, p5, p, d.data, d.inst, d.addr);
    assert DeltaMarks(s, pos, p, d, p1, p2, p3, p4, p5);
  }

  lemma LengthFits(s: seq<Byte>, pos: nat, p: nat, n: int)
    requires IntegerLies(s, pos, p, n)
    ensures 0 <= n < WORD
  {
  }

  lemma DeltaThere(s: seq<Byte>, pos: nat, d: Delta, p: nat)
    requires DeltaLies(s, pos, p, d)
    ensures DeltaAt(s, pos) == Some((d, p))
  {
    hide ReadAt, IntegerLies, SectionsAt;
    var p1: nat, p2: nat, p3: nat, p4: nat, p5: nat :| DeltaMarks(s, pos, p, d, p1, p2, p3, p4, p5);
    LengthFits(s, p2 + 1, p3, |d.data|);
    LengthFits(s, p3, p4, |d.inst|);
    LengthFits(s, p4, p5, |d.addr|);
    IntegerExact(s, pos, d.length, p1);
    IntegerExact(s, p1, d.sWindow, p2);
    IntegerExact(s, p2 + 1, |d.data|, p3);
    IntegerExact(s, p3, |d.inst|, p4);
    IntegerExact(s, p4, |d.addr|, p5);
    SectionsExact(s, p5, p, d.data, d.inst, d.addr);
  }

  /** The length and the position of a source segment are there exactly if one of the two lowest bits says so. */
  ghost predicate SegmentLies(s: seq<Byte>, pos: nat, p: nat, w: Window) {
    if w.indicator % 4 == 0 then p == pos && w.length == 0 && w.position == 0
    else exists q: nat :: IntegerLies(s, pos, q, w.length) && IntegerLies(s, q, p, w.position)
  }

  lemma SegmentExact(s: seq<Byte>, pos: nat, p: nat, w: Window)
    requires pos <= |s|
    ensures SegmentAt(s, pos, w.indicator) == Some(((w.length, w.position), p)) <==> SegmentLies(s, pos, p, w)
  {
    hide ReadAt, IntegerLies;
    if w.indicator % 4 != 0 {
      if SegmentAt(s, pos, w.indicator) == Some(((w.length, w.position), p)) {
        var q := ReadAt(s, pos, 0).value.1;
        IntegerExact(s, pos, w.length, q);
        IntegerExact(s, q, w.position, p);
      }
      if q: nat :| IntegerLies(s, pos, q, w.length) && IntegerLies(s, q, p, w.position) {
        IntegerExact(s, pos, w.length, q);
        IntegerExact(s, q, w.position, p);
      }
    }
  }

  /** A window lies there: its indicator, its source segment, and its delta encoding. */
  ghost predicate WindowLies(s: seq<Byte>, pos: nat, p: nat, w: Window) {
    pos < |s| && s[pos] == w.indicator
    && exists q: nat :: SegmentLies(s, pos + 1, q, w) && DeltaLies(s, q, p, w.delta)
  }

  lemma WindowExact(s: seq<Byte>, pos: nat, w: Window, p: nat, compatible: bool)
    ensures WindowAt(s, pos, compatible) == Some((w, p))
            <==> WindowLies(s, pos, p, w) && (compatible ==> OneBit(w.indicator))
  {
    hide DeltaAt, DeltaLies, SegmentAt, SegmentLies, AtMostOneBit, OneBit;
    OneBitExact(w.indicator);
    if WindowAt(s, pos, compatible) == Some((w, p)) {
      var q := SegmentAt(s, pos + 1, w.indicator).value.1;
      SegmentExact(s, pos + 1, q, w);
      DeltaFound(s, q, w.delta, p);
    } else if pos < |s| && s[pos] == w.indicator {
      if q: nat :| SegmentLies(s, pos + 1, q, w) && DeltaLies(s, q, p, w.delta) {
        SegmentExact(s, pos + 1, q, w);
        DeltaThere(s, q, w.delta, p);
      }
    }
  }

  // ---------- files ----------

  /** The windows fill the rest. */
  ghost predicate WindowsLie(s: seq<Byte>, pos: nat, ws: seq<Window>)
    decreases |ws|
  {
    if ws == [] then pos == |s| else exists q: nat :: WindowLies(s, pos, q, ws[0]) && WindowsLie(s, q, ws[1..])
  }

  predicate OneBits(ws: seq<Window>) {
    forall i :: 0 <= i < |ws| ==> OneBit(ws[i].indicator)
  }

  lemma {:induction false} WindowsExact(s: seq<Byte>, pos: nat, ws: seq<Window>, compatible: bool)
    requires pos <= |s|
    ensures WindowsAt(s, pos, compatible) == Some(ws) <==> WindowsLie(s, pos, ws) && (compatible ==> OneBits(ws))
    decreases |ws|
  {
    hide WindowAt, WindowLies, OneBit;
    if ws != [] {
      if WindowsAt(s, pos, compatible) == Some(ws) {
        var (w, q) := WindowAt(s, pos, compatible).value;
        assert ws == [w] + WindowsAt(s, q, compatible).value;
        WindowExact(s, pos, w, q, compatible);
        WindowsExact(s, q, ws[1..], compatible);
        assert ws == [w] + ws[1..];
      }
      if WindowsLie(s, pos, ws) && (compatible ==> OneBits(ws)) {
        var q: nat :| WindowLies(s, pos, q, ws[0]) && WindowsLie(s, q, ws[1..]);
        WindowExact(s, pos, ws[0], q, compatible);
        WindowsExact(s, q, ws[1..], compatible);
        assert ws == [ws[0]] + ws[1..];
      }
    }
  }

  /** The identifier of the secondary compressor is there exactly if the lowest bit says so. */
  predicate CompressorLies(s: seq<Byte>, p: nat, f: File) {
    if f.indicator % 2 == 0 then p == 5 && f.compressorId == 0
    else p == 6 <= |s| && s[5] == f.compressorId
  }

  /** The length and the data of a code table are there exactly if the second bit says so. */
  ghost predicate CodeTableLies(s: seq<Byte>, pos: nat, p: nat, f: File) {
    if f.indicator % 4 < 2 then p == pos && f.codeTable == []
    else exists q: nat :: IntegerLies(s, pos, q, |f.codeTable|) && p == q + |f.codeTable| <= |s|
                           && s[q..p] == f.codeTable
  }

  /** The bytes hold the file: three magic bytes, the version, the indicator, the identifier of a compressor, a code
      table, and windows to the end. */
  ghost predicate FileLies(s: seq<Byte>, f: File) {
    && |s| >= 5 && s[0] == 0xD6 && s[1] == 0xC3 && s[2] == 0xC4 && s[3] == f.version && s[4] == f.indicator
    && exists p: nat, q: nat :: CompressorLies(s, p, f) && CodeTableLies(s, p, q, f) && WindowsLie(s, q, f.windows)
  }

  lemma CompressorExact(s: seq<Byte>, p: nat, f: File)
    requires |s| >= 5
    ensures CompressorAt(s, 5, f.indicator) == Some((f.compressorId, p)) <==> CompressorLies(s, p, f)
  {
  }

  lemma CodeTableExact(s: seq<Byte>, pos: nat, p: nat, f: File)
    requires pos <= |s|
    ensures CodeTableAt(s, pos, f.indicator) == Some((f.codeTable, p)) <==> CodeTableLies(s, pos, p, f)
  {
    hide ReadAt, IntegerLies;
    if f.indicator % 4 >= 2 {
      if CodeTableAt(s, pos, f.indicator) == Some((f.codeTable, p)) {
        var q := ReadAt(s, pos, 0).value.1;
        IntegerExact(s, pos, |f.codeTable|, q);
      }
      if q: nat :| IntegerLies(s, pos, q, |f.codeTable|) && p == q + |f.codeTable| <= |s| && s[q..p] == f.codeTable {
        LengthFits(s, pos, q, |f.codeTable|);
        IntegerExact(s, pos, |f.codeTable|, q);
      }
    }
  }

  /** What is read is exactly the file that lies there, and nothing if none does; in the compatible mode, only files of
      version 0 whose window indicators have no two bits set are read. */
  lemma FileExact(s: seq<Byte>, f: File, compatible: bool)
    ensures FileOf(s, compatible) == Some(f)
            <==> FileLies(s, f) && (compatible ==> f.version == 0 && OneBits(f.windows))
  {
    hide CompressorAt, CodeTableAt, WindowsAt, CompressorLies, CodeTableLies, WindowsLie, OneBits;
    assert |s| >= 3 ==> (s[..3] == MAGIC <==> s[0] == 0xD6 && s[1] == 0xC3 && s[2] == 0xC4);
    if FileOf(s, compatible) == Some(f) {
      var p := CompressorAt(s, 5, f.indicator).value.1;
      CompressorExact(s, p, f);
      var q := CodeTableAt(s, p, f.indicator).value.1;
      CodeTableExact(s, p, q, f);
      WindowsExact(s, q, f.windows, compatible);
    }
    if FileLies(s, f) && (compatible ==> f.version == 0 && OneBits(f.windows)) {
      var p: nat, q: nat :| CompressorLies(s, p, f) && CodeTableLies(s, p, q, f) && WindowsLie(s, q, f.windows);
      CompressorExact(s, p, f);
      CodeTableExact(s, p, q, f);
      WindowsExact(s, q, f.windows, compatible);
    }
  }
}
