/** The two address caches of VCDIFF and the coding of COPY addresses (sections 5.1 to 5.4 of RFC 3284). */
module VcdCache {
  import opened Words
  import opened Options
  import opened Division
  import opened VcdInteger

  /** What the caches hold. */
  datatype Caches = Caches(near: seq<Word>, next: nat, same: seq<Word>) {
    predicate Valid() {
      && |near| < 256 && |same| % 256 == 0 && |same| < 256 * 256
      && (if near == [] then next == 0 else next < |near|)
    }

    /** Every mode fits in a byte. */
    predicate ModesFit() {
      |near| + |same| / 256 <= 254
    }
  }

  function Zeros(n: nat): (s: seq<Word>)
    ensures |s| == n && forall i :: 0 <= i < n ==> s[i] == 0
  {
    seq(n, _ => 0)
  }

  function Initial(sNear: Byte, sSame: Byte): (c: Caches)
    ensures c.Valid()
  {
    Caches(Zeros(sNear), 0, Zeros(sSame * 256))
  }

  function Updated(c: Caches, addr: Word): (c': Caches)
    requires c.Valid()
    ensures c'.Valid() && |c'.near| == |c.near| && |c'.same| == |c.same|
  {
    Caches(if c.near == [] then [] else c.near[c.next := addr],
           if c.near == [] then 0 else (c.next + 1) % |c.near|,
           if c.same == [] then [] else c.same[addr % |c.same| := addr])
  }

  // ---------- what the caches hold after any addresses ----------

  function UpdateAll(c: Caches, addrs: seq<Word>): (c': Caches)
    requires c.Valid()
    ensures c'.Valid() && |c'.near| == |c.near| && |c'.same| == |c.same|
    decreases |addrs|
  {
    if addrs == [] then c else Updated(UpdateAll(c, addrs[..|addrs| - 1]), addrs[|addrs| - 1])
  }

  /** The latest address with residue r, or 0. */
  function LatestAt(addrs: seq<Word>, r: nat, n: nat): Word
    requires n > 0
    decreases |addrs|
  {
    if addrs == [] then 0
    else if addrs[|addrs| - 1] % n == r then addrs[|addrs| - 1]
    else LatestAt(addrs[..|addrs| - 1], r, n)
  }

  /** The near cache holds the latest addresses, the k-th address in slot k modulo its size, and zeros before it is
      full. */
  predicate NearHolds(c: Caches, addrs: seq<Word>) {
    |c.near| > 0 ==>
      && c.next == |addrs| % |c.near|
      && (forall k :: 0 <= k < |addrs| && |addrs| - k <= |c.near| ==> c.near[k % |c.near|] == addrs[k])
      && (forall i :: |addrs| <= i < |c.near| ==> c.near[i] == 0)
  }

  /** Each slot of the same cache holds the latest address with its residue. */
  predicate SameHolds(c: Caches, addrs: seq<Word>) {
    forall r :: 0 <= r < |c.same| ==> c.same[r] == LatestAt(addrs, r, |c.same|)
  }

  lemma NearHoldsStep(c: Caches, addrs: seq<Word>, a: Word)
    requires c.Valid() && NearHolds(c, addrs)
    ensures NearHolds(Updated(c, a), addrs + [a])
  {
    var c', n, m := Updated(c, a), |addrs|, |c.near|;
    if m > 0 {
      NextSlot(n, m);
      forall k | 0 <= k < n + 1 && n + 1 - k <= m
        ensures c'.near[k % m] == (addrs + [a])[k]
      {
        if k < n {
          OtherSlot(k, n, m);
        }
      }
      if n < m {
        Remainder(n, m, 0, n);
      }
    }
  }

  lemma SameHoldsStep(c: Caches, addrs: seq<Word>, a: Word)
    requires c.Valid() && SameHolds(c, addrs)
    ensures SameHolds(Updated(c, a), addrs + [a])
  {
    assert (addrs + [a])[..|addrs|] == addrs;
  }

  lemma InitialHolds(sNear: Byte, sSame: Byte)
    ensures NearHolds(Initial(sNear, sSame), []) && SameHolds(Initial(sNear, sSame), [])
  {
    if sNear > 0 {
      Remainder(0, sNear, 0, 0);
    }
  }

  lemma {:induction false} CachesHold(sNear: Byte, sSame: Byte, addrs: seq<Word>)
    ensures NearHolds(UpdateAll(Initial(sNear, sSame), addrs), addrs)
    ensures SameHolds(UpdateAll(Initial(sNear, sSame), addrs), addrs)
    decreases |addrs|
  {
    var c := Initial(sNear, sSame);
    if addrs == [] {
      InitialHolds(sNear, sSame);
    } else {
      hide Updated, NearHolds, SameHolds;
      var n := |addrs| - 1;
      CachesHold(sNear, sSame, addrs[..n]);
      NearHoldsStep(UpdateAll(c, addrs[..n]), addrs[..n], addrs[n]);
      SameHoldsStep(UpdateAll(c, addrs[..n]), addrs[..n], addrs[n]);
      assert addrs[..n] + [addrs[n]] == addrs;
    }
  }

  // ---------- coding one address ----------

  const SELF: Byte := 0
  const HERE: Byte := 1

  /** The address that mode and the coded value d stand for. */
  function Meant(c: Caches, here: Word, mode: Byte, d: Word): Option<Word> {
    if mode == SELF then Some(d)
    else if mode == HERE then Some(Wrap(here - d))
    else if mode - 2 < |c.near| then Some(Wrap(c.near[mode - 2] + d))
    else
      var i := (mode - 2 - |c.near|) * 256 + d;
      if i < |c.same| then Some(c.same[i]) else None
  }

  /** The coded value of addr in a mode; none if the same cache does not hold it there. */
  function Coded(c: Caches, here: Word, mode: Byte, addr: Word): (d: Option<Word>)
    ensures d.Some? && mode - 2 >= |c.near| ==> d.value < 256
  {
    if mode == SELF then Some(addr)
    else if mode == HERE then Some(Wrap(here - addr))
    else if mode - 2 < |c.near| then Some(Wrap(addr - c.near[mode - 2]))
    else if c.same == [] then None
    else
      var i := addr % |c.same|;
      if c.same[i] == addr && i / 256 == mode - 2 - |c.near| then Some(i % 256) else None
  }

  lemma WrapBack(x: int, y: Word)
    ensures Wrap(x - Wrap(x - y)) == y && Wrap(x + Wrap(y - x)) == y
  {
    WrapSub(x, x - y);
    WrapAdd(y - x, x);
  }

  /** Decoding undoes coding in every mode, wrap-around included. */
  lemma CodedMeant(c: Caches, here: Word, mode: Byte, addr: Word)
    requires c.Valid() && Coded(c, here, mode, addr).Some?
    ensures Meant(c, here, mode, Coded(c, here, mode, addr).value) == Some(addr)
  {
    if mode == HERE {
      WrapBack(here, addr);
    } else if 0 <= mode - 2 < |c.near| {
      WrapBack(c.near[mode - 2], addr);
    }
  }

  /** The bytes of a coded value: an integer, or one byte for the same cache (section 5.3 of RFC 3284). */
  function Wire(c: Caches, mode: Byte, d: Word): seq<Byte>
    requires mode - 2 >= |c.near| ==> d < 256
  {
    if mode - 2 < |c.near| then Digits(d) else [d]
  }

  /** The address read at pos, and the position after it. */
  function AddrAt(c: Caches, s: seq<Byte>, pos: nat, here: Word, mode: Byte): (r: Option<(Word, nat)>)
    ensures r.Some? ==> pos < r.value.1 <= |s|
  {
    if mode - 2 < |c.near| then
      match ReadAt(s, pos, 0)
      case None => None
      case Some((d, p)) => Some((Meant(c, here, mode, d).value, p))
    else if pos >= |s| then None
    else
      match Meant(c, here, mode, s[pos])
      case None => None
      case Some(a) => Some((a, pos + 1))
  }

  /** Whatever stands for an address in some mode is read back as that address, whatever follows it. */
  lemma WireRead(c: Caches, s: seq<Byte>, pos: nat, here: Word, mode: Byte, d: Word, addr: Word)
    requires Meant(c, here, mode, d) == Some(addr) && (mode - 2 >= |c.near| ==> d < 256)
    requires At(s, pos, Wire(c, mode, d))
    ensures AddrAt(c, s, pos, here, mode) == Some((addr, pos + |Wire(c, mode, d)|))
  {
    hide Meant;
    if mode - 2 < |c.near| {
      DigitsRead(s, pos, d);
    } else {
      assert s[pos] == s[pos..pos + 1][0];
    }
  }

  // ---------- the encoder's choice ----------

  /** The best of the near modes from i on against the best so far. */
  function BestNear(c: Caches, addr: Word, i: nat, best: (Word, nat)): (Word, nat)
    requires i <= |c.near|
    decreases |c.near| - i
  {
    if i == |c.near| then best
    else
      var d := Wrap(addr - c.near[i]);
      BestNear(c, addr, i + 1, if d < best.0 then (d, i + 2) else best)
  }

  /** The coded value and the mode that the encoder picks. */
  function Choice(c: Caches, addr: Word, here: Word): (Word, nat) {
    var d := Wrap(here - addr);
    var best := BestNear(c, addr, 0, if d < addr then (d, 1) else (addr, 0));
    if c.same != [] && c.same[addr % |c.same|] == addr then
      ((addr % |c.same|) % 256, |c.near| + 2 + (addr % |c.same|) / 256)
    else best
  }

  lemma {:induction false} BestNearCoded(c: Caches, addr: Word, here: Word, i: nat, best: (Word, nat))
    requires c.Valid() && i <= |c.near| && best.1 < i + 2 && best.1 < 256
             && Coded(c, here, best.1, addr) == Some(best.0)
    requires |c.near| <= 254
    ensures var r := BestNear(c, addr, i, best);
            && r.1 < 256 && r.1 - 2 < |c.near|
            && Coded(c, here, r.1, addr) == Some(r.0)
    decreases |c.near| - i
  {
    if i < |c.near| {
      var d := Wrap(addr - c.near[i]);
      BestNearCoded(c, addr, here, i + 1, if d < best.0 then (d, i + 2) else best);
    }
  }

  lemma {:induction false} BestNearLeast(c: Caches, addr: Word, i: nat, best: (Word, nat))
    requires i <= |c.near|
    ensures BestNear(c, addr, i, best).0 <= best.0
    ensures forall j :: i <= j < |c.near| ==> BestNear(c, addr, i, best).0 <= Wrap(addr - c.near[j])
    decreases |c.near| - i
  {
    hide Wrap;
    if i < |c.near| {
      var d := Wrap(addr - c.near[i]);
      BestNearLeast(c, addr, i + 1, if d < best.0 then (d, i + 2) else best);
    }
  }

  /** The same cache holds the address, and so it is coded there in one byte. */
  predicate InSame(c: Caches, addr: Word) {
    c.same != [] && c.same[addr % |c.same|] == addr
  }

  lemma SameMode(c: Caches, addr: Word, here: Word)
    requires c.Valid() && c.ModesFit() && InSame(c, addr)
    ensures var (d, mode) := Choice(c, addr, here);
            && mode < 256 && mode - 2 >= |c.near|
            && Coded(c, here, mode, addr) == Some(d)
  {
    hide BestNear;
    var i := addr % |c.same|;
    assert i / 256 < |c.same| / 256;
  }

  /** The encoder's choice is a legal coding. It is in the same cache exactly if that holds the address; otherwise the
      coded value is the least of all modes: as it is, from here, and from every near address. */
  lemma ChoiceCoded(c: Caches, addr: Word, here: Word)
    requires c.Valid() && c.ModesFit()
    ensures var (d, mode) := Choice(c, addr, here);
            && mode < 256 && Coded(c, here, mode, addr) == Some(d)
            && (InSame(c, addr) <==> mode - 2 >= |c.near|)
            && (!InSame(c, addr) ==> d <= addr && d <= Wrap(here - addr)
                                     && forall j :: 0 <= j < |c.near| ==> d <= Wrap(addr - c.near[j]))
  {
    if InSame(c, addr) {
      SameMode(c, addr, here);
    } else {
      var h := Wrap(here - addr);
      var best := if h < addr then (h, 1) else (addr, 0);
      BestNearCoded(c, addr, here, 0, best);
      BestNearLeast(c, addr, 0, best);
    }
  }

  // ---------- address sequences ----------

  /** The modes and the bytes of a sequence of addresses, each with the position it is copied to. */
  function EncodeAll(c: Caches, reqs: seq<(Word, Word)>): (r: (seq<Byte>, seq<Byte>))
    requires c.Valid() && c.ModesFit()
    decreases |reqs|
  {
    if reqs == [] then ([], [])
    else
      var (addr, here) := reqs[0];
      ChoiceCoded(c, addr, here);
      var (d, mode) := Choice(c, addr, here);
      var (modes, bytes) := EncodeAll(Updated(c, addr), reqs[1..]);
      ([mode] + modes, Wire(c, mode, d) + bytes)
  }

  /** The addresses read back from pos on, the caches updated with each. */
  function DecodeAll(c: Caches, s: seq<Byte>, pos: nat, modes: seq<Byte>, heres: seq<Word>): Option<(seq<Word>, Caches)>
    requires c.Valid() && |modes| == |heres|
    decreases |modes|
  {
    if modes == [] then Some(([], c))
    else
      match AddrAt(c, s, pos, heres[0], modes[0])
      case None => None
      case Some((addr, p)) =>
        match DecodeAll(Updated(c, addr), s, p, modes[1..], heres[1..])
        case None => None
        case Some((rest, end)) => Some(([addr] + rest, end))
  }

  function Firsts(reqs: seq<(Word, Word)>): (r: seq<Word>)
    ensures |r| == |reqs|
  {
    seq(|reqs|, i requires 0 <= i < |reqs| => reqs[i].0)
  }

  function Seconds(reqs: seq<(Word, Word)>): (r: seq<Word>)
    ensures |r| == |reqs|
  {
    seq(|reqs|, i requires 0 <= i < |reqs| => reqs[i].1)
  }

  lemma {:induction false} EncodeModes(c: Caches, reqs: seq<(Word, Word)>)
    requires c.Valid() && c.ModesFit()
    ensures |EncodeAll(c, reqs).0| == |reqs|
    decreases |reqs|
  {
    if reqs != [] {
      EncodeModes(Updated(c, reqs[0].0), reqs[1..]);
    }
  }

  lemma {:induction false} UpdateAllFirst(c: Caches, a: Word, addrs: seq<Word>)
    requires c.Valid()
    ensures UpdateAll(c, [a] + addrs) == UpdateAll(Updated(c, a), addrs)
    decreases |addrs|
  {
    var all := [a] + addrs;
    if addrs == [] {
      assert all[..0] == [];
    } else {
      assert all[..|all| - 1] == [a] + addrs[..|addrs| - 1];
      UpdateAllFirst(c, a, addrs[..|addrs| - 1]);
    }
  }

  lemma EncodeFirst(c: Caches, reqs: seq<(Word, Word)>)
    requires c.Valid() && c.ModesFit() && reqs != []
    ensures var (d, mode) := Choice(c, reqs[0].0, reqs[0].1);
            && mode < 256 && Coded(c, reqs[0].1, mode, reqs[0].0) == Some(d)
            && EncodeAll(c, reqs).0 == [mode] + EncodeAll(Updated(c, reqs[0].0), reqs[1..]).0
            && EncodeAll(c, reqs).1 == Wire(c, mode, d) + EncodeAll(Updated(c, reqs[0].0), reqs[1..]).1
  {
    hide Choice, Coded, Wire, Updated;
    ChoiceCoded(c, reqs[0].0, reqs[0].1);
  }

  lemma DecodeFirst(c: Caches, s: seq<Byte>, pos: nat, mode: Byte, modes: seq<Byte>, heres: seq<Word>, addr: Word,
                    p: nat)
    requires c.Valid() && |heres| == |modes| + 1 && AddrAt(c, s, pos, heres[0], mode) == Some((addr, p))
    ensures var d := DecodeAll(Updated(c, addr), s, p, modes, heres[1..]);
            d.Some? ==> DecodeAll(c, s, pos, [mode] + modes, heres) == Some(([addr] + d.value.0, d.value.1))
  {
    hide Updated, AddrAt;
    assert ([mode] + modes)[1..] == modes;
  }

  lemma NothingRead(c: Caches, s: seq<Byte>, pos: nat)
    requires c.Valid()
    ensures DecodeAll(c, s, pos, [], []) == Some(([], UpdateAll(c, [])))
  {
  }

  /** For any addresses, the decoder recovers what the encoder coded, and both end with the same caches. */
  lemma {:induction false} SequenceRoundTrip(c: Caches, reqs: seq<(Word, Word)>, s: seq<Byte>, pos: nat)
    requires c.Valid() && c.ModesFit()
    requires At(s, pos, EncodeAll(c, reqs).1)
    ensures |EncodeAll(c, reqs).0| == |reqs|
    ensures DecodeAll(c, s, pos, EncodeAll(c, reqs).0, Seconds(reqs))
            == Some((Firsts(reqs), UpdateAll(c, Firsts(reqs))))
    decreases |reqs|
  {
    hide Choice, Coded, Meant, Wire, Updated, AddrAt, UpdateAll, EncodeAll, DecodeAll;
    EncodeModes(c, reqs);
    if reqs == [] {
      assert Firsts(reqs) == [] && Seconds(reqs) == [] && EncodeAll(c, reqs).0 == [];
      NothingRead(c, s, pos);
    } else {
      var (addr, here) := reqs[0];
      EncodeFirst(c, reqs);
      var (d, mode) := Choice(c, addr, here);
      var w, c' := Wire(c, mode, d), Updated(c, addr);
      var (modes, bytes) := EncodeAll(c', reqs[1..]);
      AtParts(s, pos, w, bytes);
      CodedMeant(c, here, mode, addr);
      WireRead(c, s, pos, here, mode, d, addr);
      SequenceRoundTrip(c', reqs[1..], s, pos + |w|);
      DecodeFirst(c, s, pos, mode, modes, Seconds(reqs), addr, pos + |w|);
      assert Seconds(reqs)[1..] == Seconds(reqs[1..]);
      assert Firsts(reqs) == [addr] + Firsts(reqs[1..]);
      UpdateAllFirst(c, addr, Firsts(reqs[1..]));
    }
  }

  // ---------- the caches in place ----------

  class Cache {
    var near: array<Word>
    var nextSlot: nat
    var same: array<Word>

    ghost predicate Valid()
      reads this, near, same
    {
      near != same && Contents().Valid()
    }

    ghost function Contents(): (c: Caches)
      reads this, near, same
    {
      Caches(near[..], nextSlot, same[..])
    }

    constructor (sNear: Byte, sSame: Byte)
      ensures Valid() && fresh(near) && fresh(same)
      ensures Contents() == Initial(sNear, sSame)
    {
      near := new Word[sNear](_ => 0);
      nextSlot := 0;
      same := new Word[sSame * 256](_ => 0);
      new;
      assert near[..] == Zeros(sNear) && same[..] == Zeros(sSame * 256);
    }

    method Update(addr: Word)
      requires Valid()
      modifies this`nextSlot, near, same
      ensures Valid()
      ensures Contents() == Updated(old(Contents()), addr)
    {
      if near.Length > 0 {
        near[nextSlot] := addr;
        nextSlot := (nextSlot + 1) % near.Length;
      }
      if same.Length > 0 {
        same[addr % same.Length] := addr;
      }
    }

    /** The coded value and the mode of addr; the caches are updated. */
    method AddrEncode(addr: Word, here: Word) returns (d: Word, mode: nat)
      requires Valid()
      modifies this`nextSlot, near, same
      ensures Valid()
      ensures (d, mode) == Choice(old(Contents()), addr, here)
      ensures Contents() == Updated(old(Contents()), addr)
    {
      d, mode := addr, 0;
      var e := Wrap(here - addr);
      if e < d {
        d, mode := e, 1;
      }
      ghost var first := (d, mode);
      var i: nat := 0;
      while i < near.Length
        invariant i <= near.Length
        invariant BestNear(Contents(), addr, i, (d, mode)) == BestNear(Contents(), addr, 0, first)
      {
        e := Wrap(addr - near[i]);
        if e < d {
          d, mode := e, i + 2;
        }
        i := i + 1;
      }
      if same.Length > 0 && same[addr % same.Length] == addr {
        d, mode := addr % same.Length % 256, near.Length + 2 + addr % same.Length / 256;
      }
      Update(addr);
    }
  }
}
