/** When decoding fails, and when it never ends: exactly the checks that the machine makes, with 1 for ADD, 2 for RUN
    and 3 for COPY. */
module VcdErrors {
  import opened Words
  import opened Options
  import opened VcdInteger
  import opened VcdCache
  import opened VcdTable
  import opened VcdVm

  /** Some byte from pos on ends an integer. */
  ghost predicate IntegerThere(s: seq<Byte>, pos: nat) {
    exists k :: pos <= k < |s| && s[k] < 128
  }

  /** An integer is read exactly if its last byte is there. */
  lemma {:induction false} ReadFails(s: seq<Byte>, pos: nat, t: Word)
    ensures ReadAt(s, pos, t) == None <==> !IntegerThere(s, pos)
    decreases |s| - pos
  {
    hide Shift;
    if pos < |s| && s[pos] >= 128 {
      ReadFails(s, pos + 1, Shift(t, s[pos]));
      assert IntegerThere(s, pos) <==> IntegerThere(s, pos + 1);
    }
  }

  /** An address is missing when its integer or its byte is, or when the same cache has no such slot. */
  lemma AddressFails(c: Caches, s: seq<Byte>, pos: nat, here: Word, mode: Byte)
    ensures AddrAt(c, s, pos, here, mode) == None
            <==> if mode < 2 + |c.near| then !IntegerThere(s, pos)
                 else pos >= |s| || (mode - 2 - |c.near|) * 256 + s[pos] >= |c.same|
  {
    hide ReadAt, Wrap;
    ReadFails(s, pos, 0);
  }

  /** The size, or the bytes, or the address, or the code of an instruction is wrong. */
  ghost predicate Wrong(x: Env, st: State, inst: Byte, size: Word, mode: Byte) {
    || inst > 3
    || (inst != 0 && st.here + size > |st.target|)
    || (inst == 1 && st.data + size > |x.data|)
    || (inst == 2 && st.data + 1 > |x.data|)
    || (inst == 3 && match AddrAt(st.caches, x.addr, st.addr, Wrap(st.here), mode)
                     case None => true
                     case Some((addr, _)) => x.seg.lo + addr + size > x.seg.hi)
  }

  /** An instruction fails exactly if it is wrong, and else it ends, unless it is a RUN of more than 255. */
  lemma ExecutionFails(x: Env, st: State, inst: Byte, size: Word, mode: Byte)
    requires x.Holds(st)
    ensures Execution(x, st, inst, size, mode) == Failed <==> Wrong(x, st, inst, size, mode)
    ensures Execution(x, st, inst, size, mode) == Loops <==> !Wrong(x, st, inst, size, mode) && inst == 2 && size > 255
  {
    hide AddrAt, Splice, Updated;
  }

  /** The sizes of an entry: the one it holds, or the next integer if it holds none for an instruction. */
  lemma SizeFails(inst: seq<Byte>, pos: nat, part: Part)
    requires pos <= |inst|
    ensures SizeAt(inst, pos, part) == None <==> part.inst != 0 && part.size == 0 && !IntegerThere(inst, pos)
    ensures part.inst == 0 || part.size != 0 ==> SizeAt(inst, pos, part) == Some((part.size, pos))
  {
    hide ReadAt;
    ReadFails(inst, pos, 0);
  }

  /** An entry ends well exactly if the first size, then the second one is there, and then the first instruction, then
      the second one ends well. */
  lemma EntryEnds(x: Env, st: State, table: Table)
    requires x.Holds(st) && table.Valid() && st.inst < |x.inst|
    ensures var code := table.entries[x.inst[st.inst]];
            var s1 := SizeAt(x.inst, st.inst + 1, code.first);
            Entry(x, st, table).Done?
            <==> s1.Some? && (var s2 := SizeAt(x.inst, s1.value.1, code.second);
                              s2.Some? && (var r := Execution(x, st.(inst := s2.value.1), code.first.inst, s1.value.0,
                                                              code.first.mode);
                                           r.Done? && Execution(x, r.value, code.second.inst, s2.value.0,
                                                                code.second.mode).Done?))
  {
    hide Execution, SizeAt;
  }

  /** A window has no segment exactly if its segment does not lie in the source, in the target, or, with neither bit
      set, if its own part does not lie in the target. The bit of the source comes first. */
  lemma SegmentFails(source: seq<Byte>, targetSize: nat, here: nat, w: Window)
    ensures SegmentOf(source, targetSize, here, w) == None
            <==> if w.indicator % 2 == 1 then w.position + w.length > |source|
                 else if w.indicator % 4 >= 2 then w.position + w.length > targetSize
                 else here + w.delta.sWindow > targetSize
  {
  }

  /** A window ends well exactly if it has a segment and all its entries end well from there. */
  lemma WindowEnds(source: seq<Byte>, table: Table, w: Window, g: Progress)
    requires g.Valid() && table.Valid()
    ensures OneWindow(source, table, w, g).Done?
            <==> var seg := SegmentOf(source, |g.target|, g.here, w);
                 seg.Some?
                 && Entries(EnvOf(source, seg.value, w), State(g.target, g.here, 0, 0, 0, g.caches), table).Done?
  {
    hide Entries;
  }
}
