/** Instruction code tables of VCDIFF (sections 5.4 to 5.6 and 7 of RFC 3284). */
module VcdTable {
  import opened Words

  const NOOP: Byte := 0
  const ADD: Byte := 1
  const RUN: Byte := 2
  const COPY: Byte := 3

  /** One of the two instructions of an entry; size 0 stands for a size that follows in the instructions section. */
  datatype Part = Part(inst: Byte, size: Byte, mode: Byte) {
    predicate SizeFollows() {
      inst != NOOP && size == 0
    }
  }

  datatype Code = Code(first: Part, second: Part)

  datatype Table = Table(sNear: Byte, sSame: Byte, entries: seq<Code>) {
    predicate Valid() {
      |entries| == 256
    }
  }

  // ---------- the default table ----------

  const NOTHING := Part(NOOP, 0, 0)

  function DefaultCode(i: Byte): Code {
    if i == 0 then Code(Part(RUN, 0, 0), NOTHING)
    else if i < 19 then Code(Part(ADD, i - 1, 0), NOTHING)
    else if i < 163 then
      var k := i - 19;
      Code(Part(COPY, if k % 16 == 0 then 0 else k % 16 + 3, k / 16), NOTHING)
    else if i < 235 then
      var k := i - 163;
      Code(Part(ADD, k % 12 / 3 + 1, 0), Part(COPY, k % 3 + 4, k / 12))
    else if i < 247 then
      var k := i - 235;
      Code(Part(ADD, k % 4 + 1, 0), Part(COPY, 4, k / 4 + 6))
    else Code(Part(COPY, 4, i - 247), Part(ADD, 1, 0))
  }

  function Default(): (t: Table)
    ensures t.Valid() && t.sNear == 4 && t.sSame == 3
    ensures forall i :: 0 <= i < 256 ==> t.entries[i] == DefaultCode(i)
  {
    Table(4, 3, seq(256, i requires 0 <= i < 256 => DefaultCode(i)))
  }

  /** The entry of a lone instruction whose size is in the entry if it can be. */
  function Single(inst: Byte, size: nat, mode: Byte): Byte
    requires inst == ADD || inst == RUN || (inst == COPY && mode <= 8)
  {
    if inst == RUN then 0
    else if inst == ADD then (if size < 18 then size + 1 else 1)
    else 19 + 16 * mode + (if 4 <= size <= 18 then size - 3 else 0)
  }

  /** Every lone instruction with any of the nine default modes has an entry, and its size follows only if need be. */
  lemma SinglesThere(inst: Byte, size: nat, mode: Byte)
    requires inst == ADD || inst == RUN || (inst == COPY && mode <= 8)
    ensures var code := DefaultCode(Single(inst, size, mode));
            && code.second == NOTHING && code.first.inst == inst && (inst == COPY ==> code.first.mode == mode)
            && (code.first.SizeFollows() || code.first.size == size)
            && (code.first.SizeFollows() <==>
                inst == RUN || (inst == ADD && (size == 0 || size > 17)) || (inst == COPY && !(4 <= size <= 18)))
  {
  }

  // The default table as its listing gives it, with 1 for ADD, 2 for RUN, 3 for COPY and 0 for nothing.

  lemma LoneEntries(size: nat, mode: nat)
    ensures DefaultCode(0) == Code(Part(2, 0, 0), Part(0, 0, 0))
    ensures size <= 17 ==> DefaultCode(1 + size) == Code(Part(1, size, 0), Part(0, 0, 0))
    ensures mode <= 8 ==> DefaultCode(19 + 16 * mode) == Code(Part(3, 0, mode), Part(0, 0, 0))
    ensures mode <= 8 && 4 <= size <= 18
            ==> DefaultCode(16 + 16 * mode + size) == Code(Part(3, size, mode), Part(0, 0, 0))
  {
  }

  lemma AddCopyEntries(add: nat, copy: nat, mode: nat)
    requires 1 <= add <= 4
    ensures mode <= 5 && 4 <= copy <= 6
            ==> DefaultCode(163 + 12 * mode + 3 * (add - 1) + (copy - 4)) == Code(Part(1, add, 0), Part(3, copy, mode))
    ensures 6 <= mode <= 8 ==> DefaultCode(235 + 4 * (mode - 6) + (add - 1)) == Code(Part(1, add, 0), Part(3, 4, mode))
  {
  }

  lemma CopyAddEntries(mode: nat)
    requires mode <= 8
    ensures DefaultCode(247 + mode) == Code(Part(3, 4, mode), Part(1, 1, 0))
  {
  }

  /** The index of an entry, from what it says. */
  function IndexOf(c: Code): int {
    if c.second.inst == NOOP then
      if c.first.inst == RUN then 0
      else if c.first.inst == ADD then c.first.size + 1
      else 19 + 16 * c.first.mode + (if c.first.size == 0 then 0 else c.first.size - 3)
    else if c.first.inst == COPY then 247 + c.first.mode
    else if c.second.mode <= 5 then 163 + 12 * c.second.mode + 3 * (c.first.size - 1) + c.second.size - 4
    else 235 + 4 * (c.second.mode - 6) + c.first.size - 1
  }

  lemma LoneIndex(i: Byte)
    requires i < 163
    ensures IndexOf(DefaultCode(i)) == i
  {
  }

  lemma PairIndex(i: Byte)
    requires i >= 163
    ensures IndexOf(DefaultCode(i)) == i
  {
  }

  lemma DefaultIndex(i: Byte)
    ensures IndexOf(DefaultCode(i)) == i
  {
    hide DefaultCode, IndexOf;
    if i < 163 {
      LoneIndex(i);
    } else {
      PairIndex(i);
    }
  }

  /** No two entries are the same. */
  lemma DefaultDistinct(i: Byte, j: Byte)
    ensures DefaultCode(i) == DefaultCode(j) ==> i == j
  {
    hide DefaultCode, IndexOf;
    DefaultIndex(i);
    DefaultIndex(j);
  }

  // ---------- as a string ----------

  const CODE_TABLE_LENGTH := 1536

  /** All first instructions, then all second ones, then the sizes and the modes likewise. */
  function Field(code: Code, k: nat): Byte
    requires k < 6
  {
    match k
    case 0 => code.first.inst
    case 1 => code.second.inst
    case 2 => code.first.size
    case 3 => code.second.size
    case 4 => code.first.mode
    case _ => code.second.mode
  }

  function ToString(entries: seq<Code>): (s: seq<Byte>)
    requires |entries| == 256
    ensures |s| == CODE_TABLE_LENGTH
    ensures forall j :: 0 <= j < CODE_TABLE_LENGTH ==> s[j] == Field(entries[j % 256], j / 256)
  {
    seq(CODE_TABLE_LENGTH, j requires 0 <= j < CODE_TABLE_LENGTH => Field(entries[j % 256], j / 256))
  }

  function FromString(s: seq<Byte>): (entries: seq<Code>)
    requires |s| == CODE_TABLE_LENGTH
    ensures |entries| == 256
  {
    seq(256, i requires 0 <= i < 256 =>
      Code(Part(s[i], s[i + 512], s[i + 1024]), Part(s[i + 256], s[i + 768], s[i + 1280])))
  }

  /** The bytes of entry i in a table string (section 7 of RFC 3284). */
  lemma StringLayout(entries: seq<Code>, i: nat)
    requires |entries| == 256 && i < 256
    ensures var s := ToString(entries);
            && s[i] == entries[i].first.inst && s[256 + i] == entries[i].second.inst
            && s[512 + i] == entries[i].first.size && s[768 + i] == entries[i].second.size
            && s[1024 + i] == entries[i].first.mode && s[1280 + i] == entries[i].second.mode
  {
  }

  lemma EntryBack(entries: seq<Code>, i: nat)
    requires |entries| == 256 && i < 256
    ensures FromString(ToString(entries))[i] == entries[i]
  {
    var t := ToString(entries);
    assert t[i] == Field(entries[i], 0) && t[i + 256] == Field(entries[i], 1);
    assert t[i + 512] == Field(entries[i], 2) && t[i + 768] == Field(entries[i], 3);
    assert t[i + 1024] == Field(entries[i], 4) && t[i + 1280] == Field(entries[i], 5);
  }

  lemma ByteBack(s: seq<Byte>, k: nat, i: nat)
    requires |s| == CODE_TABLE_LENGTH && k < 6 && i < 256
    ensures Field(FromString(s)[i], k) == s[k * 256 + i]
  {
  }

  lemma FieldsDetermine(c: Code, d: Code)
    requires forall k :: 0 <= k < 6 ==> Field(c, k) == Field(d, k)
    ensures c == d
  {
    assert Field(c, 0) == Field(d, 0) && Field(c, 1) == Field(d, 1) && Field(c, 2) == Field(d, 2);
    assert Field(c, 3) == Field(d, 3) && Field(c, 4) == Field(d, 4) && Field(c, 5) == Field(d, 5);
  }

  /** A table survives being written as a string, and every string of the right length is that of one table. */
  lemma StringRoundTrip(entries: seq<Code>, s: seq<Byte>)
    requires |entries| == 256 && |s| == CODE_TABLE_LENGTH
    ensures FromString(ToString(entries)) == entries && ToString(FromString(s)) == s
  {
    hide FromString, Field;
    forall i | 0 <= i < 256
      ensures FromString(ToString(entries))[i] == entries[i]
    {
      EntryBack(entries, i);
    }
    forall j | 0 <= j < CODE_TABLE_LENGTH
      ensures ToString(FromString(s))[j] == s[j]
    {
      ByteBack(s, j / 256, j % 256);
    }
  }

  /** The code with its k-th field set. */
  function WithField(code: Code, k: nat, b: Byte): (c: Code)
    requires k < 6
    ensures Field(c, k) == b && forall l :: 0 <= l < 6 && l != k ==> Field(c, l) == Field(code, l)
  {
    match k
    case 0 => code.(first := code.first.(inst := b))
    case 1 => code.(second := code.second.(inst := b))
    case 2 => code.(first := code.first.(size := b))
    case 3 => code.(second := code.second.(size := b))
    case 4 => code.(first := code.first.(mode := b))
    case _ => code.(second := code.second.(mode := b))
  }

  method EntriesToString(entries: seq<Code>) returns (str: seq<Byte>)
    requires |entries| == 256
    ensures str == ToString(entries)
  {
    str := [];
    var k: nat := 0;
    while k < 6
      invariant k <= 6 && |str| == k * 256
      invariant forall l :: 0 <= l < |str| ==> str[l] == Field(entries[l % 256], l / 256)
    {
      var i: nat := 0;
      while i < 256
        invariant i <= 256 && |str| == k * 256 + i
        invariant forall l :: 0 <= l < |str| ==> str[l] == Field(entries[l % 256], l / 256)
      {
        str := str + [Field(entries[i], k)];
        i := i + 1;
      }
      k := k + 1;
    }
  }

  /** The loop over one field. */
  method FieldFromString(str: seq<Byte>, entries: array<Code>, k: nat)
    requires |str| == CODE_TABLE_LENGTH && entries.Length == 256 && k < 6
    modifies entries
    ensures forall i :: 0 <= i < 256 ==> entries[i] == WithField(old(entries[i]), k, str[k * 256 + i])
  {
    var i: nat := 0;
    while i < 256
      invariant i <= 256
      invariant forall l :: 0 <= l < i ==> entries[l] == WithField(old(entries[l]), k, str[k * 256 + l])
      invariant forall l :: i <= l < 256 ==> entries[l] == old(entries[l])
    {
      entries[i] := WithField(entries[i], k, str[k * 256 + i]);
      i := i + 1;
    }
  }

  method EntriesFromString(str: seq<Byte>) returns (entries: array<Code>)
    requires |str| == CODE_TABLE_LENGTH
    ensures fresh(entries) && entries[..] == FromString(str)
  {
    entries := new Code[256](_ => Code(NOTHING, NOTHING));
    var k: nat := 0;
    while k < 6
      invariant k <= 6 && fresh(entries) && entries.Length == 256
      invariant forall i, l :: 0 <= i < 256 && 0 <= l < k ==> Field(entries[i], l) == str[l * 256 + i]
      modifies entries
    {
      ghost var was := entries[..];
      FieldFromString(str, entries, k);
      k := k + 1;
    }
    forall i | 0 <= i < 256
      ensures entries[i] == FromString(str)[i]
    {
      FieldsDetermine(entries[i], FromString(str)[i]);
    }
  }
}
