/** The self-copy compressor and its expander, as the program runs them: a rolling hash finds the matches. */
module Compression {
  import opened Words
  import opened Options
  import opened Division
  import opened RollingHash
  import opened SelfCopy

  /** An entry of the ordered tree of instructions. */
  datatype Entry = Entry(key: nat, p: Pcode)

  function Entries(cs: seq<Copy>): (es: seq<Entry>)
    ensures |es| == |cs| && forall i :: 0 <= i < |cs| ==> es[i] == Entry(cs[i].key, CopyOf(cs[i].size, cs[i].addr))
  {
    seq(|cs|, i requires 0 <= i < |cs| => Entry(cs[i].key, CopyOf(cs[i].size, cs[i].addr)))
  }

  function Pcodes(es: seq<Entry>): (ps: seq<Pcode>)
    ensures |ps| == |es| && forall i :: 0 <= i < |es| ==> ps[i] == es[i].p
  {
    seq(|es|, i requires 0 <= i < |es| => es[i].p)
  }

  function EntryKeys(es: seq<Entry>): (ks: seq<nat>)
    ensures |ks| == |es| && forall i :: 0 <= i < |es| ==> ks[i] == es[i].key
  {
    seq(|es|, i requires 0 <= i < |es| => es[i].key)
  }

  function Place(es: seq<Entry>, key: nat): (p: nat)
    ensures p <= |es|
  {
    Slot(EntryKeys(es), key)
  }

  /** The tree with a new entry at its place. */
  function Placed(es: seq<Entry>, e: Entry): seq<Entry> {
    var p := Place(es, e.key);
    es[..p] + [e] + es[p..]
  }

  function CopyEntry(c: Copy): Entry {
    Entry(c.key, CopyOf(c.size, c.addr))
  }

  /** An entry whose key lies between those of two parts goes between them. */
  lemma PlaceBetween(a: seq<Entry>, b: seq<Entry>, key: nat)
    requires (forall e :: e in a ==> e.key <= key) && (b != [] ==> key < b[0].key)
    ensures Place(a + b, key) == |a|
  {
    assert EntryKeys(a + b) == EntryKeys(a) + EntryKeys(b);
    assert forall i :: 0 <= i < |a| ==> a[i] in a;
    SlotBetween(EntryKeys(a), EntryKeys(b), key);
  }

  class Tree {
    var nodes: seq<Entry>

    constructor ()
      ensures nodes == []
    {
      nodes := [];
    }

    method Insert(e: Entry)
      modifies this
      ensures nodes == Placed(old(nodes), e)
    {
      var p := Place(nodes, e.key);
      nodes := nodes[..p] + [e] + nodes[p..];
    }
  }

  /** arr[k] is the hash of block k for every block that begins at t or before. */
  ghost predicate Filled(data: seq<Byte>, w: nat, base: Word, arr: seq<Word>, t: nat) {
    forall k :: 0 <= k < |arr| && k * w <= t && k * w + w <= |data| ==> arr[k] == Hash(data[k * w..k * w + w], base)
  }

  lemma BlockIndex(size: nat, w: nat, i: nat)
    requires 0 < w && i + w <= size && i % w == 0
    ensures i / w < size / w && (i / w) * w == i
  {
    var q := i / w;
    assert i == q * w;
    assert (q + 1) * w == i + w;
    Quotient(size, w, q + 1);
  }

  lemma Quotient(n: nat, w: nat, q: nat)
    requires 0 < w && q * w <= n
    ensures q <= n / w
  {
    var d := n / w;
    assert n == d * w + n % w;
    assert (d - q + 1) * w == d * w - q * w + w;
  }

  lemma MultipleAt(w: nat, t: nat, k: nat)
    requires 0 < w && t < k * w <= t + 1
    ensures (t + 1) % w == 0 && (t + 1) / w == k
  {
    assert k * w == t + 1;
    ExactQuotient(k, w);
  }

  lemma ExactQuotient(k: nat, w: nat)
    requires 0 < w
    ensures (k * w) % w == 0 && (k * w) / w == k
  {
    var d := (k * w) / w;
    var r := (k * w) % w;
    Quotient(k * w, w, k);
    assert (d - k) * w + r == 0 by {
      assert k * w == d * w + r;
      assert (d - k) * w == d * w - k * w;
    }
    Product(d - k, w);
    if d > k {
      assert (d - k) * w == w + (d - k - 1) * w;
      Product(d - k - 1, w);
    }
  }

  /** Rolls to the window at i, and keeps its hash if it is a block. */
  method RollTo(rh: RollingHash, arr: array<Word>, i: nat) returns (h: Word)
    requires rh.Rolled() && rh.tail + 1 == i && i + rh.window <= |rh.data| && arr.Length == |rh.data| / rh.window
    requires Filled(rh.data, rh.window, rh.base, arr[..], i - 1)
    modifies rh, arr
    ensures rh.Rolled() && rh.tail == i && h == rh.value
    ensures Filled(rh.data, rh.window, rh.base, arr[..], i)
  {
    hide Hash;
    h := rh.Roll();
    if i % rh.window == 0 {
      BlockIndex(|rh.data|, rh.window, i);
      arr[i / rh.window] := h;
    }
    forall k | 0 <= k < arr.Length && k * rh.window <= i && k * rh.window + rh.window <= |rh.data|
      ensures arr[k] == Hash(rh.data[k * rh.window..k * rh.window + rh.window], rh.base)
    {
      if k * rh.window == i {
        MultipleAt(rh.window, i - 1, k);
      }
    }
  }

  /** Compares two windows byte by byte. */
  method SameBytes(data: seq<Byte>, w: nat, i: nat, b: nat) returns (matched: bool)
    requires i + w <= |data| && b + w <= |data|
    ensures matched <==> data[b..b + w] == data[i..i + w]
  {
    matched := true;
    for n := 0 to w
      invariant data[b..b + n] == data[i..i + n]
    {
      if data[i + n] != data[b + n] {
        assert data[i..i + w][n] != data[b..b + w][n];
        return false;
      }
      assert data[b..b + n + 1] == data[b..b + n] + [data[b + n]];
      assert data[i..i + n + 1] == data[i..i + n] + [data[i + n]];
    }
  }

  /** Extends a match at distance m backwards from i: the last place that does not belong to it. */
  method ExtendBack(data: seq<Byte>, i: nat, m: nat) returns (head: nat)
    requires 0 < m <= i <= |data|
    ensures head + 1 == Start(data, m, i)
  {
    head := i - 1;
    while head >= m && data[head - m] == data[head]
      invariant m <= head + 1 && head < i && Start(data, m, head + 1) == Start(data, m, i)
    {
      head := head - 1;
    }
  }

  /** Extends a match at distance m forwards: the first place that does not belong to it. */
  method ExtendOn(data: seq<Byte>, q: nat, m: nat) returns (tail: nat)
    requires m <= q <= |data|
    ensures tail == End(data, m, q)
  {
    tail := q;
    while tail < |data| && data[tail - m] == data[tail]
      invariant q <= tail <= |data| && End(data, m, tail) == End(data, m, q)
    {
      tail := tail + 1;
    }
  }

  lemma EqualBounds(data: seq<Byte>, w: nat, i: nat, b: nat)
    requires Equal(data, w, i, b)
    ensures b + w <= i && i + w <= |data|
  {
  }

  lemma MatchEnds(data: seq<Byte>, w: nat, i: nat, b: nat)
    requires 0 < w && Equal(data, w, i, b)
    ensures var m, c := i - b, MatchAt(data, w, i, b);
            c.key == Start(data, m, i) && c.key + c.size == End(data, m, i + w) && c.addr == c.key - m
  {
  }

  /** The match with the block at b is extended and inserted, and the hash is rolled to one window before its end. */
  method TakeMatch(rh: RollingHash, arr: array<Word>, i: nat, b: nat, tree: Tree) returns (next: nat)
    requires rh.Rolled() && rh.tail == i && i + rh.window <= |rh.data| && arr.Length == |rh.data| / rh.window
    requires Equal(rh.data, rh.window, i, b)
    requires Filled(rh.data, rh.window, rh.base, arr[..], i)
    modifies rh, arr, tree
    ensures rh.Rolled() && rh.tail + 1 == next && Filled(rh.data, rh.window, rh.base, arr[..], rh.tail)
    ensures var c := MatchAt(rh.data, rh.window, i, b);
            next == c.key + c.size - rh.window + 1 && tree.nodes == Placed(old(tree.nodes), CopyEntry(c))
  {
    hide Hash, Matches, Filled, Placed, MatchAt, Wrap, Power, Equal;
    var e, tail := Extend(rh.data, rh.window, i, b);
    tree.Insert(e);
    RollOn(rh, arr, i + 1, tail - rh.window + 1);
    return tail - rh.window + 1;
  }

  /** The entry of the match, extended both ways, and the place after it. */
  method Extend(data: seq<Byte>, w: nat, i: nat, b: nat) returns (e: Entry, tail: nat)
    requires 0 < w && Equal(data, w, i, b)
    ensures e == CopyEntry(MatchAt(data, w, i, b)) && i + w <= tail <= |data|
    ensures tail == MatchAt(data, w, i, b).key + MatchAt(data, w, i, b).size
  {
    hide Matches, MatchAt, Start, End, Equal;
    EqualBounds(data, w, i, b);
    var m := i - b;
    var head := ExtendBack(data, i, m);
    tail := ExtendOn(data, i + w, m);
    MatchEnds(data, w, i, b);
    e := Entry(head + 1, CopyOf(tail - head - 1, head + 1 - m));
  }

  /** Rolls over the windows from i to end. */
  method RollOn(rh: RollingHash, arr: array<Word>, i: nat, end: nat)
    requires rh.Rolled() && rh.tail + 1 == i <= end && end + rh.window <= |rh.data| + 1
             && arr.Length == |rh.data| / rh.window
    requires Filled(rh.data, rh.window, rh.base, arr[..], rh.tail)
    modifies rh, arr
    ensures rh.Rolled() && rh.tail + 1 == end && Filled(rh.data, rh.window, rh.base, arr[..], rh.tail)
  {
    hide Hash, Filled, Wrap, Power;
    var next := i;
    while next < end
      invariant i <= next <= end && rh.Rolled() && rh.tail + 1 == next
      invariant Filled(rh.data, rh.window, rh.base, arr[..], rh.tail)
    {
      var _ := RollTo(rh, arr, next);
      next := next + 1;
    }
  }

  /** Searches the earlier blocks for the window at i, the stored hashes first; the first block that really matches, or
      i / w. */
  method SearchBlocks(data: seq<Byte>, w: nat, ghost base: Word, arr: array<Word>, i: nat, h: Word) returns (k: nat)
    requires 0 < w && i + w <= |data| && arr.Length == |data| / w && Filled(data, w, base, arr[..], i)
    requires h == Hash(data[i..i + w], base)
    ensures k == FirstBlock(data, w, i, 0)
  {
    hide Hash, Filled, FirstBlock, Unmatched;
    var blocks := i / w;
    k := 0;
    NoBlock(data, w, i);
    while k < blocks
      invariant 0 <= k <= blocks && Unmatched(data, w, i, k)
    {
      BlockNext(data, w, base, arr[..], i, k);
      if h == arr[k] {
        var matched := SameBytes(data, w, i, k * w);
        if matched {
          return;
        }
      }
      k := k + 1;
    }
  }

  /** No block before k equals the window at i. */
  ghost predicate Unmatched(data: seq<Byte>, w: nat, i: nat, k: nat)
    requires 0 < w && i + w <= |data|
  {
    k <= i / w && FirstBlock(data, w, i, k) == FirstBlock(data, w, i, 0)
  }

  /** A block is told apart by its stored hash, or by its bytes. */
  lemma BlockNext(data: seq<Byte>, w: nat, base: Word, arr: seq<Word>, i: nat, k: nat)
    requires 0 < w && i + w <= |data| && |arr| == |data| / w && k < i / w && Filled(data, w, base, arr, i)
    requires Unmatched(data, w, i, k)
    ensures k < |arr| && k * w + w <= i
    ensures if data[k * w..k * w + w] == data[i..i + w]
            then arr[k] == Hash(data[i..i + w], base) && k == FirstBlock(data, w, i, 0)
            else Unmatched(data, w, i, k + 1)
  {
    hide Hash, Filled;
    FirstBlockStep(data, w, i, k);
    StoredHash(data, w, base, arr, i, k);
  }

  /** Looks the window at i up; a match is taken. */
  method Lookback(rh: RollingHash, arr: array<Word>, i: nat, h: Word, tree: Tree) returns (next: nat)
    requires rh.Rolled() && rh.tail == i && h == rh.value && 1 <= i && i + rh.window <= |rh.data|
    requires arr.Length == |rh.data| / rh.window
    requires Filled(rh.data, rh.window, rh.base, arr[..], i)
    modifies rh, arr, tree
    ensures rh.Rolled() && rh.tail + 1 == next && Filled(rh.data, rh.window, rh.base, arr[..], rh.tail)
    ensures match MatchOf(rh.data, rh.window, i)
            case None => next == i + 1 && tree.nodes == old(tree.nodes)
            case Some(c) => next == c.key + c.size - rh.window + 1
                            && tree.nodes == Placed(old(tree.nodes), CopyEntry(c))
  {
    hide Hash, Matches, MatchAt, Filled, FirstBlock, Placed, MatchOf, Wrap, Power;
    var k := SearchBlocks(rh.data, rh.window, rh.base, arr, i, h);
    MatchFound(rh.data, rh.window, i);
    if k == i / rh.window {
      return i + 1;
    }
    next := TakeMatch(rh, arr, i, k * rh.window, tree);
  }

  lemma MatchFound(data: seq<Byte>, w: nat, i: nat)
    requires 0 < w && i + w <= |data|
    ensures var k := FirstBlock(data, w, i, 0);
            MatchOf(data, w, i) == if k == i / w then None else Some(MatchAt(data, w, i, k * w))
  {
  }

  lemma FirstBlockStep(data: seq<Byte>, w: nat, i: nat, k: nat)
    requires 0 < w && i + w <= |data| && k < i / w
    ensures k * w + w <= i
    ensures FirstBlock(data, w, i, k)
            == if data[k * w..k * w + w] == data[i..i + w] then k else FirstBlock(data, w, i, k + 1)
  {
    BlockBefore(w, i, k);
  }

  lemma NoBlock(data: seq<Byte>, w: nat, i: nat)
    requires 0 < w && i + w <= |data|
    ensures Unmatched(data, w, i, 0)
    ensures Unmatched(data, w, i, i / w) ==> FirstBlock(data, w, i, 0) == i / w
  {
  }

  /** A stored hash is that of its block, so that equal windows cannot differ in it. */
  lemma StoredHash(data: seq<Byte>, w: nat, base: Word, arr: seq<Word>, i: nat, k: nat)
    requires 0 < w && i + w <= |data| && |arr| == |data| / w && k < i / w && Filled(data, w, base, arr, i)
    ensures k < |arr| && k * w + w <= i
    ensures data[k * w..k * w + w] == data[i..i + w] ==> arr[k] == Hash(data[i..i + w], base)
  {
    BlockBefore(w, i, k);
    Quotient(|data|, w, k + 1);
  }

  lemma EntriesInsert(cs: seq<Copy>, c: Copy)
    ensures Entries(InsertCopy(cs, c)) == Placed(Entries(cs), CopyEntry(c))
  {
    assert EntryKeys(Entries(cs)) == Keys(cs);
  }

  /** What is still to be found from i on, put into the tree of the matches found so far, is the final order. */
  lemma CopiesStep(data: seq<Byte>, w: nat, i: nat, cs: seq<Copy>)
    requires 0 < w && i + w <= |data|
    ensures match MatchOf(data, w, i)
            case None => Ordered(cs, Copies(data, w, i)) == Ordered(cs, Copies(data, w, i + 1))
            case Some(c) =>
              Ordered(cs, Copies(data, w, i)) == Ordered(InsertCopy(cs, c), Copies(data, w, c.key + c.size - w + 1))
  {
    hide MatchOf, Matches, InsertCopy;
    CopiesNext(data, w, i);
    var m := MatchOf(data, w, i);
    if m.Some? {
      var more := Copies(data, w, m.value.key + m.value.size - w + 1);
      assert ([m.value] + more)[1..] == more;
    }
  }

  /** One search: the window at i is hashed and looked up. */
  method SearchAt(rh: RollingHash, arr: array<Word>, i: nat, tree: Tree, ghost cs0: seq<Copy>)
      returns (next: nat, ghost cs: seq<Copy>)
    requires rh.Rolled() && rh.tail + 1 == i && i + rh.window <= |rh.data| && arr.Length == |rh.data| / rh.window
    requires Filled(rh.data, rh.window, rh.base, arr[..], i - 1) && tree.nodes == Entries(cs0)
    modifies rh, arr, tree
    ensures i < next && rh.Rolled() && rh.tail + 1 == next && Filled(rh.data, rh.window, rh.base, arr[..], next - 1)
    ensures tree.nodes == Entries(cs)
    ensures Ordered(cs, Copies(rh.data, rh.window, next)) == Ordered(cs0, Copies(rh.data, rh.window, i))
  {
    hide Hash, Matches, Filled, MatchOf, Placed, Copies, Ordered, InsertCopy;
    var h := RollTo(rh, arr, i);
    CopiesStep(rh.data, rh.window, i, cs0);
    ghost var m := MatchOf(rh.data, rh.window, i);
    next := Lookback(rh, arr, i, h, tree);
    cs := cs0;
    if m.Some? {
      EntriesInsert(cs, m.value);
      cs := InsertCopy(cs, m.value);
    }
  }

  /** Finds the matches of all windows. */
  method FindCopies(rh: RollingHash, tree: Tree) returns (ghost cs: seq<Copy>)
    requires 0 < rh.window <= |rh.data| && tree.nodes == []
    modifies rh, tree
    ensures cs == Ordered([], Copies(rh.data, rh.window, 1)) && tree.nodes == Entries(cs)
  {
    hide Hash, Matches, MatchAt, Filled, FirstBlock, Place, Copies, Ordered, InsertCopy;
    var w := rh.window;
    cs := [];
    Quotient(|rh.data|, w, 1);
    var arr := new Word[|rh.data| / w](_ => 0);
    arr[0] := rh.Init();
    FirstFilled(rh.data, w, rh.base, arr[..]);
    var i := 1;
    while i + w <= |rh.data|
      invariant 1 <= i && fresh(arr) && arr.Length == |rh.data| / w
      invariant rh.Rolled() && rh.tail + 1 == i && Filled(rh.data, w, rh.base, arr[..], i - 1)
      invariant tree.nodes == Entries(cs)
      invariant Ordered(cs, Copies(rh.data, w, i)) == Ordered([], Copies(rh.data, w, 1))
      decreases |rh.data| - i
    {
      i, cs := SearchAt(rh, arr, i, tree, cs);
    }
    NoCopies(rh.data, w, i, cs);
  }

  lemma FirstFilled(data: seq<Byte>, w: nat, base: Word, arr: seq<Word>)
    requires 0 < w <= |data| && |arr| > 0 && arr[0] == Hash(data[0..w], base)
    ensures Filled(data, w, base, arr, 0)
  {
    forall k | 0 <= k < |arr| && k * w <= 0 && k * w + w <= |data|
      ensures arr[k] == Hash(data[k * w..k * w + w], base)
    {
      if k > 0 {
        AtLeast(k, w);
      }
    }
  }

  lemma NoCopies(data: seq<Byte>, w: nat, i: nat, cs: seq<Copy>)
    requires 0 < w && i + w > |data|
    ensures Ordered(cs, Copies(data, w, i)) == cs
  {
  }

  /** The instructions so far, all with keys at most a, and the matches still ahead. */
  ghost predicate Covering(data: seq<Byte>, all: seq<Copy>, done: seq<Entry>, cs: seq<Copy>, a: nat) {
    && (forall e :: e in done ==> e.key <= a)
    && (forall e, c :: e in done && c in cs ==> e.key <= c.key)
    && (forall c :: c in cs ==> c.size > 0 && c.key + c.size <= |data|)
    && InOrder(cs) && a <= |data|
    && (forall c :: c in all ==> c.key + c.size <= |data|)
    && Pcodes(done) + Cover(data, cs, a) == Cover(data, all, 0)
  }

  function Gap(data: seq<Byte>, a: nat, b: nat): seq<Entry>
    requires a <= |data| && b <= |data|
  {
    if a < b then [Entry(a, Add(data[a..b]))] else []
  }

  lemma CoveringStep(data: seq<Byte>, all: seq<Copy>, done: seq<Entry>, cs: seq<Copy>, a: nat)
    requires Covering(data, all, done, cs, a) && cs != []
    ensures var c := cs[0];
            && c.key + c.size <= |data|
            && Covering(data, all, done + Gap(data, a, c.key) + [Entry(c.key, CopyOf(c.size, c.addr))], cs[1..],
                        c.key + c.size)
  {
    var c := cs[0];
    assert c in cs && forall d :: d in cs[1..] ==> d in cs;
    var gap := Gap(data, a, c.key);
    var next := done + gap + [Entry(c.key, CopyOf(c.size, c.addr))];
    forall d | d in cs[1..]
      ensures c.key <= d.key
    {
      var q :| 0 <= q < |cs[1..]| && cs[1..][q] == d;
      assert cs[q + 1] == d;
    }
    assert forall e :: e in next ==> e.key <= c.key;
    CoverFirst(data, all, done, cs, a);
  }

  lemma CoverFirst(data: seq<Byte>, all: seq<Copy>, done: seq<Entry>, cs: seq<Copy>, a: nat)
    requires cs != [] && a <= |data| && (forall c :: c in cs ==> c.key + c.size <= |data|)
             && (forall c :: c in all ==> c.key + c.size <= |data|)
    requires Pcodes(done) + Cover(data, cs, a) == Cover(data, all, 0)
    ensures cs[0].key <= |data| && forall c :: c in cs[1..] ==> c.key + c.size <= |data|
    ensures var c := cs[0];
            var next := done + Gap(data, a, c.key) + [Entry(c.key, CopyOf(c.size, c.addr))];
            Pcodes(next) + Cover(data, cs[1..], c.key + c.size) == Cover(data, all, 0)
  {
    hide Cover, Pcodes, Gap;
    CoverCons(data, cs, a);
    var c := cs[0];
    var gap := Gap(data, a, c.key);
    var rest := Cover(data, cs[1..], c.key + c.size);
    var one := [Entry(c.key, CopyOf(c.size, c.addr))];
    PcodesConcat(done, gap, one);
    Associative(Pcodes(done), Pcodes(gap), Pcodes(one), rest);
  }

  lemma PcodesConcat(a: seq<Entry>, b: seq<Entry>, c: seq<Entry>)
    ensures Pcodes(a + b + c) == Pcodes(a) + Pcodes(b) + Pcodes(c)
  {
  }

  lemma Associative(a: seq<Pcode>, b: seq<Pcode>, c: seq<Pcode>, d: seq<Pcode>)
    ensures a + b + c + d == a + (b + c + d)
  {
  }

  lemma CoverCons(data: seq<Byte>, cs: seq<Copy>, a: nat)
    requires cs != [] && a <= |data| && forall c :: c in cs ==> c.key + c.size <= |data|
    ensures cs[0].key <= |data| && forall c :: c in cs[1..] ==> c.key + c.size <= |data|
    ensures var c := cs[0];
            Cover(data, cs, a) == Pcodes(Gap(data, a, c.key)) + Pcodes([Entry(c.key, CopyOf(c.size, c.addr))])
                + Cover(data, cs[1..], c.key + c.size)
  {
    var c := cs[0];
    assert c in cs && forall d :: d in cs[1..] ==> d in cs;
    assert Pcodes(Gap(data, a, c.key)) == if a < c.key then [Add(data[a..c.key])] else [];
    assert Pcodes([Entry(c.key, CopyOf(c.size, c.addr))]) == [CopyOf(c.size, c.addr)];
  }

  /** One entry of the walk: a literal is inserted before it if there is a gap. */
  method LiteralStep(data: seq<Byte>, tree: Tree, a0: nat, node0: nat, ghost all: seq<Copy>, ghost done0: seq<Entry>,
                     ghost cs0: seq<Copy>)
    returns (a: nat, node: nat, ghost done: seq<Entry>, ghost cs: seq<Copy>)
    requires tree.nodes == done0 + Entries(cs0) && node0 == |done0| < |tree.nodes|
             && Covering(data, all, done0, cs0, a0)
    modifies tree
    ensures tree.nodes == done + Entries(cs) && node == |done| && Covering(data, all, done, cs, a) && |cs| < |cs0|
  {
    hide Place, Cover, InOrder, Covering, Pcodes, Entries, Gap;
    EntriesHead(cs0);
    CoveringKeys(data, all, done0, cs0, a0);
    CoveringStep(data, all, done0, cs0, a0);
    ghost var e, rest := Entries(cs0)[0], Entries(cs0[1..]);
    Shifted(done0, [], e, rest);
    var b := tree.nodes[node0].key;
    ghost var gap := Gap(data, a0, b);
    GapSize(data, a0, b);
    Shifted(done0, gap, e, rest);
    node := node0;
    if a0 < b {
      InsertGap(data, tree, a0, b, done0, Entries(cs0));
      node := node + 1;
    }
    var p := tree.nodes[node].p;
    a := b + p.size;
    node := node + 1;
    done := done0 + gap + [e];
    cs := cs0[1..];
  }

  lemma GapSize(data: seq<Byte>, a: nat, b: nat)
    requires a <= |data| && b <= |data|
    ensures Gap(data, a, b) == [] <==> a >= b
    ensures |Gap(data, a, b)| <= 1
  {
  }

  lemma Shifted(done: seq<Entry>, gap: seq<Entry>, e: Entry, rest: seq<Entry>)
    ensures done + gap + ([e] + rest) == done + gap + [e] + rest
    ensures (done + gap + ([e] + rest))[|done| + |gap|] == e
    ensures gap == [] ==> done + gap + ([e] + rest) == done + ([e] + rest)
  {
  }

  /** Literals are inserted between the matches; their keys put them just there. */
  method Literals(data: seq<Byte>, tree: Tree, ghost all: seq<Copy>)
    requires tree.nodes == Entries(all) && InOrder(all)
    requires forall c :: c in all ==> c.size > 0 && c.key + c.size <= |data|
    modifies tree
    ensures Pcodes(tree.nodes) == Cover(data, all, 0)
  {
    hide Place, Cover, InOrder, Covering, Pcodes, Entries;
    var a: nat, node: nat := 0, 0;
    ghost var done, cs := [], all;
    CoveringStarts(data, all);
    while node < |tree.nodes|
      invariant tree.nodes == done + Entries(cs) && node == |done| && Covering(data, all, done, cs, a)
      decreases |cs|
    {
      a, node, done, cs := LiteralStep(data, tree, a, node, all, done, cs);
    }
    CoveringKeys(data, all, done, cs, a);
    CoveringEnds(data, all, done, cs, a);
    if a < |data| {
      PlaceBetween(done, [], a);
      assert done + [] == done;
      tree.Insert(Entry(a, Add(data[a..])));
      assert tree.nodes == done + [Entry(a, Add(data[a..]))];
    }
  }

  method InsertGap(data: seq<Byte>, tree: Tree, a: nat, b: nat, ghost done: seq<Entry>, ghost rest: seq<Entry>)
    requires a < b <= |data| && tree.nodes == done + rest && rest != [] && rest[0].key == b
    requires forall e :: e in done ==> e.key <= a
    modifies tree
    ensures tree.nodes == done + Gap(data, a, b) + rest
  {
    PlaceBetween(done, rest, a);
    tree.Insert(Entry(a, Add(data[a..b])));
  }

  lemma EntriesHead(cs: seq<Copy>)
    ensures |Entries(cs)| == |cs|
    ensures cs != [] ==> Entries(cs) == [Entry(cs[0].key, CopyOf(cs[0].size, cs[0].addr))] + Entries(cs[1..])
  {
  }

  lemma CoveringStarts(data: seq<Byte>, all: seq<Copy>)
    requires InOrder(all) && forall c :: c in all ==> c.size > 0 && c.key + c.size <= |data|
    ensures Covering(data, all, [], all, 0)
  {
    assert Pcodes([]) + Cover(data, all, 0) == Cover(data, all, 0);
  }

  lemma CoveringKeys(data: seq<Byte>, all: seq<Copy>, done: seq<Entry>, cs: seq<Copy>, a: nat)
    requires Covering(data, all, done, cs, a)
    ensures a <= |data| && forall e :: e in done ==> e.key <= a
    ensures cs != [] ==> cs[0].key <= |data|
  {
    assert cs != [] ==> cs[0] in cs;
  }

  lemma CoveringEnds(data: seq<Byte>, all: seq<Copy>, done: seq<Entry>, cs: seq<Copy>, a: nat)
    requires Covering(data, all, done, cs, a) && |Entries(cs)| == 0
    ensures forall c :: c in all ==> c.key + c.size <= |data|
    ensures Pcodes(if a < |data| then done + [Entry(a, Add(data[a..]))] else done) == Cover(data, all, 0)
  {
    CoverLast(data, a);
    assert cs == [];
    assert Pcodes(done + [Entry(a, Add(data[if a < |data| then a else 0..]))])
        == Pcodes(done) + [Add(data[if a < |data| then a else 0..])];
  }

  lemma CoverLast(data: seq<Byte>, a: nat)
    ensures Cover(data, [], a) == if a < |data| then [Add(data[a..])] else []
  {
  }

  /** The whole compression. */
  method Contract(rh: RollingHash) returns (script: seq<Pcode>)
    requires 0 < rh.window <= |rh.data|
    modifies rh
    ensures script == Script(rh.data, rh.window)
  {
    var tree := new Tree();
    ghost var cs := FindCopies(rh, tree);
    OrderedInOrder([], Copies(rh.data, rh.window, 1));
    Literals(rh.data, tree, cs);
    return Pcodes(tree.nodes);
  }

  // ---------- expansion ----------

  /** Every copy reads within its source, or within the result when there is none. */
  ghost predicate Readable(source: seq<Byte>, own: bool, ps: seq<Pcode>) {
    forall p :: p in ps && p.CopyOf? ==> p.addr + p.size <= if own then Total(ps) else |source|
  }

  lemma {:induction false} TotalMember(ps: seq<Pcode>, i: nat)
    requires i < |ps|
    ensures SizeOf(ps[i]) + Total(ps[..i]) + Total(ps[i + 1..]) == Total(ps)
  {
    assert ps == ps[..i] + ([ps[i]] + ps[i + 1..]);
    TotalConcat(ps[..i], [ps[i]] + ps[i + 1..]);
    assert ([ps[i]] + ps[i + 1..])[1..] == ps[i + 1..];
  }

  /** The result holds out, and zeros after it. */
  ghost predicate HoldsPrefix(result: seq<Byte>, out: seq<Byte>) {
    && |out| <= |result| && (forall x :: 0 <= x < |out| ==> result[x] == out[x])
    && (forall x :: |out| <= x < |result| ==> result[x] == 0)
  }

  lemma {:induction false} PrefixPadded(result: seq<Byte>, out: seq<Byte>)
    requires HoldsPrefix(result, out)
    ensures result == Padded(out, |result|)
    decreases |result| - |out|
  {
    if |out| < |result| {
      PrefixPadded(result, out + [0]);
    }
  }

  method ExpandCopy(result: array<Byte>, source: seq<Byte>, own: bool, n: nat, size: nat, addr: nat,
                    ghost out: seq<Byte>)
    requires HoldsPrefix(result[..], out) && n == |out| && n + size <= result.Length
    requires addr + size <= if own then result.Length else |source|
    modifies result
    ensures HoldsPrefix(result[..], CopyBytes(source, own, out, size, addr))
  {
    ghost var now: seq<Byte> := out;
    for i := 0 to size
      invariant HoldsPrefix(result[..], now) && |now| == n + i
      invariant CopyBytes(source, own, now, size - i, addr + i) == CopyBytes(source, own, out, size, addr)
    {
      ghost var b := if own then ByteAt(now, addr + i) else ByteAt(source, addr + i);
      result[n + i] := if own then result[addr + i] else source[addr + i];
      now := now + [b];
    }
  }

  method ExpandRun(result: array<Byte>, n: nat, size: nat, b: Byte, ghost out: seq<Byte>)
    requires HoldsPrefix(result[..], out) && n == |out| && n + size <= result.Length
    modifies result
    ensures HoldsPrefix(result[..], RunOf(out, size, b))
  {
    ghost var now: seq<Byte> := out;
    for i := 0 to size
      invariant HoldsPrefix(result[..], now) && |now| == n + i
      invariant RunOf(now, size - i, b) == RunOf(out, size, b)
    {
      result[n + i] := b;
      now := now + [b];
    }
  }

  method ExpandAdd(result: array<Byte>, n: nat, data: seq<Byte>, ghost out: seq<Byte>)
    requires HoldsPrefix(result[..], out) && n == |out| && n + |data| <= result.Length
    modifies result
    ensures HoldsPrefix(result[..], out + data)
  {
    for i := 0 to |data|
      invariant HoldsPrefix(result[..], out + data[..i])
    {
      assert data[..i + 1] == data[..i] + [data[i]];
      result[n + i] := data[i];
    }
    assert data[..|data|] == data;
  }

  /** Executes one instruction. */
  method ExpandOne(result: array<Byte>, source: seq<Byte>, own: bool, n: nat, p: Pcode, ghost out: seq<Byte>)
    returns (end: nat, ghost next: seq<Byte>)
    requires HoldsPrefix(result[..], out) && n == |out| && n + SizeOf(p) <= result.Length
    requires p.CopyOf? ==> p.addr + p.size <= if own then result.Length else |source|
    modifies result
    ensures next == Apply(source, own, out, p) && HoldsPrefix(result[..], next) && end == |next| <= n + SizeOf(p)
  {
    next := Apply(source, own, out, p);
    end := n;
    match p {
      case Noop(_) =>
      case Add(d) =>
        ExpandAdd(result, n, d, out);
        end := n + |d|;
      case Run(m, b) =>
        RunLength(out, m, b);
        ExpandRun(result, n, m, b, out);
        end := n + m;
      case CopyOf(m, addr) =>
        CopyLength(source, own, out, m, addr);
        ExpandCopy(result, source, own, n, m, addr, out);
        end := n + m;
    }
  }

  lemma TotalNext(ps: seq<Pcode>, p: nat)
    requires p < |ps|
    ensures Total(ps[..p + 1]) == Total(ps[..p]) + SizeOf(ps[p]) <= Total(ps)
  {
    TotalMember(ps, p);
    TotalMember(ps[..p + 1], p);
    assert ps[..p + 1][..p] == ps[..p] && ps[..p + 1][p + 1..] == [];
  }

  lemma ApplyNext(source: seq<Byte>, own: bool, out: seq<Byte>, ps: seq<Pcode>, p: nat)
    requires p < |ps|
    ensures ApplyAll(source, own, out, ps[p..]) == ApplyAll(source, own, Apply(source, own, out, ps[p]), ps[p + 1..])
  {
    hide Apply;
    assert ps[p..][1..] == ps[p + 1..];
  }

  lemma ApplyDone(source: seq<Byte>, own: bool, out: seq<Byte>)
    ensures ApplyAll(source, own, out, []) == out
  {
  }

  method SumSizes(ps: seq<Pcode>) returns (s: nat)
    ensures s == Total(ps)
  {
    hide Total;
    s := 0;
    assert ps[..0] == [];
    NothingTotal();
    for p := 0 to |ps|
      invariant s == Total(ps[..p])
    {
      TotalNext(ps, p);
      s := s + SizeOf(ps[p]);
    }
    assert ps[..|ps|] == ps;
  }

  lemma NothingTotal()
    ensures Total([]) == 0
  {
  }

  lemma NothingHeld(result: seq<Byte>)
    requires forall x :: 0 <= x < |result| ==> result[x] == 0
    ensures HoldsPrefix(result, [])
  {
  }

  /** Executes a script; without a source the copies read the result itself. */
  method Expand(source: seq<Byte>, own: bool, ps: seq<Pcode>) returns (result: array<Byte>)
    requires Readable(source, own, ps)
    ensures fresh(result) && result[..] == Expanded(source, own, ps)
  {
    hide Total, ApplyAll, Apply, HoldsPrefix, Padded;
    var s := SumSizes(ps);
    result := new Byte[s](_ => 0);
    var n := 0;
    ghost var out: seq<Byte> := [];
    NothingHeld(result[..]);
    NothingTotal();
    assert ps[..0] == [] && ps[0..] == ps;
    for p := 0 to |ps|
      invariant fresh(result) && result.Length == s == Total(ps)
      invariant HoldsPrefix(result[..], out) && n == |out| <= Total(ps[..p])
      invariant ApplyAll(source, own, out, ps[p..]) == ApplyAll(source, own, [], ps)
    {
      TotalNext(ps, p);
      ApplyNext(source, own, out, ps, p);
      assert ps[p] in ps;
      n, out := ExpandOne(result, source, own, n, ps[p], out);
    }
    assert ps[|ps|..] == [];
    ApplyDone(source, own, out);
    PrefixPadded(result[..], out);
  }

  /** The script of a compression can always be expanded: its copies stay within the result. */
  lemma {:induction false} ScriptReadable(data: seq<Byte>, w: nat)
    requires 0 < w
    ensures Readable([], true, Script(data, w))
  {
    var cs := Ordered([], Copies(data, w, 1));
    OrderedInOrder([], Copies(data, w, 1));
    CoverTotal(data, cs, 0);
    CoverCopies(data, cs, 0);
  }

  lemma {:induction false} CoverCopies(data: seq<Byte>, cs: seq<Copy>, a: nat)
    requires (forall c :: c in cs ==> Matches(data, c)) && forall c :: c in cs ==> c.key + c.size <= |data|
    ensures forall p :: p in Cover(data, cs, a) && p.CopyOf? ==> p.addr + p.size <= |data|
    decreases |cs|
  {
    if cs != [] {
      var c := cs[0];
      assert c in cs && forall d :: d in cs[1..] ==> d in cs;
      CoverCopies(data, cs[1..], c.key + c.size);
    }
  }
}
