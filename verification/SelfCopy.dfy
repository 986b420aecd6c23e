/** What the self-copy compressor computes, without hashes: earlier matches of windows, and the script that covers
    the data with them; and what the expander makes of a script. */
module SelfCopy {
  import opened Words
  import opened Options

  /** A match inserted into the ordered tree: data[key..key + size] repeats data[addr..addr + size]. */
  datatype Copy = Copy(key: nat, size: nat, addr: nat)

  datatype Pcode =
    | Noop(size: nat)
    | Add(data: seq<Byte>)
    | Run(size: nat, byte: Byte)
    | CopyOf(size: nat, addr: nat)

  // ---------- matches ----------

  /** The match is true: an earlier place holds the same bytes. */
  ghost predicate Matches(data: seq<Byte>, c: Copy) {
    && c.size > 0 && c.addr < c.key && c.key + c.size <= |data|
    && forall p :: c.key <= p < c.key + c.size ==> data[p - (c.key - c.addr)] == data[p]
  }

  /** The window at b ends before i and equals the window at i. */
  predicate Equal(data: seq<Byte>, w: nat, i: nat, b: nat) {
    b + w <= i && i + w <= |data| && data[b..b + w] == data[i..i + w]
  }

  /** The j-th block lies before i and equals the window at i. */
  predicate SameBlock(data: seq<Byte>, w: nat, i: nat, j: nat) {
    Equal(data, w, i, j * w)
  }

  /** The first aligned block before i, counted from k on, that equals the window at i; i / w if there is none. */
  function FirstBlock(data: seq<Byte>, w: nat, i: nat, k: nat): (r: nat)
    requires 0 < w && i + w <= |data| && k <= i / w
    ensures k <= r <= i / w
    ensures r < i / w ==> Equal(data, w, i, r * w)
    ensures forall j :: k <= j < r ==> !SameBlock(data, w, i, j)
    decreases i / w - k
  {
    if k == i / w then k
    else
      BlockBefore(w, i, k);
      if data[k * w..k * w + w] == data[i..i + w] then k else FirstBlock(data, w, i, k + 1)
  }

  lemma BlockBefore(w: nat, i: nat, k: nat)
    requires 0 < w && k < i / w
    ensures 0 <= k * w && k * w + w <= i
  {
    var q := i / w;
    assert q * w <= i;
    Product(q - k - 1, w);
    assert (q - k - 1) * w == q * w - (k + 1) * w;
    assert (k + 1) * w == k * w + w;
    Product(k, w);
  }

  lemma Product(a: nat, b: nat)
    ensures a * b >= 0
  {
  }

  /** The match at distance m reaches back from p to here. */
  function Start(data: seq<Byte>, m: nat, p: nat): (r: nat)
    requires m <= p <= |data|
    ensures m <= r <= p && forall q :: r <= q < p ==> data[q - m] == data[q]
    ensures r == m || data[r - 1 - m] != data[r - 1]
  {
    if p >= m + 1 && data[p - 1 - m] == data[p - 1] then Start(data, m, p - 1) else p
  }

  /** The match at distance m reaches on from q to here. */
  function End(data: seq<Byte>, m: nat, q: nat): (r: nat)
    requires m <= q <= |data|
    ensures q <= r <= |data| && forall p :: q <= p < r ==> data[p - m] == data[p]
    ensures r == |data| || data[r - m] != data[r]
    decreases |data| - q
  {
    if q < |data| && data[q - m] == data[q] then End(data, m, q + 1) else q
  }

  /** The match found at i with the block at b. */
  function MatchAt(data: seq<Byte>, w: nat, i: nat, b: nat): (c: Copy)
    requires 0 < w && Equal(data, w, i, b)
    ensures Matches(data, c) && c.key <= i && i + w <= c.key + c.size
  {
    SameWindow(data, w, i, b);
    var m := i - b;
    var s, e := Start(data, m, i), End(data, m, i + w);
    Copy(s, e - s, s - m)
  }

  lemma SameWindow(data: seq<Byte>, w: nat, i: nat, b: nat)
    requires Equal(data, w, i, b)
    ensures forall p :: i <= p < i + w ==> data[p - (i - b)] == data[p]
  {
    forall p | i <= p < i + w
      ensures data[p - (i - b)] == data[p]
    {
      assert data[b..b + w][p - i] == data[i..i + w][p - i];
    }
  }

  /** The match of the window at i with the first earlier block that equals it. */
  function MatchOf(data: seq<Byte>, w: nat, i: nat): (m: Option<Copy>)
    requires 0 < w && i + w <= |data|
    ensures m.Some? ==> Matches(data, m.value) && m.value.key <= i && i + w <= m.value.key + m.value.size
  {
    var k := FirstBlock(data, w, i, 0);
    if k == i / w then None else Some(MatchAt(data, w, i, k * w))
  }

  /** All matches, in the order of discovery: each search goes on one window before the end of the match found. */
  function Copies(data: seq<Byte>, w: nat, i: nat): (cs: seq<Copy>)
    requires 0 < w
    ensures forall c :: c in cs ==> Matches(data, c)
    decreases |data| - i
  {
    if i + w > |data| then []
    else
      match MatchOf(data, w, i)
      case None => Copies(data, w, i + 1)
      case Some(c) => [c] + Copies(data, w, c.key + c.size - w + 1)
  }

  // ---------- what the matches are ----------

  /** The match cannot be extended: it ends with the data or before a byte that differs, and it begins with the data it
      repeats or after a byte that differs. */
  predicate Maximal(data: seq<Byte>, c: Copy)
    requires c.addr <= c.key && c.key + c.size <= |data|
  {
    && (c.key + c.size == |data| || data[c.addr + c.size] != data[c.key + c.size])
    && (c.addr == 0 || data[c.addr - 1] != data[c.key - 1])
  }

  lemma MatchMaximal(data: seq<Byte>, w: nat, i: nat)
    requires 0 < w && i + w <= |data| && MatchOf(data, w, i).Some?
    ensures var c := MatchOf(data, w, i).value; Matches(data, c) && Maximal(data, c)
  {
    hide FirstBlock, Start, End;
  }

  /** No match of the compression can be extended on either side. */
  lemma {:induction false} CopiesMaximal(data: seq<Byte>, w: nat, i: nat, c: Copy)
    requires 0 < w && c in Copies(data, w, i)
    ensures Matches(data, c) && Maximal(data, c)
    decreases |data| - i
  {
    hide MatchOf, Matches, Maximal;
    match MatchOf(data, w, i)
    case None => CopiesMaximal(data, w, i + 1, c);
    case Some(d) =>
      MatchMaximal(data, w, i);
      MatchOfAhead(data, w, i);
      if c != d {
        CopiesMaximal(data, w, d.key + d.size - w + 1, c);
      }
  }

  lemma MatchOfAhead(data: seq<Byte>, w: nat, i: nat)
    requires 0 < w && i + w <= |data| && MatchOf(data, w, i).Some?
    ensures var c := MatchOf(data, w, i).value; c.key <= i && i + w <= c.key + c.size <= |data|
  {
  }

  /** Some earlier block equals the window at i. */
  ghost predicate Repeats(data: seq<Byte>, w: nat, i: nat)
    requires 0 < w
  {
    exists j :: 0 <= j < i / w && SameBlock(data, w, i, j)
  }

  /** A window that equals an earlier block lies within some match: none is missed. */
  lemma {:induction false} NoneMissed(data: seq<Byte>, w: nat, from: nat, i: nat)
    requires 0 < w && from <= i && i + w <= |data| && Repeats(data, w, i)
    ensures exists c :: c in Copies(data, w, from) && c.key <= i && i + w <= c.key + c.size
    decreases |data| - from
  {
    hide MatchOf, Matches, Repeats, Copies;
    CopiesNext(data, w, from);
    match MatchOf(data, w, from)
    case None =>
      if from == i {
        MatchThere(data, w, i);
      } else {
        NoneMissed(data, w, from + 1, i);
      }
    case Some(c) =>
      MatchOfAhead(data, w, from);
      assert c in Copies(data, w, from);
      if i >= c.key + c.size - w + 1 {
        NoneMissed(data, w, c.key + c.size - w + 1, i);
      }
  }

  lemma MatchThere(data: seq<Byte>, w: nat, i: nat)
    requires 0 < w && i + w <= |data|
    ensures MatchOf(data, w, i).Some? <==> Repeats(data, w, i)
  {
    hide FirstBlock, MatchAt;
    var k := FirstBlock(data, w, i, 0);
    assert k < i / w ==> SameBlock(data, w, i, k);
  }

  /** c is the match of the window at i with the first earlier block that equals it, extended as far as it goes. */
  ghost predicate MatchOfFirst(data: seq<Byte>, w: nat, i: nat, c: Copy)
    requires 0 < w
  {
    && Matches(data, c) && Maximal(data, c) && c.key <= i && i + w <= c.key + c.size
    && exists j :: 0 <= j < i / w && SameBlock(data, w, i, j) && c.key - c.addr == i - j * w
                   && forall l :: 0 <= l < j ==> !SameBlock(data, w, i, l)
  }

  lemma MatchFirst(data: seq<Byte>, w: nat, i: nat)
    requires 0 < w && i + w <= |data| && MatchOf(data, w, i).Some?
    ensures MatchOfFirst(data, w, i, MatchOf(data, w, i).value)
  {
    hide FirstBlock, Start, End, Matches, Maximal;
    MatchMaximal(data, w, i);
    MatchOfAhead(data, w, i);
    var k := FirstBlock(data, w, i, 0);
    assert SameBlock(data, w, i, k);
  }

  /** Where the search for the k-th match begins: one window before the end of the match before. */
  function SearchFrom(cs: seq<Copy>, w: nat, from: nat, k: nat): int
    requires k <= |cs|
  {
    if k == 0 then from else cs[k - 1].key + cs[k - 1].size - w + 1
  }

  /** From where it begins, each search takes the match of the first window that repeats, and the last finds none. */
  ghost predicate Searched(data: seq<Byte>, w: nat, from: nat, cs: seq<Copy>, at: seq<nat>)
    requires 0 < w
  {
    && |at| == |cs|
    && (forall k :: 0 <= k < |cs| ==> MatchOfFirst(data, w, at[k], cs[k]) && SearchFrom(cs, w, from, k) <= at[k])
    && (forall k, i: nat :: 0 <= k < |cs| && SearchFrom(cs, w, from, k) <= i < at[k] ==> !Repeats(data, w, i))
    && (forall i: nat :: SearchFrom(cs, w, from, |cs|) <= i && i + w <= |data| ==> !Repeats(data, w, i))
  }

  /** The matches are exactly those of the windows that the searches stop at. */
  lemma {:induction false} CopiesFound(data: seq<Byte>, w: nat, from: nat) returns (at: seq<nat>)
    requires 0 < w
    ensures Searched(data, w, from, Copies(data, w, from), at)
    decreases |data| - from
  {
    hide Copies, MatchOf, MatchOfFirst, Repeats, Searched;
    if from + w > |data| {
      at := [];
      SearchedNone(data, w, from);
    } else {
      CopiesNext(data, w, from);
      MatchThere(data, w, from);
      match MatchOf(data, w, from)
      case None =>
        at := CopiesFound(data, w, from + 1);
        SearchedEarlier(data, w, from, Copies(data, w, from + 1), at);
      case Some(c) =>
        MatchOfAhead(data, w, from);
        MatchFirst(data, w, from);
        at := CopiesFound(data, w, c.key + c.size - w + 1);
        SearchedMore(data, w, from, c, Copies(data, w, c.key + c.size - w + 1), at);
        at := [from] + at;
    }
  }

  lemma SearchedNone(data: seq<Byte>, w: nat, from: nat)
    requires 0 < w && from + w > |data|
    ensures Searched(data, w, from, Copies(data, w, from), [])
  {
    assert Copies(data, w, from) == [];
  }

  lemma SearchedEarlier(data: seq<Byte>, w: nat, from: nat, cs: seq<Copy>, at: seq<nat>)
    requires 0 < w && Searched(data, w, from + 1, cs, at) && !Repeats(data, w, from)
    ensures Searched(data, w, from, cs, at)
  {
    hide MatchOfFirst, Repeats;
  }

  lemma SearchedMore(data: seq<Byte>, w: nat, from: nat, c: Copy, cs: seq<Copy>, at: seq<nat>)
    requires 0 < w && MatchOfFirst(data, w, from, c) && w <= c.key + c.size
    requires Searched(data, w, c.key + c.size - w + 1, cs, at)
    ensures Searched(data, w, from, [c] + cs, [from] + at)
  {
    hide MatchOfFirst, Repeats;
    var ds, bt := [c] + cs, [from] + at;
    forall k | 0 <= k < |ds|
      ensures MatchOfFirst(data, w, bt[k], ds[k]) && SearchFrom(ds, w, from, k) <= bt[k]
      ensures forall i: nat :: SearchFrom(ds, w, from, k) <= i < bt[k] ==> !Repeats(data, w, i)
    {
      if k > 0 {
        SearchFromMore(c, cs, w, from, k);
        assert bt[k] == at[k - 1] && ds[k] == cs[k - 1];
      }
    }
    SearchFromMore(c, cs, w, from, |ds|);
  }

  lemma SearchFromMore(c: Copy, cs: seq<Copy>, w: nat, from: nat, k: nat)
    requires 0 < k <= |cs| + 1 && w <= c.key + c.size
    ensures SearchFrom([c] + cs, w, from, k) == SearchFrom(cs, w, c.key + c.size - w + 1, k - 1)
  {
  }

  // ---------- the ordered tree ----------

  /** The place of a key in an ordered sequence of keys: after all that are not greater. */
  function Slot(keys: seq<nat>, key: nat): (p: nat)
    ensures p <= |keys|
  {
    if keys == [] || key < keys[0] then 0 else 1 + Slot(keys[1..], key)
  }

  lemma {:induction false} SlotPlace(keys: seq<nat>, key: nat)
    requires forall i, j :: 0 <= i < j < |keys| ==> keys[i] <= keys[j]
    ensures forall i :: 0 <= i < Slot(keys, key) ==> keys[i] <= key
    ensures forall i :: Slot(keys, key) <= i < |keys| ==> key < keys[i]
  {
    if keys != [] && key >= keys[0] {
      assert forall i :: 0 <= i < |keys| - 1 ==> keys[1..][i] == keys[i + 1];
      SlotPlace(keys[1..], key);
      assert forall i :: 1 <= i < |keys| ==> keys[i] == keys[1..][i - 1];
    }
  }

  /** A key that lies between those of two parts goes between them. */
  lemma {:induction false} SlotBetween(a: seq<nat>, b: seq<nat>, key: nat)
    requires (forall k :: k in a ==> k <= key) && (b != [] ==> key < b[0])
    ensures Slot(a + b, key) == |a|
  {
    if a == [] {
      assert a + b == b;
    } else {
      assert (a + b)[1..] == a[1..] + b && a[0] in a && forall k :: k in a[1..] ==> k in a;
      SlotBetween(a[1..], b, key);
    }
  }

  function Keys(cs: seq<Copy>): (ks: seq<nat>)
    ensures |ks| == |cs| && forall i :: 0 <= i < |cs| ==> ks[i] == cs[i].key
  {
    seq(|cs|, i requires 0 <= i < |cs| => cs[i].key)
  }

  function InsertCopy(cs: seq<Copy>, c: Copy): (r: seq<Copy>)
    ensures forall d :: d in r <==> d == c || d in cs
    ensures multiset(r) == multiset(cs) + multiset{c}
  {
    var p := Slot(Keys(cs), c.key);
    assert cs == cs[..p] + cs[p..];
    cs[..p] + [c] + cs[p..]
  }

  function Ordered(cs: seq<Copy>, more: seq<Copy>): seq<Copy>
    decreases |more|
  {
    if more == [] then cs else Ordered(InsertCopy(cs, more[0]), more[1..])
  }

  ghost predicate InOrder(cs: seq<Copy>) {
    forall i, j :: 0 <= i < j < |cs| ==> cs[i].key <= cs[j].key
  }

  lemma InsertInOrder(cs: seq<Copy>, c: Copy)
    requires InOrder(cs)
    ensures InOrder(InsertCopy(cs, c))
  {
    SlotPlace(Keys(cs), c.key);
  }

  lemma {:induction false} OrderedInOrder(cs: seq<Copy>, more: seq<Copy>)
    requires InOrder(cs)
    ensures InOrder(Ordered(cs, more))
    ensures forall c :: c in Ordered(cs, more) <==> c in cs || c in more
    decreases |more|
  {
    if more != [] {
      InsertInOrder(cs, more[0]);
      OrderedInOrder(InsertCopy(cs, more[0]), more[1..]);
      assert more == [more[0]] + more[1..];
    }
  }

  /** The ordered matches are the matches found, each as often. */
  lemma {:induction false} OrderedAll(cs: seq<Copy>, more: seq<Copy>)
    ensures multiset(Ordered(cs, more)) == multiset(cs) + multiset(more)
    decreases |more|
  {
    hide InsertCopy;
    if more != [] {
      OrderedAll(InsertCopy(cs, more[0]), more[1..]);
      assert more == [more[0]] + more[1..];
    }
  }

  // ---------- the script ----------

  /** Covers data[a..] with the matches in order of their keys, and with literals between them. */
  function Cover(data: seq<Byte>, cs: seq<Copy>, a: nat): seq<Pcode>
    requires forall c :: c in cs ==> c.key + c.size <= |data|
    decreases |cs|
  {
    if cs == [] then if a < |data| then [Add(data[a..])] else []
    else
      var c := cs[0];
      (if a < c.key then [Add(data[a..c.key])] else []) + [CopyOf(c.size, c.addr)]
          + Cover(data, cs[1..], c.key + c.size)
  }

  /** No match begins before the one ahead of it has ended. */
  predicate Disjoint(cs: seq<Copy>, a: nat) {
    cs == [] || (a <= cs[0].key && Disjoint(cs[1..], cs[0].key + cs[0].size))
  }

  function Script(data: seq<Byte>, w: nat): seq<Pcode>
    requires 0 < w
  {
    OrderedInOrder([], Copies(data, w, 1));
    Cover(data, Ordered([], Copies(data, w, 1)), 0)
  }

  /** The COPY instructions of a script, in order. */
  function OnlyCopies(ps: seq<Pcode>): seq<Pcode> {
    if ps == [] then [] else (if ps[0].CopyOf? then [ps[0]] else []) + OnlyCopies(ps[1..])
  }

  /** Where the j-th gap between the matches begins and ends. */
  function GapStart(cs: seq<Copy>, a: nat, j: nat): nat
    requires j <= |cs|
  {
    if j == 0 then a else cs[j - 1].key + cs[j - 1].size
  }

  function GapEnd(data: seq<Byte>, cs: seq<Copy>, j: nat): nat
    requires j <= |cs|
  {
    if j == |cs| then |data| else cs[j].key
  }

  /** The instruction at p of the cover is the j-th match, right behind the literal of the j-th gap if there is one; or
      it is that literal. */
  predicate InPlace(data: seq<Byte>, cs: seq<Copy>, a: nat, ps: seq<Pcode>, p: nat, j: nat)
    requires p < |ps| && j <= |cs| && forall c :: c in cs ==> c.key + c.size <= |data|
  {
    var lo, hi := GapStart(cs, a, j), GapEnd(data, cs, j);
    match ps[p]
    case Add(d) => lo < hi <= |data| && d == data[lo..hi] && (p + 1 < |ps| <==> j < |cs|)
    case CopyOf(n, addr) => j < |cs| && n == cs[j].size && addr == cs[j].addr && (lo < hi <==> p > 0 && ps[p - 1].Add?)
    case _ => false
  }

  lemma CoverUnfold(data: seq<Byte>, cs: seq<Copy>, a: nat)
    requires (forall c :: c in cs ==> c.key + c.size <= |data|) && cs != []
    ensures cs[0] in cs && (forall c :: c in cs[1..] ==> c in cs)
    ensures Cover(data, cs, a) == (if a < cs[0].key then [Add(data[a..cs[0].key])] else [])
                                  + ([CopyOf(cs[0].size, cs[0].addr)] + Cover(data, cs[1..], cs[0].key + cs[0].size))
  {
  }

  /** The matches are all there, in order of their keys. */
  lemma {:induction false} CoverMatches(data: seq<Byte>, cs: seq<Copy>, a: nat)
    requires forall c :: c in cs ==> c.key + c.size <= |data|
    ensures var ps := OnlyCopies(Cover(data, cs, a));
            |ps| == |cs| && forall j :: 0 <= j < |cs| ==> ps[j] == CopyOf(cs[j].size, cs[j].addr)
    decreases |cs|
  {
    hide Cover;
    if cs == [] {
      CoverNone(data, a);
    } else {
      CoverUnfold(data, cs, a);
      var c, more := CopyOf(cs[0].size, cs[0].addr), Cover(data, cs[1..], cs[0].key + cs[0].size);
      CoverMatches(data, cs[1..], cs[0].key + cs[0].size);
      assert ([c] + more)[1..] == more;
      assert OnlyCopies([c] + more) == [c] + OnlyCopies(more);
      if a < cs[0].key {
        var l := Add(data[a..cs[0].key]);
        assert ([l] + ([c] + more))[1..] == [c] + more;
        assert [] + OnlyCopies([c] + more) == OnlyCopies([c] + more);
      } else {
        assert [] + ([c] + more) == [c] + more;
      }
    }
  }

  lemma CoverNone(data: seq<Byte>, a: nat)
    ensures Cover(data, [], a) == if a < |data| then [Add(data[a..])] else []
    ensures OnlyCopies(Cover(data, [], a)) == []
  {
  }

  /** How many COPY instructions come before p. */
  function CopiesBefore(ps: seq<Pcode>, p: nat): nat
    requires p <= |ps|
    decreases p
  {
    if p == 0 then 0 else (if ps[0].CopyOf? then 1 else 0) + CopiesBefore(ps[1..], p - 1)
  }

  lemma CopiesBehind(x: Pcode, more: seq<Pcode>, p: nat)
    requires p <= |more|
    ensures CopiesBefore([x] + more, p + 1) == (if x.CopyOf? then 1 else 0) + CopiesBefore(more, p)
  {
    assert ([x] + more)[1..] == more;
  }

  /** What is in place in the cover of the later matches is in place behind the first one. */
  lemma InPlaceBehind(data: seq<Byte>, cs: seq<Copy>, a: nat, front: seq<Pcode>, more: seq<Pcode>, p: nat, j: nat)
    requires (forall c :: c in cs ==> c.key + c.size <= |data|) && cs != [] && p < |more| && j <= |cs| - 1
    requires (forall c :: c in cs[1..] ==> c in cs) && front != [] && front[|front| - 1].CopyOf?
    requires InPlace(data, cs[1..], cs[0].key + cs[0].size, more, p, j)
    ensures InPlace(data, cs, a, front + more, |front| + p, j + 1)
  {
    var ps := front + more;
    assert ps[|front| + p] == more[p];
    assert p > 0 ==> ps[|front| + p - 1] == more[p - 1];
    assert p == 0 ==> ps[|front| + p - 1] == front[|front| - 1];
  }

  /** Every instruction of a cover is in its place, and a literal ends it exactly if there is a gap at the end. */
  lemma {:induction false} CoverInPlace(data: seq<Byte>, cs: seq<Copy>, a: nat)
    requires forall c :: c in cs ==> c.key + c.size <= |data|
    ensures var ps := Cover(data, cs, a);
            && (forall p :: 0 <= p < |ps| ==> CopiesBefore(ps, p) <= |cs|
                                                && InPlace(data, cs, a, ps, p, CopiesBefore(ps, p)))
            && (GapStart(cs, a, |cs|) < |data| <==> ps != [] && ps[|ps| - 1].Add?)
    decreases |cs|
  {
    hide Cover, InPlace;
    var ps := Cover(data, cs, a);
    if cs == [] {
      LastInPlace(data, a);
    } else {
      CoverUnfold(data, cs, a);
      var a' := cs[0].key + cs[0].size;
      var c, more := CopyOf(cs[0].size, cs[0].addr), Cover(data, cs[1..], a');
      CoverInPlace(data, cs[1..], a');
      var gap := if a < cs[0].key then [Add(data[a..cs[0].key])] else [];
      assert ps == (gap + [c]) + more;
      FrontInPlace(data, cs, a, more);
      BehindInPlace(data, cs, a, gap, c, more);
      assert more != [] ==> ps[|ps| - 1] == more[|more| - 1];
      assert more == [] ==> ps[|ps| - 1] == c;
    }
  }

  lemma BehindInPlace(data: seq<Byte>, cs: seq<Copy>, a: nat, gap: seq<Pcode>, c: Pcode, more: seq<Pcode>)
    requires (forall d :: d in cs ==> d.key + d.size <= |data|) && cs != [] && (forall d :: d in cs[1..] ==> d in cs)
    requires |gap| <= 1 && (forall g :: g in gap ==> g.Add?) && c.CopyOf?
    requires forall p :: 0 <= p < |more|
                         ==> CopiesBefore(more, p) <= |cs| - 1
                             && InPlace(data, cs[1..], cs[0].key + cs[0].size, more, p, CopiesBefore(more, p))
    ensures var ps := gap + [c] + more;
            forall p :: |gap| + 1 <= p < |ps|
                        ==> CopiesBefore(ps, p) <= |cs| && InPlace(data, cs, a, ps, p, CopiesBefore(ps, p))
  {
    hide InPlace;
    var ps := gap + [c] + more;
    forall p | |gap| + 1 <= p < |ps|
      ensures CopiesBefore(ps, p) <= |cs| && InPlace(data, cs, a, ps, p, CopiesBefore(ps, p))
    {
      var q := p - |gap| - 1;
      BehindFront(gap, c, more, q);
      InPlaceBehind(data, cs, a, gap + [c], more, q, CopiesBefore(more, q));
    }
  }

  lemma BehindFront(gap: seq<Pcode>, c: Pcode, more: seq<Pcode>, q: nat)
    requires |gap| <= 1 && (forall g :: g in gap ==> g.Add?) && c.CopyOf? && q <= |more|
    ensures CopiesBefore(gap + [c] + more, |gap| + 1 + q) == 1 + CopiesBefore(more, q)
  {
    CopiesBehind(c, more, q);
    if gap == [] {
      assert gap + [c] + more == [c] + more;
    } else {
      assert gap[0] in gap && gap + [c] + more == [gap[0]] + ([c] + more);
      CopiesBehind(gap[0], [c] + more, q + 1);
    }
  }

  lemma LastInPlace(data: seq<Byte>, a: nat)
    ensures var ps := Cover(data, [], a);
            && (forall p :: 0 <= p < |ps| ==> CopiesBefore(ps, p) <= 0
                                                && InPlace(data, [], a, ps, p, CopiesBefore(ps, p)))
            && (a < |data| <==> ps != [] && ps[|ps| - 1].Add?)
  {
  }

  /** The literal of the first gap, if any, and the first match. */
  lemma FrontInPlace(data: seq<Byte>, cs: seq<Copy>, a: nat, more: seq<Pcode>)
    requires (forall c :: c in cs ==> c.key + c.size <= |data|) && cs != [] && cs[0] in cs
    ensures var gap := if a < cs[0].key then [Add(data[a..cs[0].key])] else [];
            var ps := gap + [CopyOf(cs[0].size, cs[0].addr)] + more;
            forall p :: 0 <= p <= |gap| ==> CopiesBefore(ps, p) == 0 && InPlace(data, cs, a, ps, p, 0)
  {
    if a < cs[0].key {
      var l, c := Add(data[a..cs[0].key]), CopyOf(cs[0].size, cs[0].addr);
      assert [l] + [c] + more == [l] + ([c] + more);
      CopiesBehind(l, [c] + more, 0);
    }
  }

  // ---------- expansion ----------

  function SizeOf(p: Pcode): nat {
    match p
    case Noop(n) => n
    case Add(d) => |d|
    case Run(n, _) => n
    case CopyOf(n, _) => n
  }

  function Total(ps: seq<Pcode>): nat {
    if ps == [] then 0 else SizeOf(ps[0]) + Total(ps[1..])
  }

  /** What a byte of the result is when it is read: zero until it is written. */
  function ByteAt(out: seq<Byte>, x: nat): Byte {
    if x < |out| then out[x] else 0
  }

  function RunOf(out: seq<Byte>, n: nat, b: Byte): seq<Byte>
    decreases n
  {
    if n == 0 then out else RunOf(out + [b], n - 1, b)
  }

  /** Copies byte by byte from the source, or from the result itself when there is no source. */
  function CopyBytes(source: seq<Byte>, own: bool, out: seq<Byte>, n: nat, addr: nat): seq<Byte>
    decreases n
  {
    if n == 0 then out
    else CopyBytes(source, own, out + [if own then ByteAt(out, addr) else ByteAt(source, addr)], n - 1, addr + 1)
  }

  function Apply(source: seq<Byte>, own: bool, out: seq<Byte>, p: Pcode): seq<Byte> {
    match p
    case Noop(_) => out
    case Add(d) => out + d
    case Run(n, b) => RunOf(out, n, b)
    case CopyOf(n, addr) => CopyBytes(source, own, out, n, addr)
  }

  function ApplyAll(source: seq<Byte>, own: bool, out: seq<Byte>, ps: seq<Pcode>): seq<Byte>
    decreases |ps|
  {
    if ps == [] then out else ApplyAll(source, own, Apply(source, own, out, ps[0]), ps[1..])
  }

  /** Bytes that no instruction writes stay zero. */
  function Padded(out: seq<Byte>, n: nat): (r: seq<Byte>)
    ensures |r| == if |out| < n then n else |out|
    decreases n - |out|
  {
    if |out| < n then Padded(out + [0], n) else out
  }

  function Expanded(source: seq<Byte>, own: bool, ps: seq<Pcode>): seq<Byte> {
    Padded(ApplyAll(source, own, [], ps), Total(ps))
  }

  lemma {:induction false} CopyTrue(data: seq<Byte>, c: Copy, t: nat)
    requires Matches(data, c) && t <= c.size
    ensures CopyBytes([], true, data[..c.key + t], c.size - t, c.addr + t) == data[..c.key + c.size]
    decreases c.size - t
  {
    if t < c.size {
      assert data[..c.key + t] + [data[c.key + t]] == data[..c.key + t + 1];
      assert data[..c.key + t][c.addr + t] == data[c.key + t];
      CopyTrue(data, c, t + 1);
    }
  }

  lemma {:induction false} ApplyConcat(source: seq<Byte>, own: bool, out: seq<Byte>, p: seq<Pcode>, q: seq<Pcode>)
    ensures ApplyAll(source, own, out, p + q) == ApplyAll(source, own, ApplyAll(source, own, out, p), q)
    decreases |p|
  {
    if p == [] {
      assert p + q == q;
    } else {
      assert (p + q)[1..] == p[1..] + q;
      ApplyConcat(source, own, Apply(source, own, out, p[0]), p[1..], q);
    }
  }

  lemma ApplyOne(source: seq<Byte>, own: bool, out: seq<Byte>, p: Pcode)
    ensures ApplyAll(source, own, out, [p]) == Apply(source, own, out, p)
  {
    assert [p][1..] == [];
  }

  /** A cover by true matches that do not overlap reproduces the data, self-overlapping copies included. */
  lemma {:induction false} CoverExpands(data: seq<Byte>, cs: seq<Copy>, a: nat)
    requires (forall c :: c in cs ==> c.key + c.size <= |data| && Matches(data, c)) && Disjoint(cs, a) && a <= |data|
    ensures ApplyAll([], true, data[..a], Cover(data, cs, a)) == data
    decreases |cs|
  {
    hide ApplyAll, Cover, CopyBytes, Matches;
    if cs == [] {
      CoverEnds(data, a);
    } else {
      var c := cs[0];
      assert c in cs && forall d :: d in cs[1..] ==> d in cs;
      CopyTrue(data, c, 0);
      assert data[..c.key + 0] == data[..c.key];
      CoverExpands(data, cs[1..], c.key + c.size);
      CoverStep(data, cs, a);
    }
  }

  lemma CoverEnds(data: seq<Byte>, a: nat)
    requires a <= |data|
    ensures ApplyAll([], true, data[..a], Cover(data, [], a)) == data
  {
    assert data[..a] + data[a..] == data;
    if a < |data| {
      ApplyOne([], true, data[..a], Add(data[a..]));
    }
  }

  lemma CoverStep(data: seq<Byte>, cs: seq<Copy>, a: nat)
    requires (forall c :: c in cs ==> c.key + c.size <= |data|) && cs != [] && a <= cs[0].key
    ensures forall c :: c in cs[1..] ==> c.key + c.size <= |data|
    ensures var c := cs[0];
            ApplyAll([], true, data[..a], Cover(data, cs, a))
            == ApplyAll([], true, CopyBytes([], true, data[..c.key], c.size, c.addr),
                        Cover(data, cs[1..], c.key + c.size))
  {
    var c := cs[0];
    assert c in cs && forall d :: d in cs[1..] ==> d in cs;
    var gap: seq<Pcode> := if a < c.key then [Add(data[a..c.key])] else [];
    var one, rest := [CopyOf(c.size, c.addr)], Cover(data, cs[1..], c.key + c.size);
    ApplyConcat([], true, data[..a], gap + one, rest);
    ApplyConcat([], true, data[..a], gap, one);
    assert ApplyAll([], true, data[..a], gap) == data[..c.key] by {
      if a < c.key {
        ApplyOne([], true, data[..a], Add(data[a..c.key]));
        assert data[..a] + data[a..c.key] == data[..c.key];
      }
    }
    ApplyOne([], true, data[..c.key], CopyOf(c.size, c.addr));
  }

  lemma {:induction false} TotalConcat(p: seq<Pcode>, q: seq<Pcode>)
    ensures Total(p + q) == Total(p) + Total(q)
  {
    if p == [] {
      assert p + q == q;
    } else {
      assert (p + q)[1..] == p[1..] + q;
      TotalConcat(p[1..], q);
    }
  }

  /** A cover is as long as the data exactly when its matches do not overlap; otherwise it is longer. */
  lemma {:induction false} CoverTotal(data: seq<Byte>, cs: seq<Copy>, a: nat)
    requires (forall c :: c in cs ==> c.key + c.size <= |data|) && a <= |data|
    ensures Total(Cover(data, cs, a)) >= |data| - a
    ensures Total(Cover(data, cs, a)) == |data| - a <==> Disjoint(cs, a)
    decreases |cs|
  {
    hide Cover, Total;
    if cs == [] {
      EndTotal(data, a);
    } else {
      var c := cs[0];
      assert c in cs && forall d :: d in cs[1..] ==> d in cs;
      CoverTotal(data, cs[1..], c.key + c.size);
      StepTotal(data, cs, a);
    }
  }

  lemma EndTotal(data: seq<Byte>, a: nat)
    requires a <= |data|
    ensures Total(Cover(data, [], a)) == |data| - a
  {
    if a < |data| {
      assert Total([Add(data[a..])]) == |data| - a + Total([]);
    }
  }

  lemma StepTotal(data: seq<Byte>, cs: seq<Copy>, a: nat)
    requires cs != [] && a <= |data| && forall c :: c in cs ==> c.key + c.size <= |data|
    ensures forall d :: d in cs[1..] ==> d.key + d.size <= |data|
    ensures var c := cs[0];
            Total(Cover(data, cs, a)) == (if a < c.key then c.key - a else 0) + c.size
                + Total(Cover(data, cs[1..], c.key + c.size))
  {
    assert cs[0] in cs && forall d :: d in cs[1..] ==> d in cs;
    HeadTotal(data, cs[0], a, Cover(data, cs[1..], cs[0].key + cs[0].size));
  }

  lemma HeadTotal(data: seq<Byte>, c: Copy, a: nat, rest: seq<Pcode>)
    requires a <= |data| && c.key + c.size <= |data|
    ensures Total((if a < c.key then [Add(data[a..c.key])] else []) + [CopyOf(c.size, c.addr)] + rest)
            == (if a < c.key then c.key - a else 0) + c.size + Total(rest)
  {
    var gap: seq<Pcode> := if a < c.key then [Add(data[a..c.key])] else [];
    var one := [CopyOf(c.size, c.addr)];
    TotalConcat(gap + one, rest);
    TotalConcat(gap, one);
    assert gap[if gap == [] then 0 else 1..] == [] && one[1..] == [];
  }

  lemma {:induction false} RunLength(out: seq<Byte>, n: nat, b: Byte)
    ensures |RunOf(out, n, b)| == |out| + n
    decreases n
  {
    if n > 0 {
      RunLength(out + [b], n - 1, b);
    }
  }

  lemma {:induction false} CopyLength(source: seq<Byte>, own: bool, out: seq<Byte>, n: nat, addr: nat)
    ensures |CopyBytes(source, own, out, n, addr)| == |out| + n
    decreases n
  {
    if n > 0 {
      CopyLength(source, own, out + [if own then ByteAt(out, addr) else ByteAt(source, addr)], n - 1, addr + 1);
    }
  }

  lemma {:induction false} ApplyLength(source: seq<Byte>, own: bool, out: seq<Byte>, ps: seq<Pcode>)
    ensures |out| <= |ApplyAll(source, own, out, ps)| <= |out| + Total(ps)
    decreases |ps|
  {
    if ps != [] {
      var next := Apply(source, own, out, ps[0]);
      match ps[0] {
        case Noop(_) =>
        case Add(_) =>
        case Run(n, b) => RunLength(out, n, b);
        case CopyOf(n, addr) => CopyLength(source, own, out, n, addr);
      }
      ApplyLength(source, own, next, ps[1..]);
    }
  }

  /** Compression followed by expansion gives the data back exactly when the matches, in order of their keys,
      do not overlap: otherwise the expansion is too long. */
  lemma ContractExpand(data: seq<Byte>, w: nat)
    requires 0 < w
    ensures Expanded([], true, Script(data, w)) == data <==> Disjoint(Ordered([], Copies(data, w, 1)), 0)
  {
    var cs := Ordered([], Copies(data, w, 1));
    OrderedInOrder([], Copies(data, w, 1));
    CoverTotal(data, cs, 0);
    ApplyLength([], true, [], Script(data, w));
    if Disjoint(cs, 0) {
      assert data[..0] == [];
      CoverExpands(data, cs, 0);
    }
  }

  const ABBCABC: seq<Byte> := [97, 98, 98, 99, 97, 98, 99]

  lemma SecondMatch()
    ensures MatchOf(ABBCABC, 2, 5) == Some(Copy(5, 2, 2))
  {
    var d := ABBCABC;
    assert d[0 * 2..0 * 2 + 2] == [97, 98] && d[1 * 2..1 * 2 + 2] == [98, 99] == d[5..7];
    assert FirstBlock(d, 2, 5, 1) == 1;
    assert FirstBlock(d, 2, 5, 0) == 1;
    assert MatchAt(d, 2, 5, 2) == Copy(5, 2, 2);
  }

  lemma FirstMatch()
    ensures MatchOf(ABBCABC, 2, 4) == Some(Copy(4, 2, 0))
  {
    var d := ABBCABC;
    assert d[0 * 2..0 * 2 + 2] == [97, 98] == d[4..6];
    assert FirstBlock(d, 2, 4, 0) == 0;
    assert MatchAt(d, 2, 4, 0) == Copy(4, 2, 0);
  }

  lemma NoMatchBefore()
    ensures MatchOf(ABBCABC, 2, 1) == MatchOf(ABBCABC, 2, 2) == MatchOf(ABBCABC, 2, 3) == None
  {
    var d := ABBCABC;
    assert d[0 * 2..0 * 2 + 2] == [97, 98] && d[2..4] == [98, 99] && d[3..5] == [99, 97];
    assert FirstBlock(d, 2, 1, 0) == 0;
    assert FirstBlock(d, 2, 2, 1) == 1;
    assert FirstBlock(d, 2, 2, 0) == 1;
    assert FirstBlock(d, 2, 3, 1) == 1;
    assert FirstBlock(d, 2, 3, 0) == 1;
  }

  lemma CopiesNext(data: seq<Byte>, w: nat, i: nat)
    requires 0 < w && i + w <= |data|
    ensures Copies(data, w, i) == match MatchOf(data, w, i)
                                  case None => Copies(data, w, i + 1)
                                  case Some(c) => [c] + Copies(data, w, c.key + c.size - w + 1)
  {
  }

  lemma TwoCopies()
    ensures Copies(ABBCABC, 2, 1) == [Copy(4, 2, 0), Copy(5, 2, 2)]
  {
    hide Copies, MatchOf;
    NoMatchBefore();
    FirstMatch();
    SecondMatch();
    CopiesNext(ABBCABC, 2, 1);
    CopiesNext(ABBCABC, 2, 2);
    CopiesNext(ABBCABC, 2, 3);
    CopiesNext(ABBCABC, 2, 4);
    CopiesNext(ABBCABC, 2, 5);
    CopiesEnd(ABBCABC, 2, 6);
  }

  lemma CopiesEnd(data: seq<Byte>, w: nat, i: nat)
    requires 0 < w && i + w > |data|
    ensures Copies(data, w, i) == []
  {
  }

  /** The premise is needed: with window 2 the bytes of "abbcabc" have two matches that overlap. */
  lemma Overlapping()
    ensures Expanded([], true, Script(ABBCABC, 2)) != ABBCABC
  {
    hide Copies, Script, Expanded;
    ContractExpand(ABBCABC, 2);
    TwoCopies();
    var c, d := Copy(4, 2, 0), Copy(5, 2, 2);
    assert [c, d][1..] == [d] && [d][1..] == [];
    assert InsertCopy([], c) == [c];
    assert Keys([c]) == [4] && Slot([4], 5) == 1;
    assert InsertCopy([c], d) == [c, d];
    assert Ordered([c], [d]) == Ordered([c, d], []);
    assert Ordered([], [c, d]) == Ordered([c], [d]);
    assert !Disjoint([d], 6);
  }
}
