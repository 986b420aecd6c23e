/** Base-128 integers (section 2 of RFC 3284), read from a port in memory and from a buffer. */
module VcdInteger {
  import opened Words
  import opened Options

  // ---------- pieces of byte strings ----------

  /** The piece lies at pos. */
  predicate At(s: seq<Byte>, pos: nat, piece: seq<Byte>) {
    pos + |piece| <= |s| && s[pos..pos + |piece|] == piece
  }

  lemma AtParts(s: seq<Byte>, pos: nat, a: seq<Byte>, b: seq<Byte>)
    requires At(s, pos, a + b)
    ensures At(s, pos, a) && At(s, pos + |a|, b)
  {
    assert s[pos..pos + |a|] == s[pos..pos + |a + b|][..|a|];
    assert s[pos + |a|..pos + |a| + |b|] == s[pos..pos + |a + b|][|a|..];
  }

  // ---------- printing ----------

  /** The digits of n, all marked as continued. */
  function Continued(n: nat): seq<Byte> {
    (if n < 128 then [] else Continued(n / 128)) + [n % 128 + 128]
  }

  /** The digits of n, most significant first; the last one is not marked. */
  function Digits(n: nat): (d: seq<Byte>)
    ensures |d| > 0
  {
    (if n < 128 then [] else Continued(n / 128)) + [n % 128]
  }

  // ---------- reading ----------

  /** The accumulator shifted by one digit; the bits shifted out are lost. */
  function Shift(t: Word, b: Byte): Word {
    Wrap(t * 128) + b % 128
  }

  /** The integer at pos, and the position after it; none if the bytes end first. */
  function ReadAt(s: seq<Byte>, pos: nat, t: Word): (r: Option<(Word, nat)>)
    ensures r.Some? ==> pos < r.value.1 <= |s|
    decreases |s| - pos
  {
    if pos >= |s| then None
    else if s[pos] >= 128 then ReadAt(s, pos + 1, Shift(t, s[pos]))
    else Some((Shift(t, s[pos]), pos + 1))
  }

  lemma ShiftExact(n: nat)
    requires n < WORD
    ensures Shift(n / 128, n % 128 + 128) == n && Shift(n / 128, n % 128) == n
  {
  }

  lemma ByteAtEnd(s: seq<Byte>, pos: nat, h: seq<Byte>, b: Byte)
    requires At(s, pos, h + [b])
    ensures At(s, pos, h) && pos + |h| < |s| && s[pos + |h|] == b
  {
    AtParts(s, pos, h, [b]);
    assert s[pos + |h|] == s[pos + |h|..pos + |h| + 1][0];
  }

  lemma ReadMarked(s: seq<Byte>, pos: nat, t: Word, b: Byte)
    requires pos < |s| && s[pos] == b
    ensures ReadAt(s, pos, t) == if b >= 128 then ReadAt(s, pos + 1, Shift(t, b)) else Some((Shift(t, b), pos + 1))
  {
  }

  /** All digits before the last one. */
  function Leading(n: nat): seq<Byte> {
    if n < 128 then [] else Continued(n / 128)
  }

  lemma ContinuedParts(n: nat)
    ensures Continued(n) == Leading(n) + [n % 128 + 128] && Digits(n) == Leading(n) + [n % 128]
    ensures n < 128 ==> Leading(n) == [] && n / 128 == 0
    ensures n >= 128 ==> Leading(n) == Continued(n / 128) && n / 128 < n
  {
  }

  lemma {:induction false} ContinuedRead(s: seq<Byte>, pos: nat, n: nat)
    requires n < WORD && At(s, pos, Continued(n))
    ensures ReadAt(s, pos, 0) == ReadAt(s, pos + |Continued(n)|, n)
    decreases n
  {
    hide At, Shift, ReadAt, Continued, Digits, Leading;
    ContinuedParts(n);
    ByteAtEnd(s, pos, Leading(n), n % 128 + 128);
    if n >= 128 {
      ContinuedRead(s, pos, n / 128);
    }
    ReadMarked(s, pos + |Leading(n)|, n / 128, n % 128 + 128);
    ShiftExact(n);
  }

  /** Reading undoes printing for every 32-bit integer, whatever follows. */
  lemma {:induction false} DigitsRead(s: seq<Byte>, pos: nat, n: nat)
    requires n < WORD && At(s, pos, Digits(n))
    ensures ReadAt(s, pos, 0) == Some((n, pos + |Digits(n)|))
  {
    hide At, Shift, ReadAt, Continued, Digits, Leading;
    ContinuedParts(n);
    ByteAtEnd(s, pos, Leading(n), n % 128);
    if n >= 128 {
      ContinuedRead(s, pos, n / 128);
    }
    ReadMarked(s, pos + |Leading(n)|, n / 128, n % 128);
    ShiftExact(n);
  }

  /** Reads from a buffer; the position after the integer, or none. */
  method ReadInteger(buf: seq<Byte>, start: nat) returns (r: Option<(Word, nat)>)
    ensures r == ReadAt(buf, start, 0)
  {
    var pos, t: Word := start, 0;
    while pos < |buf|
      invariant ReadAt(buf, pos, t) == ReadAt(buf, start, 0)
      decreases |buf| - pos
    {
      var b := buf[pos];
      pos := pos + 1;
      if b >= 128 {
        t := Shift(t, b);
      } else {
        return Some((Shift(t, b), pos));
      }
    }
    return None;
  }

  /** A port over bytes in memory (port.c): reading past the end yields nothing. */
  class Port {
    const head: seq<Byte>
    var pos: nat

    constructor (head: seq<Byte>)
      ensures this.head == head && pos == 0
    {
      this.head, pos := head, 0;
    }

    method ReadByte() returns (b: Option<Byte>)
      requires pos <= |head|
      modifies this
      ensures old(pos) <= pos <= |head|
      ensures if old(pos) < |head| then b == Some(head[old(pos)]) && pos == old(pos) + 1
              else b == None && pos == old(pos)
    {
      if pos < |head| {
        pos := pos + 1;
        return Some(head[pos - 1]);
      }
      return None;
    }

    /** size bytes; if there are not so many, all that are left are consumed, in vain. */
    method ReadBytes(size: nat) returns (r: Option<seq<Byte>>)
      requires pos <= |head|
      modifies this
      ensures old(pos) <= pos <= |head|
      ensures if size <= |head| - old(pos) then r == Some(head[old(pos)..old(pos) + size]) && pos == old(pos) + size
              else r == None && pos == |head|
    {
      var len := |head| - pos;
      if size <= len {
        pos := pos + size;
        return Some(head[pos - size..pos]);
      }
      pos := pos + len;
      return None;
    }

    /** Reads the same integers from the port as ReadInteger from a buffer. */
    method IntegerRead() returns (r: Option<Word>)
      requires pos <= |head|
      modifies this
      ensures old(pos) <= pos <= |head|
      ensures match ReadAt(head, old(pos), 0)
              case None => r == None && pos == |head|
              case Some((n, p)) => r == Some(n) && pos == p
    {
      var t: Word := 0;
      var b := ReadByte();
      while b.Some?
        invariant old(pos) <= pos <= |head| && (b.None? ==> pos == |head|)
        invariant b.Some? ==> pos > old(pos) && b.value == head[pos - 1]
                              && ReadAt(head, pos - 1, t) == ReadAt(head, old(pos), 0)
        invariant b.None? ==> ReadAt(head, old(pos), 0) == None
        decreases |head| - pos, b.Some?
      {
        if b.value >= 128 {
          t := Shift(t, b.value);
          b := ReadByte();
        } else {
          return Some(Shift(t, b.value));
        }
      }
      return None;
    }
  }
}
