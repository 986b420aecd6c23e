/** Bytes and 32-bit words, with the wrap-around of unsigned arithmetic. */
module Words {
  const WORD: int := 0x1_0000_0000

  type Byte = x: int | 0 <= x < 256
  type Word = x: int | 0 <= x < WORD

  /** The residue that unsigned arithmetic keeps. */
  function Wrap(x: int): Word {
    x % WORD
  }

  lemma WrapShift(x: int, k: int)
    ensures Wrap(x + WORD * k) == Wrap(x)
  {
  }

  /** Wrapping the operands early changes nothing. */
  lemma WrapAdd(x: int, y: int)
    ensures Wrap(Wrap(x) + y) == Wrap(x + y)
  {
    WrapShift(x + y, -(x / WORD));
  }

  lemma WrapMul(x: int, y: int)
    ensures Wrap(Wrap(x) * y) == Wrap(x * y)
  {
    var q := x / WORD;
    assert x == WORD * q + Wrap(x);
    assert Wrap(x) * y == x * y + WORD * (-q * y) by {
      assert (WORD * q) * y == WORD * (q * y);
      assert (WORD * q + Wrap(x)) * y == (WORD * q) * y + Wrap(x) * y;
      assert -q * y == -(q * y);
    }
    WrapShift(x * y, -q * y);
  }

  lemma WrapSub(x: int, y: int)
    ensures Wrap(x - Wrap(y)) == Wrap(x - y)
  {
    WrapShift(x - y, y / WORD);
  }
}
