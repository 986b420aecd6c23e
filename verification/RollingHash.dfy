/** The Rabin-Karp hash of a byte string modulo 2^32, computed afresh or rolled from window to window. */
module RollingHash {
  import opened Words

  /** The polynomial of a string, before wrap-around. */
  function Poly(s: seq<Byte>, base: int): int {
    if s == [] then 0 else Poly(s[..|s| - 1], base) * base + s[|s| - 1]
  }

  function Power(base: int, n: nat): int {
    if n == 0 then 1 else Power(base, n - 1) * base
  }

  /** The hash of a string. */
  function Hash(s: seq<Byte>, base: int): Word {
    Wrap(Poly(s, base))
  }

  lemma {:induction false} PolyFront(x: Byte, s: seq<Byte>, base: int)
    ensures Poly([x] + s, base) == x * Power(base, |s|) + Poly(s, base)
  {
    var t := [x] + s;
    if s == [] {
      assert t[..0] == [];
    } else {
      var r := s[..|s| - 1];
      assert t[..|t| - 1] == [x] + r;
      PolyFront(x, r, base);
      Distribute(x, Power(base, |r|), Poly(r, base), base);
    }
  }

  lemma Distribute(x: int, p: int, q: int, b: int)
    ensures (x * p + q) * b == x * (p * b) + q * b
  {
    assert (x * p + q) * b == (x * p) * b + q * b;
    assert (x * p) * b == x * (p * b);
  }

  lemma HashStep(s: seq<Byte>, x: Byte, base: int)
    ensures Hash(s + [x], base) == Wrap(Wrap(Hash(s, base) * base) + x)
  {
    assert (s + [x])[..|s|] == s;
    WrapMul(Poly(s, base), base);
    WrapAdd(Poly(s, base) * base, x);
  }

  /** One roll: the first byte leaves, the next one enters. */
  lemma RollStep(s: seq<Byte>, x: Byte, base: int, factor: Word)
    requires s != [] && factor == Wrap(Power(base, |s| - 1))
    ensures Hash(s[1..] + [x], base) == Wrap(Wrap(Wrap(Hash(s, base) - Wrap(s[0] * factor)) * base) + x)
  {
    var p, q := s[0] * Power(base, |s| - 1), Poly(s, base);
    assert s == [s[0]] + s[1..];
    PolyFront(s[0], s[1..], base);
    assert Wrap(s[0] * factor) == Wrap(p) by {
      WrapMul(Power(base, |s| - 1), s[0]);
      assert factor * s[0] == s[0] * factor && Power(base, |s| - 1) * s[0] == p;
    }
    var m: int := Wrap(p);
    WrapAdd(q, -m);
    WrapSub(q, p);
    assert Wrap(Hash(s, base) - Wrap(p)) == Hash(s[1..], base);
    HashStep(s[1..], x, base);
  }

  method HashRabinKarp(data: seq<Byte>, base: Word) returns (v: Word)
    ensures v == Hash(data, base)
  {
    v := 0;
    for i := 0 to |data|
      invariant v == Hash(data[..i], base)
    {
      assert data[..i + 1] == data[..i] + [data[i]];
      HashStep(data[..i], data[i], base);
      v := Wrap(v * base);
      v := Wrap(v + data[i]);
    }
    assert data[..|data|] == data;
  }

  class RollingHash {
    const data: seq<Byte>
    const window: nat
    const base: Word
    var value: Word
    var head: nat
    var tail: nat
    var factor: Word

    /** The hash stands for the window that starts at tail. */
    ghost predicate Rolled()
      reads this
    {
      && 0 < window && tail + window == head <= |data|
      && factor == Wrap(Power(base, window - 1))
      && value == Hash(data[tail..head], base)
    }

    constructor (data: seq<Byte>, window: nat, base: Word)
      requires 0 < window <= |data| && base > 0
      ensures this.data == data && this.window == window && this.base == base
    {
      this.data, this.window, this.base := data, window, base;
      value, head, tail, factor := 0, 0, 0, 1;
    }

    method Init() returns (v: Word)
      requires 0 < window <= |data|
      modifies this
      ensures Rolled() && tail == 0 && v == value
    {
      var f: Word := 1;
      for i := 1 to window
        invariant f == Wrap(Power(base, i - 1))
      {
        WrapMul(Power(base, i - 1), base);
        f := Wrap(f * base);
      }
      factor := f;
      value := HashRabinKarp(data[..window], base);
      head, tail := window, 0;
      assert data[0..window] == data[..window];
      return value;
    }

    method Roll() returns (v: Word)
      requires Rolled() && head < |data|
      modifies this
      ensures Rolled() && tail == old(tail) + 1 && v == value
    {
      hide Hash, Poly, Power, Wrap;
      ghost var s := data[tail..head];
      RollStep(s, data[head], base, factor);
      assert data[tail + 1..head + 1] == s[1..] + [data[head]];
      value := Wrap(value - Wrap(data[tail] * factor));
      value := Wrap(value * base);
      value := Wrap(value + data[head]);
      head, tail := head + 1, tail + 1;
      return value;
    }

    /** The hashes of all windows, in order. */
    method Collect() returns (arr: array<Word>)
      requires 0 < window <= |data|
      modifies this
      ensures fresh(arr) && arr.Length == |data| - window + 1
      ensures forall i :: 0 <= i < arr.Length ==> arr[i] == Hash(data[i..i + window], base)
    {
      var len := |data| - window + 1;
      arr := new Word[len](_ => 0);
      arr[0] := Init();
      for i := 1 to len
        invariant Rolled() && tail == i - 1
        invariant forall j :: 0 <= j < i ==> arr[j] == Hash(data[j..j + window], base)
      {
        arr[i] := Roll();
      }
    }
  }
}
