/** Quotients and remainders. */
module Division {
  lemma AtLeast(q: int, n: nat)
    requires q > 0
    ensures q * n >= n
  {
  }

  /** Quotient and remainder are unique. */
  lemma SameRemainder(n: nat, p: int, r: nat, q: int, r': nat)
    requires r < n && r' < n && p * n + r == q * n + r'
    ensures p == q && r == r'
  {
    if p > q {
      AtLeast(p - q, n);
    } else if p < q {
      AtLeast(q - p, n);
    }
  }

  lemma Divided(k: nat, n: nat)
    requires n > 0
    ensures k == (k / n) * n + k % n
  {
  }

  lemma Remainder(k: nat, n: nat, q: int, r: nat)
    requires r < n && k == q * n + r
    ensures k % n == r
  {
    Divided(k, n);
    SameRemainder(n, k / n, k % n, q, r);
  }

  lemma NextSlot(k: nat, n: nat)
    requires n > 0
    ensures (k % n + 1) % n == (k + 1) % n
  {
    Divided(k, n);
    NextRemainder(k, n, k / n, k % n);
  }

  lemma NextRemainder(k: nat, n: nat, q: int, r: nat)
    requires r < n && k == q * n + r
    ensures (r + 1) % n == (k + 1) % n
  {
    if r + 1 == n {
      Remainder(r + 1, n, 1, 0);
      Remainder(k + 1, n, q + 1, 0);
    } else {
      Remainder(r + 1, n, 0, r + 1);
      Remainder(k + 1, n, q, r + 1);
    }
  }

  lemma OtherSlot(k: nat, l: nat, n: nat)
    requires n > 0 && k < l < k + n
    ensures k % n != l % n
  {
    Divided(k, n);
    OtherRemainder(k, l, n, k / n, k % n);
  }

  lemma OtherRemainder(k: nat, l: nat, n: nat, q: int, r: nat)
    requires k < l < k + n && r < n && k == q * n + r
    ensures l % n != r
  {
    if r + (l - k) < n {
      Remainder(l, n, q, r + (l - k));
    } else {
      Remainder(l, n, q + 1, r + (l - k) - n);
    }
  }
}
