/** Arithmetic shared by the other modules: powers, and quotients with their remainders. */
module Arithmetic {
  function Pow2(n: nat): (p: nat)
    ensures p >= 1
  {
    if n == 0 then 1 else 2 * Pow2(n - 1)
  }

  lemma {:induction false} Pow2Add(a: nat, b: nat)
    ensures Pow2(a + b) == Pow2(a) * Pow2(b)
  {
    if a == 0 {
    } else {
      Pow2Add(a - 1, b);
      assert Pow2(a + b) == 2 * Pow2(a - 1 + b);
      assert Pow2(a) * Pow2(b) == 2 * (Pow2(a - 1) * Pow2(b));
    }
  }

  lemma {:induction false} Pow2Monotone(a: nat, b: nat)
    requires a <= b
    ensures Pow2(a) <= Pow2(b)
    decreases b - a
  {
    if a < b {
      Pow2Monotone(a + 1, b);
    }
  }

  function Power(base: int, exp: nat): (p: int)
    ensures base >= 0 ==> p >= 0
  {
    if exp == 0 then 1 else Power(base, exp - 1) * base
  }

  lemma {:induction false} PowerOfTwoIs(n: nat)
    ensures Power(2, n) == Pow2(n)
  {
    if n > 0 {
      PowerOfTwoIs(n - 1);
    }
  }

  lemma {:induction false} PowerMonotone(a: nat, b: nat, n: nat)
    requires a <= b
    ensures Power(a, n) <= Power(b, n)
  {
    if n > 0 {
      PowerMonotone(a, b, n - 1);
      MulMonotone(a, b, Power(a, n - 1));
      MulMonotone(Power(a, n - 1), Power(b, n - 1), b);
    }
  }

  lemma {:induction false} PowerAdd(b: nat, m: nat, n: nat)
    ensures Power(b, m + n) == Power(b, m) * Power(b, n)
  {
    if n > 0 {
      PowerAdd(b, m, n - 1);
      assert Power(b, m + n) == Power(b, m + (n - 1)) * b;
      MulAssociates(Power(b, m), Power(b, n - 1), b);
    }
  }

  lemma MulMonotone(a: nat, b: nat, c: nat)
    requires a <= b
    ensures a * c <= b * c
  {
    assert (b - a) * c >= 0;
  }

  lemma MulDistributes(a: int, b: int, c: int)
    ensures (a + b) * c == a * c + b * c
  {
  }

  lemma MulAssociates(a: int, b: int, c: int)
    ensures a * (b * c) == (a * b) * c
  {
  }

  lemma OneQuotient(q: nat, r: nat, q': nat, r': nat, n: nat)
    requires r < n && r' < n && q * n + r == q' * n + r'
    ensures q == q' && r == r'
  {
    if q > q' {
      MulMonotone(q' + 1, q, n);
      MulDistributes(q', 1, n);
    } else if q < q' {
      MulMonotone(q + 1, q', n);
      MulDistributes(q, 1, n);
    }
  }

  lemma DivMod(v: nat, n: nat) returns (q: nat, r: nat)
    requires n > 0
    ensures q == v / n && r == v % n && r < n && v == q * n + r
  {
    q, r := v / n, v % n;
  }

  lemma QuotientIs(v: nat, n: nat, q: nat, r: nat)
    requires r < n && v == q * n + r
    ensures v / n == q && v % n == r
  {
    var q', r' := DivMod(v, n);
    OneQuotient(q, r, q', r', n);
  }

  lemma NextQuotient(v: nat, n: nat)
    requires n > 0
    ensures v % n == n - 1 ==> (v + 1) % n == 0 && (v + 1) / n == v / n + 1
    ensures v % n != n - 1 ==> (v + 1) % n == v % n + 1 && (v + 1) / n == v / n
  {
    var q, r := DivMod(v, n);
    if r == n - 1 {
      MulDistributes(q, 1, n);
      QuotientIs(v + 1, n, q + 1, 0);
    } else {
      QuotientIs(v + 1, n, q, r + 1);
    }
  }

  lemma Pow2Ten()
    ensures Pow2(10) == 1024
  {
    assert Pow2(5) == 32;
  }
}
