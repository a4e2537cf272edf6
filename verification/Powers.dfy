/** Powers of naturals and the few facts about products and quotients used with them. */
module Powers {

  function Pow(b: nat, e: nat): (r: nat)
    ensures b > 0 ==> r > 0
  {
    if e == 0 then 1 else b * Pow(b, e - 1)
  }

  lemma {:induction false} PowAdd(b: nat, m: nat, n: nat)
    ensures Pow(b, m + n) == Pow(b, m) * Pow(b, n)
  {
    if m > 0 {
      PowAdd(b, m - 1, n);
      MulAssoc(b, Pow(b, m - 1), Pow(b, n));
    }
  }

  lemma PowZero(b: nat)
    ensures Pow(b, 0) == 1
  {
  }

  lemma {:induction false} PowMono(b: nat, m: nat, n: nat)
    requires b > 0 && m <= n
    ensures Pow(b, m) <= Pow(b, n)
  {
    PowAdd(b, m, n - m);
    MulGrows(Pow(b, m), Pow(b, n - m));
  }

  lemma {:induction false} PowStrict(b: nat, m: nat, n: nat)
    requires b > 1 && m < n
    ensures Pow(b, m) < Pow(b, n)
  {
    PowMono(b, m, n - 1);
    MulMono(2, b, Pow(b, n - 1));
  }

  lemma {:induction false} PowMul(a: nat, b: nat, e: nat)
    ensures Pow(a * b, e) == Pow(a, e) * Pow(b, e)
  {
    if e > 0 {
      PowMul(a, b, e - 1);
      var x, y := Pow(a, e - 1), Pow(b, e - 1);
      assert (a * b) * (x * y) == (a * x) * (b * y) by { Exchange(a, b, x, y); }
    }
  }

  lemma {:induction false} PowPow(b: nat, m: nat, n: nat)
    ensures Pow(Pow(b, m), n) == Pow(b, m * n)
  {
    if n > 0 {
      PowPow(b, m, n - 1);
      assert m * n == m + m * (n - 1);
      PowAdd(b, m, m * (n - 1));
    } else {
      assert m * 0 == 0;
    }
  }

  lemma {:induction false} PowBaseMono(a: nat, b: nat, e: nat)
    requires a <= b
    ensures Pow(a, e) <= Pow(b, e)
  {
    if e > 0 {
      PowBaseMono(a, b, e - 1);
      MulMono(Pow(a, e - 1), Pow(b, e - 1), a);
      MulMono(a, b, Pow(b, e - 1));
    }
  }

  // ----- products and quotients -----

  lemma MulAssoc(a: int, b: int, c: int)
    ensures a * (b * c) == a * b * c
  {
  }

  lemma Exchange(a: int, b: int, x: int, y: int)
    ensures (a * b) * (x * y) == (a * x) * (b * y)
  {
    calc {
      (a * b) * (x * y);
      a * (b * (x * y));
      { MulAssoc(b, x, y); }
      a * ((x * b) * y);
      { MulAssoc(x, b, y); MulAssoc(a, x, b * y); }
      (a * x) * (b * y);
    }
  }

  lemma MulMono(a: int, b: int, c: int)
    requires a <= b && 0 <= c
    ensures a * c <= b * c
  {
  }

  lemma MulStrict(a: int, b: int, c: int)
    requires a < b && 0 < c
    ensures a * c < b * c
  {
  }

  lemma MulGrows(a: nat, b: nat)
    requires b > 0
    ensures a <= a * b
  {
    MulMono(1, b, a);
  }

  lemma MulDistrib(a: int, b: int, c: int)
    ensures a * (b + c) == a * b + a * c && (b + c) * a == b * a + c * a
  {
  }

  lemma MulCancel(a: int, b: int, c: int)
    requires c > 0 && a * c <= b * c
    ensures a <= b
  {
    if a > b { MulStrict(b, a, c); }
  }

  lemma MulCancelStrict(a: int, b: int, c: int)
    requires c > 0 && a * c < b * c
    ensures a < b
  {
    if a >= b { MulMono(b, a, c); }
  }

  /** A quotient and a remainder in range are the quotient and the remainder. */
  lemma DivUnique(n: int, d: int, q: int, r: int)
    requires d > 0 && n == q * d + r && 0 <= r < d
    ensures n / d == q && n % d == r
  {
    var p, s := n / d, n % d;
    assert n == p * d + s;
    if p < q {
      MulMono(p + 1, q, d);
    } else if p > q {
      MulMono(q + 1, p, d);
    }
  }

  lemma DivSplit(n: int, d: int, q: int, r: int)
    requires d > 0 && n == r + d * q && 0 <= r < d
    ensures n / d == q && n % d == r
  {
    DivUnique(n, d, q, r);
  }

  lemma DivSmaller(n: int, d: int)
    requires 0 <= n < d
    ensures n / d == 0 && n % d == n
  {
    DivUnique(n, d, 0, n);
  }

  lemma DivParts(n: int, d: int)
    requires d > 0
    ensures n == (n / d) * d + n % d && 0 <= n % d < d
  {
  }

  lemma NestedParts(a: nat, b: nat, q: nat, s: nat, r: nat)
    requires s < b && r < a
    ensures (q * b + s) * a + r == q * (a * b) + (s * a + r)
    ensures 0 <= s * a + r < a * b
  {
    MulDistrib(a, q * b, s);
    MulAssoc(q, b, a);
    MulMono(s + 1, b, a);
    MulMono(0, s, a);
  }

  lemma DivTwiceUnique(n: nat, a: nat, b: nat, q: nat, s: nat, r: nat)
    requires n == (q * b + s) * a + r && s < b && r < a
    ensures a * b > 0 && n / (a * b) == q && n % (a * b) == s * a + r
  {
    NestedParts(a, b, q, s, r);
    DivUnique(n, a * b, q, s * a + r);
  }

  lemma DivTwiceParts(n: nat, a: nat, b: nat)
    requires a > 0 && b > 0
    ensures a * b > 0 && n / (a * b) == n / a / b && n % (a * b) == (n / a) % b * a + n % a
  {
    DivTwiceUnique(n, a, b, n / a / b, (n / a) % b, n % a);
  }

  /** Dividing twice is dividing by the product, and exact when both divisions are. */
  lemma DivTwice(n: nat, a: nat, b: nat)
    requires a > 0 && b > 0
    ensures a * b > 0
    ensures n / a / b == n / (a * b)
    ensures n % (a * b) == 0 <==> n % a == 0 && (n / a) % b == 0
  {
    var s := (n / a) % b;
    DivTwiceParts(n, a, b);
    MulMono(if s > 0 then 1 else 0, s, a);
  }

  /** A common factor cancels in a quotient. */
  lemma DivScale(n: nat, d: nat, c: nat)
    requires d > 0 && c > 0
    ensures d * c > 0 && (n * c) / (d * c) == n / d && (n * c) % (d * c) == (n % d) * c
  {
    var q, r := n / d, n % d;
    DivParts(n, d);
    MulGrows(d, c);
    assert n * c == q * (d * c) + r * c by {
      MulDistrib(c, q * d, r);
      MulAssoc(q, d, c);
    }
    MulStrict(r, d, c);
    MulMono(0, r, c);
    DivUnique(n * c, d * c, q, r * c);
  }
}
