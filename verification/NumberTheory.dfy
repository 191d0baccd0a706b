/**
 The number theory behind RSA, from the definition of a prime: Euclid's lemma, Fermat's little theorem through the
 binomial theorem, and powers modulo a product of two primes.
 */
module NumberTheory {
  import opened Bits

  // Divisibility and congruence -----------------------------------------

  predicate Divides(d: nat, x: int)
    requires d > 0
  {
    x % d == 0
  }

  predicate Cong(a: int, b: int, n: nat)
    requires n > 0
  {
    Divides(n, a - b)
  }

  lemma MultipleDivides(k: int, d: nat)
    requires d > 0
    ensures Divides(d, k * d) && Divides(d, d * k)
  {
    DivModUnique(k * d, d, k, 0);
  }

  lemma SumDivides(x: int, y: int, d: nat)
    requires d > 0 && Divides(d, x) && Divides(d, y)
    ensures Divides(d, x + y) && Divides(d, x - y)
  {
    var a, b := x / d, y / d;
    assert x + y == (a + b) * d && x - y == (a - b) * d;
    MultipleDivides(a + b, d);
    MultipleDivides(a - b, d);
  }

  lemma ScaleDivides(x: int, y: int, d: nat)
    requires d > 0 && Divides(d, x)
    ensures Divides(d, x * y) && Divides(d, y * x)
  {
    var a := x / d;
    assert x * y == (a * y) * d;
    MultipleDivides(a * y, d);
  }

  lemma CongMod(a: int, n: nat)
    requires n > 0
    ensures Cong(a, a % n, n)
  {
    MultipleDivides(a / n, n);
    assert a - a % n == (a / n) * n;
  }

  lemma CongTrans(a: int, b: int, c: int, n: nat)
    requires n > 0 && Cong(a, b, n) && Cong(b, c, n)
    ensures Cong(a, c, n)
  {
    SumDivides(a - b, b - c, n);
  }

  lemma CongSym(a: int, b: int, n: nat)
    requires n > 0 && Cong(a, b, n)
    ensures Cong(b, a, n)
  {
    ScaleDivides(a - b, -1, n);
  }

  lemma CongAdd(a: int, b: int, c: int, d: int, n: nat)
    requires n > 0 && Cong(a, b, n) && Cong(c, d, n)
    ensures Cong(a + c, b + d, n)
  {
    SumDivides(a - b, c - d, n);
  }

  lemma CongMul(a: int, b: int, c: int, d: int, n: nat)
    requires n > 0 && Cong(a, b, n) && Cong(c, d, n)
    ensures Cong(a * c, b * d, n)
  {
    ScaleDivides(a - b, c, n);
    ScaleDivides(c - d, b, n);
    assert a * c - b * d == (a - b) * c + b * (c - d);
    SumDivides((a - b) * c, b * (c - d), n);
  }

  /** Congruence is equality of remainders. */
  lemma CongIsEqualMod(a: int, b: int, n: nat)
    requires n > 0
    ensures Cong(a, b, n) <==> a % n == b % n
  {
    CongMod(a, n);
    CongMod(b, n);
    if a % n == b % n {
      CongSym(b, b % n, n);
      CongTrans(a, a % n, b, n);
    }
    if Cong(a, b, n) {
      CongTrans(a, b, b % n, n);
      var k := (a - b % n) / n;
      assert a == k * n + b % n;
      DivModUnique(a, n, k, b % n);
    }
  }

  // Powers --------------------------------------------------------------

  function Pow(b: nat, e: nat): nat {
    if e == 0 then 1 else b * Pow(b, e - 1)
  }

  lemma {:induction false} PowAdd(b: nat, e: nat, f: nat)
    ensures Pow(b, e + f) == Pow(b, e) * Pow(b, f)
  {
    if e > 0 {
      PowAdd(b, e - 1, f);
      assert b * (Pow(b, e - 1) * Pow(b, f)) == (b * Pow(b, e - 1)) * Pow(b, f);
    }
  }

  lemma {:induction false} PowPow(b: nat, e: nat, f: nat)
    ensures Pow(Pow(b, e), f) == Pow(b, e * f)
  {
    if f > 0 {
      PowPow(b, e, f - 1);
      PowAdd(b, e, e * (f - 1));
      assert e + e * (f - 1) == e * f;
    }
  }

  lemma Regroup(a: int, b: int, x: int, y: int)
    ensures (a * b) * (x * y) == (a * x) * (b * y)
  {
    assert (a * b) * (x * y) == ((a * b) * x) * y;
    assert (a * b) * x == (a * x) * b;
    assert ((a * x) * b) * y == (a * x) * (b * y);
  }

  lemma {:induction false} PowProduct(a: nat, b: nat, e: nat)
    ensures Pow(a * b, e) == Pow(a, e) * Pow(b, e)
  {
    if e > 0 {
      PowProduct(a, b, e - 1);
      Regroup(a, b, Pow(a, e - 1), Pow(b, e - 1));
    }
  }

  lemma {:induction false} PowCong(a: nat, b: nat, e: nat, n: nat)
    requires n > 0 && Cong(a, b, n)
    ensures Cong(Pow(a, e), Pow(b, e), n)
  {
    if e > 0 {
      PowCong(a, b, e - 1, n);
      CongMul(a, b, Pow(a, e - 1), Pow(b, e - 1), n);
    }
  }

  lemma {:induction false} PowOne(e: nat)
    ensures Pow(1, e) == 1
  {
    if e > 0 {
      PowOne(e - 1);
    }
  }

  // Primes --------------------------------------------------------------

  ghost predicate Prime(p: nat) {
    p > 1 && forall d: nat :: 1 < d < p ==> !Divides(d, p)
  }

  /** Euclid's lemma below p, by the remainders of p. */
  lemma {:induction false} EuclidBelow(p: nat, a: nat, b: int)
    requires Prime(p) && 0 < a < p && Divides(p, a * b)
    ensures Divides(p, b)
    decreases a
  {
    if a > 1 {
      var q, r := p / a, p % a;
      assert !Divides(a, p);
      assert r * b == p * b - q * (a * b) by {
        assert p == q * a + r;
        assert (q * a + r) * b == q * (a * b) + r * b;
      }
      MultipleDivides(b, p);
      ScaleDivides(a * b, q, p);
      SumDivides(p * b, q * (a * b), p);
      EuclidBelow(p, r, b);
    }
  }

  /** A prime that divides a product divides a factor. */
  lemma Euclid(p: nat, a: int, b: int)
    requires Prime(p) && Divides(p, a * b)
    ensures Divides(p, a) || Divides(p, b)
  {
    if !Divides(p, a) {
      var q := a / p;
      assert a % p == a - q * p;
      assert (a % p) * b == a * b - (q * b) * p by {
        assert (a - q * p) * b == a * b - (q * p) * b;
        assert (q * p) * b == (q * b) * p;
      }
      MultipleDivides(q * b, p);
      SumDivides(a * b, (q * b) * p, p);
      EuclidBelow(p, a % p, b);
    }
  }

  lemma SmallRemainder(k: nat, p: nat)
    requires k < p
    ensures k % p == k
  {
    DivModUnique(k, p, 0, k);
  }

  lemma {:induction false} EuclidPow(p: nat, a: nat, e: nat)
    requires Prime(p) && Divides(p, Pow(a, e))
    ensures Divides(p, a)
  {
    if e > 0 {
      Euclid(p, a, Pow(a, e - 1));
      if !Divides(p, a) {
        EuclidPow(p, a, e - 1);
      }
    } else {
      SmallRemainder(1, p);
    }
  }

  // Fermat --------------------------------------------------------------

  /** Binomial coefficients by Pascal's rule. */
  function Choose(n: nat, k: nat): nat {
    if k == 0 then 1
    else if n == 0 then 0
    else Choose(n - 1, k) + Choose(n - 1, k - 1)
  }

  lemma {:induction false} ChooseBeyond(n: nat, k: nat)
    requires k > n
    ensures Choose(n, k) == 0
  {
    if n > 0 {
      ChooseBeyond(n - 1, k);
      ChooseBeyond(n - 1, k - 1);
    }
  }

  lemma {:induction false} ChooseAll(n: nat)
    ensures Choose(n, n) == 1
  {
    if n > 0 {
      ChooseAll(n - 1);
      ChooseBeyond(n - 1, n);
    }
  }

  lemma AbsorbStep(n: int, k: int, x: int, y: int, u: int, v: int)
    requires k * x == (n - 1) * u && (k - 1) * y == (n - 1) * v && y == u + v
    ensures k * (x + y) == n * y
  {
    assert k * (x + y) == k * x + (k - 1) * y + y;
    assert (n - 1) * u + (n - 1) * v == (n - 1) * y;
    assert (n - 1) * y + y == n * y;
  }

  /** k * C(n, k) == n * C(n-1, k-1) */
  lemma {:induction false} Absorb(n: nat, k: nat)
    requires n > 0 && k > 0
    ensures k * Choose(n, k) == n * Choose(n - 1, k - 1)
  {
    if n == 1 {
      if k > 1 {
        ChooseBeyond(1, k);
        ChooseBeyond(0, k - 1);
      }
    } else {
      Absorb(n - 1, k);
      if k > 1 {
        Absorb(n - 1, k - 1);
        AbsorbStep(n, k, Choose(n - 1, k), Choose(n - 1, k - 1), Choose(n - 2, k - 1), Choose(n - 2, k - 2));
      } else {
        assert Choose(n - 2, 0) == 1 && Choose(n - 1, 0) == 1;
      }
    }
  }

  /** A prime divides its inner binomial coefficients. */
  lemma PrimeChoose(p: nat, k: nat)
    requires Prime(p) && 0 < k < p
    ensures Divides(p, Choose(p, k))
  {
    var c, d := Choose(p, k), Choose(p - 1, k - 1);
    Absorb(p, k);
    assert k * c == p * d;
    MultipleDivides(d, p);
    Euclid(p, k, c);
    SmallRemainder(k, p);
  }

  /** The terms 0 .. m of the binomial expansion of (1 + a) to the n. */
  function Terms(n: nat, a: nat, m: nat): nat {
    if m == 0 then 1 else Terms(n, a, m - 1) + Choose(n, m) * Pow(a, m)
  }

  lemma {:induction false} TermsPascal(n: nat, a: nat, m: nat)
    requires m > 0
    ensures Terms(n + 1, a, m) == Terms(n, a, m) + a * Terms(n, a, m - 1)
  {
    var x, y, z := Choose(n, m), Choose(n, m - 1), Pow(a, m - 1);
    assert Choose(n + 1, m) == x + y && Pow(a, m) == a * z;
    assert (x + y) * (a * z) == x * (a * z) + a * (y * z);
    if m > 1 {
      TermsPascal(n, a, m - 1);
      assert a * (Terms(n, a, m - 2) + y * z) == a * Terms(n, a, m - 2) + a * (y * z);
    } else {
      assert z == 1 && y == 1;
    }
  }

  /** The binomial theorem. */
  lemma {:induction false} Binomial(n: nat, a: nat)
    ensures Terms(n, a, n) == Pow(a + 1, n)
  {
    if n > 0 {
      Binomial(n - 1, a);
      TermsPascal(n - 1, a, n);
      ChooseBeyond(n - 1, n);
      assert Terms(n - 1, a, n) == Terms(n - 1, a, n - 1);
      assert (a + 1) * Pow(a + 1, n - 1) == Pow(a + 1, n - 1) + a * Pow(a + 1, n - 1);
    }
  }

  lemma {:induction false} InnerTerms(p: nat, a: nat, m: nat)
    requires Prime(p) && m < p
    ensures Cong(Terms(p, a, m), 1, p)
  {
    if m > 0 {
      InnerTerms(p, a, m - 1);
      PrimeChoose(p, m);
      ScaleDivides(Choose(p, m), Pow(a, m), p);
      CongAdd(Terms(p, a, m - 1), 1, Choose(p, m) * Pow(a, m), 0, p);
    }
  }

  /** Fermat: a to the p is a, modulo p. */
  lemma {:induction false} Fermat(p: nat, a: nat)
    requires Prime(p)
    ensures Cong(Pow(a, p), a, p)
  {
    if a > 0 {
      var b := a - 1;
      Fermat(p, b);
      Binomial(p, b);
      InnerTerms(p, b, p - 1);
      ChooseAll(p);
      assert Pow(a, p) == Terms(p, b, p - 1) + Pow(b, p);
      CongAdd(Terms(p, b, p - 1), 1, Pow(b, p), b, p);
    }
  }

  /** And a to the p - 1 is 1 when p does not divide a. */
  lemma FermatUnit(p: nat, a: nat)
    requires Prime(p) && !Divides(p, a)
    ensures Cong(Pow(a, p - 1), 1, p)
  {
    Fermat(p, a);
    assert Pow(a, p) - a == a * (Pow(a, p - 1) - 1);
    Euclid(p, a, Pow(a, p - 1) - 1);
  }

  // Two primes ----------------------------------------------------------

  /** What two different primes divide, their product divides. */
  lemma BothDivide(p: nat, q: nat, x: int)
    requires Prime(p) && Prime(q) && p != q && Divides(p, x) && Divides(q, x)
    ensures p * q > 0 && Divides(p * q, x)
  {
    var m := x / p;
    assert x == p * m;
    Euclid(q, p, m);
    if Divides(q, p) {
      PrimesDiffer(p, q);
    }
    var k := m / q;
    assert x == p * (q * k);
    assert p * (q * k) == k * (p * q);
    MultipleDivides(k, p * q);
  }

  lemma PrimesDiffer(p: nat, q: nat)
    requires Prime(p) && Prime(q) && p != q
    ensures !Divides(q, p)
  {
    if q > p {
      assert p % q == p;
    }
  }

  lemma ProductDivides(p: nat, q: nat, x: int)
    requires p > 0 && q > 0 && p * q > 0 && Divides(p * q, x)
    ensures Divides(p, x) && Divides(q, x)
  {
    var k := x / (p * q);
    assert x == k * (p * q);
    assert k * (p * q) == (k * q) * p && k * (p * q) == (k * p) * q;
    MultipleDivides(k * q, p);
    MultipleDivides(k * p, q);
  }

  /** Exponents that are 1 modulo p - 1 change nothing modulo p. */
  lemma ExponentOne(p: nat, x: nat, m: nat)
    requires Prime(p) && m >= 1 && Divides(p - 1, m - 1)
    ensures Cong(Pow(x, m), x, p)
  {
    var k := (m - 1) / (p - 1);
    assert m == 1 + (p - 1) * k;
    PowAdd(x, 1, (p - 1) * k);
    assert Pow(x, 1) == x * Pow(x, 0) == x;
    if Divides(p, x) {
      ScaleDivides(x, Pow(x, (p - 1) * k), p);
      SumDivides(x * Pow(x, (p - 1) * k), x, p);
    } else {
      FermatUnit(p, x);
      PowPow(x, p - 1, k);
      PowCong(Pow(x, p - 1), 1, k, p);
      PowOne(k);
      CongMul(x, x, Pow(x, (p - 1) * k), 1, p);
    }
  }
}
