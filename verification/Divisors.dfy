/** Divisors, common divisors and remainders: the number theory the dataset
    generator leans on. */
module Divisors {
  import opened Base

  ghost predicate Divides(d: nat, n: int)
    requires d > 0
  {
    exists k: int :: Times(d, k) == n
  }

  ghost function Times(d: int, k: int): (n: int) { d * k }

  lemma DividesSum(d: nat, a: int, b: int, x: int)
    requires d > 0 && Divides(d, a) && Divides(d, b)
    ensures Divides(d, a + x * b)
  {
    var (j, k) := (DivideBy(d, a), DivideBy(d, b));
    assert Times(d, j + x * k) == d * j + x * (d * k);
  }

  ghost function DivideBy(d: nat, n: int): (k: int)
    requires d > 0 && Divides(d, n)
    ensures d * k == n
  {
    var k :| Times(d, k) == n;
    k
  }

  lemma DividesTimes(d: nat, a: int, x: int)
    requires d > 0 && Divides(d, a)
    ensures Divides(d, x * a)
  {
    assert Times(d, x * DivideBy(d, a)) == x * (d * DivideBy(d, a));
  }

  lemma DividesLess(d: nat, n: int)
    requires d > 0 && Divides(d, n) && 0 - d < n < d
    ensures n == 0
  {
    var k := DivideBy(d, n);
    if k >= 1 {
      MulMonotone(1, k, d);
    } else if k <= -1 {
      MulMonotone(1, -k, d);
    }
  }

  lemma DividesOne(d: nat)
    requires d > 0 && Divides(d, 1)
    ensures d == 1
  {
    if d > 1 {
      DividesLess(d, 1);
    }
  }

  /** Equal remainders differ by a multiple. */
  lemma SameRemainder(m: nat, i: nat, j: nat)
    requires m > 0
    ensures i % m == j % m <==> Divides(m, i - j)
  {
    var (a, b) := (i / m, j / m);
    if i % m == j % m {
      assert Times(m, a - b) == m * a - m * b;
    } else if Divides(m, i - j) {
      var k := DivideBy(m, i - j);
      assert Times(m, k - a + b) == m * k - m * a + m * b;
      DividesLess(m, i % m - j % m);
    }
  }

  // ----- common divisors

  ghost predicate IsGcd(a: nat, b: nat, g: nat) {
    && g > 0 && Divides(g, a) && Divides(g, b)
    && forall d: nat :: d > 0 && Divides(d, a) && Divides(d, b) ==> Divides(d, g)
  }

  ghost predicate Coprime(a: nat, b: nat) {
    forall d: nat :: d > 0 && Divides(d, a) && Divides(d, b) ==> d == 1
  }

  /** Euclid's step: the common divisors of a pair are those of the divisor and
      the remainder. */
  lemma SameDivisors(a: nat, b: nat, d: nat)
    requires b > 0 && d > 0
    ensures Divides(d, a) && Divides(d, b) <==> Divides(d, b) && Divides(d, a % b)
  {
    if Divides(d, b) {
      assert a == b * (a / b) + a % b;
      if Divides(d, a) {
        DividesSum(d, a, b, -(a / b));
      } else if Divides(d, a % b) {
        DividesSum(d, a % b, b, a / b);
      }
    }
  }

  /** The greatest common divisor, by remainders. */
  method Gcd(a0: nat, b0: nat) returns (a: nat)
    requires a0 > 0 || b0 > 0
    ensures IsGcd(a0, b0, a)
  {
    var b: nat;
    a, b := a0, b0;
    while b != 0
      invariant a > 0 || b > 0
      invariant forall d: nat :: d > 0 ==> (Divides(d, a) && Divides(d, b) <==> Divides(d, a0) && Divides(d, b0))
      decreases b
    {
      forall d: nat | d > 0
        ensures Divides(d, a) && Divides(d, b) <==> Divides(d, b) && Divides(d, a % b)
      {
        SameDivisors(a, b, d);
      }
      a, b := b, a % b;
    }
    assert Times(a, 1) == a && Times(a, 0) == 0;
    GcdOfZero(a);
  }

  lemma GcdOfZero(a: nat)
    requires a > 0
    ensures forall d: nat :: d > 0 ==> (Divides(d, a) && Divides(d, 0) <==> Divides(d, a))
  {
    forall d: nat | d > 0
      ensures Divides(d, 0)
    {
      assert Times(d, 0) == 0;
    }
  }

  lemma CoprimeIsGcdOne(a: nat, b: nat, g: nat)
    requires IsGcd(a, b, g)
    ensures g == 1 <==> Coprime(a, b)
  {
    if g == 1 {
      forall d: nat | d > 0 && Divides(d, a) && Divides(d, b)
        ensures d == 1
      {
        DividesOne(d);
      }
    }
  }

  /** Two coprime numbers combine to one. */
  lemma {:induction false} Bezout(a: nat, b: nat) returns (x: int, y: int)
    requires (a > 0 || b > 0) && Coprime(a, b)
    ensures a * x + b * y == 1
    decreases b
  {
    if b == 0 {
      assert Times(a, 1) == a && Times(a, 0) == 0;
      assert Divides(a, a) && Divides(a, b);
      x, y := 1, 0;
    } else {
      forall d: nat | d > 0 && Divides(d, b) && Divides(d, a % b)
        ensures d == 1
      {
        SameDivisors(a, b, d);
      }
      var u, v := Bezout(b, a % b);
      x, y := v, u - (a / b) * v;
      StepBack(a, b, a / b, a % b, u, v);
    }
  }

  /** Euclid's step undone: a combination of the divisor and the remainder is
      one of the pair. */
  lemma StepBack(a: int, b: int, q: int, r: int, u: int, v: int)
    requires a == b * q + r
    ensures b * u + r * v == a * v + b * (u - q * v)
  {
    assert a * v == (b * q) * v + r * v;
    assert (b * q) * v == b * (q * v);
    Distribute(b, u, -(q * v));
    assert b * (u - q * v) == b * u - b * (q * v);
  }

  /** Coprime divisors of a number: so does their product divide it. */
  lemma CoprimeProductDivides(a: nat, b: nat, n: int)
    requires a > 0 && b > 0 && Coprime(a, b) && Divides(a, n) && Divides(b, n)
    ensures a * b > 0 && Divides(a * b, n)
  {
    var x, y := Bezout(a, b);
    var (p, q) := (DivideBy(a, n), DivideBy(b, n));
    Distribute(n, a * x, b * y);
    assert n * (a * x) == (a * b) * (q * x) by {
      Regroup(b, q, a, x);
    }
    assert n * (b * y) == (a * b) * (p * y) by {
      Regroup(a, p, b, y);
    }
    Distribute(a * b, q * x, p * y);
    MulMonotone(1, a, b);
    var (ab, k) := (a * b, q * x + p * y);
    assert ab > 0;
    assert n * 1 == n && n == ab * k;
    assert Times(ab, k) == n;
  }

  lemma Distribute(n: int, x: int, y: int)
    ensures n * (x + y) == n * x + n * y
  {
  }

  lemma Regroup(a: int, b: int, c: int, d: int)
    ensures (a * b) * (c * d) == (c * a) * (b * d) == (a * c) * (b * d)
  {
    assert (a * b) * (c * d) == a * (b * (c * d)) == a * (c * (b * d)) == (a * c) * (b * d);
  }

  /** A number coprime to two others is coprime to their product. */
  lemma CoprimeToProduct(a: nat, b: nat, c: nat)
    requires a > 0 && b > 0 && c > 0 && Coprime(a, c) && Coprime(b, c)
    ensures Coprime(a * b, c)
  {
    var x, y := Bezout(a, c);
    var u, v := Bezout(b, c);
    // 1 == (a x + c y)(b u + c v)
    var z := a * x * v + y * b * u + y * c * v;
    assert (a * x + c * y) * (b * u + c * v) == (a * x) * (b * u) + (a * x) * (c * v) + (c * y) * (b * u) + (c * y) * (c * v);
    assert (a * x) * (b * u) == (x * u) * (a * b);
    assert (a * x) * (c * v) == (a * x * v) * c && (c * y) * (b * u) == (y * b * u) * c && (c * y) * (c * v) == (y * c * v) * c;
    assert (a * x * v) * c + (y * b * u) * c + (y * c * v) * c == z * c;
    forall d: nat | d > 0 && Divides(d, a * b) && Divides(d, c)
      ensures d == 1
    {
      DividesTimes(d, a * b, x * u);
      DividesSum(d, (x * u) * (a * b), c, z);
      DividesOne(d);
    }
  }
}
