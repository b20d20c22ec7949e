/**
 Integer arithmetic modulo n, powers, primes, inverses and Fermat's little theorem:
 the algebra on which the commitments, ciphertexts and proofs of the coin layer rest.
 */
module NumberTheory {

  // ---------- Remainders ----------

  lemma {:induction false} QuotientRemainder(x: int, q: int, r: int, n: int)
    requires 0 <= r < n
    requires x == q * n + r
    ensures x / n == q && x % n == r
  {
    var d := q - x / n;
    assert n * d == x % n - r;
    assert d >= 1 ==> n * d >= n;
    assert d <= -1 ==> n * d <= -n;
  }

  lemma {:induction false} SmallMod(x: int, n: int)
    requires 0 <= x < n
    ensures x % n == x
  {
    QuotientRemainder(x, 0, x, n);
  }

  lemma {:induction false} AddMultiple(a: int, k: int, n: int)
    requires n > 0
    ensures (a + k * n) % n == a % n
  {
    assert a + k * n == (a / n + k) * n + a % n;
    QuotientRemainder(a + k * n, a / n + k, a % n, n);
  }

  /** Equal remainders mean a difference that is a multiple of n. */
  lemma {:induction false} SameRemainder(a: int, b: int, n: int) returns (k: int)
    requires n > 0
    requires a % n == b % n
    ensures a == b + k * n
  {
    k := a / n - b / n;
    assert k * n == (a / n) * n - (b / n) * n;
  }

  /** Numbers that differ by a multiple of n have the same remainder. */
  lemma {:induction false} Shifted(x: int, y: int, k: int, n: int)
    requires n > 0 && x == y + k * n
    ensures x % n == y % n
  {
    AddMultiple(y, k, n);
  }

  lemma {:induction false} Multiples(k: int, l: int, n: int)
    ensures k * n + l * n == (k + l) * n && k * n - l * n == (k - l) * n
  {
  }

  /** The quotients of numbers with the same remainder, and how far they are apart. */
  lemma {:induction false} Apart(a: int, b: int, c: int, d: int, n: int) returns (k: int, l: int)
    requires n > 0 && a % n == b % n && c % n == d % n
    ensures a + c == b + d + (k + l) * n && a - c == b - d + (k - l) * n
  {
    k := SameRemainder(a, b, n);
    l := SameRemainder(c, d, n);
    Multiples(k, l, n);
  }

  lemma {:induction false} ModAdd(a: int, b: int, c: int, d: int, n: int)
    requires n > 0
    requires a % n == b % n && c % n == d % n
    ensures (a + c) % n == (b + d) % n
    ensures (a - c) % n == (b - d) % n
  {
    var k, l := Apart(a, b, c, d, n);
    Shifted(a + c, b + d, k + l, n);
    Shifted(a - c, b - d, k - l, n);
  }

  lemma {:induction false} ModMulBy(a: int, b: int, c: int, n: int)
    requires n > 0
    requires a % n == b % n
    ensures (a * c) % n == (b * c) % n
  {
    var k := SameRemainder(a, b, n);
    ScaledBy(a, b, k, c, n);
    Shifted(a * c, b * c, k * c, n);
  }

  lemma {:induction false} ScaledBy(a: int, b: int, k: int, c: int, n: int)
    requires a == b + k * n
    ensures a * c == b * c + (k * c) * n
  {
  }

  lemma {:induction false} ModMul(a: int, b: int, c: int, d: int, n: int)
    requires n > 0
    requires a % n == b % n && c % n == d % n
    ensures (a * c) % n == (b * d) % n
  {
    ModMulBy(a, b, c, n);
    ModMulBy(c, d, b, n);
    assert c * b == b * c && d * b == b * d;
  }

  /** Mul followed by Mod. */
  function MulMod(a: int, b: int, n: int): (r: nat)
    requires n > 0
    ensures r < n
  {
    (a * b) % n
  }

  lemma {:induction false} ModMulLeft(a: int, c: int, n: int)
    requires n > 0
    ensures ((a % n) * c) % n == (a * c) % n
    ensures (c * (a % n)) % n == (c * a) % n
  {
    ModMul(a % n, a, c, c, n);
    ModMul(c, c, a % n, a, n);
  }

  // ---------- Powers ----------

  function Pow(b: int, e: nat): int
  {
    if e == 0 then 1 else b * Pow(b, e - 1)
  }

  lemma {:induction false} PowAdd(b: int, i: nat, j: nat)
    ensures Pow(b, i + j) == Pow(b, i) * Pow(b, j)
  {
    if i > 0 {
      PowAdd(b, i - 1, j);
      assert Pow(b, i + j) == b * (Pow(b, i - 1) * Pow(b, j)) == (b * Pow(b, i - 1)) * Pow(b, j);
    }
  }

  lemma {:induction false} PowPow(b: int, i: nat, j: nat)
    ensures 0 <= i * j && Pow(Pow(b, i), j) == Pow(b, i * j)
  {
    if j == 0 {
      assert i * j == 0;
    } else {
      PowPow(b, i, j - 1);
      assert i * j == i + i * (j - 1);
      PowAdd(b, i, i * (j - 1));
    }
  }

  lemma {:induction false} Exchange(a: int, b: int, u: int, v: int)
    ensures (a * b) * (u * v) == (a * u) * (b * v)
  {
    assert (a * b) * (u * v) == a * (b * (u * v)) == a * (u * (b * v)) == (a * u) * (b * v);
  }

  lemma {:induction false} PowProduct(a: int, b: int, e: nat)
    ensures Pow(a * b, e) == Pow(a, e) * Pow(b, e)
  {
    if e > 0 {
      PowProduct(a, b, e - 1);
      Exchange(a, b, Pow(a, e - 1), Pow(b, e - 1));
    }
  }

  lemma {:induction false} PowMod(a: int, b: int, e: nat, n: int)
    requires n > 0
    requires a % n == b % n
    ensures Pow(a, e) % n == Pow(b, e) % n
  {
    if e > 0 {
      PowMod(a, b, e - 1, n);
      ModMul(a, b, Pow(a, e - 1), Pow(b, e - 1), n);
    }
  }

  lemma {:induction false} PowOne(e: nat)
    ensures Pow(1, e) == 1
  {
    if e > 0 {
      PowOne(e - 1);
    }
  }

  // ---------- Primes ----------

  predicate Divides(d: int, n: int)
    requires d > 0
  {
    n % d == 0
  }

  ghost predicate IsPrime(p: int)
  {
    2 <= p && forall d {:trigger Divides(d, p)} :: 2 <= d < p ==> !Divides(d, p)
  }

  lemma {:induction false} DescendIdentity(a: int, q: int, b: int, s: int)
    ensures a * (-q * s) == b * s + (-s) * (a * q + b)
  {
    assert (-s) * (a * q + b) == (-s) * (a * q) + (-s) * b;
    assert a * (-q * s) == -(s * (a * q));
  }

  lemma {:induction false} Descend(a: int, q: int, b: int, s: int, p: int) returns (r: int)
    requires p > 1 && p == a * q + b && (b * s) % p == 1
    ensures 0 < r < p && (a * r) % p == 1
  {
    r := (-q * s) % p;
    ModMulLeft(-q * s, a, p);
    DescendIdentity(a, q, b, s);
    AddMultiple(b * s, -s, p);
    SmallMod(0, p);
    assert r == 0 ==> a * r == 0;
  }

  /** Inverses modulo a prime, by the descent a -> p % a. */
  lemma {:induction false} PrimeInverse(a: int, p: int) returns (r: int)
    requires IsPrime(p)
    requires 0 < a < p
    ensures 0 < r < p && (a * r) % p == 1
    decreases a
  {
    if a == 1 {
      r := 1;
      SmallMod(1, p);
    } else {
      assert !Divides(a, p);
      var s := PrimeInverse(p % a, p);
      r := Descend(a, p / a, p % a, s, p);
    }
  }

  /** The same for any number that p does not divide. */
  lemma {:induction false} InverseOf(a: int, p: int) returns (r: int)
    requires IsPrime(p)
    requires a % p != 0
    ensures 0 < r < p && (a * r) % p == 1
  {
    r := PrimeInverse(a % p, p);
    ModMulLeft(a, r, p);
  }

  /** Euclid's lemma. */
  lemma {:induction false} PrimeDividesProduct(a: int, b: int, p: int)
    requires IsPrime(p)
    requires a % p != 0 && (a * b) % p == 0
    ensures b % p == 0
  {
    var r := InverseOf(a, p);
    SmallMod(0, p);
    SmallMod(1, p);
    ModMulBy(a * r, 1, b, p);
    ModMulBy(a * b, 0, r, p);
    Exchange(a, r, b, 1);
  }

  lemma {:induction false} PowNonzero(g: int, e: nat, p: int)
    requires IsPrime(p)
    requires g % p != 0
    ensures Pow(g, e) % p != 0
  {
    if e > 0 {
      PowNonzero(g, e - 1, p);
      if Pow(g, e) % p == 0 {
        PrimeDividesProduct(g, Pow(g, e - 1), p);
        assert false;
      }
    }
  }

  // ---------- Fermat's little theorem, by the binomial theorem ----------

  function Choose(n: nat, k: nat): nat
  {
    if k == 0 then 1 else if n == 0 then 0 else Choose(n - 1, k - 1) + Choose(n - 1, k)
  }

  lemma {:induction false} ChooseAbove(n: nat, k: nat)
    requires k > n
    ensures Choose(n, k) == 0
  {
    if n > 0 {
      ChooseAbove(n - 1, k - 1);
      ChooseAbove(n - 1, k);
    }
  }

  lemma {:induction false} ChooseFull(n: nat)
    ensures Choose(n, n) == 1
  {
    if n > 0 {
      ChooseFull(n - 1);
      ChooseAbove(n - 1, n);
    }
  }

  lemma {:induction false} AbsorptionStep(k: int, n: int, x: int, y: int, z: int, w: int, t: int)
    requires x == z + w && (k + 1) * y == n * w && k * x == n * z && t == x + y
    ensures (k + 1) * t == (n + 1) * x
  {
    assert n * x == n * z + n * w;
    assert (k + 1) * t == k * x + x + (k + 1) * y;
  }

  /** (k + 1) C(n + 1, k + 1) = (n + 1) C(n, k) */
  lemma {:induction false} Absorption(n: nat, k: nat)
    ensures (k + 1) * Choose(n + 1, k + 1) == (n + 1) * Choose(n, k)
  {
    if n == 0 {
      if k > 0 {
        ChooseAbove(0, k);
        ChooseAbove(0, k + 1);
      }
    } else {
      Absorption(n - 1, k);
      if k > 0 {
        Absorption(n - 1, k - 1);
        AbsorptionStep(k, n, Choose(n, k), Choose(n, k + 1), Choose(n - 1, k - 1), Choose(n - 1, k), Choose(n + 1, k + 1));
      } else {
        AbsorptionStep(0, n, 1, Choose(n, 1), 0, 1, Choose(n + 1, 1));
      }
    }
  }

  lemma {:induction false} CofactorVanishes(k: int, c: int, d: int, p: int)
    requires IsPrime(p)
    requires 0 < k < p && k * c == p * d
    ensures c % p == 0
  {
    AddMultiple(0, d, p);
    SmallMod(0, p);
    SmallMod(k, p);
    PrimeDividesProduct(k, c, p);
  }

  lemma {:induction false} PrimeDividesChoose(p: int, k: nat)
    requires IsPrime(p)
    requires 0 < k < p
    ensures Choose(p, k) % p == 0
  {
    Absorption(p - 1, k - 1);
    CofactorVanishes(k, Choose(p, k), Choose(p - 1, k - 1), p);
  }

  /** The first m + 1 terms of the expansion of (1 + a)^n. */
  function Terms(n: nat, a: nat, m: nat): nat
  {
    if m == 0 then 1 else Terms(n, a, m - 1) + Choose(n, m) * PowNat(a, m)
  }

  function PowNat(a: nat, e: nat): (r: nat)
    ensures r == Pow(a, e)
  {
    if e == 0 then 1 else a * PowNat(a, e - 1)
  }

  lemma {:induction false} Distribute(a: int, b: int, c: int)
    ensures a * (b + c) == a * b + a * c && (b + c) * a == b * a + c * a
  {
  }

  lemma {:induction false} TermStep(c: int, d: int, a: int, q: int)
    ensures (c + d) * (a * q) == d * (a * q) + a * (c * q)
  {
    assert (c + d) * (a * q) == c * (a * q) + d * (a * q);
    assert c * (a * q) == a * (c * q);
  }

  lemma {:induction false} TermsStep(n: nat, a: nat, m: nat)
    ensures Terms(n + 1, a, m + 1) == Terms(n, a, m + 1) + a * Terms(n, a, m)
  {
    var c, d, q := Choose(n, m), Choose(n, m + 1), PowNat(a, m);
    TermStep(c, d, a, q);
    assert PowNat(a, m + 1) == a * q;
    if m > 0 {
      TermsStep(n, a, m - 1);
      Distribute(a, Terms(n, a, m - 1), c * q);
    } else {
      assert q == 1 && c == 1;
    }
  }

  lemma {:induction false} Binomial(n: nat, a: nat)
    ensures Pow(1 + a, n) == Terms(n, a, n)
  {
    if n > 0 {
      var t := Terms(n - 1, a, n - 1);
      Binomial(n - 1, a);
      TermsStep(n - 1, a, n - 1);
      ChooseAbove(n - 1, n);
      assert Terms(n - 1, a, n) == t;
      assert (1 + a) * t == t + a * t;
    }
  }

  lemma {:induction false} MiddleTermsVanish(p: int, a: nat, m: nat)
    requires IsPrime(p)
    requires m < p
    ensures Terms(p, a, m) % p == 1
  {
    if m == 0 {
      QuotientRemainder(1, 0, 1, p);
    } else {
      MiddleTermsVanish(p, a, m - 1);
      PrimeDividesChoose(p, m);
      var c, q, u := Choose(p, m), PowNat(a, m), Terms(p, a, m - 1);
      SmallMod(0, p);
      SmallMod(1, p);
      ModMulBy(c, 0, q, p);
      ModAdd(u, 1, c * q, 0, p);
    }
  }

  lemma {:induction false} FermatSum(p: int, a: nat)
    requires IsPrime(p)
    ensures Pow(a, p) % p == a % p
  {
    if a > 0 {
      FermatSum(p, a - 1);
      Binomial(p, a - 1);
      MiddleTermsVanish(p, a - 1, p - 1);
      ChooseFull(p);
      var t, u := Terms(p, a - 1, p - 1), PowNat(a - 1, p);
      assert Pow(a, p) == t + u;
      SmallMod(1, p);
      ModAdd(t, 1, u, a - 1, p);
    }
  }

  lemma {:induction false} CancelFactor(a: int, u: int, v: int, p: int)
    requires IsPrime(p)
    requires a % p != 0
    requires (a * u) % p == (a * v) % p
    ensures u % p == v % p
  {
    ModAdd(a * u, a * v, a * v, a * v, p);
    assert a * u - a * v == a * (u - v);
    PrimeDividesProduct(a, u - v, p);
    ModAdd(u - v, 0, v, v, p);
  }

  /** Fermat's little theorem. */
  lemma {:induction false} Fermat(g: int, p: int)
    requires IsPrime(p)
    requires g % p != 0
    ensures Pow(g, p - 1) % p == 1
  {
    var a := g % p;
    PowMod(g, a, p - 1, p);
    FermatSum(p, a);
    SmallMod(a, p);
    SmallMod(1, p);
    CancelFactor(a, Pow(a, p - 1), 1, p);
  }

  // ---------- Greatest common divisors and inverses modulo any n ----------

  function Gcd(a: nat, b: nat): nat
    decreases b
  {
    if b == 0 then a else Gcd(b, a % b)
  }

  lemma {:induction false} BezoutStep(q: int, r: int, b: int, u: int, v: int)
    ensures (q * b + r) * v + b * (u - q * v) == b * u + r * v
  {
    Distribute(v, q * b, r);
    assert b * (u - q * v) == b * u - b * (q * v);
    assert b * (q * v) == (q * b) * v;
  }

  lemma {:induction false} Bezout(a: nat, b: nat) returns (x: int, y: int)
    ensures a * x + b * y == Gcd(a, b)
    decreases b
  {
    if b == 0 {
      x, y := 1, 0;
    } else {
      var u, v := Bezout(b, a % b);
      x, y := v, u - (a / b) * v;
      BezoutStep(a / b, a % b, b, u, v);
    }
  }

  predicate IsInverse(a: int, x: int, n: int)
    requires n > 0
  {
    (a * x) % n == 1 % n
  }

  ghost predicate Invertible(a: int, n: int)
    requires n > 0
  {
    exists x :: IsInverse(a, x, n)
  }

  lemma {:induction false} CoprimeInvertible(a: nat, n: nat)
    requires n > 0
    requires Gcd(a, n) == 1
    ensures Invertible(a, n)
  {
    var x, y := Bezout(a, n);
    AddMultiple(a * x, y, n);
    assert IsInverse(a, x, n);
  }

  lemma {:induction false} OneInvertible(n: nat)
    requires n > 0
    ensures Invertible(1, n) && Invertible(-1, n)
  {
    assert IsInverse(1, 1, n);
    assert IsInverse(-1, -1, n);
  }

  lemma {:induction false} PrimeInvertible(a: int, p: int)
    requires IsPrime(p)
    requires a % p != 0
    ensures Invertible(a, p)
  {
    var r := InverseOf(a, p);
    assert IsInverse(a, r, p);
  }

  function LeastInverse(a: int, n: nat, x: nat): int
    requires n > 0
    decreases n - x
  {
    if x >= n then a else if IsInverse(a, x, n) then x else LeastInverse(a, n, x + 1)
  }

  /** big.Int's ModInverse on its own receiver: the inverse, or the receiver unchanged when there is none. */
  function ModInverse(a: int, n: nat): int
    requires n > 0
  {
    LeastInverse(a, n, 0)
  }

  lemma {:induction false} LeastInverseFinds(a: int, n: nat, x: nat, y: nat)
    requires n > 0
    requires x <= y < n && IsInverse(a, y, n)
    ensures 0 <= LeastInverse(a, n, x) < n && IsInverse(a, LeastInverse(a, n, x), n)
    decreases n - x
  {
    if !IsInverse(a, x, n) {
      LeastInverseFinds(a, n, x + 1, y);
    }
  }

  lemma {:induction false} ModInverseCorrect(a: int, n: nat)
    requires n > 0
    requires Invertible(a, n)
    ensures 0 <= ModInverse(a, n) < n && IsInverse(a, ModInverse(a, n), n)
  {
    var x :| IsInverse(a, x, n);
    ModMulLeft(x, a, n);
    LeastInverseFinds(a, n, 0, x % n);
  }
}
