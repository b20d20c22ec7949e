/**
 Exponents in the multiplicative group modulo a prime. GroupExp extends powers to every integer
 exponent, positive or negative, by reducing the exponent modulo p - 1.
 */
module Group {
  import opened NumberTheory

  /** g is a unit of the integers modulo the prime p. */
  ghost predicate Unit(g: int, p: int)
  {
    IsPrime(p) && g % p != 0
  }

  function GroupExp(g: int, e: int, p: int): (r: nat)
    requires p >= 2
  {
    Pow(g, e % (p - 1)) % p
  }

  /** Reducing a natural exponent modulo p - 1 does not change the power. */
  lemma {:induction false} ExpIsGroupExp(g: int, e: nat, p: int)
    requires Unit(g, p)
    ensures Pow(g, e) % p == GroupExp(g, e, p)
  {
    var q, r := e / (p - 1), e % (p - 1);
    assert e == (p - 1) * q + r;
    PowPow(g, p - 1, q);
    PowAdd(g, (p - 1) * q, r);
    Fermat(g, p);
    SmallMod(1, p);
    PowMod(Pow(g, p - 1), 1, q, p);
    PowOne(q);
    ModMulBy(Pow(g, (p - 1) * q), 1, Pow(g, r), p);
  }

  lemma {:induction false} GroupExpUnit(g: int, e: int, p: int)
    requires Unit(g, p)
    ensures 0 < GroupExp(g, e, p) < p && Unit(GroupExp(g, e, p), p)
  {
    PowNonzero(g, e % (p - 1), p);
    SmallMod(GroupExp(g, e, p), p);
  }

  lemma {:induction false} GroupExpCong(g: int, d: int, e: int, p: int)
    requires p >= 2
    requires d % (p - 1) == e % (p - 1)
    ensures GroupExp(g, d, p) == GroupExp(g, e, p)
  {
  }

  lemma {:induction false} GroupExpAdd(g: int, d: int, e: int, p: int)
    requires Unit(g, p)
    ensures GroupExp(g, d + e, p) == MulMod(GroupExp(g, d, p), GroupExp(g, e, p), p)
  {
    var n := p - 1;
    var i, j := d % n, e % n;
    PowAdd(g, i, j);
    ExpIsGroupExp(g, i + j, p);
    ModIdem(d, n);
    ModIdem(e, n);
    ModAdd(i, d, j, e, n);
    ModIdem(Pow(g, i), p);
    ModIdem(Pow(g, j), p);
    ModMul(Pow(g, i) % p, Pow(g, i), Pow(g, j) % p, Pow(g, j), p);
  }

  lemma {:induction false} ModIdem(a: int, n: int)
    requires n > 0
    ensures (a % n) % n == a % n
  {
    SmallMod(a % n, n);
  }

  lemma {:induction false} GroupExpZero(g: int, p: int)
    requires p >= 2
    ensures GroupExp(g, 0, p) == 1
  {
    SmallMod(0, p - 1);
    SmallMod(1, p);
  }

  /** A power of a power, the outer exponent being natural. */
  lemma {:induction false} GroupExpPow(g: int, d: int, e: nat, p: int)
    requires Unit(g, p)
    ensures Pow(GroupExp(g, d, p), e) % p == GroupExp(g, d * e, p)
  {
    var n := p - 1;
    var i := d % n;
    ModIdem(Pow(g, i), p);
    PowMod(GroupExp(g, d, p), Pow(g, i), e, p);
    PowPow(g, i, e);
    ExpIsGroupExp(g, i * e, p);
    ModMulLeft(d, e, n);
  }

  lemma {:induction false} UnitProduct(a: int, b: int, p: int)
    requires Unit(a, p) && Unit(b, p)
    ensures Unit(MulMod(a, b, p), p)
  {
    ModIdem(a * b, p);
    if (a * b) % p == 0 {
      PrimeDividesProduct(a, b, p);
      assert false;
    }
  }

  lemma {:induction false} MulModOne(a: int, p: int)
    requires 0 <= a < p
    ensures MulMod(1, a, p) == MulMod(a, 1, p) == a
  {
    SmallMod(a, p);
  }

  lemma {:induction false} MulModComm(a: int, b: int, p: int)
    requires p > 0
    ensures MulMod(a, b, p) == MulMod(b, a, p)
  {
    assert a * b == b * a;
  }

  lemma {:induction false} MulModAssoc(a: int, b: int, c: int, p: int)
    requires p > 0
    ensures MulMod(MulMod(a, b, p), c, p) == MulMod(a, MulMod(b, c, p), p)
  {
    ModMulLeft(a * b, c, p);
    ModMulLeft(b * c, a, p);
    Exchange(a, b, 1, c);
  }

  // ---------- Products of powers ----------

  /** The product of the first n powers bases[i] ^ exps[i], modulo p. */
  function Product(bases: seq<int>, exps: seq<int>, n: nat, p: int): nat
    requires n <= |bases| && n <= |exps|
    requires p >= 2
  {
    if n == 0 then 1 else MulMod(Product(bases, exps, n - 1, p), GroupExp(bases[n - 1], exps[n - 1], p), p)
  }

  ghost predicate Units(bases: seq<int>, p: int)
  {
    IsPrime(p) && forall i :: 0 <= i < |bases| ==> Unit(bases[i], p)
  }

  lemma {:induction false} ProductUnit(bases: seq<int>, exps: seq<int>, n: nat, p: int)
    requires n <= |bases| && n <= |exps|
    requires Units(bases, p)
    ensures 0 < Product(bases, exps, n, p) < p && Unit(Product(bases, exps, n, p), p)
  {
    if n == 0 {
      SmallMod(1, p);
    } else {
      ProductUnit(bases, exps, n - 1, p);
      GroupExpUnit(bases[n - 1], exps[n - 1], p);
      UnitProduct(Product(bases, exps, n - 1, p), GroupExp(bases[n - 1], exps[n - 1], p), p);
      SmallMod(0, p);
      assert Product(bases, exps, n, p) != 0;
    }
  }

  /** Products of powers of the same bases multiply by adding the exponents. */
  lemma {:induction false} ProductAdd(bases: seq<int>, d: seq<int>, e: seq<int>, f: seq<int>, n: nat, p: int)
    requires n <= |bases| && n <= |d| && n <= |e| && n <= |f|
    requires Units(bases, p)
    requires forall i :: 0 <= i < n ==> f[i] % (p - 1) == (d[i] + e[i]) % (p - 1)
    ensures Product(bases, f, n, p) == MulMod(Product(bases, d, n, p), Product(bases, e, n, p), p)
  {
    if n == 0 {
      SmallMod(1, p);
    } else {
      var k := n - 1;
      ProductAdd(bases, d, e, f, k, p);
      GroupExpCong(bases[k], f[k], d[k] + e[k], p);
      GroupExpAdd(bases[k], d[k], e[k], p);
      var x, y := Product(bases, d, k, p), Product(bases, e, k, p);
      var u, v := GroupExp(bases[k], d[k], p), GroupExp(bases[k], e[k], p);
      FourFactors(x, y, u, v, p);
    }
  }

  lemma {:induction false} FourFactors(x: int, y: int, u: int, v: int, p: int)
    requires p > 0
    ensures MulMod(MulMod(x, y, p), MulMod(u, v, p), p) == MulMod(MulMod(x, u, p), MulMod(y, v, p), p)
  {
    ModIdem(x * y, p);
    ModIdem(u * v, p);
    ModIdem(x * u, p);
    ModIdem(y * v, p);
    ModMul((x * y) % p, x * y, (u * v) % p, u * v, p);
    ModMul((x * u) % p, x * u, (y * v) % p, y * v, p);
    Exchange(x, y, u, v);
  }

  /** Raising a product of powers to c multiplies every exponent by c. */
  lemma {:induction false} ProductPow(bases: seq<int>, e: seq<int>, f: seq<int>, c: nat, n: nat, p: int)
    requires n <= |bases| && n <= |e| && n <= |f|
    requires Units(bases, p)
    requires forall i :: 0 <= i < n ==> f[i] == e[i] * c
    ensures Pow(Product(bases, e, n, p), c) % p == Product(bases, f, n, p)
  {
    if n == 0 {
      PowOne(c);
      SmallMod(1, p);
    } else {
      var k := n - 1;
      ProductPow(bases, e, f, c, k, p);
      GroupExpPow(bases[k], e[k], c, p);
      var x, u := Product(bases, e, k, p), GroupExp(bases[k], e[k], p);
      PowOfProduct(x, u, c, p);
    }
  }

  lemma {:induction false} PowOfProduct(x: int, u: int, c: nat, p: int)
    requires p > 0
    ensures Pow(MulMod(x, u, p), c) % p == MulMod(Pow(x, c) % p, Pow(u, c) % p, p)
  {
    ModIdem(x * u, p);
    PowMod((x * u) % p, x * u, c, p);
    PowProduct(x, u, c);
    ModIdem(Pow(x, c), p);
    ModIdem(Pow(u, c), p);
    ModMul(Pow(x, c) % p, Pow(x, c), Pow(u, c) % p, Pow(u, c), p);
  }

  lemma {:induction false} ProductCong(bases: seq<int>, d: seq<int>, e: seq<int>, n: nat, p: int)
    requires n <= |bases| && n <= |d| && n <= |e|
    requires p >= 2
    requires forall i :: 0 <= i < n ==> d[i] % (p - 1) == e[i] % (p - 1)
    ensures Product(bases, d, n, p) == Product(bases, e, n, p)
  {
    if n > 0 {
      ProductCong(bases, d, e, n - 1, p);
      GroupExpCong(bases[n - 1], d[n - 1], e[n - 1], p);
    }
  }

  // ---------- Cancelling ----------

  lemma {:induction false} CancelUnit(a: int, u: int, v: int, p: int)
    requires Unit(a, p)
    requires 0 <= u < p && 0 <= v < p
    ensures MulMod(a, u, p) == MulMod(a, v, p) <==> u == v
  {
    if (a * u) % p == (a * v) % p {
      CancelFactor(a, u, v, p);
      SmallMod(u, p);
      SmallMod(v, p);
    }
  }
}
