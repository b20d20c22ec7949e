/**
 Balance proofs: the values behind the input commitments add up to the values behind the output
 commitments. The prover divides the product of the one side by the product of the other and proves,
 as a linear equation, that the exponent of g1 left over is zero.
 */
module BalanceProof {
  import opened Common
  import opened NumberTheory
  import opened Bytes
  import opened Group
  import opened Keys
  import opened LinearProof

  const BALANCE_COEFFICIENTS: seq<int> := [1, 0]

  function BalanceBases(pub: PublicKey): seq<seq<byte>>
  {
    [Encode(pub.g1), Encode(pub.h)]
  }

  function Sum(v: seq<int>, n: nat): int
    requires n <= |v|
  {
    if n == 0 then 0 else Sum(v, n - 1) + v[n - 1]
  }

  /** The product of the first n numbers written in bytes, modulo p. */
  function ProductOf(c: seq<seq<byte>>, n: nat, p: nat): nat
    requires n <= |c| && p >= 2
  {
    if n == 0 then 1 else MulMod(ProductOf(c, n - 1, p), Value(c[n - 1]), p)
  }

  /** The statement y of a balance proof: inputs divided by outputs. */
  function Quotient(ins: seq<seq<byte>>, outs: seq<seq<byte>>, p: nat): seq<byte>
    requires p >= 2
  {
    Encode(MulMod(ProductOf(ins, |ins|, p), ModInverse(ProductOf(outs, |outs|, p), p), p))
  }

  function Commitments(c: seq<Commitment>): (s: seq<seq<byte>>)
    ensures |s| == |c| && forall i :: 0 <= i < |c| ==> s[i] == c[i].commitment
  {
    if c == [] then [] else Commitments(c[..|c| - 1]) + [c[|c| - 1].commitment]
  }

  function Randoms(c: seq<Commitment>): (s: seq<nat>)
    ensures |s| == |c| && forall i :: 0 <= i < |c| ==> s[i] == Value(c[i].r)
  {
    if c == [] then [] else Randoms(c[..|c| - 1]) + [Value(c[|c| - 1].r)]
  }

  function Masked(c: seq<CypherText>): (s: seq<seq<byte>>)
    ensures |s| == |c| && forall i :: 0 <= i < |c| ==> s[i] == c[i].c2
  {
    if c == [] then [] else Masked(c[..|c| - 1]) + [c[|c| - 1].c2]
  }

  /** Exponents modulo p - 1. */
  function Reduce(e: int, p: nat): (r: nat)
    requires p >= 2
  {
    e % (p - 1)
  }

  /** The exponents left over: the difference of the values, wrapped to an int64 and written without its
      sign, and the difference of the random numbers modulo p - 1. */
  function BalanceWitness(co: seq<Commitment>, cs: seq<Commitment>, vo: seq<nat>, vs: seq<nat>, p: nat): seq<seq<byte>>
    requires p >= 2
  {
    [Encode(Abs(ToInt64(Sum(vo, |vo|) - Sum(vs, |vs|)))),
     Encode(Reduce(Sum(Randoms(co), |co|) - Sum(Randoms(cs), |cs|), p))]
  }

  // ---------- The two sides ----------

  /** int arithmetic: add or subtract a uint converted to an int, wrapping. */
  function AddWrapped(x: int, v: nat): int
  {
    ToInt64(x + ToInt64(v))
  }

  function SubWrapped(x: int, v: nat): int
  {
    ToInt64(x - ToInt64(v))
  }

  method SumInputs(c: seq<Commitment>, v: seq<nat>, pub: PublicKey) returns (vr: int, rr: nat, cr: nat)
    requires |c| == |v| && pub.p >= 2
    ensures vr == ToInt64(Sum(v, |v|))
    ensures rr == Reduce(Sum(Randoms(c), |c|), pub.p)
    ensures cr == ProductOf(Commitments(c), |c|, pub.p)
  {
    vr, rr, cr := 0, 0, 1;
    ReduceZero(pub.p);
    hide ToInt64, MulMod, Reduce, AddWrapped, SubWrapped, Value;
    for i := 0 to |v|
      invariant vr == ToInt64(Sum(v, i))
      invariant rr == Reduce(Sum(Randoms(c), i), pub.p)
      invariant cr == ProductOf(Commitments(c), i, pub.p)
    {
      WrapStep(Sum(v, i), v[i]);
      ReduceStep(Sum(Randoms(c), i), Value(c[i].r), pub.p);
      vr := AddWrapped(vr, v[i]);
      rr := Reduce(rr + Value(c[i].r), pub.p);
      cr := MulMod(cr, Value(c[i].commitment), pub.p);
    }
  }

  /** The second loop, subtracting the outputs from what the first loop left. */
  method SubtractOutputs(c: seq<Commitment>, v: seq<nat>, pub: PublicKey, ghost vo: int, ghost ro: int, vr0: int, rr0: nat)
    returns (vr: int, rr: nat, csc: nat)
    requires |c| == |v| && pub.p >= 2
    requires vr0 == ToInt64(vo) && rr0 == Reduce(ro, pub.p)
    ensures vr == ToInt64(vo - Sum(v, |v|))
    ensures rr == Reduce(ro - Sum(Randoms(c), |c|), pub.p)
    ensures csc == ProductOf(Commitments(c), |c|, pub.p)
  {
    hide ToInt64, MulMod, Reduce, AddWrapped, SubWrapped, Value, Commitments, Randoms;
    vr, rr, csc := vr0, rr0, 1;
    for i := 0 to |v|
      invariant vr == ToInt64(vo - Sum(v, i))
      invariant rr == Reduce(ro - Sum(Randoms(c), i), pub.p)
      invariant csc == ProductOf(Commitments(c), i, pub.p)
    {
      ghost var s, t, r := vo - Sum(v, i), ro - Sum(Randoms(c), i), Value(c[i].r);
      WrapStep(s, v[i]);
      ReduceStep(t, r, pub.p);
      assert vo - Sum(v, i + 1) == s - v[i] && ro - Sum(Randoms(c), i + 1) == t - r;
      vr := SubWrapped(vr, v[i]);
      rr := Reduce(rr - Value(c[i].r), pub.p);
      csc := MulMod(csc, Value(c[i].commitment), pub.p);
    }
  }

  /** Wrapping after every step is wrapping once at the end. */
  lemma {:induction false} WrapStep(x: int, v: nat)
    ensures AddWrapped(ToInt64(x), v) == ToInt64(x + v)
    ensures SubWrapped(ToInt64(x), v) == ToInt64(x - v)
  {
    var j, k := (x + TWO_63) / UINT64, (v + TWO_63) / UINT64;
    assert ToInt64(x) == x - j * UINT64 && ToInt64(v) == v - k * UINT64;
    AddMultiple(x + v + TWO_63, -j - k, UINT64);
    AddMultiple(x - v + TWO_63, -j + k, UINT64);
  }

  lemma {:induction false} ReduceZero(p: nat)
    requires p >= 2
    ensures Reduce(0, p) == 0
  {
    SmallMod(0, p - 1);
  }

  lemma {:induction false} ReduceStep(x: int, r: int, p: nat)
    requires p >= 2
    ensures Reduce(Reduce(x, p) + r, p) == Reduce(x + r, p)
    ensures Reduce(Reduce(x, p) - r, p) == Reduce(x - r, p)
  {
    var m := p - 1;
    ModIdem(x, m);
    ModAdd(x % m, x, r, r, m);
  }

  lemma {:induction false} QuotientOf(co: seq<Commitment>, cs: seq<Commitment>, p: nat, cr: nat, csc: nat)
    requires p >= 2 && cr == ProductOf(Commitments(co), |co|, p) && csc == ProductOf(Commitments(cs), |cs|, p)
    ensures Quotient(Commitments(co), Commitments(cs), p) == Encode(MulMod(cr, ModInverse(csc, p), p))
  {
    hide ProductOf, MulMod, ModInverse, Encode;
  }

  /** Both loops and the division: the statement of the proof and its witness. */
  method BalanceStatement(pub: PublicKey, co: seq<Commitment>, cs: seq<Commitment>, vo: seq<nat>, vs: seq<nat>)
    returns (y: seq<byte>, x: seq<seq<byte>>)
    requires pub.p >= 2 && |co| == |vo| && |cs| == |vs|
    ensures y == Quotient(Commitments(co), Commitments(cs), pub.p)
    ensures x == BalanceWitness(co, cs, vo, vs, pub.p)
  {
    var vr, rr, cr := SumInputs(co, vo, pub);
    var csc;
    vr, rr, csc := SubtractOutputs(cs, vs, pub, Sum(vo, |vo|), Sum(Randoms(co), |co|), vr, rr);
    x := [Encode(Abs(vr)), Encode(rr)];
    y := Encode(MulMod(cr, ModInverse(csc, pub.p), pub.p));
    QuotientOf(co, cs, pub.p, cr, csc);
  }

  method GenerateBalanceProof(pub: PublicKey, co: seq<Commitment>, cs: seq<Commitment>, vo: seq<nat>, vs: seq<nat>,
                              rnd: seq<nat>, sha: Sha256) returns (bp: Proof)
    requires pub.p >= 2 && |rnd| == RandomsNeeded(BALANCE_COEFFICIENTS)
    ensures bp == if |co| != |vo| || |cs| != |vs| then Proof([], [])
                  else Honest(Quotient(Commitments(co), Commitments(cs), pub.p), BALANCE_COEFFICIENTS,
                              BalanceWitness(co, cs, vo, vs, pub.p), BalanceBases(pub), pub.p, rnd, sha)
  {
    if |co| != |vo| || |cs| != |vs| {
      return Proof([], []);
    }
    var y, x := BalanceStatement(pub, co, cs, vo, vs);
    bp := GenerateLinearEquationProof(y, 0, BALANCE_COEFFICIENTS, x, BalanceBases(pub), pub, rnd, sha);
  }

  method VerifyBalanceProof(pub: PublicKey, co: seq<CypherText>, cs: seq<CypherText>, bp: Proof, sha: Sha256) returns (ok: bool)
    requires pub.p >= 2
    ensures ok <==> Accepts(bp, Quotient(Masked(co), Masked(cs), pub.p), 0, BALANCE_COEFFICIENTS, BalanceBases(pub), pub.p, sha)
  {
    var cr := 1;
    for i := 0 to |co|
      invariant cr == ProductOf(Masked(co), i, pub.p)
    {
      cr := MulMod(cr, Value(co[i].c2), pub.p);
    }
    var csc := 1;
    for i := 0 to |cs|
      invariant csc == ProductOf(Masked(cs), i, pub.p)
    {
      csc := MulMod(csc, Value(cs[i].c2), pub.p);
    }
    var y := Encode(MulMod(cr, ModInverse(csc, pub.p), pub.p));
    ok := VerifyLinearEquationProof(bp, y, 0, BALANCE_COEFFICIENTS, BalanceBases(pub), pub, sha);
  }

  // ---------- When balance proofs are accepted ----------

  /** c are commitments to the values v under pub, made with the random numbers r. */
  ghost predicate CommitTo(pub: PublicKey, c: seq<Commitment>, v: seq<nat>, r: seq<seq<byte>>)
    requires pub.p >= 2
  {
    && |c| == |v| == |r|
    && forall i :: 0 <= i < |c| ==> v[i] < pub.p && c[i] == Commit(pub, v[i], r[i])
  }

  /** Ciphertexts that carry the commitments give the verifier the prover's statement. */
  lemma {:induction false} MaskedIsCommitments(ct: seq<CypherText>, c: seq<Commitment>)
    requires |ct| == |c| && forall i :: 0 <= i < |c| ==> ct[i].c2 == c[i].commitment
    ensures Masked(ct) == Commitments(c)
  {
  }

  /** The product of commitments is a commitment to the sums. */
  lemma {:induction false} ProductOfCommitments(pub: PublicKey, c: seq<Commitment>, v: seq<nat>, r: seq<seq<byte>>, n: nat)
    requires ValidKey(pub) && CommitTo(pub, c, v, r) && n <= |c|
    ensures ProductOf(Commitments(c), n, pub.p) == Opening(pub, Sum(v, n), Sum(Randoms(c), n))
  {
    hide MulMod, Opening, Commit, IsPrime, Value;
    if n == 0 {
      OpeningZero(pub);
    } else {
      var k := n - 1;
      ProductOfCommitments(pub, c, v, r, k);
      CommitOpens(pub, v[k], r[k]);
      SmallMod(v[k], pub.p);
      OpeningAdd(pub, Sum(v, k), Sum(Randoms(c), k), v[k], Value(c[k].r));
    }
  }

  lemma {:induction false} ProductOfTwoPowers(pub: PublicKey, d: int, e: int)
    requires ValidKey(pub)
    ensures Product([pub.g1, pub.h], [d, e], 2, pub.p) == MulMod(GroupExp(pub.g1, d, pub.p), GroupExp(pub.h, e, pub.p), pub.p)
  {
    KeyUnits(pub);
    GroupExpUnit(pub.g1, d, pub.p);
    hide GroupExp, MulMod, IsPrime;
    MulModOne(GroupExp(pub.g1, d, pub.p), pub.p);
    assert Product([pub.g1, pub.h], [d, e], 1, pub.p) == GroupExp(pub.g1, d, pub.p);
  }

  /** The quotient of two products of commitments is a commitment to the differences. */
  lemma {:induction false} QuotientOpens(pub: PublicKey, co: seq<Commitment>, cs: seq<Commitment>, vo: seq<nat>, vs: seq<nat>,
                                         ro: seq<seq<byte>>, rs: seq<seq<byte>>)
    requires ValidKey(pub) && CommitTo(pub, co, vo, ro) && CommitTo(pub, cs, vs, rs)
    ensures Value(Quotient(Commitments(co), Commitments(cs), pub.p))
         == Opening(pub, Sum(vo, |vo|) - Sum(vs, |vs|), Sum(Randoms(co), |co|) - Sum(Randoms(cs), |cs|))
  {
    hide IsPrime, Opening, Sum, ProductOf, CommitTo, Commitments, Randoms, ModInverse, MulMod, Value, Encode, Quotient;
    CommitLengths(pub, co, vo, ro);
    CommitLengths(pub, cs, vs, rs);
    ProductOfCommitments(pub, co, vo, ro, |co|);
    ProductOfCommitments(pub, cs, vs, rs, |cs|);
    DivideOpenings(pub, Sum(vo, |vo|), Sum(Randoms(co), |co|), Sum(vs, |vs|), Sum(Randoms(cs), |cs|));
    var cr, csc := ProductOf(Commitments(co), |co|, pub.p), ProductOf(Commitments(cs), |cs|, pub.p);
    QuotientOf(co, cs, pub.p, cr, csc);
    ValueOfEncode(MulMod(cr, ModInverse(csc, pub.p), pub.p));
  }

  lemma {:induction false} DivideOpenings(pub: PublicKey, d: int, e: int, d': int, e': int)
    requires ValidKey(pub)
    ensures MulMod(Opening(pub, d, e), ModInverse(Opening(pub, d', e'), pub.p), pub.p) == Opening(pub, d - d', e - e')
  {
    hide IsPrime, Opening, ModInverse, MulMod;
    var b, q := Opening(pub, d', e'), Opening(pub, d - d', e - e');
    OpeningAdd(pub, d - d', e - e', d', e');
    OpeningUnit(pub, d', e');
    OpeningUnit(pub, d - d', e - e');
    PrimeInvertible(b, pub.p);
    ModInverseCorrect(b, pub.p);
    MaskOff(q, b, ModInverse(b, pub.p), pub.p);
  }

  lemma {:induction false} CommitLengths(pub: PublicKey, c: seq<Commitment>, v: seq<nat>, r: seq<seq<byte>>)
    requires pub.p >= 2 && CommitTo(pub, c, v, r)
    ensures |c| == |v| == |r|
  {
  }

  lemma {:induction false} BalanceUnits(pub: PublicKey)
    requires ValidKey(pub)
    ensures pub.p >= 5 && IsPrime(pub.p) && Units([pub.g1, pub.h], pub.p)
    ensures Values(BalanceBases(pub)) == [pub.g1, pub.h]
  {
    KeyUnits(pub);
    ValueOfEncode(pub.g1);
    ValueOfEncode(pub.h);
  }

  lemma {:induction false} BalanceSolvable(m: nat)
    requires m > 0
    ensures Solvable(BALANCE_COEFFICIENTS, m)
  {
    assert LastNonzero(BALANCE_COEFFICIENTS, 2) == 0;
    OneInvertible(m);
  }

  lemma {:induction false} BalanceDot(x: seq<int>)
    requires |x| == 2
    ensures Dot(BALANCE_COEFFICIENTS, x, 2) == x[0]
  {
    assert Dot(BALANCE_COEFFICIENTS, x, 1) == x[0];
  }

  /** Writing the difference of the values without its sign does no harm: when c d vanishes modulo p - 1, so
      does c |d|, and both sides of the power check are powers of h alone. */
  lemma {:induction false} QuotientPower(pub: PublicKey, y: nat, d: int, e: int, c: nat)
    requires ValidKey(pub)
    requires y == Opening(pub, d, e)
    requires (c * Abs(d)) % (pub.p - 1) == 0
    ensures Exp(y, c, pub.p) == Product([pub.g1, pub.h], Scaled([Abs(d), Reduce(e, pub.p)], c), 2, pub.p)
  {
    var p, g := pub.p, [pub.g1, pub.h];
    BalanceUnits(pub);
    ProductOfTwoPowers(pub, d, e);
    ProductPow(g, [d, e], [d * c, e * c], c, 2, p);
    var f := Scaled([Abs(d), Reduce(e, p)], c);
    SignIrrelevant(c, d, p - 1);
    ModMulLeft(e, c, p - 1);
    assert c * Abs(d) == Abs(d) * c;
    ProductCong(g, [d * c, e * c], f, 2, p);
  }

  lemma {:induction false} SignIrrelevant(c: int, d: int, m: int)
    requires m > 0
    ensures (c * Abs(d)) % m == 0 <==> (c * d) % m == 0
    ensures (c * d) % m == 0 ==> (d * c) % m == 0 && (Abs(d) * c) % m == 0
  {
    SmallMod(0, m);
    assert c * d == d * c && c * Abs(d) == Abs(d) * c;
    if d < 0 {
      assert c * Abs(d) == -(c * d);
      if (c * d) % m == 0 {
        ModAdd(0, 0, c * d, 0, m);
      }
      if (c * Abs(d)) % m == 0 {
        ModAdd(0, 0, c * Abs(d), 0, m);
      }
    }
  }

  /** The challenge c times the difference d is zero modulo p - 1. */
  predicate Vanishes(c: nat, d: int, p: nat)
    requires p >= 2
  {
    (c * d) % (p - 1) == 0
  }

  /** bp is the honest proof of the statement y about the inputs co and the outputs cs. */
  ghost predicate HonestBalance(pub: PublicKey, co: seq<Commitment>, cs: seq<Commitment>, vo: seq<nat>, vs: seq<nat>,
                                rnd: seq<nat>, sha: Sha256, y: seq<byte>, bp: Proof)
    requires pub.p >= 2
  {
    && |rnd| == RandomsNeeded(BALANCE_COEFFICIENTS)
    && y == Quotient(Commitments(co), Commitments(cs), pub.p)
    && bp == Honest(y, BALANCE_COEFFICIENTS, BalanceWitness(co, cs, vo, vs, pub.p), BalanceBases(pub), pub.p, rnd, sha)
  }

  /** For commitments made under one key, the honest balance proof is accepted exactly when the challenge
      times the difference of the sums vanishes modulo p - 1. */
  lemma {:induction false} BalanceProofExact(pub: PublicKey, co: seq<Commitment>, cs: seq<Commitment>, vo: seq<nat>, vs: seq<nat>,
                                             ro: seq<seq<byte>>, rs: seq<seq<byte>>, rnd: seq<nat>, sha: Sha256, y: seq<byte>, bp: Proof)
    requires ValidKey(pub) && CommitTo(pub, co, vo, ro) && CommitTo(pub, cs, vs, rs)
    requires -TWO_63 <= Sum(vo, |vo|) - Sum(vs, |vs|) < TWO_63
    requires HonestBalance(pub, co, cs, vo, vs, rnd, sha, y, bp)
    ensures Accepts(bp, y, 0, BALANCE_COEFFICIENTS, BalanceBases(pub), pub.p, sha)
       <==> Vanishes(Challenge(BalanceBases(pub), y, bp.t, pub.p, sha), Sum(vo, |vo|) - Sum(vs, |vs|), pub.p)
  {
    hide *;
    var d, e := Sum(vo, |vo|) - Sum(vs, |vs|), Sum(Randoms(co), |co|) - Sum(Randoms(cs), |cs|);
    ModulusBound(pub);
    QuotientOpens(pub, co, cs, vo, vs, ro, rs);
    BalanceWitnessValues(co, cs, vo, vs, pub.p);
    HonestBalanceParts(pub, co, cs, vo, vs, rnd, sha, y, bp);
    BalanceOfDifference(pub, BalanceWitness(co, cs, vo, vs, pub.p), y, bp, d, e, rnd, sha);
  }

  lemma {:induction false} ModulusBound(pub: PublicKey)
    requires ValidKey(pub)
    ensures pub.p >= 5
  {
  }

  lemma {:induction false} HonestBalanceParts(pub: PublicKey, co: seq<Commitment>, cs: seq<Commitment>, vo: seq<nat>,
      vs: seq<nat>,
                                              rnd: seq<nat>, sha: Sha256, y: seq<byte>, bp: Proof)
    requires pub.p >= 5
    requires HonestBalance(pub, co, cs, vo, vs, rnd, sha, y, bp)
    ensures |rnd| == RandomsNeeded(BALANCE_COEFFICIENTS)
    ensures y == Quotient(Commitments(co), Commitments(cs), pub.p)
    ensures |BalanceWitness(co, cs, vo, vs, pub.p)| == |BalanceBases(pub)| == |BALANCE_COEFFICIENTS| == 2
    ensures bp == Honest(y, BALANCE_COEFFICIENTS, BalanceWitness(co, cs, vo, vs, pub.p), BalanceBases(pub), pub.p, rnd, sha)
  {
    hide Honest, RandomsNeeded, Quotient, Commitments;
  }

  lemma {:induction false} BalanceOfDifference(pub: PublicKey, x: seq<seq<byte>>, y: seq<byte>, bp: Proof, d: int, e: int,
                                               rnd: seq<nat>, sha: Sha256)
    requires ValidKey(pub) && |rnd| == RandomsNeeded(BALANCE_COEFFICIENTS)
    requires |x| == |BalanceBases(pub)| == |BALANCE_COEFFICIENTS| == 2
    requires Values(x) == [Abs(d), Reduce(e, pub.p)] && Value(y) == Opening(pub, d, e)
    requires bp == Honest(y, BALANCE_COEFFICIENTS, x, BalanceBases(pub), pub.p, rnd, sha)
    ensures Accepts(bp, y, 0, BALANCE_COEFFICIENTS, BalanceBases(pub), pub.p, sha)
       <==> Vanishes(Challenge(BalanceBases(pub), y, bp.t, pub.p, sha), d, pub.p)
  {
    hide IsPrime, Opening, Honest, Accepts, Challenge, Values, Solvable, Value, RandomsNeeded, Units, Reduce,
        Provable, BalanceBases, Vanishes;
    BalanceUnits(pub);
    BalanceSolvable(pub.p - 1);
    LinearProofExact(y, 0, BALANCE_COEFFICIENTS, x, BalanceBases(pub), pub.p, rnd, sha);
    BalanceProvable(pub, y, d, e, Challenge(BalanceBases(pub), y, bp.t, pub.p, sha));
  }

  /** The conditions of LinearProofExact, for the statement of a balance proof. */
  lemma {:induction false} BalanceProvable(pub: PublicKey, y: seq<byte>, d: int, e: int, c: nat)
    requires ValidKey(pub)
    requires Value(y) == Opening(pub, d, e)
    ensures Provable(y, 0, BALANCE_COEFFICIENTS, [Abs(d), Reduce(e, pub.p)], [pub.g1, pub.h], pub.p, c)
       <==> Vanishes(c, d, pub.p)
  {
    hide IsPrime, Opening, Product, Scaled, Value, Reduce, ToUint64, Exp, Dot;
    BalanceDot([Abs(d), Reduce(e, pub.p)]);
    SignIrrelevant(c, d, pub.p - 1);
    ZeroConstant(c);
    if (c * Abs(d)) % (pub.p - 1) == 0 {
      QuotientPower(pub, Value(y), d, e, c);
    }
  }

  lemma {:induction false} ZeroConstant(c: nat)
    ensures c * ToUint64(0) == 0
  {
    SmallMod(0, UINT64);
  }

  lemma {:induction false} BalanceWitnessValues(co: seq<Commitment>, cs: seq<Commitment>, vo: seq<nat>, vs: seq<nat>, p: nat)
    requires p >= 2
    requires -TWO_63 <= Sum(vo, |vo|) - Sum(vs, |vs|) < TWO_63
    ensures Values(BalanceWitness(co, cs, vo, vs, p))
         == [Abs(Sum(vo, |vo|) - Sum(vs, |vs|)), Reduce(Sum(Randoms(co), |co|) - Sum(Randoms(cs), |cs|), p)]
  {
    hide Sum, Randoms, Encode, Value, Reduce;
    var d := Sum(vo, |vo|) - Sum(vs, |vs|);
    SmallMod(d + TWO_63, UINT64);
    ValueOfEncode(Abs(d));
    ValueOfEncode(Reduce(Sum(Randoms(co), |co|) - Sum(Randoms(cs), |cs|), p));
  }

  /** Balanced lists of any length are always accepted. */
  lemma {:induction false} BalancedAccepted(pub: PublicKey, co: seq<Commitment>, cs: seq<Commitment>, vo: seq<nat>, vs: seq<nat>,
                                            ro: seq<seq<byte>>, rs: seq<seq<byte>>, rnd: seq<nat>, sha: Sha256, y: seq<byte>, bp: Proof)
    requires ValidKey(pub) && CommitTo(pub, co, vo, ro) && CommitTo(pub, cs, vs, rs)
    requires Sum(vo, |vo|) == Sum(vs, |vs|)
    requires HonestBalance(pub, co, cs, vo, vs, rnd, sha, y, bp)
    ensures Accepts(bp, y, 0, BALANCE_COEFFICIENTS, BalanceBases(pub), pub.p, sha)
  {
    hide Accepts, Challenge, HonestBalance, CommitTo, Sum, IsPrime, BalanceBases;
    BalanceProofExact(pub, co, cs, vo, vs, ro, rs, rnd, sha, y, bp);
    SmallMod(0, pub.p - 1);
  }
}
