/**
 Fiat-Shamir proofs that exponents behind a product of powers satisfy a linear equation, and the
 equality proofs built on them. Statement: y = prod g[i]^x[i] and sum a[i] x[i] = b.
 */
module LinearProof {
  import opened Common
  import opened NumberTheory
  import opened Bytes
  import opened Group
  import opened Keys

  datatype Proof = Proof(s: seq<seq<byte>>, t: seq<byte>)

  const TWO_63 := 0x8000_0000_0000_0000

  /** Go's conversion of an int to a uint64. */
  function ToUint64(b: int): nat
  {
    b % UINT64
  }

  /** Go's conversion to an int64, which wraps. */
  function ToInt64(v: int): int
  {
    (v + TWO_63) % UINT64 - TWO_63
  }

  function Abs(x: int): nat
  {
    if x < 0 then -x else x
  }

  /** The numbers behind byte strings. */
  function Values(bs: seq<seq<byte>>): (vs: seq<nat>)
    ensures |vs| == |bs|
    ensures forall i :: 0 <= i < |bs| ==> vs[i] == Value(bs[i])
  {
    if bs == [] then [] else Values(bs[..|bs| - 1]) + [Value(bs[|bs| - 1])]
  }

  /** The inner product of the first n entries. */
  function Dot(a: seq<int>, v: seq<int>, n: nat): int
    requires n <= |a| && n <= |v|
  {
    if n == 0 then 0 else Dot(a, v, n - 1) + a[n - 1] * v[n - 1]
  }

  /** The product of the first n powers as the code computes it, without assuming the bases are units. */
  function PowerProduct(bases: seq<nat>, exps: seq<nat>, n: nat, p: nat): nat
    requires n <= |bases| && n <= |exps|
    requires p >= 2
  {
    if n == 0 then 1 else MulMod(PowerProduct(bases, exps, n - 1, p), Exp(bases[n - 1], exps[n - 1], p), p)
  }

  lemma {:induction false} PowerProductIsProduct(bases: seq<nat>, exps: seq<nat>, n: nat, p: nat)
    requires n <= |bases| && n <= |exps|
    requires Units(bases, p)
    ensures PowerProduct(bases, exps, n, p) == Product(bases, exps, n, p)
  {
    if n > 0 {
      PowerProductIsProduct(bases, exps, n - 1, p);
      ExpIsGroupExp(bases[n - 1], exps[n - 1], p);
    }
  }

  // ---------- The prover ----------

  /** The index of the last nonzero coefficient among the first n, or -1. */
  function LastNonzero(a: seq<int>, n: nat): (l: int)
    requires n <= |a|
    ensures -1 <= l < n
    ensures l >= 0 ==> a[l] != 0
    ensures forall j :: l < j < n ==> a[j] == 0
  {
    if n == 0 then -1 else if a[n - 1] != 0 then n - 1 else LastNonzero(a, n - 1)
  }

  function CountNonzero(a: seq<int>, n: nat): nat
    requires n <= |a|
  {
    if n == 0 then 0 else CountNonzero(a, n - 1) + (if a[n - 1] == 0 then 0 else 1)
  }

  /** How many random numbers the prover draws: one per coefficient, less one when some coefficient is nonzero. */
  function RandomsNeeded(a: seq<int>): nat
  {
    if LastNonzero(a, |a|) < 0 then |a| else |a| - 1
  }

  /** Entry i of the prover's random vector: random numbers, except that the entry at the last nonzero
      coefficient is solved for so that the vector is orthogonal to a modulo m. */
  function NonceAt(a: seq<int>, rnd: seq<nat>, m: nat, i: nat): nat
    requires |rnd| == RandomsNeeded(a) && i < |a| && m > 0
  {
    var l := LastNonzero(a, |a|);
    if l < 0 || i < l then rnd[i]
    else if i == l then SolvedEntry(Remaining(a, rnd, l, m), a[l], m)
    else rnd[i - 1]
  }

  /** What the entries before n leave for the rest of the inner product. */
  function Remaining(a: seq<int>, rnd: seq<nat>, n: nat, m: nat): nat
    requires n <= |a| && n <= |rnd| && m > 0
  {
    (-Dot(a, rnd, n)) % m
  }

  function SolvedEntry(last: nat, a: int, m: nat): nat
    requires m > 0
  {
    (last * ModInverse(a, m)) % m
  }

  function Nonces(a: seq<int>, rnd: seq<nat>, m: nat): (v: seq<nat>)
    requires |rnd| == RandomsNeeded(a) && m > 0
    ensures |v| == |a|
    ensures forall i :: 0 <= i < |a| ==> v[i] == NonceAt(a, rnd, m, i)
  {
    seq(|a|, i requires 0 <= i < |a| => NonceAt(a, rnd, m, i))
  }

  function Challenge(g: seq<seq<byte>>, y: seq<byte>, t: seq<byte>, p: nat, sha: Sha256): nat
    requires p >= 2
  {
    Value(sha(Concat(g, |g|) + y + t)) % p
  }

  /** The bases are hashed from the first to the last, each of them whole. */
  lemma {:induction false} ConcatFront(g: seq<seq<byte>>, n: nat)
    requires 0 < n <= |g|
    ensures Concat(g, n) == g[0] + Concat(g[1..], n - 1)
  {
    if n > 1 {
      ConcatFront(g, n - 1);
      assert g[1..][n - 2] == g[n - 1];
    }
  }

  /** The answer v - c x modulo m. */
  function AnswerTo(v: nat, x: nat, c: nat, m: nat): nat
    requires m > 0
  {
    (v - c * x) % m
  }

  function Answers(v: seq<nat>, x: seq<nat>, c: nat, m: nat): (s: seq<seq<byte>>)
    requires |v| == |x| && m > 0
    ensures |s| == |v|
    ensures forall i :: 0 <= i < |v| ==> s[i] == Encode(AnswerTo(v[i], x[i], c, m))
  {
    seq(|v|, i requires 0 <= i < |v| => Encode(AnswerTo(v[i], x[i], c, m)))
  }

  /** The proof an honest prover sends. */
  function Honest(y: seq<byte>, a: seq<int>, x: seq<seq<byte>>, g: seq<seq<byte>>, p: nat, rnd: seq<nat>, sha: Sha256): Proof
    requires |x| == |g| == |a| && |rnd| == RandomsNeeded(a) && p >= 2
  {
    var v := Nonces(a, rnd, p - 1);
    var t := Encode(PowerProduct(Values(g), v, |g|, p));
    Proof(Answers(v, Values(x), Challenge(g, y, t, p, sha), p - 1), t)
  }

  /** All random numbers are in the prover's vector, in their order: in place of a, or around the last nonzero entry l. */
  lemma {:induction false} NoncesRandom(a: seq<int>, rnd: seq<nat>, m: nat, l: int, i: nat)
    requires |rnd| == RandomsNeeded(a) && m > 0 && i < |a| && -1 <= l < |a|
    requires (l >= 0 ==> a[l] != 0) && forall j :: l < j < |a| ==> a[j] == 0
    ensures |rnd| == (if l < 0 then |a| else |a| - 1)
    ensures l < 0 || i < l ==> Nonces(a, rnd, m)[i] == rnd[i]
    ensures 0 <= l < i ==> Nonces(a, rnd, m)[i] == rnd[i - 1]
  {
    hide SolvedEntry, Remaining;
    assert l == LastNonzero(a, |a|);
  }

  method GenerateNonces(a: seq<int>, rnd: seq<nat>, m: nat) returns (v: seq<nat>)
    requires |rnd| == RandomsNeeded(a) && m > 0
    ensures v == Nonces(a, rnd, m)
  {
    var ssnum := 0;
    for i := 0 to |a|
      invariant ssnum == CountNonzero(a, i)
    {
      if a[i] != 0 {
        ssnum := ssnum + 1;
      }
    }
    v := [];
    var line := 0;
    var last := 0;
    ghost var l := LastNonzero(a, |a|);
    SmallMod(0, m);
    for i := 0 to |a|
      invariant |v| == i
      invariant forall j :: 0 <= j < i ==> v[j] == NonceAt(a, rnd, m, j)
      invariant ssnum == CountNonzero(a, |a|) - CountNonzero(a, i)
      invariant line == if 0 <= l < i then i - 1 else i
      invariant i <= l ==> last == Remaining(a, rnd, i, m)
    {
      hide Remaining, SolvedEntry;
      if a[i] == 0 {
        if i < l {
          RemainingStep(a, rnd, i, m);
        }
        v := v + [rnd[line]];
        line := line + 1;
      } else {
        CountsReach(a, i);
        if ssnum == 1 {
          v := v + [SolvedEntry(last, a[i], m)];
        } else {
          v := v + [rnd[line]];
          line := line + 1;
          RemainingStep(a, rnd, i, m);
          last := (last - a[i] * rnd[i]) % m;
        }
        ssnum := ssnum - 1;
      }
    }
  }

  /** At a nonzero entry i, exactly one nonzero entry remains iff i is the last nonzero one. */
  lemma {:induction false} CountsReach(a: seq<int>, i: nat)
    requires i < |a| && a[i] != 0
    ensures CountNonzero(a, |a|) - CountNonzero(a, i) == 1 <==> i == LastNonzero(a, |a|)
    ensures i <= LastNonzero(a, |a|)
  {
    var l := LastNonzero(a, |a|);
    CountZeros(a, l + 1, |a|);
    CountGrows(a, i + 1, l + 1);
    if i < l {
      CountGrows(a, i + 1, l);
    }
  }

  lemma {:induction false} CountZeros(a: seq<int>, i: nat, n: nat)
    requires i <= n <= |a|
    requires forall j :: i <= j < n ==> a[j] == 0
    ensures CountNonzero(a, n) == CountNonzero(a, i)
  {
    if i < n {
      CountZeros(a, i, n - 1);
    }
  }

  lemma {:induction false} CountGrows(a: seq<int>, i: nat, n: nat)
    requires i <= n <= |a|
    ensures CountNonzero(a, i) <= CountNonzero(a, n)
  {
    if i < n {
      CountGrows(a, i, n - 1);
    }
  }

  lemma {:induction false} RemainingStep(a: seq<int>, rnd: seq<nat>, i: nat, m: nat)
    requires i < |a| && i < |rnd| && m > 0
    ensures Remaining(a, rnd, i + 1, m) == (Remaining(a, rnd, i, m) - a[i] * rnd[i]) % m
    ensures a[i] == 0 ==> Remaining(a, rnd, i + 1, m) == Remaining(a, rnd, i, m)
  {
    var d, e := Dot(a, rnd, i), a[i] * rnd[i];
    ModIdem(-d, m);
    ModAdd((-d) % m, -d, e, e, m);
    assert a[i] == 0 ==> e == 0;
  }

  method CommitToNonces(g: seq<seq<byte>>, v: seq<nat>, p: nat) returns (t: nat, mash: seq<byte>)
    requires |v| == |g| && p >= 2
    ensures t == PowerProduct(Values(g), v, |g|, p)
    ensures mash == Concat(g, |g|)
  {
    t, mash := 1, [];
    for i := 0 to |g|
      invariant t == PowerProduct(Values(g), v, i, p)
      invariant mash == Concat(g, i)
    {
      t := MulMod(t, Exp(Value(g[i]), v[i], p), p);
      mash := mash + g[i];
    }
  }

  method Answer(v: seq<nat>, x: seq<seq<byte>>, c: nat, m: nat) returns (s: seq<seq<byte>>)
    requires |v| == |x| && m > 0
    ensures s == Answers(v, Values(x), c, m)
  {
    s := [];
    for i := 0 to |v|
      invariant |s| == i
      invariant forall j :: 0 <= j < i ==> s[j] == Answers(v, Values(x), c, m)[j]
    {
      s := s + [Encode(AnswerTo(v[i], Value(x[i]), c, m))];
    }
  }

  lemma {:induction false} HonestAnswers(y: seq<byte>, a: seq<int>, x: seq<seq<byte>>, g: seq<seq<byte>>, p: nat, rnd: seq<nat>, sha: Sha256)
    requires |x| == |g| == |a| && |rnd| == RandomsNeeded(a) && p >= 2
    ensures var lp := Honest(y, a, x, g, p, rnd, sha);
            var c := Value(sha(Concat(g, |g|) + y + lp.t)) % p;
            |lp.s| == |a| && forall i :: 0 <= i < |a| ==> lp.s[i] == Encode((Nonces(a, rnd, p - 1)[i] - c * Value(x[i])) % (p - 1))
  {
    hide Value, Encode, Concat, NonceAt, PowerProduct;
  }

  method GenerateLinearEquationProof(y: seq<byte>, b: int, a: seq<int>, x: seq<seq<byte>>, g: seq<seq<byte>>,
                                     pub: PublicKey, rnd: seq<nat>, sha: Sha256) returns (lp: Proof)
    requires pub.p >= 2 && |rnd| == RandomsNeeded(a)
    ensures lp == if |x| == |g| == |a| then Honest(y, a, x, g, pub.p, rnd, sha) else Proof([], [])
    ensures |x| == |g| == |a| ==>
              var c := Value(sha(Concat(g, |g|) + y + lp.t)) % pub.p;
              |lp.s| == |a| && forall i :: 0 <= i < |a| ==> lp.s[i] == Encode((Nonces(a, rnd, pub.p - 1)[i] - c * Value(x[i])) % (pub.p - 1))
  {
    hide Value, Encode, Concat, NonceAt, PowerProduct, Nonces, Answers, Values;
    if |x| != |g| || |g| != |a| {
      return Proof([], []);
    }
    HonestAnswers(y, a, x, g, pub.p, rnd, sha);
    var v := GenerateNonces(a, rnd, pub.p - 1);
    var t, mash := CommitToNonces(g, v, pub.p);
    var tb := Encode(t);
    mash := mash + y;
    mash := mash + tb;
    var c := Value(sha(mash)) % pub.p;
    var s := Answer(v, x, c, pub.p - 1);
    lp := Proof(s, tb);
  }

  // ---------- The verifier ----------

  /** The two checks of the verifier. The second compares a remainder with -(c b). */
  predicate Accepts(lp: Proof, y: seq<byte>, b: int, a: seq<int>, g: seq<seq<byte>>, p: nat, sha: Sha256)
    requires p >= 2
  {
    && |lp.s| == |g| == |a|
    && var c := Challenge(g, y, lp.t, p, sha);
       && MulMod(Exp(Value(y), c, p), PowerProduct(Values(g), Values(lp.s), |g|, p), p) == Value(lp.t)
       && Dot(a, Values(lp.s), |a|) % (p - 1) == -(c * ToUint64(b))
  }

  method RecomputeCommitment(yc: nat, g: seq<seq<byte>>, s: seq<seq<byte>>, p: nat) returns (t: nat)
    requires |s| == |g| && 0 <= yc < p && p >= 2
    ensures t == MulMod(yc, PowerProduct(Values(g), Values(s), |g|, p), p)
  {
    t := yc;
    MulModOne(t, p);
    for i := 0 to |g|
      invariant t == MulMod(yc, PowerProduct(Values(g), Values(s), i, p), p)
    {
      MulModAssoc(yc, PowerProduct(Values(g), Values(s), i, p), Exp(Value(g[i]), Value(s[i]), p), p);
      t := MulMod(t, Exp(Value(g[i]), Value(s[i]), p), p);
    }
  }

  method SumAnswers(a: seq<int>, s: seq<seq<byte>>, m: nat) returns (mix: nat)
    requires |s| == |a| && m > 0
    ensures mix == Dot(a, Values(s), |a|) % m
  {
    mix := 0;
    SmallMod(0, m);
    for i := 0 to |a|
      invariant mix == Dot(a, Values(s), i) % m
    {
      SumStep(Dot(a, Values(s), i), a[i] * Value(s[i]), m);
      mix := (mix + (a[i] * Value(s[i])) % m) % m;
    }
  }

  method VerifyLinearEquationProof(lp: Proof, y: seq<byte>, b: int, a: seq<int>, g: seq<seq<byte>>,
                                   pub: PublicKey, sha: Sha256) returns (ok: bool)
    requires pub.p >= 2
    ensures ok <==> Accepts(lp, y, b, a, g, pub.p, sha)
    ensures ok ==> |lp.s| == |g| == |a|
    ensures |lp.s| == |g| == |a| ==>
              var c := Value(sha(Concat(g, |g|) + y + lp.t)) % pub.p;
              ok <==> && MulMod(Exp(Value(y), c, pub.p), PowerProduct(Values(g), Values(lp.s), |g|, pub.p), pub.p) == Value(lp.t)
                      && Dot(a, Values(lp.s), |a|) % (pub.p - 1) == -(c * ToUint64(b))
  {
    if |lp.s| != |g| || |g| != |a| {
      return false;
    }
    var mash := [];
    for i := 0 to |g|
      invariant mash == Concat(g, i)
    {
      mash := mash + g[i];
    }
    mash := mash + y;
    mash := mash + lp.t;
    var c := Value(sha(mash)) % pub.p;
    var t := RecomputeCommitment(Exp(Value(y), c, pub.p), g, lp.s, pub.p);
    if t != Value(lp.t) {
      return false;
    }
    var cb := -(c * ToUint64(b));
    var mix := SumAnswers(a, lp.s, pub.p - 1);
    return mix == cb;
  }

  lemma {:induction false} SumStep(d: int, e: int, m: int)
    requires m > 0
    ensures (d % m + e % m) % m == (d + e) % m
  {
    ModIdem(d, m);
    ModIdem(e, m);
    ModAdd(d % m, d, e % m, e, m);
  }

  // ---------- When honest proofs are accepted ----------

  /** The solved entry can be solved for: the last nonzero coefficient has an inverse modulo m. */
  ghost predicate Solvable(a: seq<int>, m: nat)
    requires m > 0
  {
    var l := LastNonzero(a, |a|);
    l < 0 || Invertible(a[l], m)
  }

  lemma {:induction false} DotAgree(a: seq<int>, u: seq<int>, v: seq<int>, n: nat)
    requires n <= |a| && n <= |u| && n <= |v|
    requires forall i :: 0 <= i < n && a[i] != 0 ==> u[i] == v[i]
    ensures Dot(a, u, n) == Dot(a, v, n)
  {
    if n > 0 {
      DotAgree(a, u, v, n - 1);
    }
  }

  lemma {:induction false} DotZeros(a: seq<int>, v: seq<int>, i: nat, n: nat)
    requires i <= n <= |a| && n <= |v|
    requires forall j :: i <= j < n ==> a[j] == 0
    ensures Dot(a, v, n) == Dot(a, v, i)
  {
    if i < n {
      DotZeros(a, v, i, n - 1);
    }
  }

  /** The prover's random vector is orthogonal to the coefficients. */
  lemma {:induction false} NoncesOrthogonal(a: seq<int>, rnd: seq<nat>, m: nat)
    requires |rnd| == RandomsNeeded(a) && m > 0
    requires Solvable(a, m)
    ensures Dot(a, Nonces(a, rnd, m), |a|) % m == 0
  {
    var v, l := Nonces(a, rnd, m), LastNonzero(a, |a|);
    SmallMod(0, m);
    if l < 0 {
      DotZeros(a, v, 0, |a|);
    } else {
      DotZeros(a, v, l + 1, |a|);
      DotAgree(a, v, rnd, l);
      ModInverseCorrect(a[l], m);
      Solved(Dot(a, rnd, l), a[l], ModInverse(a[l], m), m);
    }
  }

  lemma {:induction false} Solved(d: int, a: int, i: int, m: int)
    requires m > 0 && IsInverse(a, i, m)
    ensures (d + a * ((((-d) % m) * i) % m)) % m == 0
  {
    var w := (-d) % m;
    ModMulLeft(w * i, a, m);
    assert a * (w * i) == (a * i) * w;
    ModIdem(-d, m);
    ModMul(a * i, 1, w, -d, m);
    ModIdem(a * ((w * i) % m), m);
    ModAdd(d, d, a * ((w * i) % m), -d, m);
    SmallMod(0, m);
  }

  lemma {:induction false} DotAnswers(a: seq<int>, s: seq<nat>, v: seq<nat>, x: seq<nat>, c: nat, n: nat, m: nat)
    requires n <= |a| && n <= |s| && n <= |v| && n <= |x| && m > 0
    requires forall i :: 0 <= i < n ==> s[i] == AnswerTo(v[i], x[i], c, m)
    ensures Dot(a, s, n) % m == (Dot(a, v, n) - c * Dot(a, x, n)) % m
  {
    if n > 0 {
      var k := n - 1;
      DotAnswers(a, s, v, x, c, k, m);
      var e := v[k] - c * x[k];
      ModMulLeft(e, a[k], m);
      ModAdd(Dot(a, s, k), Dot(a, v, k) - c * Dot(a, x, k), a[k] * s[k], a[k] * e, m);
      DotRegroup(Dot(a, v, k), Dot(a, x, k), a[k], v[k], x[k], c);
    } else {
      assert c * 0 == 0;
    }
  }

  lemma {:induction false} DotRegroup(dv: int, dx: int, a: int, v: int, x: int, c: int)
    ensures (dv - c * dx) + a * (v - c * x) == (dv + a * v) - c * (dx + a * x)
  {
    assert a * (v - c * x) == a * v - a * (c * x);
    assert a * (c * x) == c * (a * x);
    Distribute(c, dx, a * x);
  }

  /** What an honest proof is accepted for. */
  ghost predicate Provable(y: seq<byte>, b: int, a: seq<int>, x: seq<nat>, g: seq<nat>, p: nat, c: nat)
    requires |x| == |g| == |a| && p >= 2
  {
    && Exp(Value(y), c, p) == Product(g, Scaled(x, c), |g|, p)
    && c * ToUint64(b) == 0
    && (c * Dot(a, x, |a|)) % (p - 1) == 0
  }

  function Scaled(x: seq<nat>, c: nat): (cx: seq<nat>)
    ensures |cx| == |x| && forall i :: 0 <= i < |x| ==> cx[i] == x[i] * c
  {
    if x == [] then [] else Scaled(x[..|x| - 1], c) + [x[|x| - 1] * c]
  }

  /** The power check of the verifier on honest answers, for the challenge c. */
  lemma {:induction false} PowerCheck(yc: nat, v: seq<nat>, x: seq<nat>, s: seq<nat>, g: seq<nat>, c: nat, p: nat)
    requires |v| == |x| == |s| == |g| && Units(g, p) && p >= 3
    requires 0 <= yc < p
    requires forall i :: 0 <= i < |v| ==> s[i] == AnswerTo(v[i], x[i], c, p - 1)
    ensures MulMod(yc, Product(g, s, |g|, p), p) == Product(g, v, |g|, p) <==> yc == Product(g, Scaled(x, c), |g|, p)
  {
    var n, cx := |g|, Scaled(x, c);
    forall i | 0 <= i < n ensures v[i] % (p - 1) == (s[i] + cx[i]) % (p - 1) {
      ModIdem(v[i] - c * x[i], p - 1);
      ModAdd(s[i], v[i] - c * x[i], cx[i], cx[i], p - 1);
      assert v[i] - c * x[i] + cx[i] == v[i];
    }
    ProductAdd(g, s, cx, v, n, p);
    ProductUnit(g, s, n, p);
    ProductUnit(g, cx, n, p);
    CancelUnit(Product(g, s, n, p), yc, Product(g, cx, n, p), p);
    MulModComm(yc, Product(g, s, n, p), p);
  }

  lemma {:induction false} HonestParts(y: seq<byte>, a: seq<int>, x: seq<seq<byte>>, g: seq<seq<byte>>, p: nat,
      rnd: seq<nat>, sha: Sha256)
    requires |x| == |g| == |a| && |rnd| == RandomsNeeded(a) && p >= 3
    ensures var lp := Honest(y, a, x, g, p, rnd, sha);
            var v, c := Nonces(a, rnd, p - 1), Challenge(g, y, lp.t, p, sha);
            && |lp.s| == |a|
            && Value(lp.t) == PowerProduct(Values(g), v, |g|, p)
            && forall i :: 0 <= i < |a| ==> Values(lp.s)[i] == AnswerTo(v[i], Values(x)[i], c, p - 1)
  {
    hide Nonces, PowerProduct, Values, Challenge, Encode, Value, AnswerTo;
    var lp := Honest(y, a, x, g, p, rnd, sha);
    var v, c := Nonces(a, rnd, p - 1), Challenge(g, y, lp.t, p, sha);
    ValueOfEncode(PowerProduct(Values(g), v, |g|, p));
    forall i | 0 <= i < |a| ensures Values(lp.s)[i] == AnswerTo(v[i], Values(x)[i], c, p - 1) {
      ValueOfEncode(AnswerTo(v[i], Values(x)[i], c, p - 1));
    }
  }

  /** The power check and the sum check on answers s that an honest prover derives from v, x and c. */
  lemma {:induction false} HonestPowers(yc: nat, v: seq<nat>, x: seq<nat>, s: seq<nat>, g: seq<nat>, c: nat, p: nat)
    requires |v| == |x| == |s| == |g| && Units(g, p) && p >= 3
    requires 0 <= yc < p
    requires forall i :: 0 <= i < |v| ==> s[i] == AnswerTo(v[i], x[i], c, p - 1)
    ensures MulMod(yc, PowerProduct(g, s, |g|, p), p) == PowerProduct(g, v, |g|, p) <==> yc == Product(g, Scaled(x, c), |g|, p)
  {
    hide *;
    PowerProductIsProduct(g, v, |g|, p);
    PowerProductIsProduct(g, s, |g|, p);
    PowerCheck(yc, v, x, s, g, c, p);
  }

  lemma {:induction false} HonestSum(cb: int, v: seq<nat>, x: seq<nat>, s: seq<nat>, a: seq<int>, c: nat, m: nat)
    requires |v| == |x| == |s| == |a| && m > 0 && 0 <= cb
    requires forall i :: 0 <= i < |v| ==> s[i] == AnswerTo(v[i], x[i], c, m)
    requires Dot(a, v, |a|) % m == 0
    ensures Dot(a, s, |a|) % m == -cb <==> cb == 0 && (c * Dot(a, x, |a|)) % m == 0
  {
    hide *;
    DotAnswers(a, s, v, x, c, |a|, m);
    SumCheck(Dot(a, s, |a|), Dot(a, v, |a|), c * Dot(a, x, |a|), cb, m);
  }

  /** An honest proof of any length is accepted exactly when the statement holds after scaling by the
      challenge c. In particular b must be 0 (or c must be). */
  lemma {:induction false} LinearProofExact(y: seq<byte>, b: int, a: seq<int>, x: seq<seq<byte>>, g: seq<seq<byte>>,
      p: nat, rnd: seq<nat>, sha: Sha256)
    requires |x| == |g| == |a| && |rnd| == RandomsNeeded(a) && p >= 3
    requires Units(Values(g), p) && Solvable(a, p - 1)
    ensures var lp := Honest(y, a, x, g, p, rnd, sha);
            Accepts(lp, y, b, a, g, p, sha) <==> Provable(y, b, a, Values(x), Values(g), p, Challenge(g, y, lp.t, p, sha))
  {
    hide Honest, Nonces, PowerProduct, Product, Values, Challenge, Dot, ToUint64, IsPrime, Unit, AnswerTo;
    var lp := Honest(y, a, x, g, p, rnd, sha);
    var c := Challenge(g, y, lp.t, p, sha);
    HonestParts(y, a, x, g, p, rnd, sha);
    NoncesOrthogonal(a, rnd, p - 1);
    PositiveProduct(c, ToUint64(b));
    assert Exp(Value(y), c, p) < p;
    HonestPowers(Exp(Value(y), c, p), Nonces(a, rnd, p - 1), Values(x), Values(lp.s), Values(g), c, p);
    HonestSum(c * ToUint64(b), Nonces(a, rnd, p - 1), Values(x), Values(lp.s), a, c, p - 1);
  }

  lemma {:induction false} PositiveProduct(a: nat, b: nat)
    ensures a * b >= 0 && (a > 0 && b > 0 ==> a * b > 0)
  {
  }

  lemma {:induction false} SumCheck(ds: int, dv: int, cx: int, cb: int, m: int)
    requires cb >= 0 && m > 0 && dv % m == 0 && ds % m == (dv - cx) % m
    ensures ds % m == -cb <==> cb == 0 && cx % m == 0
  {
    SmallMod(0, m);
    ModAdd(dv, 0, cx, cx, m);
    if cx % m == 0 {
      ModAdd(0, 0, cx, 0, m);
    }
    if (-cx) % m == 0 {
      ModAdd(0, 0, -cx, 0, m);
    }
  }

  /** No proof whatsoever is accepted for a nonzero constant b, unless the challenge happens to be 0. */
  lemma {:induction false} NonzeroConstantRejected(lp: Proof, y: seq<byte>, b: int, a: seq<int>, g: seq<seq<byte>>,
      p: nat, sha: Sha256)
    requires p >= 2
    requires Accepts(lp, y, b, a, g, p, sha)
    ensures ToUint64(b) == 0 || Challenge(g, y, lp.t, p, sha) == 0
  {
    hide PowerProduct, Dot, Challenge, ToUint64, MulMod;
    PositiveProduct(Challenge(g, y, lp.t, p, sha), ToUint64(b));
  }

  /** Every true statement with b = 0 is accepted, whatever the random numbers and the hash function. */
  lemma {:induction false} LinearProofComplete(y: seq<byte>, a: seq<int>, x: seq<seq<byte>>, g: seq<seq<byte>>,
      p: nat, rnd: seq<nat>, sha: Sha256)
    requires |x| == |g| == |a| && |rnd| == RandomsNeeded(a) && p >= 3
    requires Units(Values(g), p) && Solvable(a, p - 1)
    requires Value(y) % p == Product(Values(g), Values(x), |g|, p)
    requires Dot(a, Values(x), |a|) % (p - 1) == 0
    ensures Accepts(Honest(y, a, x, g, p, rnd, sha), y, 0, a, g, p, sha)
  {
    var lp := Honest(y, a, x, g, p, rnd, sha);
    var c, gs, xs := Challenge(g, y, lp.t, p, sha), Values(g), Values(x);
    LinearProofExact(y, 0, a, x, g, p, rnd, sha);
    StatementHolds(y, a, xs, gs, p, c);
  }

  lemma {:induction false} StatementHolds(y: seq<byte>, a: seq<int>, x: seq<nat>, g: seq<nat>, p: nat, c: nat)
    requires |x| == |g| == |a| && p >= 3 && Units(g, p)
    requires Value(y) % p == Product(g, x, |g|, p)
    requires Dot(a, x, |a|) % (p - 1) == 0
    ensures Provable(y, 0, a, x, g, p, c)
  {
    hide Product, Dot, Scaled, Value;
    ProductUnit(g, x, |g|, p);
    SmallMod(Product(g, x, |g|, p), p);
    PowMod(Value(y), Product(g, x, |g|, p), c, p);
    ProductPow(g, x, Scaled(x, c), c, |g|, p);
    SmallMod(0, p - 1);
    SmallMod(0, UINT64);
    ModMulBy(Dot(a, x, |a|), 0, c, p - 1);
    assert c * Dot(a, x, |a|) == Dot(a, x, |a|) * c;
    assert c * ToUint64(0) == 0;
  }

  // ---------- Equality proofs ----------

  function EqualityBases(pub1: PublicKey, pub2: PublicKey): seq<seq<byte>>
  {
    [Encode(pub1.g1), Encode(pub2.g1), Encode(pub1.h), Encode(pub2.h)]
  }

  const EQUALITY_COEFFICIENTS: seq<int> := [1, -1, 0, 0]

  /** The statement both sides derive: the product of the two commitments. */
  function ProductOfTwo(c1: seq<byte>, c2: seq<byte>, p: nat): seq<byte>
    requires p >= 2
  {
    Encode(MulMod(Value(c1), Value(c2), p))
  }

  function EqualityWitness(v: int, c1: Commitment, c2: Commitment): seq<seq<byte>>
  {
    [Encode(Abs(v)), Encode(Abs(v)), c1.r, c2.r]
  }

  method GenerateEqualityProof(pub1: PublicKey, pub2: PublicKey, c1: Commitment, c2: Commitment, v: nat,
                               rnd: seq<nat>, sha: Sha256) returns (ep: Proof)
    requires pub1.p >= 2 && |rnd| == RandomsNeeded(EQUALITY_COEFFICIENTS)
    ensures ep == if pub1.p != pub2.p then Proof([], [])
                  else Honest(ProductOfTwo(c1.commitment, c2.commitment, pub1.p), EQUALITY_COEFFICIENTS,
                              EqualityWitness(ToInt64(v), c1, c2), EqualityBases(pub1, pub2), pub1.p, rnd, sha)
  {
    if pub1.p != pub2.p {
      return Proof([], []);
    }
    ep := GenerateLinearEquationProof(ProductOfTwo(c1.commitment, c2.commitment, pub1.p), 0, EQUALITY_COEFFICIENTS,
                                      EqualityWitness(ToInt64(v), c1, c2), EqualityBases(pub1, pub2), pub1, rnd, sha);
  }

  method VerifyEqualityProof(pub1: PublicKey, pub2: PublicKey, c1: CypherText, c2: CypherText, ep: Proof, sha: Sha256)
    returns (ok: bool)
    requires pub1.p >= 2
    ensures ok <==> pub1.p == pub2.p
                    && Accepts(ep, ProductOfTwo(c1.c2, c2.c2, pub1.p), 0, EQUALITY_COEFFICIENTS, EqualityBases(pub1, pub2), pub1.p, sha)
  {
    if pub1.p != pub2.p {
      return false;
    }
    ok := VerifyLinearEquationProof(ep, ProductOfTwo(c1.c2, c2.c2, pub1.p), 0, EQUALITY_COEFFICIENTS,
                                    EqualityBases(pub1, pub2), pub1, sha);
  }

  /** Whatever value two commitments under two keys of one group are made for: the honest equality proof is accepted if
      and only if the value the commitments hold, which is reduced modulo P, and the value the prover uses, which is the
      magnitude of its conversion to an int64, are the same exponent of the product of both bases, after scaling by the
      challenge. */
  lemma {:induction false} EqualityProofExact(pub1: PublicKey, pub2: PublicKey, v: nat, r1: seq<byte>,
      r2: seq<byte>, rnd: seq<nat>, sha: Sha256)
    requires ValidKey(pub1) && ValidKey(pub2) && pub1.p == pub2.p
    requires |rnd| == RandomsNeeded(EQUALITY_COEFFICIENTS)
    ensures var p, c1, c2, g := pub1.p, Commit(pub1, v, r1), Commit(pub2, v, r2), EqualityBases(pub1, pub2);
            var y := ProductOfTwo(c1.commitment, c2.commitment, p);
            var lp := Honest(y, EQUALITY_COEFFICIENTS, EqualityWitness(ToInt64(v), c1, c2), g, p, rnd, sha);
            var c, base := Challenge(g, y, lp.t, p, sha), MulMod(pub1.g1, pub2.g1, p);
            Accepts(lp, y, 0, EQUALITY_COEFFICIENTS, g, p, sha) <==>
              GroupExp(base, v % p * c, p) == GroupExp(base, Abs(ToInt64(v)) * c, p)
  {
    hide Commit, IsPrime, Value, Encode, Accepts, Honest, Product, Dot, ToInt64, ProductOfTwo, Units, Solvable, Values,
        Challenge, MulMod, GroupExp, Scaled, Abs;
    var p := pub1.p;
    var c1, c2 := Commit(pub1, v, r1), Commit(pub2, v, r2);
    var y := ProductOfTwo(c1.commitment, c2.commitment, p);
    var g, x := EqualityBases(pub1, pub2), EqualityWitness(ToInt64(v), c1, c2);
    var lp := Honest(y, EQUALITY_COEFFICIENTS, x, g, p, rnd, sha);
    var c := Challenge(g, y, lp.t, p, sha);
    EqualityBaseValues(pub1, pub2);
    EqualityWitnessValues(pub1, pub2, v, r1, r2);
    EqualitySolvable(p - 1);
    LinearProofExact(y, 0, EQUALITY_COEFFICIENTS, x, g, p, rnd, sha);
    EqualityProvable(pub1, pub2, v, Abs(ToInt64(v)), r1, r2, c);
  }

  /** Commitments to one value below P and 2^63: the equality proof is accepted. */
  lemma {:induction false} EqualityProofComplete(pub1: PublicKey, pub2: PublicKey, v: nat, r1: seq<byte>,
      r2: seq<byte>, rnd: seq<nat>, sha: Sha256)
    requires ValidKey(pub1) && ValidKey(pub2) && pub1.p == pub2.p
    requires v < pub1.p && v < TWO_63
    requires |rnd| == RandomsNeeded(EQUALITY_COEFFICIENTS)
    ensures var c1, c2 := Commit(pub1, v, r1), Commit(pub2, v, r2);
            var y := ProductOfTwo(c1.commitment, c2.commitment, pub1.p);
            Accepts(Honest(y, EQUALITY_COEFFICIENTS, EqualityWitness(ToInt64(v), c1, c2), EqualityBases(pub1, pub2), pub1.p, rnd, sha),
                    y, 0, EQUALITY_COEFFICIENTS, EqualityBases(pub1, pub2), pub1.p, sha)
  {
    hide Commit, IsPrime, Value, Encode, Accepts, Honest, ProductOfTwo, Challenge, MulMod, GroupExp;
    EqualityProofExact(pub1, pub2, v, r1, r2, rnd, sha);
    SmallMod(v, pub1.p);
    SmallMod(v + TWO_63, UINT64);
  }

  /** The power check with w as the witness, for commitments to v. */
  lemma {:induction false} EqualityProvable(pub1: PublicKey, pub2: PublicKey, v: nat, w: nat, r1: seq<byte>, r2: seq<byte>, c: nat)
    requires ValidKey(pub1) && ValidKey(pub2) && pub1.p == pub2.p
    ensures var p, g := pub1.p, [pub1.g1, pub2.g1, pub1.h, pub2.h];
            var y := ProductOfTwo(Commit(pub1, v, r1).commitment, Commit(pub2, v, r2).commitment, p);
            var base := MulMod(pub1.g1, pub2.g1, p);
            Provable(y, 0, EQUALITY_COEFFICIENTS, [w, w, Value(r1), Value(r2)], g, p, c) <==>
              GroupExp(base, v % p * c, p) == GroupExp(base, w * c, p)
  {
    hide Commit, IsPrime, Value, Encode, Product, Dot, ProductOfTwo, MulMod, GroupExp, Scaled, Exp, ToUint64;
    var p, g := pub1.p, [pub1.g1, pub2.g1, pub1.h, pub2.h];
    var y := ProductOfTwo(Commit(pub1, v, r1).commitment, Commit(pub2, v, r2).commitment, p);
    var u, x := [v % p, v % p, Value(r1), Value(r2)], [w, w, Value(r1), Value(r2)];
    KeyUnits(pub1);
    KeyUnits(pub2);
    EqualityStatement(pub1, pub2, v, r1, r2);
    EqualityDot(u);
    EqualityDot(x);
    SmallMod(0, p - 1);
    StatementHolds(y, EQUALITY_COEFFICIENTS, u, g, p, c);
    EqualProducts(g, v % p * c, w * c, Value(r1) * c, Value(r2) * c, p);
    assert Scaled(u, c) == [v % p * c, v % p * c, Value(r1) * c, Value(r2) * c];
    assert Scaled(x, c) == [w * c, w * c, Value(r1) * c, Value(r2) * c];
  }

  /** Products that differ in one exponent of the first two bases. */
  lemma {:induction false} EqualProducts(g: seq<int>, d: int, e: int, r1: int, r2: int, p: int)
    requires |g| == 4 && Units(g, p) && p >= 2 && IsPrime(p)
    ensures Product(g, [d, d, r1, r2], 4, p) == Product(g, [e, e, r1, r2], 4, p) <==>
            GroupExp(MulMod(g[0], g[1], p), d, p) == GroupExp(MulMod(g[0], g[1], p), e, p)
  {
    hide IsPrime, GroupExp, MulMod, Product;
    var h, k := GroupExp(g[2], r1, p), GroupExp(g[3], r2, p);
    GroupExpUnit(g[0], d, p);
    GroupExpUnit(g[0], e, p);
    GroupExpUnit(g[2], r1, p);
    GroupExpUnit(g[3], r2, p);
    ProductOfFour(g, [d, d, r1, r2], p);
    ProductOfFour(g, [e, e, r1, r2], p);
    BothBases(g[0], g[1], d, p);
    BothBases(g[0], g[1], e, p);
    var x, y := GroupExp(MulMod(g[0], g[1], p), d, p), GroupExp(MulMod(g[0], g[1], p), e, p);
    UnitProduct(g[0], g[1], p);
    GroupExpUnit(MulMod(g[0], g[1], p), d, p);
    GroupExpUnit(MulMod(g[0], g[1], p), e, p);
    CancelTwo(x, y, h, k, p);
  }

  lemma {:induction false} BothBases(a: int, b: int, e: int, p: int)
    requires p >= 2
    ensures MulMod(GroupExp(a, e, p), GroupExp(b, e, p), p) == GroupExp(MulMod(a, b, p), e, p)
  {
    PowOfProduct(a, b, e % (p - 1), p);
  }

  lemma {:induction false} CancelTwo(x: int, y: int, h: int, k: int, p: int)
    requires Unit(h, p) && Unit(k, p) && 0 <= x < p && 0 <= y < p
    ensures MulMod(MulMod(x, h, p), k, p) == MulMod(MulMod(y, h, p), k, p) <==> x == y
  {
    hide IsPrime;
    MulModComm(x, h, p);
    MulModComm(y, h, p);
    MulModComm(MulMod(x, h, p), k, p);
    MulModComm(MulMod(y, h, p), k, p);
    CancelUnit(k, MulMod(x, h, p), MulMod(y, h, p), p);
    CancelUnit(h, x, y, p);
  }

  lemma {:induction false} EqualitySolvable(m: nat)
    requires m > 0
    ensures Solvable(EQUALITY_COEFFICIENTS, m) && 0 % m == 0
  {
    assert LastNonzero(EQUALITY_COEFFICIENTS, 4) == 1;
    OneInvertible(m);
    SmallMod(0, m);
  }

  lemma {:induction false} EqualityWitnessValues(pub1: PublicKey, pub2: PublicKey, v: nat, r1: seq<byte>, r2: seq<byte>)
    requires ValidKey(pub1) && ValidKey(pub2)
    ensures var w := Abs(ToInt64(v));
            Values(EqualityWitness(ToInt64(v), Commit(pub1, v, r1), Commit(pub2, v, r2))) == [w, w, Value(r1), Value(r2)]
  {
    hide Commit, Value, Encode, ValidKey, ToInt64;
    ValueOfEncode(Abs(ToInt64(v)));
    CommitOpens(pub1, v, r1);
    CommitOpens(pub2, v, r2);
  }

  lemma {:induction false} EqualityStatement(pub1: PublicKey, pub2: PublicKey, v: nat, r1: seq<byte>, r2: seq<byte>)
    requires ValidKey(pub1) && ValidKey(pub2) && pub1.p == pub2.p
    ensures Value(ProductOfTwo(Commit(pub1, v, r1).commitment, Commit(pub2, v, r2).commitment, pub1.p)) % pub1.p
         == Product([pub1.g1, pub2.g1, pub1.h, pub2.h], [v % pub1.p, v % pub1.p, Value(r1), Value(r2)], 4, pub1.p)
  {
    var p, c1, c2 := pub1.p, Commit(pub1, v, r1), Commit(pub2, v, r2);
    CommitOpens(pub1, v, r1);
    CommitOpens(pub2, v, r2);
    ValueOfEncode(MulMod(Value(c1.commitment), Value(c2.commitment), p));
    SmallMod(MulMod(Value(c1.commitment), Value(c2.commitment), p), p);
    EqualityProduct(pub1, pub2, v % p, Value(r1), Value(r2));
  }

  lemma {:induction false} EqualityDot(x: seq<int>)
    requires |x| == 4 && x[0] == x[1]
    ensures Dot(EQUALITY_COEFFICIENTS, x, 4) == 0
  {
    var a := EQUALITY_COEFFICIENTS;
    assert Dot(a, x, 1) == x[0];
    assert Dot(a, x, 2) == 0;
    assert Dot(a, x, 3) == 0;
  }

  lemma {:induction false} EqualityBaseValues(pub1: PublicKey, pub2: PublicKey)
    requires ValidKey(pub1) && ValidKey(pub2) && pub1.p == pub2.p
    ensures Values(EqualityBases(pub1, pub2)) == [pub1.g1, pub2.g1, pub1.h, pub2.h]
    ensures Units(Values(EqualityBases(pub1, pub2)), pub1.p)
  {
    KeyUnits(pub1);
    KeyUnits(pub2);
    ValueOfEncode(pub1.g1);
    ValueOfEncode(pub2.g1);
    ValueOfEncode(pub1.h);
    ValueOfEncode(pub2.h);
  }

  lemma {:induction false} EqualityProduct(pub1: PublicKey, pub2: PublicKey, v: nat, r1: nat, r2: nat)
    requires ValidKey(pub1) && ValidKey(pub2) && pub1.p == pub2.p
    ensures MulMod(MulMod(GroupExp(pub1.g1, v, pub1.p), GroupExp(pub1.h, r1, pub1.p), pub1.p),
                   MulMod(GroupExp(pub2.g1, v, pub1.p), GroupExp(pub2.h, r2, pub1.p), pub1.p), pub1.p)
         == Product([pub1.g1, pub2.g1, pub1.h, pub2.h], [v, v, r1, r2], 4, pub1.p)
  {
    var p := pub1.p;
    var a, b, h, k := GroupExp(pub1.g1, v, p), GroupExp(pub2.g1, v, p), GroupExp(pub1.h, r1, p), GroupExp(pub2.h, r2, p);
    KeyUnits(pub1);
    GroupExpUnit(pub1.g1, v, p);
    ProductOfFour([pub1.g1, pub2.g1, pub1.h, pub2.h], [v, v, r1, r2], p);
    FourFactors(a, h, b, k, p);
    MulModAssoc(MulMod(a, b, p), h, k, p);
  }

  lemma {:induction false} ProductOfFour(g: seq<int>, e: seq<int>, p: int)
    requires |g| == |e| == 4 && p >= 2
    requires GroupExp(g[0], e[0], p) < p
    ensures var a, b, h, k := GroupExp(g[0], e[0], p), GroupExp(g[1], e[1], p), GroupExp(g[2], e[2], p), GroupExp(g[3], e[3], p);
            Product(g, e, 4, p) == MulMod(MulMod(MulMod(a, b, p), h, p), k, p)
  {
    var a := GroupExp(g[0], e[0], p);
    hide GroupExp, MulMod;
    MulModOne(a, p);
    assert Product(g, e, 1, p) == a;
    assert Product(g, e, 2, p) == MulMod(a, GroupExp(g[1], e[1], p), p);
    assert Product(g, e, 3, p) == MulMod(Product(g, e, 2, p), GroupExp(g[2], e[2], p), p);
  }
}
