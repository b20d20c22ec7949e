/**
 Format proofs (a ciphertext holds a commitment and the matching mask) and the older balance proof
 for one input and two outputs. Both hash the prover's commitments into the challenge; the verifier
 recomputes them from the answers.
 */
module FormatProof {
  import opened NumberTheory
  import opened Bytes
  import opened Group
  import opened Keys

  datatype Proof = Proof(c: seq<byte>, z1: seq<byte>, z2: seq<byte>)

  /** The answer a - x c modulo p - 1, computed as a + ((p - 1) - x c mod (p - 1)). */
  function Reply(a: nat, x: nat, c: nat, p: nat): nat
    requires p >= 2
  {
    (a + ((p - 1) - (x * c) % (p - 1))) % (p - 1)
  }

  lemma {:induction false} ReplyCancels(a: nat, x: nat, c: nat, f: int, p: nat)
    requires p >= 2
    ensures (f + x * c + Reply(a, x, c, p)) % (p - 1) == (f + a) % (p - 1)
  {
    LessIsDifference(a, x * c, f + x * c, p - 1);
  }

  lemma {:induction false} LessIsDifference(a: nat, e: int, f: int, m: nat)
    requires m > 0
    ensures (f + (a + (m - e % m)) % m) % m == (f + a - e) % m
  {
    var s := a + (m - e % m);
    assert s == (a - e) + (e / m + 1) * m;
    AddMultiple(a - e, e / m + 1, m);
    ModIdem(s, m);
    ModAdd(f, f, s % m, a - e, m);
  }

  /** g^a h^b as the code computes it. */
  function TwoPowers(g: nat, a: nat, h: nat, b: nat, p: nat): nat
    requires p >= 2
  {
    MulMod(Exp(g, a, p), Exp(h, b, p), p)
  }

  lemma {:induction false} TwoPowersOpen(pub: PublicKey, a: nat, b: nat)
    requires ValidKey(pub)
    ensures TwoPowers(pub.g1, a, pub.h, b, pub.p) == Opening(pub, a, b)
  {
    KeyUnits(pub);
    ExpIsGroupExp(pub.g1, a, pub.p);
    ExpIsGroupExp(pub.h, b, pub.p);
  }

  function Challenge(t: seq<byte>, p: nat, sha: Sha256): nat
    requires p >= 2
  {
    Value(sha(t)) % p
  }

  // ---------- Format proofs ----------

  function GenerateFormatProof(pub: PublicKey, v: nat, r: seq<byte>, a: nat, b: nat, sha: Sha256): Proof
    requires pub.p >= 2
  {
    var t1 := TwoPowers(pub.g1, a, pub.h, b, pub.p);
    var t2 := Exp(pub.g2, b, pub.p);
    var c := Challenge(Encode(t1) + Encode(t2), pub.p, sha);
    Proof(Encode(c), Encode(Reply(a, v, c, pub.p)), Encode(Reply(b, Value(r), c, pub.p)))
  }

  /** The verifier's two recomputed commitments. */
  function Recomputed1(ct: CypherText, pub: PublicKey, c: nat, z1: nat, z2: nat): nat
    requires pub.p >= 2
  {
    MulMod(MulMod(Exp(Value(ct.c2), c, pub.p), Exp(pub.g1, z1, pub.p), pub.p), Exp(pub.h, z2, pub.p), pub.p)
  }

  function Recomputed2(ct: CypherText, pub: PublicKey, c: nat, z2: nat): nat
    requires pub.p >= 2
  {
    MulMod(Exp(Value(ct.c1), c, pub.p), Exp(pub.g2, z2, pub.p), pub.p)
  }

  predicate VerifyFormatProof(ct: CypherText, pub: PublicKey, fp: Proof, sha: Sha256)
    requires pub.p >= 2
  {
    var c, z1, z2 := Value(fp.c), Value(fp.z1), Value(fp.z2);
    c == Challenge(Encode(Recomputed1(ct, pub, c, z1, z2)) + Encode(Recomputed2(ct, pub, c, z2)), pub.p, sha)
  }

  /** The first recomputed commitment is the prover's exactly when g1 to c (v mod P - v) is 1. */
  lemma {:induction false} FirstRecomputed(pub: PublicKey, v: nat, k: nat, a: nat, b: nat, c: nat)
    requires ValidKey(pub)
    ensures Recomputed1(EncryptNumber(pub, v, k).0, pub, c, Reply(a, v, c, pub.p), Reply(b, k, c, pub.p)) == TwoPowers(pub.g1, a, pub.h, b, pub.p)
       <==> GroupExp(pub.g1, (v % pub.p) * c - v * c, pub.p) == 1
  {
    hide Reply, Opening, MulMod, GroupExp, IsPrime, Exp;
    var p, u := pub.p, v % pub.p;
    var z1, z2 := Reply(a, v, c, p), Reply(b, k, c, p);
    Recomputed1Opens(pub, v, k, c, z1, z2);
    ReplyCancels(a, v, c, u * c - v * c, p);
    ReplyCancels(b, k, c, 0, p);
    OpeningCong(pub, u * c + z1, k * c + z2, a + (u * c - v * c), b);
    OpeningShift(pub, a, u * c - v * c, b);
    TwoPowersOpen(pub, a, b);
  }

  lemma {:induction false} Recomputed1Opens(pub: PublicKey, v: nat, k: nat, c: nat, z1: nat, z2: nat)
    requires ValidKey(pub)
    ensures Recomputed1(EncryptNumber(pub, v, k).0, pub, c, z1, z2) == Opening(pub, (v % pub.p) * c + z1, k * c + z2)
  {
    var p, u := pub.p, v % pub.p;
    KeyUnits(pub);
    hide MulMod, GroupExp, IsPrime;
    ValueOfEncode(k);
    CommitOpens(pub, v, Encode(k));
    OpeningPow(pub, u, k, c);
    ExpIsGroupExp(pub.g1, z1, p);
    ExpIsGroupExp(pub.h, z2, p);
    MulModAssoc(Opening(pub, u * c, k * c), GroupExp(pub.g1, z1, p), GroupExp(pub.h, z2, p), p);
    OpeningAdd(pub, u * c, k * c, z1, z2);
  }

  lemma {:induction false} SecondRecomputed(pub: PublicKey, v: nat, k: nat, b: nat, c: nat)
    requires ValidKey(pub)
    ensures Recomputed2(EncryptNumber(pub, v, k).0, pub, c, Reply(b, k, c, pub.p)) == Exp(pub.g2, b, pub.p)
  {
    KeyUnits(pub);
    hide MulMod, GroupExp, IsPrime, Reply;
    var p, z2 := pub.p, Reply(b, k, c, pub.p);
    ValueOfEncode(Exp(pub.g2, k, p));
    ExpIsGroupExp(pub.g2, k, p);
    GroupExpPow(pub.g2, k, c, p);
    ExpIsGroupExp(pub.g2, z2, p);
    GroupExpAdd(pub.g2, k * c, z2, p);
    ReplyCancels(b, k, c, 0, p);
    GroupExpCong(pub.g2, k * c + z2, b, p);
    ExpIsGroupExp(pub.g2, b, p);
  }

  /** Every generated proof for an encrypted number below P is accepted, for all keys, random numbers and
      hash functions; addresses and values alike. */
  lemma {:induction false} FormatProofComplete(pub: PublicKey, v: nat, k: nat, a: nat, b: nat, sha: Sha256)
    requires ValidKey(pub) && v < pub.p
    ensures VerifyFormatProof(EncryptNumber(pub, v, k).0, pub,
                              GenerateFormatProof(pub, v, EncryptNumber(pub, v, k).1.r, a, b, sha), sha)
  {
    hide Reply, TwoPowers, Exp, Recomputed1, Recomputed2, Challenge, Encode, Value, IsPrime, GroupExp, MulMod;
    var t1, t2 := TwoPowers(pub.g1, a, pub.h, b, pub.p), Exp(pub.g2, b, pub.p);
    var c := Challenge(Encode(t1) + Encode(t2), pub.p, sha);
    ValueOfEncode(c);
    ValueOfEncode(k);
    ValueOfEncode(Reply(a, v, c, pub.p));
    ValueOfEncode(Reply(b, k, c, pub.p));
    SmallMod(v, pub.p);
    GroupExpZero(pub.g1, pub.p);
    FirstRecomputed(pub, v, k, a, b, c);
    SecondRecomputed(pub, v, k, b, c);
  }

  /** For a ciphertext of v made with k and a prover that uses w and another random number instead: the proof is accepted
      exactly when the hash of what the verifier recomputes, the prover's commitments shifted by c times the
      differences, gives the same challenge. */
  lemma {:induction false} FormatProofExact(pub: PublicKey, v: nat, k: nat, w: nat, r: seq<byte>, a: nat, b: nat, sha: Sha256)
    requires ValidKey(pub)
    ensures var p, fp := pub.p, GenerateFormatProof(pub, w, r, a, b, sha);
            var c := Value(fp.c);
            var x, y := a + (v % p * c - w * c), b + (k * c - Value(r) * c);
            && c == Value(sha(Encode(Opening(pub, a, b)) + Encode(GroupExp(pub.g2, b, p)))) % p
            && (VerifyFormatProof(EncryptNumber(pub, v, k).0, pub, fp, sha) <==>
                  c == Value(sha(Encode(Opening(pub, x, y)) + Encode(GroupExp(pub.g2, y, p)))) % p)
  {
    hide Reply, TwoPowers, Exp, Recomputed1, Recomputed2, Encode, Value, IsPrime, GroupExp, MulMod, Opening;
    var p := pub.p;
    var t1, t2 := TwoPowers(pub.g1, a, pub.h, b, p), Exp(pub.g2, b, p);
    var c := Challenge(Encode(t1) + Encode(t2), p, sha);
    var z1, z2 := Reply(a, w, c, p), Reply(b, Value(r), c, p);
    ValueOfEncode(c);
    ValueOfEncode(z1);
    ValueOfEncode(z2);
    KeyPowers(pub, a, b);
    Shifted1(pub, v, k, w, Value(r), a, b, c);
    Shifted2(pub, v, k, Value(r), b, c);
  }

  lemma {:induction false} KeyPowers(pub: PublicKey, a: nat, b: nat)
    requires ValidKey(pub)
    ensures TwoPowers(pub.g1, a, pub.h, b, pub.p) == Opening(pub, a, b) && Exp(pub.g2, b, pub.p) == GroupExp(pub.g2, b, pub.p)
  {
    hide IsPrime;
    TwoPowersOpen(pub, a, b);
    KeyUnits(pub);
    ExpIsGroupExp(pub.g2, b, pub.p);
  }

  lemma {:induction false} Shifted1(pub: PublicKey, v: nat, k: nat, w: nat, k': nat, a: nat, b: nat, c: nat)
    requires ValidKey(pub)
    ensures Recomputed1(EncryptNumber(pub, v, k).0, pub, c, Reply(a, w, c, pub.p), Reply(b, k', c, pub.p))
         == Opening(pub, a + (v % pub.p * c - w * c), b + (k * c - k' * c))
  {
    hide Reply, Opening, MulMod, GroupExp, IsPrime, Exp, Recomputed1;
    var p, u := pub.p, v % pub.p;
    var z1, z2 := Reply(a, w, c, p), Reply(b, k', c, p);
    Recomputed1Opens(pub, v, k, c, z1, z2);
    ReplyCancels(a, w, c, u * c - w * c, p);
    ReplyCancels(b, k', c, k * c - k' * c, p);
    OpeningCong(pub, u * c + z1, k * c + z2, a + (u * c - w * c), b + (k * c - k' * c));
  }

  lemma {:induction false} Shifted2(pub: PublicKey, v: nat, k: nat, k': nat, b: nat, c: nat)
    requires ValidKey(pub)
    ensures Recomputed2(EncryptNumber(pub, v, k).0, pub, c, Reply(b, k', c, pub.p)) == GroupExp(pub.g2, b + (k * c - k' * c), pub.p)
  {
    KeyUnits(pub);
    hide MulMod, GroupExp, IsPrime, Reply;
    var p, z2 := pub.p, Reply(b, k', c, pub.p);
    ValueOfEncode(Exp(pub.g2, k, p));
    ExpIsGroupExp(pub.g2, k, p);
    GroupExpPow(pub.g2, k, c, p);
    ExpIsGroupExp(pub.g2, z2, p);
    GroupExpAdd(pub.g2, k * c, z2, p);
    ReplyCancels(b, k', c, k * c - k' * c, p);
    GroupExpCong(pub.g2, k * c + z2, b + (k * c - k' * c), p);
  }

  // ---------- The older balance proof ----------

  datatype BalanceProof = BalanceProof(c: seq<byte>, rv: seq<byte>, rr: seq<byte>, sv: seq<byte>, sr: seq<byte>, sor: seq<byte>)

  datatype Nonces = Nonces(a: nat, b: nat, d: nat, e: nat, f: nat)

  /** The transcript of the prover's three commitments. */
  function BalanceTranscript(t1: nat, t2: nat, t3: nat): seq<byte>
  {
    Encode(t1) + Encode(t2) + Encode(t3)
  }

  function BalanceChallenge(pub: PublicKey, n: Nonces, sha: Sha256): nat
    requires pub.p >= 2
  {
    Challenge(BalanceTranscript(TwoPowers(pub.g1, n.a, pub.h, n.b, pub.p), TwoPowers(pub.g1, n.d, pub.h, n.e, pub.p),
                                TwoPowers(pub.g1, (n.a + n.d) % (pub.p - 1), pub.h, n.f, pub.p)), pub.p, sha)
  }

  function GenerateBalanceProofOld(pub: PublicKey, vr: nat, vs: nat, vo: nat, rr: seq<byte>, rs: seq<byte>, ro: seq<byte>,
                                   n: Nonces, sha: Sha256): BalanceProof
    requires pub.p >= 2
  {
    var p := pub.p;
    var c := BalanceChallenge(pub, n, sha);
    BalanceProof(Encode(c), Encode(Reply(n.a, vr, c, p)), Encode(Reply(n.b, Value(rr), c, p)),
                 Encode(Reply(n.d, vs, c, p)), Encode(Reply(n.e, Value(rs), c, p)), Encode(Reply(n.f, Value(ro), c, p)))
  }

  /** g1^x h^y cm^c */
  function Recomputed(pub: PublicKey, cm: seq<byte>, c: nat, x: nat, y: nat): nat
    requires pub.p >= 2
  {
    MulMod(TwoPowers(pub.g1, x, pub.h, y, pub.p), Exp(Value(cm), c, pub.p), pub.p)
  }

  predicate VerifyBalanceProofOld(cmr: seq<byte>, cms: seq<byte>, cmo: seq<byte>, pub: PublicKey, bp: BalanceProof, sha: Sha256)
    requires pub.p >= 2
  {
    var c, rv, sv := Value(bp.c), Value(bp.rv), Value(bp.sv);
    c == Challenge(BalanceTranscript(Recomputed(pub, cmr, c, rv, Value(bp.rr)), Recomputed(pub, cms, c, sv, Value(bp.sr)),
                                     Recomputed(pub, cmo, c, rv + sv, Value(bp.sor))), pub.p, sha)
  }

  /** g1^x h^y raised to an opened commitment adds the scaled exponents. */
  lemma {:induction false} RecomputedOpens(pub: PublicKey, v: nat, r: seq<byte>, c: nat, x: nat, y: nat)
    requires ValidKey(pub)
    ensures Recomputed(pub, Commit(pub, v, r).commitment, c, x, y) == Opening(pub, x + v % pub.p * c, y + Value(r) * c)
  {
    hide Opening, MulMod, IsPrime, TwoPowers, Commit;
    CommitOpens(pub, v, r);
    TwoPowersOpen(pub, x, y);
    OpeningPow(pub, v % pub.p, Value(r), c);
    OpeningAdd(pub, x, y, v % pub.p * c, Value(r) * c);
  }

  /** The commitment to one value and its random number is recomputed exactly. */
  lemma {:induction false} RecomputedMatches(pub: PublicKey, v: nat, r: seq<byte>, c: nat, a: nat, b: nat)
    requires ValidKey(pub) && v < pub.p
    ensures Recomputed(pub, Commit(pub, v, r).commitment, c, Reply(a, v, c, pub.p), Reply(b, Value(r), c, pub.p))
         == TwoPowers(pub.g1, a, pub.h, b, pub.p)
  {
    hide Opening, MulMod, IsPrime, TwoPowers, Commit, Recomputed, Reply, Value;
    var x, y := Reply(a, v, c, pub.p), Reply(b, Value(r), c, pub.p);
    RecomputedOpens(pub, v, r, c, x, y);
    SmallMod(v, pub.p);
    ReplyCancels(a, v, c, 0, pub.p);
    ReplyCancels(b, Value(r), c, 0, pub.p);
    OpeningCong(pub, x + v * c, y + Value(r) * c, a, b);
    TwoPowersOpen(pub, a, b);
  }

  /** The commitment to the total is recomputed exactly when g1 to c (vo - vr - vs) is 1. */
  lemma {:induction false} TotalRecomputed(pub: PublicKey, vr: nat, vs: nat, vo: nat, ro: seq<byte>, c: nat, n: Nonces)
    requires ValidKey(pub) && vo < pub.p
    ensures Recomputed(pub, Commit(pub, vo, ro).commitment, c, Reply(n.a, vr, c, pub.p) + Reply(n.d, vs, c, pub.p), Reply(n.f, Value(ro), c, pub.p))
            == TwoPowers(pub.g1, (n.a + n.d) % (pub.p - 1), pub.h, n.f, pub.p)
       <==> GroupExp(pub.g1, vo * c - vr * c - vs * c, pub.p) == 1
  {
    hide Opening, MulMod, IsPrime, TwoPowers, Commit, Recomputed, Reply, Value, GroupExp;
    var p := pub.p;
    var x, x', y := Reply(n.a, vr, c, p), Reply(n.d, vs, c, p), Reply(n.f, Value(ro), c, p);
    var w := vo * c - vr * c - vs * c;
    RecomputedOpens(pub, vo, ro, c, x + x', y);
    SmallMod(vo, p);
    ReplyCancels(n.a, vr, c, x' + vo * c - vr * c, p);
    ReplyCancels(n.d, vs, c, n.a + vo * c - vr * c - vs * c, p);
    ReplyCancels(n.f, Value(ro), c, 0, p);
    OpeningCong(pub, x + x' + vo * c, y + Value(ro) * c, n.a + n.d + w, n.f);
    OpeningShift(pub, n.a + n.d, w, n.f);
    TwoPowersOpen(pub, (n.a + n.d) % (p - 1), n.f);
    ModIdem(n.a + n.d, p - 1);
    OpeningCong(pub, (n.a + n.d) % (p - 1), n.f, n.a + n.d, n.f);
  }

  /** The older balance proof is accepted whenever the output splits into the two inputs. */
  lemma {:induction false} OldBalanceComplete(pub: PublicKey, vr: nat, vs: nat, rr: seq<byte>, rs: seq<byte>,
      ro: seq<byte>, n: Nonces, sha: Sha256)
    requires ValidKey(pub) && vr + vs < pub.p
    ensures VerifyBalanceProofOld(Commit(pub, vr, rr).commitment, Commit(pub, vs, rs).commitment, Commit(pub, vr + vs, ro).commitment,
                                  pub, GenerateBalanceProofOld(pub, vr, vs, vr + vs, rr, rs, ro, n, sha), sha)
  {
    hide Reply, TwoPowers, Recomputed, Challenge, Encode, Value, IsPrime, GroupExp, Commit, BalanceTranscript;
    var c, p := BalanceChallenge(pub, n, sha), pub.p;
    ValueOfEncode(c);
    ValueOfEncode(Reply(n.a, vr, c, p));
    ValueOfEncode(Reply(n.b, Value(rr), c, p));
    ValueOfEncode(Reply(n.d, vs, c, p));
    ValueOfEncode(Reply(n.e, Value(rs), c, p));
    ValueOfEncode(Reply(n.f, Value(ro), c, p));
    RecomputedMatches(pub, vr, rr, c, n.a, n.b);
    RecomputedMatches(pub, vs, rs, c, n.d, n.e);
    GroupExpZero(pub.g1, p);
    Distribute(c, vr, vs);
    TotalRecomputed(pub, vr, vs, vr + vs, ro, c, n);
  }

  /** For commitments to vr, vs and vo and a prover that uses wr and ws instead: the older balance proof is accepted
      exactly when the prover's commitments, shifted by c times the differences, hash to the same challenge. */
  lemma {:induction false} OldBalanceExact(pub: PublicKey, vr: nat, vs: nat, vo: nat, wr: nat, ws: nat, wo: nat, rr: seq<byte>,
      rs: seq<byte>, ro: seq<byte>, n: Nonces, sha: Sha256)
    requires ValidKey(pub)
    ensures var p, bp := pub.p, GenerateBalanceProofOld(pub, wr, ws, wo, rr, rs, ro, n, sha);
            var c := Value(bp.c);
            && c == Value(sha(Encode(Opening(pub, n.a, n.b)) + Encode(Opening(pub, n.d, n.e)) + Encode(Opening(pub, n.a + n.d, n.f)))) % p
            && (VerifyBalanceProofOld(Commit(pub, vr, rr).commitment, Commit(pub, vs, rs).commitment, Commit(pub, vo, ro).commitment,
                                      pub, bp, sha) <==>
              c == Value(sha(Encode(Opening(pub, n.a + (vr % p * c - wr * c), n.b))
                             + Encode(Opening(pub, n.d + (vs % p * c - ws * c), n.e))
                             + Encode(Opening(pub, n.a + n.d + (vo % p * c - wr * c - ws * c), n.f)))) % p)
  {
    hide Reply, TwoPowers, Recomputed, Encode, Value, IsPrime, GroupExp, Commit, Opening, BalanceChallenge;
    var c, p := BalanceChallenge(pub, n, sha), pub.p;
    BalanceDigest(pub, n, sha);
    ValueOfEncode(c);
    ValueOfEncode(Reply(n.a, wr, c, p));
    ValueOfEncode(Reply(n.b, Value(rr), c, p));
    ValueOfEncode(Reply(n.d, ws, c, p));
    ValueOfEncode(Reply(n.e, Value(rs), c, p));
    ValueOfEncode(Reply(n.f, Value(ro), c, p));
    ShiftedOne(pub, vr, wr, rr, c, n.a, n.b);
    ShiftedOne(pub, vs, ws, rs, c, n.d, n.e);
    ShiftedTotal(pub, vo, wr, ws, ro, c, n);
  }

  lemma {:induction false} BalanceDigest(pub: PublicKey, n: Nonces, sha: Sha256)
    requires ValidKey(pub)
    ensures BalanceChallenge(pub, n, sha)
         == Value(sha(Encode(Opening(pub, n.a, n.b)) + Encode(Opening(pub, n.d, n.e)) + Encode(Opening(pub, n.a + n.d, n.f)))) % pub.p
  {
    hide TwoPowers, Opening, Encode, Value, IsPrime;
    TwoPowersOpen(pub, n.a, n.b);
    TwoPowersOpen(pub, n.d, n.e);
    TwoPowersOpen(pub, (n.a + n.d) % (pub.p - 1), n.f);
    ModIdem(n.a + n.d, pub.p - 1);
    OpeningCong(pub, (n.a + n.d) % (pub.p - 1), n.f, n.a + n.d, n.f);
  }

  lemma {:induction false} ShiftedOne(pub: PublicKey, v: nat, w: nat, r: seq<byte>, c: nat, a: nat, b: nat)
    requires ValidKey(pub)
    ensures Recomputed(pub, Commit(pub, v, r).commitment, c, Reply(a, w, c, pub.p), Reply(b, Value(r), c, pub.p))
         == Opening(pub, a + (v % pub.p * c - w * c), b)
  {
    hide Opening, MulMod, IsPrime, TwoPowers, Commit, Recomputed, Reply, Value;
    var x, y, u := Reply(a, w, c, pub.p), Reply(b, Value(r), c, pub.p), v % pub.p;
    RecomputedOpens(pub, v, r, c, x, y);
    ReplyCancels(a, w, c, u * c - w * c, pub.p);
    ReplyCancels(b, Value(r), c, 0, pub.p);
    OpeningCong(pub, x + u * c, y + Value(r) * c, a + (u * c - w * c), b);
  }

  lemma {:induction false} ShiftedTotal(pub: PublicKey, vo: nat, wr: nat, ws: nat, ro: seq<byte>, c: nat, n: Nonces)
    requires ValidKey(pub)
    ensures Recomputed(pub, Commit(pub, vo, ro).commitment, c, Reply(n.a, wr, c, pub.p) + Reply(n.d, ws, c, pub.p), Reply(n.f, Value(ro), c, pub.p))
         == Opening(pub, n.a + n.d + (vo % pub.p * c - wr * c - ws * c), n.f)
  {
    hide Opening, MulMod, IsPrime, TwoPowers, Commit, Recomputed, Reply, Value;
    var p, u := pub.p, vo % pub.p;
    var x, x', y := Reply(n.a, wr, c, p), Reply(n.d, ws, c, p), Reply(n.f, Value(ro), c, p);
    RecomputedOpens(pub, vo, ro, c, x + x', y);
    ReplyCancels(n.a, wr, c, x' + u * c - wr * c, p);
    ReplyCancels(n.d, ws, c, n.a + u * c - wr * c - ws * c, p);
    ReplyCancels(n.f, Value(ro), c, 0, p);
    OpeningCong(pub, x + x' + u * c, y + Value(ro) * c, n.a + n.d + (u * c - wr * c - ws * c), n.f);
  }
}
