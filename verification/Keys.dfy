/**
 Keys, ciphertexts and commitments of the coin layer, with Pedersen commitments and the
 encryption of values. Randomness is an input, and so is the digest function that stands for SHA-256.
 */
module Keys {
  import opened NumberTheory
  import opened Bytes
  import opened Group

  datatype PublicKey = PublicKey(g1: nat, g2: nat, p: nat, h: nat)

  datatype PrivateKey = PrivateKey(pub: PublicKey, x: nat)

  datatype CypherText = CypherText(c1: seq<byte>, c2: seq<byte>)

  datatype Commitment = Commitment(commitment: seq<byte>, r: seq<byte>)

  datatype Result<T> = Ok(value: T) | Err(error: string)

  /** The digest function, of which the proofs use nothing; signatures use that digests are 32 bytes long. */
  type Sha256 = seq<byte> -> seq<byte>

  /** What GenerateKeys establishes of a public key. */
  ghost predicate ValidKey(pub: PublicKey)
  {
    && pub.p >= 5
    && IsPrime(pub.p)
    && 0 < pub.g1 < pub.p
    && 0 < pub.g2 < pub.p
    && 0 < pub.h < pub.p
  }

  ghost predicate ValidPair(priv: PrivateKey)
  {
    ValidKey(priv.pub) && priv.pub.h == Exp(priv.pub.g2, priv.x, priv.pub.p)
  }

  /** big.Int's Exp with a modulus. */
  function Exp(x: nat, y: nat, m: nat): nat
    requires m >= 2
  {
    Pow(x, y) % m
  }

  lemma {:induction false} KeyUnits(pub: PublicKey)
    requires ValidKey(pub)
    ensures Unit(pub.g1, pub.p) && Unit(pub.g2, pub.p) && Unit(pub.h, pub.p)
  {
    SmallMod(pub.g1, pub.p);
    SmallMod(pub.g2, pub.p);
    SmallMod(pub.h, pub.p);
  }

  // ---------- Pedersen commitments ----------

  /** The number committed to by the exponents d of g1 and e of h. */
  function Opening(pub: PublicKey, d: int, e: int): nat
    requires pub.p >= 2
  {
    MulMod(GroupExp(pub.g1, d, pub.p), GroupExp(pub.h, e, pub.p), pub.p)
  }

  lemma {:induction false} OpeningZero(pub: PublicKey)
    requires ValidKey(pub)
    ensures Opening(pub, 0, 0) == 1
  {
    GroupExpZero(pub.g1, pub.p);
    GroupExpZero(pub.h, pub.p);
    MulModOne(1, pub.p);
  }

  lemma {:induction false} OpeningAdd(pub: PublicKey, d: int, e: int, d': int, e': int)
    requires ValidKey(pub)
    ensures Opening(pub, d + d', e + e') == MulMod(Opening(pub, d, e), Opening(pub, d', e'), pub.p)
  {
    var p := pub.p;
    KeyUnits(pub);
    GroupExpAdd(pub.g1, d, d', p);
    GroupExpAdd(pub.h, e, e', p);
    FourFactors(GroupExp(pub.g1, d, p), GroupExp(pub.g1, d', p), GroupExp(pub.h, e, p), GroupExp(pub.h, e', p), p);
  }

  lemma {:induction false} OpeningPow(pub: PublicKey, d: int, e: int, c: nat)
    requires ValidKey(pub)
    ensures Exp(Opening(pub, d, e), c, pub.p) == Opening(pub, d * c, e * c)
  {
    KeyUnits(pub);
    PowOfProduct(GroupExp(pub.g1, d, pub.p), GroupExp(pub.h, e, pub.p), c, pub.p);
    GroupExpPow(pub.g1, d, c, pub.p);
    GroupExpPow(pub.h, e, c, pub.p);
  }

  lemma {:induction false} OpeningCong(pub: PublicKey, d: int, e: int, d': int, e': int)
    requires pub.p >= 2
    requires d % (pub.p - 1) == d' % (pub.p - 1) && e % (pub.p - 1) == e' % (pub.p - 1)
    ensures Opening(pub, d, e) == Opening(pub, d', e')
  {
    GroupExpCong(pub.g1, d, d', pub.p);
    GroupExpCong(pub.h, e, e', pub.p);
  }

  /** Openings that differ only in the exponent of g1 agree exactly when g1 to the difference is 1. */
  lemma {:induction false} OpeningShift(pub: PublicKey, d: int, w: int, e: int)
    requires ValidKey(pub)
    ensures Opening(pub, d + w, e) == Opening(pub, d, e) <==> GroupExp(pub.g1, w, pub.p) == 1
  {
    var p := pub.p;
    KeyUnits(pub);
    GroupExpUnit(pub.g1, d, p);
    GroupExpUnit(pub.g1, d + w, p);
    GroupExpUnit(pub.g1, w, p);
    GroupExpUnit(pub.h, e, p);
    var x, y, u, h := GroupExp(pub.g1, d + w, p), GroupExp(pub.g1, d, p), GroupExp(pub.g1, w, p), GroupExp(pub.h, e, p);
    MulModComm(x, h, p);
    MulModComm(y, h, p);
    CancelUnit(h, x, y, p);
    GroupExpAdd(pub.g1, d, w, p);
    MulModOne(y, p);
    CancelUnit(y, u, 1, p);
  }

  lemma {:induction false} OpeningUnit(pub: PublicKey, d: int, e: int)
    requires ValidKey(pub)
    ensures 0 < Opening(pub, d, e) < pub.p && Unit(Opening(pub, d, e), pub.p)
  {
    KeyUnits(pub);
    GroupExpUnit(pub.g1, d, pub.p);
    GroupExpUnit(pub.h, e, pub.p);
    UnitProduct(GroupExp(pub.g1, d, pub.p), GroupExp(pub.h, e, pub.p), pub.p);
    SmallMod(0, pub.p);
  }

  function Commit(pub: PublicKey, v: int, rnd: seq<byte>): Commitment
    requires pub.p >= 2
  {
    var r := Value(rnd);
    Commitment(Encode(MulMod(Exp(pub.g1, v % pub.p, pub.p), Exp(pub.h, r, pub.p), pub.p)), Encode(r))
  }

  /** A commitment is g1^(v mod P) h^r; the value is reduced modulo P although exponents live modulo P - 1. */
  lemma {:induction false} CommitOpens(pub: PublicKey, v: int, rnd: seq<byte>)
    requires ValidKey(pub)
    ensures Value(Commit(pub, v, rnd).commitment) == Opening(pub, v % pub.p, Value(rnd))
    ensures Unit(Value(Commit(pub, v, rnd).commitment), pub.p)
    ensures Value(Commit(pub, v, rnd).r) == Value(rnd)
  {
    KeyUnits(pub);
    ExpIsGroupExp(pub.g1, v % pub.p, pub.p);
    ExpIsGroupExp(pub.h, Value(rnd), pub.p);
    GroupExpUnit(pub.g1, v % pub.p, pub.p);
    GroupExpUnit(pub.h, Value(rnd), pub.p);
    UnitProduct(GroupExp(pub.g1, v % pub.p, pub.p), GroupExp(pub.h, Value(rnd), pub.p), pub.p);
    ValueOfEncode(MulMod(Exp(pub.g1, v % pub.p, pub.p), Exp(pub.h, Value(rnd), pub.p), pub.p));
    ValueOfEncode(Value(rnd));
  }

  // ---------- Encryption of values and addresses ----------

  const VALUE_LIMIT := 262144

  /** The ciphertext of any committed number under the random exponent k. */
  function EncryptNumber(pub: PublicKey, m: nat, k: nat): (CypherText, Commitment)
    requires pub.p >= 2
  {
    var commit := Commit(pub, m, Encode(k));
    (CypherText(Encode(Exp(pub.g2, k, pub.p)), commit.commitment), commit)
  }

  function EncryptValue(pub: PublicKey, m: nat, k: nat): (r: Result<(CypherText, Commitment)>)
    requires pub.p >= 2
    ensures r.Ok? <==> m <= 262144
  {
    if m > VALUE_LIMIT then Err("value too large") else Ok(EncryptNumber(pub, m, k))
  }

  function EncryptAddress(pub: PublicKey, addr: seq<byte>, k: nat): (CypherText, Commitment)
    requires pub.p >= 2
  {
    EncryptNumber(pub, Value(addr), k)
  }

  /** c2 divided by c1^x: what is left once the mask is taken off. */
  function Unmask(priv: PrivateKey, c: CypherText): nat
    requires priv.pub.p >= 2
  {
    MulMod(Value(c.c2), ModInverse(Exp(Value(c.c1), priv.x, priv.pub.p), priv.pub.p), priv.pub.p)
  }

  /** i is the first of 1 .. VALUE_LIMIT whose power of g1 is gv, or 0 when none is. */
  predicate FirstLog(pub: PublicKey, gv: nat, i: nat)
    requires pub.p >= 2
  {
    && (forall j :: 1 <= j <= VALUE_LIMIT && (i == 0 || j < i) ==> Exp(pub.g1, j, pub.p) != gv)
    && (i == 0 || (i <= VALUE_LIMIT && Exp(pub.g1, i, pub.p) == gv))
  }

  method DecryptValue(priv: PrivateKey, c: CypherText) returns (v: nat)
    requires priv.pub.p >= 2
    ensures FirstLog(priv.pub, Unmask(priv, c), v)
  {
    var gv := Unmask(priv, c);
    var i := 1;
    while true
      invariant 1 <= i <= VALUE_LIMIT
      invariant forall j :: 1 <= j < i ==> Exp(priv.pub.g1, j, priv.pub.p) != gv
      decreases VALUE_LIMIT - i
    {
      if Exp(priv.pub.g1, i, priv.pub.p) == gv {
        return i;
      }
      if i >= VALUE_LIMIT {
        return 0;
      }
      i := i + 1;
    }
  }

  /** The value of an opened commitment, found by the same search. */
  method VerifyCommitment(pub: PublicKey, commit: Commitment) returns (v: nat)
    requires pub.p >= 2
    ensures v == 0 ==> forall j :: 1 <= j <= VALUE_LIMIT ==> !CommitsTo(pub, commit, j)
    ensures v != 0 ==> v <= VALUE_LIMIT && CommitsTo(pub, commit, v)
                       && forall j :: 1 <= j < v ==> !CommitsTo(pub, commit, j)
  {
    var i := 1;
    while true
      invariant 1 <= i <= VALUE_LIMIT
      invariant forall j :: 1 <= j < i ==> !CommitsTo(pub, commit, j)
      decreases VALUE_LIMIT - i
    {
      if CommitsTo(pub, commit, i) {
        return i;
      }
      if i >= VALUE_LIMIT {
        return 0;
      }
      i := i + 1;
    }
  }

  predicate CommitsTo(pub: PublicKey, commit: Commitment, i: nat)
    requires pub.p >= 2
  {
    MulMod(Exp(pub.g1, i, pub.p), Exp(pub.h, Value(commit.r), pub.p), pub.p) == Value(commit.commitment)
  }

  /** i is the first position of the pool whose power of g1 is under the mask, or the length when there is none. */
  ghost predicate FirstMatch(priv: PrivateKey, c: CypherText, pool: seq<seq<byte>>, i: nat)
    requires priv.pub.p >= 2 && i <= |pool|
  {
    && (forall j :: 0 <= j < i ==> Exp(priv.pub.g1, Value(pool[j]), priv.pub.p) != Unmask(priv, c))
    && (i < |pool| ==> Exp(priv.pub.g1, Value(pool[i]), priv.pub.p) == Unmask(priv, c))
  }

  method DecryptAddress(priv: PrivateKey, c: CypherText, pool: seq<seq<byte>>) returns (r: Result<seq<byte>>)
    requires priv.pub.p >= 2
    ensures r.Ok? ==> exists i :: 0 <= i < |pool| && pool[i] == r.value && FirstMatch(priv, c, pool, i)
    ensures r.Err? ==> FirstMatch(priv, c, pool, |pool|)
  {
    var gv := Unmask(priv, c);
    for i := 0 to |pool|
      invariant forall j :: 0 <= j < i ==> Exp(priv.pub.g1, Value(pool[j]), priv.pub.p) != gv
    {
      if Exp(priv.pub.g1, Value(pool[i]), priv.pub.p) == gv {
        return Ok(pool[i]);
      }
    }
    return Err("no such address");
  }

  // ---------- Round trips ----------

  /** The mask of an encryption is a unit and comes off exactly. */
  lemma {:induction false} UnmaskProduct(priv: PrivateKey, k: nat, u: nat, c1: nat)
    requires ValidPair(priv)
    requires 0 <= u < priv.pub.p
    requires c1 == Exp(priv.pub.g2, k, priv.pub.p)
    ensures MulMod(MulMod(u, Exp(priv.pub.h, k, priv.pub.p), priv.pub.p),
                   ModInverse(Exp(c1, priv.x, priv.pub.p), priv.pub.p), priv.pub.p) == u
  {
    var pub := priv.pub;
    var p := pub.p;
    KeyUnits(pub);
    ExpIsGroupExp(pub.g2, k, p);
    ExpIsGroupExp(pub.g2, priv.x, p);
    GroupExpPow(pub.g2, k, priv.x, p);
    GroupExpPow(pub.g2, priv.x, k, p);
    assert k * priv.x == priv.x * k;
    var s := Exp(pub.h, k, p);
    assert s == Exp(c1, priv.x, p);
    GroupExpUnit(pub.g2, k * priv.x, p);
    PrimeInvertible(s, p);
    ModInverseCorrect(s, p);
    var t := ModInverse(s, p);
    MaskOff(u, s, t, p);
  }

  lemma {:induction false} MaskOff(u: nat, s: int, t: int, p: int)
    requires 0 <= u < p && p >= 2
    requires IsInverse(s, t, p)
    ensures MulMod(MulMod(u, s, p), t, p) == u
  {
    MulModAssoc(u, s, t, p);
    SmallMod(1, p);
    MulModOne(u, p);
  }

  lemma {:induction false} UnmaskNumber(priv: PrivateKey, m: nat, k: nat)
    requires ValidPair(priv)
    ensures Unmask(priv, EncryptNumber(priv.pub, m, k).0) == Exp(priv.pub.g1, m % priv.pub.p, priv.pub.p)
  {
    var pub := priv.pub;
    var c := EncryptNumber(pub, m, k).0;
    var u := Exp(pub.g1, m % pub.p, pub.p);
    ValueOfEncode(k);
    ValueOfEncode(Exp(pub.g2, k, pub.p));
    ValueOfEncode(MulMod(u, Exp(pub.h, k, pub.p), pub.p));
    UnmaskProduct(priv, k, u, Exp(pub.g2, k, pub.p));
  }

  /** No power g^1 .. g^limit is 1. */
  ghost predicate OrderExceeds(g: nat, p: nat, limit: nat)
    requires p >= 2
  {
    forall i :: 1 <= i <= limit ==> Exp(g, i, p) != 1
  }

  ghost predicate OrderExceedsLimit(pub: PublicKey)
    requires pub.p >= 2
  {
    OrderExceeds(pub.g1, pub.p, VALUE_LIMIT)
  }

  lemma {:induction false} PowersDistinct(g: nat, p: nat, limit: nat, i: nat, j: nat)
    requires Unit(g, p) && OrderExceeds(g, p, limit)
    requires i < j <= limit
    ensures Exp(g, i, p) != Exp(g, j, p)
  {
    var u, w := GroupExp(g, i, p), GroupExp(g, j - i, p);
    ExpIsGroupExp(g, i, p);
    ExpIsGroupExp(g, j, p);
    ExpIsGroupExp(g, j - i, p);
    assert Exp(g, j - i, p) == w;
    GroupExpAdd(g, i, j - i, p);
    GroupExpUnit(g, i, p);
    GroupExpUnit(g, j - i, p);
    SmallMod(u, p);
    CancelUnit(u, w, 1, p);
  }

  lemma {:induction false} OrderBelowModulus(g: nat, p: nat, limit: nat)
    requires Unit(g, p) && OrderExceeds(g, p, limit)
    ensures limit < p - 1
  {
    Fermat(g, p);
    assert Exp(g, p - 1, p) == 1;
  }

  /** Decryption returns the encrypted value for every value up to the limit and every random
      exponent exactly when no power of g1 up to the limit is 1. */
  lemma {:induction false} ValueRoundTrip(priv: PrivateKey)
    requires ValidPair(priv)
    ensures (forall v, k: nat :: 0 <= v <= VALUE_LIMIT ==>
               EncryptValue(priv.pub, v, k).Ok?
               && FirstLog(priv.pub, Unmask(priv, EncryptValue(priv.pub, v, k).value.0), v))
        <==> OrderExceedsLimit(priv.pub)
  {
    var pub := priv.pub;
    if OrderExceedsLimit(pub) {
      forall v, k: nat | 0 <= v <= VALUE_LIMIT
        ensures EncryptValue(pub, v, k).Ok? && FirstLog(pub, Unmask(priv, EncryptValue(pub, v, k).value.0), v)
      {
        UnmaskNumber(priv, v, k);
        KeyUnits(pub);
        OrderBelowModulus(pub.g1, pub.p, VALUE_LIMIT);
        SmallMod(v, pub.p);
        forall j: int | 1 <= j <= VALUE_LIMIT && (v == 0 || j < v)
          ensures Exp(pub.g1, j, pub.p) != Exp(pub.g1, v, pub.p)
        {
          if v == 0 {
            PowersDistinct(pub.g1, pub.p, VALUE_LIMIT, 0, j);
          } else {
            PowersDistinct(pub.g1, pub.p, VALUE_LIMIT, j, v);
          }
        }
      }
    }
    if forall v, k: nat :: 0 <= v <= VALUE_LIMIT ==>
         EncryptValue(pub, v, k).Ok? && FirstLog(pub, Unmask(priv, EncryptValue(pub, v, k).value.0), v) {
      UnmaskNumber(priv, 0, 0);
      SmallMod(0, pub.p);
      SmallMod(1, pub.p);
      assert FirstLog(pub, Unmask(priv, EncryptValue(pub, 0, 0).value.0), 0);
    }
  }

  /** An encrypted address of the pool below P is found again exactly when no earlier one has the same power
      of g1. */
  lemma {:induction false} AddressRoundTrip(priv: PrivateKey, pool: seq<seq<byte>>, i: nat, k: nat)
    requires ValidPair(priv) && i < |pool| && Value(pool[i]) < priv.pub.p
    ensures FirstMatch(priv, EncryptAddress(priv.pub, pool[i], k).0, pool, i) <==>
            forall j :: 0 <= j < i ==> Exp(priv.pub.g1, Value(pool[j]), priv.pub.p) != Exp(priv.pub.g1, Value(pool[i]), priv.pub.p)
  {
    hide Unmask, Exp, EncryptNumber, ValidPair, Value;
    UnmaskNumber(priv, Value(pool[i]), k);
    SmallMod(Value(pool[i]), priv.pub.p);
  }

  /** A commitment made by Commit opens to the committed value under the same condition. */
  lemma {:induction false} CommitmentRoundTrip(pub: PublicKey, v: nat, i: nat, rnd: seq<byte>)
    requires ValidKey(pub) && OrderExceedsLimit(pub)
    requires v <= VALUE_LIMIT && i <= VALUE_LIMIT
    ensures CommitsTo(pub, Commit(pub, v, rnd), i) <==> i == v
  {
    KeyUnits(pub);
    OrderBelowModulus(pub.g1, pub.p, VALUE_LIMIT);
    SmallMod(v, pub.p);
    CommitOpens(pub, v, rnd);
    var h := Exp(pub.h, Value(rnd), pub.p);
    ExpIsGroupExp(pub.h, Value(rnd), pub.p);
    ExpIsGroupExp(pub.g1, v, pub.p);
    GroupExpUnit(pub.h, Value(rnd), pub.p);
    var a, b := Exp(pub.g1, i, pub.p), Exp(pub.g1, v, pub.p);
    MulModComm(a, h, pub.p);
    MulModComm(b, h, pub.p);
    CancelUnit(h, a, b, pub.p);
    if i < v {
      PowersDistinct(pub.g1, pub.p, VALUE_LIMIT, i, v);
    } else if v < i {
      PowersDistinct(pub.g1, pub.p, VALUE_LIMIT, v, i);
    }
  }
}
