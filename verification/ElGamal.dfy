/**
 ElGamal encryption of byte strings in 28-byte chunks, and ElGamal signatures.
 */
module ElGamal {
  import opened Common
  import opened NumberTheory
  import opened Bytes
  import opened Group
  import opened Keys

  datatype Signature = Signature(m: seq<byte>, mHash: seq<byte>, r: seq<byte>, s: seq<byte>)

  // ---------- Chunks ----------

  function ChunkCount(m: seq<byte>): nat
  {
    (|m| + 27) / 28
  }

  /** Chunk i of the plaintext: 28 bytes, fewer in the last one. */
  function Chunk(m: seq<byte>, i: nat): (c: seq<byte>)
    requires i < ChunkCount(m)
    ensures 0 < |c| <= 28
  {
    if i == ChunkCount(m) - 1 then m[i * 28..] else m[i * 28..(i + 1) * 28]
  }

  /** The trimmed chunks one after the other: what survives a round trip. */
  function TrimmedChunks(m: seq<byte>, n: nat): seq<byte>
    requires n <= ChunkCount(m)
  {
    if n == 0 then [] else TrimmedChunks(m, n - 1) + Trim(Chunk(m, n - 1))
  }

  /** A number below 2^256 in exactly 32 bytes. */
  function Padded(n: nat): (b: seq<byte>)
    requires n < Pow(256, 32)
    ensures |b| == 32
  {
    EncodeLength(n, 32);
    Zeros(32 - |Encode(n)|) + Encode(n)
  }

  lemma {:induction false} ValueOfPaddedNumber(n: nat)
    requires n < Pow(256, 32)
    ensures Value(Padded(n)) == n
  {
    hide Pow;
    EncodeLength(n, 32);
    ValueOfPadded(32 - |Encode(n)|, Encode(n));
    ValueOfEncode(n);
  }

  // ---------- Encryption ----------

  function Cipher1(pub: PublicKey, k: nat): seq<byte>
    requires 2 <= pub.p <= Pow(256, 32)
  {
    Padded(Exp(pub.g2, k, pub.p))
  }

  function Cipher2(pub: PublicKey, chunk: seq<byte>, k: nat): seq<byte>
    requires 2 <= pub.p <= Pow(256, 32)
  {
    Padded(MulMod(Exp(pub.h, k, pub.p), Value(chunk), pub.p))
  }

  /** The ciphertext of the first n chunks under the random exponents ks. */
  function Cipher(pub: PublicKey, m: seq<byte>, ks: seq<nat>, n: nat): (c: CypherText)
    requires 2 <= pub.p <= Pow(256, 32) && n <= ChunkCount(m) && n <= |ks|
    ensures |c.c1| == |c.c2| == 32 * n
  {
    if n == 0 then CypherText([], [])
    else
      var c := Cipher(pub, m, ks, n - 1);
      CypherText(c.c1 + Cipher1(pub, ks[n - 1]), c.c2 + Cipher2(pub, Chunk(m, n - 1), ks[n - 1]))
  }

  method Encrypt(pub: PublicKey, m: seq<byte>, ks: seq<nat>) returns (c: CypherText)
    requires 2 <= pub.p <= Pow(256, 32) && |ks| == ChunkCount(m)
    ensures c == Cipher(pub, m, ks, ChunkCount(m))
  {
    hide Pow, Cipher1, Cipher2, Chunk;
    var c1, c2: seq<byte> := [], [];
    var n := ChunkCount(m);
    for i := 0 to n
      invariant CypherText(c1, c2) == Cipher(pub, m, ks, i)
    {
      c1 := c1 + Cipher1(pub, ks[i]);
      c2 := c2 + Cipher2(pub, Chunk(m, i), ks[i]);
    }
    c := CypherText(c1, c2);
  }

  /** Piece i of a ciphertext half: 32 bytes, or what is left for the last of n pieces. */
  function Piece(c: seq<byte>, i: nat, n: nat): seq<byte>
    requires i < n && i * 32 <= |c| && (i < n - 1 ==> (i + 1) * 32 <= |c|)
  {
    if i == n - 1 then c[i * 32..] else c[i * 32..(i + 1) * 32]
  }

  function PieceCount(c: CypherText): nat
  {
    (|c.c1| + 31) / 32
  }

  function Plain(priv: PrivateKey, c: CypherText, n: nat): seq<byte>
    requires priv.pub.p >= 2 && |c.c1| <= |c.c2| && n <= PieceCount(c)
  {
    if n == 0 then []
    else
      var k := PieceCount(c);
      Plain(priv, c, n - 1) + Encode(Unmask(priv, CypherText(Piece(c.c1, n - 1, k), Piece(c.c2, n - 1, k))))
  }

  method Decrypt(priv: PrivateKey, c: CypherText) returns (m: seq<byte>)
    requires priv.pub.p >= 2 && |c.c1| <= |c.c2|
    ensures m == Plain(priv, c, PieceCount(c))
  {
    hide Unmask, Encode;
    m := [];
    var n := PieceCount(c);
    for i := 0 to n
      invariant m == Plain(priv, c, i)
    {
      m := m + Encode(Unmask(priv, CypherText(Piece(c.c1, i, n), Piece(c.c2, i, n))));
    }
  }

  // ---------- The round trip ----------

  /** Piece i of a ciphertext is the encryption of chunk i. */
  lemma {:induction false} PieceOfCipher(pub: PublicKey, m: seq<byte>, ks: seq<nat>, i: nat, n: nat)
    requires 2 <= pub.p <= Pow(256, 32) && i < n <= ChunkCount(m) && n <= |ks|
    ensures var c := Cipher(pub, m, ks, n);
            && Piece(c.c1, i, n) == Cipher1(pub, ks[i])
            && Piece(c.c2, i, n) == Cipher2(pub, Chunk(m, i), ks[i])
  {
    hide Pow, Cipher1, Cipher2, Chunk;
    CipherLengths(pub, m, ks, i);
    var c := Cipher(pub, m, ks, n);
    if i < n - 1 {
      PieceOfCipher(pub, m, ks, i, n - 1);
      var d := Cipher(pub, m, ks, n - 1);
      assert c.c1[i * 32..(i + 1) * 32] == d.c1[i * 32..(i + 1) * 32];
      assert c.c2[i * 32..(i + 1) * 32] == d.c2[i * 32..(i + 1) * 32];
      assert i == n - 2 ==> d.c1[i * 32..] == d.c1[i * 32..(i + 1) * 32] && d.c2[i * 32..] == d.c2[i * 32..(i + 1) * 32];
    }
  }

  /** Every 28 bytes of the message are encrypted on their own: 32 bytes of each half hold g2^k and h^k times the number
      of the chunk. */
  lemma {:induction false} EncryptedChunk(pub: PublicKey, m: seq<byte>, ks: seq<nat>, i: nat)
    requires 2 <= pub.p <= Pow(256, 32) && |ks| == ChunkCount(m) && i < |ks|
    ensures var c, chunk := Cipher(pub, m, ks, |ks|), m[i * 28..if i * 28 + 28 <= |m| then i * 28 + 28 else |m|];
            && |c.c1| == |c.c2| == 32 * |ks|
            && Value(c.c1[i * 32..i * 32 + 32]) == Exp(pub.g2, ks[i], pub.p)
            && Value(c.c2[i * 32..i * 32 + 32]) == MulMod(Exp(pub.h, ks[i], pub.p), Value(chunk), pub.p)
  {
    hide Pow, Value, Padded, Exp, MulMod;
    var n, c := |ks|, Cipher(pub, m, ks, |ks|);
    PieceOfCipher(pub, m, ks, i, n);
    assert c.c1[i * 32..i * 32 + 32] == Piece(c.c1, i, n) && c.c2[i * 32..i * 32 + 32] == Piece(c.c2, i, n);
    assert Chunk(m, i) == m[i * 28..if i * 28 + 28 <= |m| then i * 28 + 28 else |m|];
    Remainders(pub, ks[i], Value(Chunk(m, i)));
    ValueOfPaddedNumber(Exp(pub.g2, ks[i], pub.p));
    ValueOfPaddedNumber(MulMod(Exp(pub.h, ks[i], pub.p), Value(Chunk(m, i)), pub.p));
  }

  lemma {:induction false} Remainders(pub: PublicKey, k: nat, v: nat)
    requires pub.p >= 2
    ensures Exp(pub.g2, k, pub.p) < pub.p && MulMod(Exp(pub.h, k, pub.p), v, pub.p) < pub.p
  {
    hide Pow;
  }

  lemma {:induction false} CipherLengths(pub: PublicKey, m: seq<byte>, ks: seq<nat>, i: nat)
    requires 2 <= pub.p <= Pow(256, 32) && i < ChunkCount(m) && i < |ks|
    ensures |Cipher1(pub, ks[i])| == |Cipher2(pub, Chunk(m, i), ks[i])| == 32
  {
  }

  /** Unmasking the encryption of a chunk gives the chunk back without its leading zeros. */
  lemma {:induction false} ChunkRoundTrip(priv: PrivateKey, chunk: seq<byte>, k: nat)
    requires ValidPair(priv) && Pow(256, 28) < priv.pub.p <= Pow(256, 32)
    requires |chunk| <= 28
    ensures Encode(Unmask(priv, CypherText(Cipher1(priv.pub, k), Cipher2(priv.pub, chunk, k)))) == Trim(chunk)
  {
    hide Pow, IsPrime, MulMod, ModInverse, Padded, Encode, Value, Trim;
    var pub, u := priv.pub, Value(chunk);
    ChunkBound(chunk);
    var c1, s := Exp(pub.g2, k, pub.p), Exp(pub.h, k, pub.p);
    MulModComm(s, u, pub.p);
    ValueOfPaddedNumber(c1);
    ValueOfPaddedNumber(MulMod(s, u, pub.p));
    UnmaskProduct(priv, k, u, c1);
    EncodeOfValue(chunk);
  }

  lemma {:induction false} ChunkBound(chunk: seq<byte>)
    requires |chunk| <= 28
    ensures Value(chunk) < Pow(256, 28)
  {
    hide Pow, Value;
    ValueBound(chunk);
    PowMonotone(|chunk|, 28);
  }

  lemma {:induction false} PowMonotone(i: nat, j: nat)
    requires i <= j
    ensures Pow(256, i) <= Pow(256, j) && 0 < Pow(256, j)
  {
    if i < j {
      PowMonotone(i, j - 1);
    } else if j > 0 {
      PowMonotone(j - 1, j - 1);
    }
  }

  lemma {:induction false} PlainOfCipher(priv: PrivateKey, m: seq<byte>, ks: seq<nat>, i: nat)
    requires ValidPair(priv) && Pow(256, 28) < priv.pub.p <= Pow(256, 32)
    requires |ks| == ChunkCount(m) && i <= ChunkCount(m)
    ensures PieceCount(Cipher(priv.pub, m, ks, ChunkCount(m))) == ChunkCount(m)
    ensures Plain(priv, Cipher(priv.pub, m, ks, ChunkCount(m)), i) == TrimmedChunks(m, i)
  {
    hide Pow, Cipher1, Cipher2, Chunk, Cipher, Unmask, Encode, Trim, IsPrime, Piece;
    if i > 0 {
      PlainOfCipher(priv, m, ks, i - 1);
      PieceOfCipher(priv.pub, m, ks, i - 1, ChunkCount(m));
      ChunkRoundTrip(priv, Chunk(m, i - 1), ks[i - 1]);
    }
  }

  /** Decrypting an encryption gives the message with the leading zeros of every chunk removed, hence the
      message itself exactly when no chunk starts with a zero byte. */
  lemma {:induction false} EncryptionRoundTrip(priv: PrivateKey, m: seq<byte>, ks: seq<nat>)
    requires ValidPair(priv) && Pow(256, 28) < priv.pub.p <= Pow(256, 32)
    requires |ks| == ChunkCount(m)
    ensures var c := Cipher(priv.pub, m, ks, ChunkCount(m));
            && Plain(priv, c, PieceCount(c)) == TrimmedChunks(m, ChunkCount(m))
            && (Plain(priv, c, PieceCount(c)) == m <==> NoLeadingZeros(m, ChunkCount(m)))
  {
    hide Pow, Cipher, Plain, Chunk, IsPrime, TrimmedChunks, PieceCount, NoLeadingZeros;
    PlainOfCipher(priv, m, ks, ChunkCount(m));
    TrimmedWhole(m);
  }

  /** The message of a single zero byte decrypts to nothing. */
  lemma {:induction false} ZeroByteLost(priv: PrivateKey, k: nat)
    requires ValidPair(priv) && Pow(256, 28) < priv.pub.p <= Pow(256, 32)
    ensures var c := Cipher(priv.pub, [0], [k], 1);
            Plain(priv, c, PieceCount(c)) == []
  {
    hide Pow, Cipher, Plain, IsPrime, PieceCount;
    EncryptionRoundTrip(priv, [0], [k]);
    assert Chunk([0], 0) == [0];
    assert TrimmedChunks([0], 1) == [];
  }

  /** The end of the first n chunks in the message. */
  function ChunkEnd(m: seq<byte>, n: nat): (e: nat)
    requires n <= ChunkCount(m)
    ensures e <= |m|
  {
    if n == ChunkCount(m) then |m| else n * 28
  }

  lemma {:induction false} ChunkAppends(m: seq<byte>, n: nat)
    requires n < ChunkCount(m)
    ensures m[..ChunkEnd(m, n + 1)] == m[..ChunkEnd(m, n)] + Chunk(m, n)
    ensures ChunkEnd(m, n + 1) == ChunkEnd(m, n) + |Chunk(m, n)|
  {
  }

  predicate NoLeadingZeros(m: seq<byte>, n: nat)
    requires n <= ChunkCount(m)
  {
    forall i :: 0 <= i < n ==> Chunk(m, i)[0] != 0
  }

  lemma {:induction false} TrimmedPrefix(m: seq<byte>, n: nat)
    requires n <= ChunkCount(m)
    ensures |TrimmedChunks(m, n)| <= ChunkEnd(m, n)
    ensures NoLeadingZeros(m, n) ==> TrimmedChunks(m, n) == m[..ChunkEnd(m, n)]
    ensures |TrimmedChunks(m, n)| == ChunkEnd(m, n) ==> NoLeadingZeros(m, n)
  {
    hide Trim, Chunk, ChunkEnd;
    if n == 0 {
      NoChunks(m);
    } else {
      var chunk := Chunk(m, n - 1);
      TrimmedPrefix(m, n - 1);
      TrimHead(chunk);
      ChunkAppends(m, n - 1);
      assert ChunkEnd(m, n) == ChunkEnd(m, n - 1) + |chunk|;
      assert NoLeadingZeros(m, n) <==> NoLeadingZeros(m, n - 1) && chunk[0] != 0;
    }
  }

  lemma {:induction false} NoChunks(m: seq<byte>)
    ensures ChunkEnd(m, 0) == 0
  {
  }

  lemma {:induction false} TrimmedWhole(m: seq<byte>)
    ensures TrimmedChunks(m, ChunkCount(m)) == m <==> NoLeadingZeros(m, ChunkCount(m))
  {
    hide TrimmedChunks, NoLeadingZeros;
    TrimmedPrefix(m, ChunkCount(m));
    assert m[..|m|] == m;
  }

  // ---------- Signatures ----------

  /** The signature of m with the nonce k. */
  function SignWith(priv: PrivateKey, m: seq<byte>, k: nat, sha: Sha256): Signature
    requires priv.pub.p >= 2
  {
    var p := priv.pub.p;
    var m0 := Value(sha(m));
    var r := Exp(priv.pub.g2, k, p);
    var s := MulMod(ModInverse(k, p - 1), m0 % p - r * priv.x, p - 1);
    Signature(m, Encode(m0), Encode(r), Encode(s))
  }

  /** Candidates are tried until one is coprime to p - 1. */
  method Sign(priv: PrivateKey, m: seq<byte>, candidates: seq<nat>, sha: Sha256) returns (sig: Option<Signature>)
    requires priv.pub.p >= 2
    ensures sig.Some? ==> exists i :: 0 <= i < |candidates| && FirstCoprime(candidates, i, priv.pub.p - 1)
                                      && sig.value == SignWith(priv, m, candidates[i], sha)
    ensures sig.None? <==> forall i :: 0 <= i < |candidates| ==> Gcd(candidates[i], priv.pub.p - 1) != 1
  {
    for i := 0 to |candidates|
      invariant forall j :: 0 <= j < i ==> Gcd(candidates[j], priv.pub.p - 1) != 1
    {
      if Gcd(candidates[i], priv.pub.p - 1) == 1 {
        assert FirstCoprime(candidates, i, priv.pub.p - 1);
        return Some(SignWith(priv, m, candidates[i], sha));
      }
    }
    return None;
  }

  predicate FirstCoprime(candidates: seq<nat>, i: nat, n: nat)
    requires i < |candidates|
  {
    Gcd(candidates[i], n) == 1 && forall j :: 0 <= j < i ==> Gcd(candidates[j], n) != 1
  }

  /** h^r r^s = g2^m, the message being the stored digest modulo p. */
  predicate EquationHolds(pub: PublicKey, sig: Signature)
    requires pub.p >= 2
  {
    MulMod(Exp(pub.h, Value(sig.r), pub.p), Exp(Value(sig.r), Value(sig.s), pub.p), pub.p)
    == Exp(pub.g2, Value(sig.mHash) % pub.p, pub.p)
  }

  method Verify(pub: PublicKey, sig: Signature, sha: Sha256) returns (ok: bool)
    requires pub.p >= 2
    ensures ok <==> sha(sig.m) == sig.mHash && EquationHolds(pub, sig)
  {
    var digest := sha(sig.m);
    if |digest| != |sig.mHash| {
      return false;
    }
    for i := 0 to |sig.mHash|
      invariant forall j :: 0 <= j < i ==> digest[j] == sig.mHash[j]
    {
      if digest[i] != sig.mHash[i] {
        return false;
      }
    }
    assert digest == sig.mHash;
    return EquationHolds(pub, sig);
  }

  /** The signing equation in the exponents: k s = m - r x modulo p - 1. */
  lemma {:induction false} SigningExponents(k: int, i: int, w: int, m: int)
    requires m > 0 && IsInverse(k, i, m)
    ensures (k * MulMod(i, w, m)) % m == w % m
  {
    ModMulLeft(i * w, k, m);
    Exchange(k, i, 1, w);
    ModMulBy(k * i, 1, w, m);
    assert k * (i * w) == (k * i) * w;
    ModIdem(k * i, m);
  }

  lemma {:induction false} SignatureEquation(priv: PrivateKey, m: seq<byte>, k: nat, sha: Sha256)
    requires ValidPair(priv) && Gcd(k, priv.pub.p - 1) == 1
    ensures EquationHolds(priv.pub, SignWith(priv, m, k, sha))
  {
    hide IsPrime, Value, Encode, Gcd, ModInverse, MulMod, GroupExp;
    var pub, p := priv.pub, priv.pub.p;
    var m0, r := Value(sha(m)), Exp(pub.g2, k, p);
    var w := m0 % p - r * priv.x;
    CoprimeInvertible(k, p - 1);
    ModInverseCorrect(k, p - 1);
    var s := MulMod(ModInverse(k, p - 1), w, p - 1);
    SigningExponents(k, ModInverse(k, p - 1), w, p - 1);
    ValueOfEncode(m0);
    ValueOfEncode(r);
    ValueOfEncode(s);
    SignaturePowers(priv, k, r, s, m0 % p);
  }

  lemma {:induction false} SignaturePowers(priv: PrivateKey, k: nat, r: nat, s: nat, m: nat)
    requires ValidPair(priv) && r == Exp(priv.pub.g2, k, priv.pub.p)
    requires (k * s) % (priv.pub.p - 1) == (m - r * priv.x) % (priv.pub.p - 1)
    ensures MulMod(Exp(priv.pub.h, r, priv.pub.p), Exp(r, s, priv.pub.p), priv.pub.p) == Exp(priv.pub.g2, m, priv.pub.p)
  {
    var g, p, x := priv.pub.g2, priv.pub.p, priv.x;
    KeyUnits(priv.pub);
    ExpIsGroupExp(g, k, p);
    ExpIsGroupExp(g, x, p);
    ExpIsGroupExp(g, m, p);
    hide IsPrime, MulMod, GroupExp;
    GroupExpPow(g, x, r, p);
    GroupExpPow(g, k, s, p);
    GroupExpAdd(g, x * r, k * s, p);
    assert x * r == r * x;
    ModAdd(x * r, x * r, k * s, m - r * x, p - 1);
    GroupExpCong(g, x * r + k * s, m, p);
  }

  /** A signature verifies exactly when the digest of the message starts with a nonzero byte: the stored
      digest has lost its leading zeros, and the verifier compares it byte by byte. */
  lemma {:induction false} SignatureExact(priv: PrivateKey, m: seq<byte>, k: nat, sha: Sha256)
    requires ValidPair(priv) && Gcd(k, priv.pub.p - 1) == 1
    requires |sha(m)| == 32
    ensures var sig := SignWith(priv, m, k, sha);
            sha(sig.m) == sig.mHash && EquationHolds(priv.pub, sig) <==> sha(m)[0] != 0
  {
    hide IsPrime, Value, Encode, Gcd, EquationHolds, ModInverse, MulMod, Trim;
    SignatureEquation(priv, m, k, sha);
    EncodeOfValue(sha(m));
    TrimHead(sha(m));
  }

  // ---------- When the equation fails ----------

  /** For any power r of g2 in a signature, any s and any digest: the equation holds exactly when x r + k s is the digest
      as an exponent of g2. */
  lemma {:induction false} EquationExact(priv: PrivateKey, m: seq<byte>, d: seq<byte>, k: nat, s: nat)
    requires ValidPair(priv)
    ensures var g, p := priv.pub.g2, priv.pub.p;
            var r := Exp(g, k, p);
            EquationHolds(priv.pub, Signature(m, d, Encode(r), Encode(s))) <==>
              GroupExp(g, priv.x * r + k * s, p) == GroupExp(g, Value(d) % p, p)
  {
    var g, p, x := priv.pub.g2, priv.pub.p, priv.x;
    var r := Exp(g, k, p);
    KeyUnits(priv.pub);
    ExpIsGroupExp(g, k, p);
    ExpIsGroupExp(g, x, p);
    ExpIsGroupExp(g, Value(d) % p, p);
    hide IsPrime, MulMod, GroupExp, Value, Encode;
    ValueOfEncode(r);
    ValueOfEncode(s);
    GroupExpPow(g, x, r, p);
    GroupExpPow(g, k, s, p);
    GroupExpAdd(g, x * r, k * s, p);
  }

  /** A signature with another s is accepted exactly when k s is the same exponent of g2. */
  lemma {:induction false} OtherAnswer(priv: PrivateKey, m: seq<byte>, k: nat, s: nat, sha: Sha256)
    requires ValidPair(priv) && Gcd(k, priv.pub.p - 1) == 1
    ensures var sig, g, p := SignWith(priv, m, k, sha), priv.pub.g2, priv.pub.p;
            EquationHolds(priv.pub, sig.(s := Encode(s))) <==> GroupExp(g, k * s, p) == GroupExp(g, k * Value(sig.s), p)
  {
    hide IsPrime, MulMod, GroupExp, Value, Encode, Gcd, ModInverse, EquationHolds;
    var sig, g, p := SignWith(priv, m, k, sha), priv.pub.g2, priv.pub.p;
    var r, own := Exp(g, k, p), Value(sig.s);
    SignatureEquation(priv, m, k, sha);
    SignedParts(priv, m, k, sha);
    EquationExact(priv, m, sig.mHash, k, own);
    EquationExact(priv, m, sig.mHash, k, s);
    KeyUnits(priv.pub);
    GroupExpAdd(g, priv.x * r, k * own, p);
    GroupExpAdd(g, priv.x * r, k * s, p);
    GroupExpUnit(g, priv.x * r, p);
    GroupExpUnit(g, k * own, p);
    GroupExpUnit(g, k * s, p);
    CancelUnit(GroupExp(g, priv.x * r, p), GroupExp(g, k * s, p), GroupExp(g, k * own, p), p);
  }

  lemma {:induction false} SignedParts(priv: PrivateKey, m: seq<byte>, k: nat, sha: Sha256)
    requires priv.pub.p >= 2
    ensures var sig := SignWith(priv, m, k, sha);
            && sig.m == m && sig.mHash == Encode(Value(sha(m))) && sig.r == Encode(Exp(priv.pub.g2, k, priv.pub.p))
            && sig.s == Encode(Value(sig.s)) && Value(sig.mHash) == Value(sha(m))
            && Value(sig.r) == Exp(priv.pub.g2, k, priv.pub.p)
  {
    hide Value, Encode, ModInverse;
    var p := priv.pub.p;
    var r := Exp(priv.pub.g2, k, p);
    ValueOfEncode(MulMod(ModInverse(k, p - 1), Value(sha(m)) % p - r * priv.x, p - 1));
    ValueOfEncode(Value(sha(m)));
    ValueOfEncode(r);
  }

  /** A signature is accepted for another digest exactly when both digests are the same exponent of g2. */
  lemma {:induction false} OtherDigest(priv: PrivateKey, m: seq<byte>, d: seq<byte>, k: nat, sha: Sha256)
    requires ValidPair(priv) && Gcd(k, priv.pub.p - 1) == 1
    ensures var sig, g, p := SignWith(priv, m, k, sha), priv.pub.g2, priv.pub.p;
            EquationHolds(priv.pub, sig.(mHash := d)) <==> GroupExp(g, Value(d) % p, p) == GroupExp(g, Value(sha(m)) % p, p)
  {
    hide IsPrime, MulMod, GroupExp, Value, Encode, Gcd, ModInverse, EquationHolds;
    var sig := SignWith(priv, m, k, sha);
    SignatureEquation(priv, m, k, sha);
    SignedParts(priv, m, k, sha);
    EquationExact(priv, m, sig.mHash, k, Value(sig.s));
    EquationExact(priv, m, d, k, Value(sig.s));
  }

  /** A signature is accepted under another public key of the group exactly when both keys agree in the power r. */
  lemma {:induction false} OtherKey(priv: PrivateKey, h: nat, m: seq<byte>, k: nat, sha: Sha256)
    requires ValidPair(priv) && Gcd(k, priv.pub.p - 1) == 1
    ensures var sig, p := SignWith(priv, m, k, sha), priv.pub.p;
            EquationHolds(priv.pub.(h := h), sig) <==> Exp(h, Value(sig.r), p) == Exp(priv.pub.h, Value(sig.r), p)
  {
    hide IsPrime, Value, Encode, Gcd, ModInverse, GroupExp;
    var sig, p := SignWith(priv, m, k, sha), priv.pub.p;
    var r, s := Value(sig.r), Value(sig.s);
    SignatureEquation(priv, m, k, sha);
    SignedParts(priv, m, k, sha);
    KeyUnits(priv.pub);
    ExpIsGroupExp(priv.pub.g2, k, p);
    GroupExpUnit(priv.pub.g2, k, p);
    ExpIsGroupExp(r, s, p);
    GroupExpUnit(r, s, p);
    MulModComm(Exp(h, r, p), Exp(r, s, p), p);
    MulModComm(Exp(priv.pub.h, r, p), Exp(r, s, p), p);
    CancelUnit(Exp(r, s, p), Exp(h, r, p), Exp(priv.pub.h, r, p), p);
  }

  /** A forgery with r = 1 and s = 0 is accepted exactly when the digest happens to be the exponent of the key. */
  lemma {:induction false} TrivialForgery(priv: PrivateKey, m: seq<byte>, d: seq<byte>)
    requires ValidPair(priv)
    ensures EquationHolds(priv.pub, Signature(m, d, [1], [])) <==> priv.pub.h == Exp(priv.pub.g2, Value(d) % priv.pub.p, priv.pub.p)
  {
    var g, p := priv.pub.g2, priv.pub.p;
    hide IsPrime;
    SmallMod(1, p);
    SmallMod(priv.pub.h, p);
    assert Pow(priv.pub.h, 1) == priv.pub.h && Pow(1, 0) == 1;
    assert Value([1]) == 1 && Value([]) == 0;
    MulModOne(priv.pub.h, p);
  }
}
