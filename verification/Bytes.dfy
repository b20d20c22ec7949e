/**
 Big-endian byte strings and the natural numbers they stand for: big.Int's SetBytes and Bytes.
 Bytes never writes leading zeros, so writing what was read trims them.
 */
module Bytes {
  import opened NumberTheory

  type byte = x: int | 0 <= x < 256

  /** SetBytes */
  function Value(b: seq<byte>): nat
  {
    if b == [] then 0 else Value(b[..|b| - 1]) * 256 + b[|b| - 1]
  }

  /** Bytes */
  function Encode(n: nat): seq<byte>
  {
    if n == 0 then [] else Encode(n / 256) + [n % 256]
  }

  function Trim(b: seq<byte>): seq<byte>
  {
    if b != [] && b[0] == 0 then Trim(b[1..]) else b
  }

  function Zeros(n: nat): (z: seq<byte>)
    ensures |z| == n
  {
    seq(n, _ => 0)
  }

  /** The first n strings one after the other. */
  function Concat(bs: seq<seq<byte>>, n: nat): seq<byte>
    requires n <= |bs|
  {
    if n == 0 then [] else Concat(bs, n - 1) + bs[n - 1]
  }

  lemma {:induction false} ValueOfEncode(n: nat)
    ensures Value(Encode(n)) == n
  {
    if n > 0 {
      ValueOfEncode(n / 256);
      var b := Encode(n);
      assert b[..|b| - 1] == Encode(n / 256);
    }
  }

  lemma {:induction false} ValueOfPadded(k: nat, b: seq<byte>)
    ensures Value(Zeros(k) + b) == Value(b)
  {
    var c := Zeros(k) + b;
    if b != [] {
      assert c[..|c| - 1] == Zeros(k) + b[..|b| - 1];
      ValueOfPadded(k, b[..|b| - 1]);
    } else if k > 0 {
      assert c[..|c| - 1] == Zeros(k - 1) + b;
      ValueOfPadded(k - 1, b);
    }
  }

  lemma {:induction false} ValueOfTrim(b: seq<byte>)
    ensures Value(Trim(b)) == Value(b)
  {
    if b != [] && b[0] == 0 {
      ValueOfTrim(b[1..]);
      assert b == Zeros(1) + b[1..];
      ValueOfPadded(1, b[1..]);
    }
  }

  lemma {:induction false} EncodeTrimmed(b: seq<byte>)
    requires b != [] ==> b[0] != 0
    ensures Encode(Value(b)) == b && (b != [] ==> Value(b) > 0)
  {
    if b != [] {
      var c := b[..|b| - 1];
      EncodeTrimmed(c);
      assert c == [] ==> Value(c) == 0;
      assert Value(b) / 256 == Value(c) && Value(b) % 256 == b[|b| - 1];
      assert b == c + [b[|b| - 1]];
    }
  }

  /** Reading and writing back removes exactly the leading zeros. */
  lemma {:induction false} EncodeOfValue(b: seq<byte>)
    ensures Encode(Value(b)) == Trim(b)
  {
    ValueOfTrim(b);
    TrimHead(b);
    EncodeTrimmed(Trim(b));
  }

  lemma {:induction false} TrimHead(b: seq<byte>)
    ensures |Trim(b)| <= |b|
    ensures Trim(b) != [] ==> Trim(b)[0] != 0
    ensures Trim(b) == b <==> (b == [] || b[0] != 0)
    ensures |Trim(b)| == |b| <==> Trim(b) == b
  {
    if b != [] && b[0] == 0 {
      TrimHead(b[1..]);
    }
  }

  lemma {:induction false} ValueBound(b: seq<byte>)
    ensures Value(b) < Pow(256, |b|)
  {
    if b != [] {
      ValueBound(b[..|b| - 1]);
    }
  }

  lemma {:induction false} EncodeLength(n: nat, k: nat)
    requires n < Pow(256, k)
    ensures |Encode(n)| <= k
  {
    if n > 0 {
      assert k > 0;
      EncodeLength(n / 256, k - 1);
    }
  }
}
