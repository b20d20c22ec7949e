/**
 Transactions as the pool sees them, and nonce maps: the plain maps from nonce to transaction that
 the heap-and-cache structures of the pool stand for.
 */
module Transactions {
  import opened Heap

  type Addr = nat
  type Hash = nat

  const TX_SLOT_SIZE := 32 * 1024
  const TX_MAX_SIZE := 2 * TX_SLOT_SIZE

  /** The size of an encoded transaction, which is never empty. */
  type Size = n: nat | n > 0 witness 1

  /** id is 1 for a coin purchase and 0 for a transfer; the cm fields are the hashes of its commitments. */
  datatype Tx = Tx(hash: Hash, from: Addr, nonce: nat, price: nat, gas: nat, value: nat, size: Size,
                   id: int, cmV: Hash, cmO: Hash, cmS: Hash, cmR: Hash)
  {
    function Cost(): nat
    {
      value + price * gas
    }

    /** The number of slots of 32 KB that hold the transaction. */
    function Slots(): (r: nat)
      ensures r > 0 && (r - 1) * TX_SLOT_SIZE < size <= r * TX_SLOT_SIZE
    {
      (size + TX_SLOT_SIZE - 1) / TX_SLOT_SIZE
    }
  }

  /** The pool's lookup of transactions by hash. */
  type Lookup = map<Hash, Tx>

  ghost predicate Keyed(all: Lookup)
  {
    forall h :: h in all ==> all[h].hash == h
  }

  // ---------- Nonce maps ----------

  type NonceMap = map<nat, Tx>

  ghost predicate WellKeyed(m: NonceMap)
  {
    forall n :: n in m ==> m[n].nonce == n
  }

  /** Transactions with nonces below t, and the rest. */
  function Below(m: NonceMap, t: nat): NonceMap
  {
    map n | n in m && n < t :: m[n]
  }

  function From(m: NonceMap, t: nat): NonceMap
  {
    map n | n in m && n >= t :: m[n]
  }

  /** Transactions satisfying f, and the rest. */
  function Matching(m: NonceMap, f: Tx -> bool): NonceMap
  {
    map n | n in m && f(m[n]) :: m[n]
  }

  function NotMatching(m: NonceMap, f: Tx -> bool): NonceMap
  {
    map n | n in m && !f(m[n]) :: m[n]
  }

  function NoncesBelow(m: NonceMap, n: nat): set<nat>
  {
    set x | x in m && x < n
  }

  /** How many nonces of m lie below n. */
  function Rank(m: NonceMap, n: nat): nat
  {
    |NoncesBelow(m, n)|
  }

  /** The k transactions of lowest nonce, and the rest. */
  function Lowest(m: NonceMap, k: nat): NonceMap
  {
    map n | n in m && Rank(m, n) < k :: m[n]
  }

  function AboveLowest(m: NonceMap, k: nat): NonceMap
  {
    map n | n in m && Rank(m, n) >= k :: m[n]
  }

  /** Every nonce from a to n is present. */
  predicate Consecutive(m: NonceMap, a: nat, n: nat)
  {
    forall j :: a <= j <= n ==> j in m
  }

  predicate IsMin(m: NonceMap, a: nat)
  {
    a in m && forall n :: n in m ==> a <= n
  }

  /** The run of consecutive nonces that starts at a. */
  function RunFrom(m: NonceMap, a: nat): NonceMap
  {
    map n | n in m && a <= n && Consecutive(m, a, n) :: m[n]
  }

  /** No nonce is missing between any two that are present. */
  ghost predicate GapFree(m: NonceMap)
  {
    forall a, n :: a in m && n in m && a <= n ==> Consecutive(m, a, n)
  }

  // ---------- Listings ----------

  /** s lists the transactions of m, each once, in any order. */
  ghost predicate Lists(s: seq<Tx>, m: NonceMap)
  {
    && (forall i :: 0 <= i < |s| ==> s[i].nonce in m && m[s[i].nonce] == s[i])
    && (forall i, j :: 0 <= i < j < |s| ==> s[i].nonce != s[j].nonce)
    && (forall n :: n in m ==> m[n] in s)
  }

  ghost predicate Ascending(s: seq<Tx>)
  {
    forall i, j :: 0 <= i < j < |s| ==> s[i].nonce < s[j].nonce
  }

  ghost predicate Descending(s: seq<Tx>)
  {
    forall i, j :: 0 <= i < j < |s| ==> s[i].nonce > s[j].nonce
  }

  lemma {:induction false} ListsLength(s: seq<Tx>, m: NonceMap)
    requires WellKeyed(m) && Lists(s, m)
    ensures |s| == |m|
  {
    if s == [] {
      assert m == map[];
    } else {
      var x, t := s[|s| - 1], s[..|s| - 1];
      var r := m - {x.nonce};
      forall n | n in r ensures r[n] in t {
        assert m[n] in s;
      }
      ListsLength(t, r);
      assert m.Keys == r.Keys + {x.nonce};
      assert |m.Keys| == |r.Keys| + 1;
    }
  }

  /** Ascending listings are unique. */
  lemma {:induction false} AscendingUnique(s: seq<Tx>, t: seq<Tx>, m: NonceMap)
    requires WellKeyed(m) && Lists(s, m) && Lists(t, m) && Ascending(s) && Ascending(t)
    ensures s == t
  {
    hide Lists, Ascending;
    ListsLength(s, m);
    ListsLength(t, m);
    if s != [] {
      SameLast(s, t, m);
      DropLast(s, m);
      DropLast(t, m);
      AscendingUnique(s[..|s| - 1], t[..|t| - 1], m - {s[|s| - 1].nonce});
      assert s == s[..|s| - 1] + [s[|s| - 1]] && t == t[..|t| - 1] + [t[|t| - 1]];
    }
  }

  lemma {:induction false} SameLast(s: seq<Tx>, t: seq<Tx>, m: NonceMap)
    requires WellKeyed(m) && Lists(s, m) && Lists(t, m) && Ascending(s) && Ascending(t) && s != [] && t != []
    ensures s[|s| - 1] == t[|t| - 1]
  {
    var x, y := s[|s| - 1], t[|t| - 1];
    assert m[x.nonce] in t && m[y.nonce] in s;
    var i :| 0 <= i < |t| && t[i] == x;
    var j :| 0 <= j < |s| && s[j] == y;
    assert x.nonce <= y.nonce && y.nonce <= x.nonce;
  }

  lemma {:induction false} DropLast(s: seq<Tx>, m: NonceMap)
    requires WellKeyed(m) && Lists(s, m) && s != []
    ensures Lists(s[..|s| - 1], m - {s[|s| - 1].nonce})
    ensures Ascending(s) ==> Ascending(s[..|s| - 1])
  {
    var x, t, r := s[|s| - 1], s[..|s| - 1], m - {s[|s| - 1].nonce};
    forall n | n in r ensures r[n] in t {
      assert m[n] in s;
    }
  }

  lemma {:induction false} ListsOnce(s: seq<Tx>, m: NonceMap)
    requires Lists(s, m)
    ensures NoDuplicates(s)
  {
  }

  /** An ascending listing splits where any threshold falls. */
  lemma {:induction false} AscendingSplit(s: seq<Tx>, m: NonceMap, t: nat) returns (k: nat)
    requires WellKeyed(m) && Lists(s, m) && Ascending(s)
    ensures k == |Below(m, t)| <= |s|
    ensures Lists(s[..k], Below(m, t)) && Lists(s[k..], From(m, t))
  {
    k := 0;
    while k < |s| && s[k].nonce < t
      invariant k <= |s|
      invariant forall i :: 0 <= i < k ==> s[i].nonce < t
    {
      k := k + 1;
    }
    assert forall i :: k <= i < |s| ==> s[i].nonce >= t;
    SliceLists(s, m, k, Below(m, t), From(m, t));
    ListsLength(s[..k], Below(m, t));
  }

  /** Cutting a listing of m in two lists the two parts of m that the cut separates. */
  lemma {:induction false} SliceLists(s: seq<Tx>, m: NonceMap, k: nat, a: NonceMap, b: NonceMap)
    requires WellKeyed(m) && Lists(s, m) && k <= |s|
    requires forall n :: n in m <==> n in a || n in b
    requires forall n :: n in a ==> a[n] == m[n]
    requires forall n :: n in b ==> b[n] == m[n]
    requires forall i :: 0 <= i < k ==> s[i].nonce in a && s[i].nonce !in b
    requires forall i :: k <= i < |s| ==> s[i].nonce in b && s[i].nonce !in a
    ensures Lists(s[..k], a) && Lists(s[k..], b)
  {
    forall n | n in a ensures a[n] in s[..k] {
      var i :| 0 <= i < |s| && s[i] == m[n];
      assert i < k;
      assert s[..k][i] == a[n];
    }
    forall n | n in b ensures b[n] in s[k..] {
      var i :| 0 <= i < |s| && s[i] == m[n];
      assert i >= k;
      assert s[k..][i - k] == b[n];
    }
  }

  // ---------- Sorting (sort.Sort) ----------

  ghost predicate SortedBy<T>(s: seq<T>, key: T -> Key)
  {
    forall i, j :: 0 <= i < j < |s| ==> Leq(key(s[i]), key(s[j]))
  }

  method Sort<T(==)>(s: seq<T>, key: T -> Key) returns (r: seq<T>)
    ensures SortedBy(r, key) && multiset(r) == multiset(s) && |r| == |s|
  {
    r := [];
    var h := Init(s, key);
    while h != []
      invariant IsHeap(h, key) && SortedBy(r, key)
      invariant forall i, j :: 0 <= i < |r| && 0 <= j < |h| ==> Leq(key(r[i]), key(h[j]))
      invariant multiset(r) + multiset(h) == multiset(s) && |r| + |h| == |s|
      decreases |h|
    {
      ghost var h0 := h;
      RootIsLeast(h, key);
      var x;
      x, h := Pop(h, key);
      forall j | 0 <= j < |h| ensures h[j] in h0 {
        assert h[j] in multiset(h);
      }
      r := r + [x];
    }
  }

  function NonceKey(n: nat): Key
  {
    Key(n, 0)
  }

  function TxNonceKey(t: Tx): Key
  {
    Key(t.nonce, 0)
  }

  /** Cheapest first; among equal prices the higher nonce first. */
  function PriceKey(t: Tx): Key
  {
    Key(t.price, -(t.nonce as int))
  }

  /** In an ascending sequence of the nonces of m, position i holds the nonce of rank i. */
  lemma {:induction false} RankOfSorted(idx: seq<nat>, m: NonceMap, i: nat)
    requires multiset(idx) == multiset(m.Keys) && SortedBy(idx, NonceKey) && i < |idx|
    ensures idx[i] in m && Rank(m, idx[i]) == i
  {
    Distinct(idx, m);
    assert idx[i] in multiset(idx);
    var lower := NoncesBelow(m, idx[i]);
    var firsts := set j | 0 <= j < i :: idx[j];
    forall x | x in lower ensures x in firsts {
      assert x in multiset(idx);
      var j :| 0 <= j < |idx| && idx[j] == x;
      assert j > i ==> Leq(NonceKey(idx[i]), NonceKey(idx[j]));
      assert j < i;
    }
    forall x | x in firsts ensures x in lower {
      var j :| 0 <= j < i && idx[j] == x;
      assert Leq(NonceKey(idx[j]), NonceKey(idx[i])) && idx[j] != idx[i];
      assert idx[j] in multiset(idx);
    }
    assert lower == firsts;
    CountFirsts(idx, i);
  }

  ghost predicate NoDuplicates<T>(s: seq<T>)
  {
    forall i, j :: 0 <= i < j < |s| ==> s[i] != s[j]
  }

  lemma {:induction false} Distinct(idx: seq<nat>, m: NonceMap)
    requires multiset(idx) == multiset(m.Keys)
    ensures NoDuplicates(idx)
  {
    forall i, j | 0 <= i < j < |idx| ensures idx[i] != idx[j] {
      if idx[i] == idx[j] {
        Twice(idx, i, j);
        assert false;
      }
    }
  }

  lemma {:induction false} Twice<T>(s: seq<T>, i: nat, j: nat)
    requires i < j < |s| && s[i] == s[j]
    ensures multiset(s)[s[i]] >= 2
  {
    assert s == s[..i] + [s[i]] + s[i + 1..j] + [s[j]] + s[j + 1..];
  }

  lemma {:induction false} Once<T>(s: seq<T>, x: T)
    requires NoDuplicates(s)
    ensures multiset(s)[x] == if x in s then 1 else 0
  {
    if x in s {
      var i :| 0 <= i < |s| && s[i] == x;
      assert s == s[..i] + [x] + s[i + 1..];
      assert x !in s[..i] && x !in s[i + 1..];
      assert multiset(s) == multiset(s[..i]) + multiset{x} + multiset(s[i + 1..]);
    }
  }

  lemma {:induction false} CountFirsts(idx: seq<nat>, n: nat)
    requires n <= |idx| && NoDuplicates(idx)
    ensures |set j | 0 <= j < n :: idx[j]| == n
  {
    if n > 0 {
      CountFirsts(idx, n - 1);
      assert (set j | 0 <= j < n :: idx[j]) == (set j | 0 <= j < n - 1 :: idx[j]) + {idx[n - 1]};
    }
  }
}
