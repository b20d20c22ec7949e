/**
 GetHashFn: a closure that answers block hashes by number for the ancestors of a header, keeping the
 hashes it has walked over. Numbers are unsigned 64-bit integers and wrap around.
 */
module HashCache {
  import opened Common
  import opened Headers

  function Sub64(a: nat, b: nat): (r: nat)
    requires a < UINT64 && b < UINT64
  {
    if a >= b then a - b else a + UINT64 - b
  }

  function OrZero(h: Option<Hash>): Hash
  {
    if h.Some? then h.value else ZERO
  }

  /** The hash k blocks above ref, as far as the headers on the way are stored. */
  ghost function HashAbove(s: Store, ref: Header, k: nat): Option<Hash>
    requires k > 0
  {
    if k == 1 then Some(ref.parent) else
    var h := HashAbove(s, ref, k - 1);
    if h.Some? && h.value in s then Some(s[h.value].parent) else None
  }

  /** Stored headers are filed under their hashes, and a stored parent is one number below. */
  ghost predicate Numbered(s: Store, ref: Header)
  {
    && ref.number < UINT64
    && (ref.parent in s ==> ref.number == s[ref.parent].number + 1)
    && forall h :: h in s ==> s[h].number < UINT64 && (s[h].parent in s ==> s[h].number == s[s[h].parent].number + 1)
  }

  /** A stored block k above ref has the number k below it. */
  lemma {:induction false} NumberAbove(s: Store, ref: Header, k: nat)
    requires Numbered(s, ref) && k > 0 && HashAbove(s, ref, k).Some? && HashAbove(s, ref, k).value in s
    ensures s[HashAbove(s, ref, k).value].number == ref.number - k
  {
    if k > 1 {
      NumberAbove(s, ref, k - 1);
    }
  }

  /** Past a missing header nothing is known. */
  lemma {:induction false} NothingAbove(s: Store, ref: Header, j: nat, k: nat)
    requires 0 < j <= k && HashAbove(s, ref, j).None?
    ensures HashAbove(s, ref, k).None?
  {
    if j < k {
      NothingAbove(s, ref, j, k - 1);
    }
  }

  /** The walk cannot pass the first block's parent. */
  lemma {:induction false} AboveGenesis(s: Store, ref: Header, k: nat)
    requires Numbered(s, ref) && k > ref.number + 1
    ensures HashAbove(s, ref, k).None?
  {
    var j := ref.number + 1;
    if HashAbove(s, ref, j).Some? && HashAbove(s, ref, j).value in s {
      NumberAbove(s, ref, j);
      assert false;
    }
    NothingAbove(s, ref, j + 1, k);
  }

  class HashFn {
    const ref: Header
    const store: Store
    var cache: seq<Hash>

    ghost predicate Valid()
      reads this
    {
      && Numbered(store, ref)
      && forall i :: 0 <= i < |cache| ==> HashAbove(store, ref, i + 1) == Some(cache[i])
    }

    constructor (ref: Header, store: Store)
      requires Numbered(store, ref)
      ensures Valid() && this.ref == ref && this.store == store
    {
      this.ref, this.store, cache := ref, store, [];
    }

    function GetHeader(hash: Hash, number: nat): Option<Header>
    {
      if hash in store && store[hash].number == number then Some(store[hash]) else None
    }

    /** Whatever has been asked before, the answer is what walking the parents gives: the hash of the ancestor
        with number n, as far as headers are stored. Asking for ref or anything above it but the very last
        number wraps around and finds nothing; the last number finds the first block's parent. */
    method GetHash(n: nat) returns (r: Hash)
      requires Valid() && n < UINT64
      modifies this`cache
      ensures Valid()
      ensures n < ref.number ==> r == OrZero(HashAbove(store, ref, ref.number - n))
      ensures ref.number <= n < UINT64 - 1 ==> r == ZERO
      ensures n == UINT64 - 1 ==> r == OrZero(HashAbove(store, ref, ref.number + 1))
    {
      hide HashAbove, Numbered;
      HashAboveOne(store, ref);
      ghost var k := if n < ref.number then ref.number - n else UINT64 + ref.number - n;
      if k > ref.number + 1 {
        AboveGenesis(store, ref, k);
      }
      if |cache| == 0 {
        cache := [ref.parent];
      }
      CacheBound(store, ref, cache);
      var idx := Sub64(Sub64(ref.number, n), 1);
      if idx < |cache| {
        return cache[idx];
      }
      var lastHash, lastNumber := cache[|cache| - 1], Sub64(ref.number, |cache|);
      while true
        invariant Valid() && 0 < |cache| < k && |cache| <= ref.number + 1
        invariant lastHash == cache[|cache| - 1] && lastNumber == Sub64(ref.number, |cache|)
        decreases ref.number + 1 - |cache|
      {
        NextAbove(store, ref, cache);
        var header := GetHeader(lastHash, lastNumber);
        if header.None? {
          NothingAbove(store, ref, |cache| + 1, k);
          return ZERO;
        }
        cache := cache + [header.value.parent];
        lastHash := header.value.parent;
        lastNumber := Sub64(header.value.number, 1);
        if n == lastNumber {
          return lastHash;
        }
      }
    }
  }

  lemma {:induction false} HashAboveOne(s: Store, ref: Header)
    ensures HashAbove(s, ref, 1) == Some(ref.parent)
  {
  }

  lemma {:induction false} CacheBound(s: Store, ref: Header, cache: seq<Hash>)
    requires Numbered(s, ref) && cache != [] && forall i :: 0 <= i < |cache| ==> HashAbove(s, ref, i + 1) == Some(cache[i])
    ensures |cache| <= ref.number + 1 && ref.number < UINT64
  {
    if |cache| > ref.number + 1 {
      assert HashAbove(s, ref, |cache| - 1 + 1) == Some(cache[|cache| - 1]);
      AboveGenesis(s, ref, |cache|);
    }
  }

  lemma {:induction false} NextAbove(s: Store, ref: Header, cache: seq<Hash>)
    requires Numbered(s, ref) && cache != [] && forall i :: 0 <= i < |cache| ==> HashAbove(s, ref, i + 1) == Some(cache[i])
    ensures var last := cache[|cache| - 1];
            HashAbove(s, ref, |cache| + 1) == (if last in s then Some(s[last].parent) else None)
            && (last in s ==> s[last].number == ref.number - |cache|)
  {
    assert HashAbove(s, ref, |cache| - 1 + 1) == Some(cache[|cache| - 1]);
    if cache[|cache| - 1] in s {
      NumberAbove(s, ref, |cache|);
    }
  }
}
