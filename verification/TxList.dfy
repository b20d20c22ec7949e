/**
 txList: a sorted map with a cost cap and a gas cap that make filtering cheap. Strict lists hold the
 consecutive nonces of pending transactions.
 */
module TxList {
  import opened Common
  import opened Transactions
  import opened SortedMap

  // ---------- The operations on plain nonce maps ----------

  /** A replacement must beat the old price, and by the bump in percent. */
  predicate Replaces(old_: Tx, tx: Tx, bump: nat)
  {
    old_.price < tx.price && old_.price * (100 + bump) / 100 <= tx.price
  }

  predicate Accepts(m: NonceMap, tx: Tx, bump: nat)
  {
    tx.nonce in m ==> Replaces(m[tx.nonce], tx, bump)
  }

  /** The new price is higher, and reaches the old one raised by the bump once that is rounded down. */
  predicate Outbids(price: nat, offer: nat, bump: nat)
  {
    price < offer && price * (100 + bump) < 100 * (offer + 1)
  }

  /** In prices alone: where the nonce is taken, the new price must be higher, and reach the old one raised by the bump
      once that is rounded down. */
  lemma {:induction false} AcceptsExact(m: NonceMap, tx: Tx, bump: nat)
    ensures tx.nonce !in m ==> Accepts(m, tx, bump)
    ensures tx.nonce in m ==>
              (Accepts(m, tx, bump) <==>
                 m[tx.nonce].price < tx.price && m[tx.nonce].price * (100 + bump) < 100 * (tx.price + 1))
    ensures tx.nonce in m ==> (Accepts(m, tx, bump) <==> Outbids(m[tx.nonce].price, tx.price, bump))
  {
    if tx.nonce in m {
      var raised := m[tx.nonce].price * (100 + bump);
      assert raised / 100 <= tx.price <==> raised < 100 * (tx.price + 1);
    }
  }

  predicate TooCostly(tx: Tx, costLimit: nat, gasLimit: nat)
  {
    tx.Cost() > costLimit || tx.gas > gasLimit
  }

  function Unaffordable(m: NonceMap, costLimit: nat, gasLimit: nat): NonceMap
  {
    map n | n in m && TooCostly(m[n], costLimit, gasLimit) :: m[n]
  }

  function Affordable(m: NonceMap, costLimit: nat, gasLimit: nat): NonceMap
  {
    map n | n in m && !TooCostly(m[n], costLimit, gasLimit) :: m[n]
  }

  /** What a strict list keeps: the transactions up to which everything is affordable. */
  function AffordablePrefix(m: NonceMap, costLimit: nat, gasLimit: nat): NonceMap
  {
    map n | n in m && (forall k :: k in m && k <= n ==> !TooCostly(m[k], costLimit, gasLimit)) :: m[n]
  }

  /** What a strict list hands back for requeueing: affordable, but after something that is not. */
  function Invalidated(m: NonceMap, costLimit: nat, gasLimit: nat): NonceMap
  {
    map n | n in m && !TooCostly(m[n], costLimit, gasLimit)
            && (exists k :: k in m && k < n && TooCostly(m[k], costLimit, gasLimit)) :: m[n]
  }

  function Filtered(m: NonceMap, strict: bool, costLimit: nat, gasLimit: nat): NonceMap
  {
    if strict then AffordablePrefix(m, costLimit, gasLimit) else Affordable(m, costLimit, gasLimit)
  }

  function Above(m: NonceMap, t: nat): NonceMap
  {
    map n | n in m && n > t :: m[n]
  }

  /** The caps bound every transaction. */
  ghost predicate Capped(m: NonceMap, costcap: nat, gascap: nat)
  {
    forall n :: n in m ==> m[n].Cost() <= costcap && m[n].gas <= gascap
  }

  /** The tests handed to the sorted map's filter. */
  function CostTest(costLimit: nat, gasLimit: nat): Tx -> bool
  {
    (tx: Tx) => TooCostly(tx, costLimit, gasLimit)
  }

  function AfterTest(t: nat): Tx -> bool
  {
    (tx: Tx) => tx.nonce > t
  }

  // ---------- The class ----------

  class TxList {
    const strict: bool
    const txs: TxSortedMap
    var costcap: nat
    var gascap: nat

    ghost predicate Valid()
      reads this, txs
    {
      txs.Valid() && Capped(txs.items, costcap, gascap)
    }

    ghost function Contents(): NonceMap
      reads txs
    {
      txs.items
    }

    constructor (strict: bool)
      ensures Valid() && fresh(txs) && this.strict == strict && Contents() == map[]
    {
      this.strict := strict;
      txs := new TxSortedMap();
      costcap, gascap := 0, 0;
    }

    method Add(tx: Tx, bump: nat) returns (inserted: bool, replaced: Option<Tx>)
      requires Valid()
      modifies this, txs
      ensures Valid() && inserted == Accepts(old(Contents()), tx, bump)
      ensures tx.nonce !in old(Contents()) ==> inserted
      ensures tx.nonce in old(Contents()) ==>
                var price := old(Contents())[tx.nonce].price;
                inserted <==> price < tx.price && price * (100 + bump) < 100 * (tx.price + 1)
      ensures inserted ==> Contents() == old(Contents())[tx.nonce := tx]
      ensures inserted ==> replaced == if tx.nonce in old(Contents()) then Some(old(Contents())[tx.nonce]) else None
      ensures !inserted ==> Contents() == old(Contents()) && replaced == None
    {
      AcceptsExact(Contents(), tx, bump);
      var previous := txs.Get(tx.nonce);
      if previous.Some? {
        var threshold := previous.value.price * (100 + bump) / 100;
        if previous.value.price >= tx.price || threshold > tx.price {
          return false, None;
        }
      }
      hide Tx.Cost;
      txs.Put(tx);
      if costcap < tx.Cost() {
        costcap := tx.Cost();
      }
      if gascap < tx.gas {
        gascap := tx.gas;
      }
      return true, previous;
    }

    method Forward(threshold: nat) returns (removed: seq<Tx>)
      requires Valid()
      modifies txs
      ensures Valid() && Contents() == From(old(Contents()), threshold)
      ensures Lists(removed, Below(old(Contents()), threshold)) && Ascending(removed)
      ensures old(GapFree(Contents())) ==> GapFree(Contents())
    {
      removed := txs.Forward(threshold);
      FromGapFree(old(Contents()), threshold);
    }

    /** The caps decide whether anything needs filtering at all; the answer is the full filter's either way. */
    method Filter(costLimit: nat, gasLimit: nat) returns (removed: seq<Tx>, invalids: seq<Tx>)
      requires Valid()
      modifies this, txs
      ensures Valid() && Contents() == Filtered(old(Contents()), strict, costLimit, gasLimit)
      ensures Lists(removed, Unaffordable(old(Contents()), costLimit, gasLimit))
      ensures Lists(invalids, if strict then Invalidated(old(Contents()), costLimit, gasLimit) else map[])
      ensures strict && old(GapFree(Contents())) ==> GapFree(Contents())
    {
      hide Tx.Cost, Lists, GapFree, Matching, NotMatching, Affordable, Unaffordable, AffordablePrefix, Invalidated,
          CostTest, AfterTest;
      ghost var m := Contents();
      PrefixGapFree(m, costLimit, gasLimit);
      EmptyListing();
      if costcap <= costLimit && gascap <= gasLimit {
        NothingCostly(m, costcap, gascap, costLimit, gasLimit);
        return [], [];
      }
      costcap, gascap := costLimit, gasLimit;
      FilterByCost(m, costLimit, gasLimit);
      removed := txs.Filter(CostTest(costLimit, gasLimit));
      invalids := [];
      if strict && |removed| > 0 {
        var lowest := LowestNonce(removed);
        CutAtLowest(m, removed, lowest, costLimit, gasLimit);
        invalids := txs.Filter(AfterTest(lowest));
      } else if strict {
        NothingRemoved(m, costLimit, gasLimit);
      }
    }

    method Cap(threshold: nat) returns (drops: seq<Tx>)
      requires Valid()
      modifies txs
      ensures Valid() && Contents() == Lowest(old(Contents()), threshold)
      ensures Lists(drops, AboveLowest(old(Contents()), threshold)) && Descending(drops)
      ensures old(GapFree(Contents())) ==> GapFree(Contents())
    {
      drops := txs.Cap(threshold);
      LowestGapFree(old(Contents()), threshold);
    }

    /** Removal is by nonce; a strict list also gives up everything after it. */
    method Remove(tx: Tx) returns (found: bool, invalids: seq<Tx>)
      requires Valid()
      modifies txs
      ensures Valid() && found == (tx.nonce in old(Contents()))
      ensures Contents() == if found && strict then Below(old(Contents()), tx.nonce) else old(Contents()) - {tx.nonce}
      ensures Lists(invalids, if found && strict then Above(old(Contents()), tx.nonce) else map[])
      ensures strict && old(GapFree(Contents())) ==> GapFree(Contents())
    {
      hide Tx.Cost, Lists, GapFree, Matching, NotMatching, Below, Above, AfterTest;
      ghost var m := Contents();
      EmptyListing();
      BelowGapFree(m, tx.nonce);
      RemoveSplits(m, tx.nonce);
      found := txs.Remove(tx.nonce);
      if !found {
        return false, [];
      }
      if strict {
        invalids := txs.Filter(AfterTest(tx.nonce));
        return true, invalids;
      }
      return true, [];
    }

    method Ready(start: nat) returns (ready: seq<Tx>)
      requires Valid()
      modifies txs
      ensures Valid() && Contents() == old(Contents()) - ReadyRun(old(Contents()), start).Keys
      ensures Lists(ready, ReadyRun(old(Contents()), start)) && Ascending(ready)
    {
      ready := txs.Ready(start);
    }
  }

  method LowestNonce(removed: seq<Tx>) returns (lowest: nat)
    requires removed != []
    ensures (exists i :: 0 <= i < |removed| && removed[i].nonce == lowest) && forall i :: 0 <= i < |removed| ==> lowest <= removed[i].nonce
  {
    lowest := removed[0].nonce;
    for i := 1 to |removed|
      invariant exists j :: 0 <= j < i && removed[j].nonce == lowest
      invariant forall j :: 0 <= j < i ==> lowest <= removed[j].nonce
    {
      if removed[i].nonce < lowest {
        lowest := removed[i].nonce;
      }
    }
  }

  // ---------- Lemmas ----------

  lemma {:induction false} EmptyListing()
    ensures Lists([], map[])
  {
  }

  /** Within the caps nothing is too costly: the short cut equals the full filter. */
  lemma {:induction false} NothingCostly(m: NonceMap, costcap: nat, gascap: nat, costLimit: nat, gasLimit: nat)
    requires Capped(m, costcap, gascap) && costcap <= costLimit && gascap <= gasLimit
    ensures Unaffordable(m, costLimit, gasLimit) == map[] && Invalidated(m, costLimit, gasLimit) == map[]
    ensures Affordable(m, costLimit, gasLimit) == m == AffordablePrefix(m, costLimit, gasLimit)
  {
  }

  lemma {:induction false} NothingRemoved(m: NonceMap, costLimit: nat, gasLimit: nat)
    requires Lists([], Unaffordable(m, costLimit, gasLimit))
    ensures Invalidated(m, costLimit, gasLimit) == map[]
    ensures Affordable(m, costLimit, gasLimit) == AffordablePrefix(m, costLimit, gasLimit)
  {
    assert forall n :: n in m ==> n !in Unaffordable(m, costLimit, gasLimit);
  }

  lemma {:induction false} FilterByCost(m: NonceMap, costLimit: nat, gasLimit: nat)
    ensures NotMatching(m, CostTest(costLimit, gasLimit)) == Affordable(m, costLimit, gasLimit)
    ensures Matching(m, CostTest(costLimit, gasLimit)) == Unaffordable(m, costLimit, gasLimit)
    ensures Capped(Affordable(m, costLimit, gasLimit), costLimit, gasLimit)
    ensures Capped(AffordablePrefix(m, costLimit, gasLimit), costLimit, gasLimit)
  {
  }

  lemma {:induction false} RemoveSplits(m: NonceMap, t: nat)
    requires WellKeyed(m)
    ensures Matching(m - {t}, AfterTest(t)) == Above(m, t) && NotMatching(m - {t}, AfterTest(t)) == Below(m, t)
    ensures forall n :: n in Below(m, t) ==> n in m && Below(m, t)[n] == m[n]
    ensures t !in m ==> m - {t} == m
  {
  }

  /** Cutting the affordable transactions at the lowest unaffordable nonce leaves the affordable prefix. */
  lemma {:induction false} CutAtLowest(m: NonceMap, removed: seq<Tx>, lowest: nat, costLimit: nat, gasLimit: nat)
    requires WellKeyed(m) && Lists(removed, Unaffordable(m, costLimit, gasLimit))
    requires exists i :: 0 <= i < |removed| && removed[i].nonce == lowest
    requires forall i :: 0 <= i < |removed| ==> lowest <= removed[i].nonce
    ensures NotMatching(Affordable(m, costLimit, gasLimit), AfterTest(lowest)) == AffordablePrefix(m, costLimit, gasLimit)
    ensures Matching(Affordable(m, costLimit, gasLimit), AfterTest(lowest)) == Invalidated(m, costLimit, gasLimit)
  {
    hide TooCostly;
    assert lowest in m && TooCostly(m[lowest], costLimit, gasLimit);
    forall k | k in m && TooCostly(m[k], costLimit, gasLimit) ensures lowest <= k {
      assert Unaffordable(m, costLimit, gasLimit)[k] in removed;
    }
  }

  lemma {:induction false} FromGapFree(m: NonceMap, t: nat)
    ensures GapFree(m) ==> GapFree(From(m, t))
  {
    if GapFree(m) {
      forall a, n | a in From(m, t) && n in From(m, t) && a <= n ensures Consecutive(From(m, t), a, n) {
        assert Consecutive(m, a, n);
      }
    }
  }

  lemma {:induction false} BelowGapFree(m: NonceMap, t: nat)
    ensures GapFree(m) ==> GapFree(Below(m, t)) && (t !in m ==> GapFree(m - {t}))
  {
    if GapFree(m) {
      forall a, n | a in Below(m, t) && n in Below(m, t) && a <= n ensures Consecutive(Below(m, t), a, n) {
        assert Consecutive(m, a, n);
      }
      assert t !in m ==> m - {t} == m;
    }
  }

  lemma {:induction false} LowestGapFree(m: NonceMap, k: nat)
    ensures GapFree(m) ==> GapFree(Lowest(m, k))
  {
    if GapFree(m) {
      var r := Lowest(m, k);
      forall a, n | a in r && n in r && a <= n ensures Consecutive(r, a, n) {
        assert Consecutive(m, a, n);
        forall j | a <= j <= n ensures j in r {
          assert NoncesBelow(m, j) <= NoncesBelow(m, n);
          SubsetSize(NoncesBelow(m, j), NoncesBelow(m, n));
        }
      }
    }
  }

  lemma {:induction false} PrefixGapFree(m: NonceMap, costLimit: nat, gasLimit: nat)
    ensures GapFree(m) ==> GapFree(AffordablePrefix(m, costLimit, gasLimit))
  {
    if GapFree(m) {
      var r := AffordablePrefix(m, costLimit, gasLimit);
      forall a, n | a in r && n in r && a <= n ensures Consecutive(r, a, n) {
        assert Consecutive(m, a, n);
      }
    }
  }
}
