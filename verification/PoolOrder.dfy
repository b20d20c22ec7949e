/**
 The order of the pending lists: when they run without a gap from the nonce of the account on, what
 keeps them so, and when a reset does not.
 */
module PoolOrder {
  import opened Common
  import opened Transactions
  import opened PoolState
  import opened PoolSteps
  import opened PoolPromotion
  import F = Fairness
  import S = SortedMap
  import L = TxList

  // ---------- The order of pending lists ----------

  /** The list has exactly the nonces from c up to t. */
  ghost predicate TidyAt(p: NonceMap, c: nat, t: nat)
  {
    c <= t && forall n: nat :: n in p <==> c <= n < t
  }

  /** Every pending list runs without a gap from the account's nonce to its next nonce. */
  ghost predicate Tidy(pending: AccountLists, nonces: Nonces, chain: Chain)
  {
    forall a {:trigger ListOf(pending, a)} :: TidyAt(ListOf(pending, a), chain.Nonce(a), NextNonce(nonces, chain, a))
  }

  /** Nothing queued is older than the account's nonce. */
  ghost predicate Current(queue: AccountLists, chain: Chain)
  {
    forall a, n :: n in ListOf(queue, a) ==> n >= chain.Nonce(a)
  }

  ghost predicate Straight(p: NonceMap, c: nat)
  {
    exists t: nat :: TidyAt(p, c, t)
  }

  ghost predicate Disjoint(p: NonceMap, q: NonceMap)
  {
    forall n :: n in p ==> n !in q
  }

  lemma {:induction false} TidyTail(p: NonceMap, c: nat, t: nat)
    requires TidyAt(p, c, t)
    ensures IsTail(p, c, t)
  {
    if p != map[] {
      var n :| n in p;
      assert t - 1 in p;
    } else {
      assert c !in p;
    }
  }

  /** With a tidy list, the transaction that would continue it is stranded exactly when it is queued and payable and
      the next nonce on record is behind the list. */
  lemma {:induction false} TidyStranded(p: NonceMap, q: NonceMap, chain: Chain, a: Addr, next: nat, limit: Option<nat>, t: nat)
    requires TidyAt(p, chain.Nonce(a), t) && Disjoint(p, q) && (limit.Some? ==> limit.value > 0)
    ensures Stranded(q, chain, a, next, limit, t) <==> t in Payable(q, chain, a) && next < t
  {
    hide L.Affordable, From, S.ReadyRun;
    var payable := Payable(q, chain, a);
    PayableFrom(q, chain, a);
    if t in payable {
      forall n | n in payable ensures n >= t {
        assert n !in p;
      }
      assert IsMin(payable, t) && Consecutive(payable, t, t);
      var rest := payable - S.ReadyRun(payable, next).Keys;
      assert NoncesBelow(rest, t) == {};
      assert Rank(rest, t) == 0;
    }
  }

  /** Promotion keeps a list tidy, and the next nonce with it. */
  lemma {:induction false} TidyPromotes(p: NonceMap, q: NonceMap, chain: Chain, a: Addr, t: nat, limit: Option<nat>, after: nat)
    requires TidyAt(p, chain.Nonce(a), t) && Disjoint(p, q)
    requires Follows(PromotionOf(q, chain, a, t, limit).ready, t, after)
    ensures TidyAt(p + PromotionOf(q, chain, a, t, limit).ready, chain.Nonce(a), after)
  {
    hide L.Affordable, From, S.ReadyRun, TakenOut, Lowest;
    var payable := Payable(q, chain, a);
    PayableFrom(q, chain, a);
    forall n | n in payable ensures n >= t {
      assert n !in p;
    }
    RunFromTail(payable, t, after);
  }

  /** Where nothing lies below the start, the run that is ready is an interval from it. */
  lemma {:induction false} RunFromTail(m: NonceMap, t: nat, after: nat)
    requires (forall n :: n in m ==> n >= t) && Follows(S.ReadyRun(m, t), t, after)
    ensures TidyAt(S.ReadyRun(m, t), t, after)
    ensures t in m <==> S.ReadyRun(m, t) != map[]
  {
    var ready := S.ReadyRun(m, t);
    if t in m {
      assert IsMin(m, t);
      S.MinUnique(m, t, t);
      assert Consecutive(m, t, t) && t in ready;
      assert Consecutive(m, t, after - 1);
    }
  }

  // ---------- After a reset ----------

  /** Before a reset to a lower nonce: the run queued from the new nonce is payable but ends before the pending list,
      which starts at c with a transaction that is payable, too. */
  ghost predicate Torn(p: NonceMap, q: NonceMap, chain: Chain, a: Addr, c: nat)
  {
    var nonce := chain.Nonce(a);
    && nonce < c && c in p && !L.TooCostly(p[c], chain.Balance(a), chain.maxGas)
    && nonce in Payable(q, chain, a) && !Consecutive(Payable(q, chain, a), nonce, c - 1)
  }

  /** What a reset makes of an account's pending list. */
  ghost function AfterReset(p: NonceMap, q: NonceMap, chain: Chain, a: Addr, limit: Option<nat>): NonceMap
  {
    DemotionOf(p + PromotionOf(q, chain, a, chain.Nonce(a), limit).ready, chain, a).kept
  }

  /** A reset leaves a list that was tidy without a gap from the new nonce on, if and only if it was not torn. */
  lemma {:induction false} TornExact(p: NonceMap, q: NonceMap, chain: Chain, a: Addr, limit: Option<nat>, c: nat, t: nat)
    requires TidyAt(p, c, t) && Disjoint(p, q)
    ensures Straight(AfterReset(p, q, chain, a, limit), chain.Nonce(a)) <==> !Torn(p, q, chain, a, c)
  {
    hide L.Affordable, From, S.ReadyRun, TakenOut, Lowest, L.TooCostly, L.AffordablePrefix, L.Invalidated, L.Unaffordable, HashesOf;
    var nonce := chain.Nonce(a);
    var payable := Payable(q, chain, a);
    var ready := S.ReadyRun(payable, nonce);
    PayableFrom(q, chain, a);
    var after := RunTail(payable, nonce);
    RunFromTail(payable, nonce, after);
    ReadyPart(payable, nonce);
    ResetList(p, ready, chain, a, c, t, after);
    if c in p && nonce < c && nonce in payable {
      assert c !in payable;
      assert Consecutive(payable, nonce, c - 1) <==> after == c by {
        ReachesPending(payable, nonce, after, c);
      }
    }
  }

  lemma {:induction false} RunTail(m: NonceMap, t: nat) returns (after: nat)
    ensures Follows(S.ReadyRun(m, t), t, after)
  {
    if S.ReadyRun(m, t) == map[] {
      after := t;
    } else {
      RunEnds(m, t);
      after :| Follows(S.ReadyRun(m, t), t, after);
    }
  }

  lemma {:induction false} ReachesPending(m: NonceMap, nonce: nat, after: nat, c: nat)
    requires TidyAt(S.ReadyRun(m, nonce), nonce, after) && nonce in m && c !in m && nonce < c
    requires forall n :: n in m ==> n >= nonce
    ensures Consecutive(m, nonce, c - 1) <==> after == c
  {
    S.MinUnique(m, nonce, nonce);
    ReadyPart(m, nonce);
    if Consecutive(m, nonce, c - 1) {
      assert Consecutive(m, nonce, c - 1) && c - 1 in S.ReadyRun(m, nonce);
      assert c !in S.ReadyRun(m, nonce);
    }
  }

  /** The list that demotion leaves, with the ready run an interval from the nonce. */
  lemma {:induction false} ResetList(p: NonceMap, ready: NonceMap, chain: Chain, a: Addr, c: nat, t: nat, after: nat)
    requires TidyAt(p, c, t) && TidyAt(ready, chain.Nonce(a), after) && Disjoint(p, ready)
    requires forall n :: n in ready ==> !L.TooCostly(ready[n], chain.Balance(a), chain.maxGas)
    ensures var nonce := chain.Nonce(a);
            var torn := nonce < c && c in p && !L.TooCostly(p[c], chain.Balance(a), chain.maxGas) && ready != map[] && after != c;
            Straight(DemotionOf(p + ready, chain, a).kept, nonce) <==> !torn
  {
    hide L.TooCostly, L.AffordablePrefix, L.Invalidated, L.Unaffordable, HashesOf, Straight;
    var nonce := chain.Nonce(a);
    var current := From(p + ready, nonce);
    var kept := KeptOf(current, chain, a);
    if nonce !in current {
      PrefixMember(current, chain, a, nonce);
      StraightEmpty(nonce);
    } else if nonce < c && c in p && after != c {
      assert nonce in ready && after < c && after !in current && TidyAt(Below(current, c), nonce, after);
      if L.TooCostly(p[c], chain.Balance(a), chain.maxGas) {
        PrefixStraight(current, chain, a, nonce, after, c);
      } else {
        PrefixMember(current, chain, a, nonce);
        PrefixMember(current, chain, a, c);
        PrefixMember(current, chain, a, after);
        NotStraight(kept, nonce, after, c);
      }
    } else {
      var end := if nonce in p || (nonce < c && c in p) then t else after;
      assert TidyAt(current, nonce, end);
      PrefixStraight(current, chain, a, nonce, end, end);
    }
  }

  function KeptOf(current: NonceMap, chain: Chain, a: Addr): NonceMap
  {
    var payable := L.AffordablePrefix(current, chain.Balance(a), chain.maxGas);
    if payable != map[] && chain.Nonce(a) !in payable then map[] else payable
  }

  lemma {:induction false} PrefixMember(m: NonceMap, chain: Chain, a: Addr, n: nat)
    ensures n in KeptOf(m, chain, a) ==> n in m && chain.Nonce(a) in m
    ensures n in m && chain.Nonce(a) in m
            && (forall k :: k in m && (k <= n || k <= chain.Nonce(a)) ==> !L.TooCostly(m[k], chain.Balance(a), chain.maxGas))
            ==> n in KeptOf(m, chain, a)
  {
    hide L.TooCostly;
  }

  lemma {:induction false} StraightEmpty(c: nat)
    ensures Straight(map[], c)
  {
    var none: NonceMap := map[];
    assert TidyAt(none, c, c);
  }

  /** The payable start of a list that is an interval up to end, where it stops or something too costly follows. */
  lemma {:induction false} PrefixStraight(m: NonceMap, chain: Chain, a: Addr, nonce: nat, end: nat, block: nat)
    requires nonce == chain.Nonce(a) && (forall n: nat :: n in m && n < block <==> nonce <= n < end) && nonce <= end <= block
    requires forall n :: n in m && n >= block ==> block in m && L.TooCostly(m[block], chain.Balance(a), chain.maxGas)
    ensures Straight(KeptOf(m, chain, a), nonce)
  {
    hide L.TooCostly;
    var u := nonce;
    while u < end && !L.TooCostly(m[u], chain.Balance(a), chain.maxGas)
      invariant nonce <= u <= end
      invariant forall n :: nonce <= n < u ==> !L.TooCostly(m[n], chain.Balance(a), chain.maxGas)
    {
      u := u + 1;
    }
    assert TidyAt(KeptOf(m, chain, a), nonce, u);
  }

  lemma {:induction false} NotStraight(p: NonceMap, c: nat, hole: nat, n: nat)
    requires n in p && c <= hole < n && hole !in p
    ensures !Straight(p, c)
  {
  }

  // ---------- What keeps lists in order ----------

  /** The lowest nonces of an interval are an interval. */
  lemma {:induction false} LevelStraight(p: NonceMap, c: nat, level: nat)
    requires Straight(p, c)
    ensures Straight(Lowest(p, level), c)
  {
    var t: nat :| TidyAt(p, c, t);
    forall n | n in p ensures Rank(p, n) == n - c {
      IntervalRank(p, c, t, n);
    }
    assert TidyAt(Lowest(p, level), c, if t - c <= level then t else c + level);
  }

  lemma {:induction false} IntervalRank(p: NonceMap, c: nat, t: nat, n: nat)
    requires TidyAt(p, c, t) && c <= n <= t
    ensures Rank(p, n) == n - c
  {
    if n == c {
      assert NoncesBelow(p, n) == {};
    } else {
      IntervalRank(p, c, t, n - 1);
      assert NoncesBelow(p, n) == NoncesBelow(p, n - 1) + {n - 1};
    }
  }

  /** Once the next nonce follows the last transaction, a list without gaps is tidy. */
  lemma {:induction false} TidyAgain(p: NonceMap, c: nat, next: nat)
    requires Straight(p, c) && IsTail(p, c, next)
    ensures TidyAt(p, c, next)
  {
    var t: nat :| TidyAt(p, c, t);
    if p == map[] {
      assert c !in p;
    } else {
      assert next - 1 in p && t - 1 in p;
    }
  }

  /** removeTx keeps the lists tidy, with the next nonce it sets. */
  lemma {:induction false} TidyWithout(s: Pool, nonces: Nonces, chain: Chain, h: Hash)
    requires Tidy(s.pending, nonces, chain)
    ensures Tidy(Without(s, h).pending, NoncesWithout(s, nonces, chain, h), chain)
  {
    hide Released, Tx.Slots;
    if h in s.all && s.all[h].nonce in ListOf(s.pending, s.all[h].from) {
      var t := s.all[h];
      var p := ListOf(s.pending, t.from);
      forall a ensures TidyAt(ListOf(Without(s, h).pending, a), chain.Nonce(a), NextNonce(NoncesWithout(s, nonces, chain, h), chain, a)) {
        OtherLists(s.pending, t.from, Below(p, t.nonce), a);
        assert TidyAt(ListOf(s.pending, a), chain.Nonce(a), NextNonce(nonces, chain, a));
      }
    }
  }

  /** What removeTx requeues is not older than what was pending. */
  lemma {:induction false} CurrentWithout(s: Pool, nonces: Nonces, chain: Chain, h: Hash)
    requires Tidy(s.pending, nonces, chain) && Current(s.queue, chain)
    ensures Current(Without(s, h).queue, chain)
  {
    hide Released, Tx.Slots, TidyAt, SetList, AddAll;
    if h in s.all {
      var t := s.all[h];
      var p, q := ListOf(s.pending, t.from), ListOf(s.queue, t.from);
      TidyAbove(p, chain.Nonce(t.from), NextNonce(nonces, chain, t.from), t.nonce);
      forall a, n | n in ListOf(Without(s, h).queue, a) ensures n >= chain.Nonce(a) {
        OtherLists(s.queue, t.from, L.Above(p, t.nonce), a);
        OtherLists(s.queue, t.from, q - {t.nonce}, a);
      }
    }
  }

  lemma {:induction false} TidyAbove(p: NonceMap, c: nat, t: nat, n: nat)
    requires TidyAt(p, c, t)
    ensures forall k :: k in L.Above(p, n) ==> k >= c
  {
  }

  /** A transaction that is not too old may enter. */
  lemma {:induction false} CurrentEntered(s: Pool, chain: Chain, t: Tx, asPending: bool)
    requires Current(s.queue, chain) && t.nonce >= chain.Nonce(t.from)
    ensures Current(Entered(s, t, asPending).queue, chain)
  {
    hide Released, Locked, Tx.Slots;
    ReplacedIn(s.queue, t);
    forall a, n | n in ListOf(Into(s.queue, t), a) ensures n >= chain.Nonce(a) {
      assert a != t.from || n != t.nonce ==> n in ListOf(s.queue, a);
    }
  }

  lemma {:induction false} TidyWithoutAll(s: Pool, nonces: Nonces, chain: Chain, hs: seq<Hash>)
    requires Tidy(s.pending, nonces, chain) && Current(s.queue, chain)
    ensures Tidy(WithoutAll(s, hs).pending, NoncesWithoutAll(s, nonces, chain, hs), chain)
    ensures Current(WithoutAll(s, hs).queue, chain)
  {
    hide Tidy, Current, Without, NoncesWithout;
    if hs != [] {
      var front := hs[..|hs| - 1];
      TidyWithoutAll(s, nonces, chain, front);
      CurrentWithout(WithoutAll(s, front), NoncesWithoutAll(s, nonces, chain, front), chain, hs[|hs| - 1]);
      TidyWithout(WithoutAll(s, front), NoncesWithoutAll(s, nonces, chain, front), chain, hs[|hs| - 1]);
    }
  }

  /** A transaction that enters the queue or replaces a pending one keeps the lists tidy. */
  lemma {:induction false} TidyEntered(s: Pool, nonces: Nonces, chain: Chain, t: Tx)
    requires Tidy(s.pending, nonces, chain) && Inv(s, {})
    ensures Tidy(Entered(s, t, t.nonce in ListOf(s.pending, t.from)).pending, nonces, chain)
  {
    hide Inv, Released, Locked, Tx.Slots, Keyed;
    var p := ListOf(s.pending, t.from);
    if t.nonce in p {
      ListFiled(s, {}, t.from);
      assert FiledAs(p[t.nonce], t.from, t.nonce, s.all);
      EnteredIs(s, t, true);
      forall a ensures TidyAt(ListOf(Into(s.pending, t), a), chain.Nonce(a), NextNonce(nonces, chain, a)) {
        assert TidyAt(ListOf(s.pending, a), chain.Nonce(a), NextNonce(nonces, chain, a));
      }
    }
  }

  // ---------- Two resets ----------

  /** A transaction that costs nothing. */
  function FreeTx(n: nat): Tx
  {
    Tx(n, 0, n, 0, 0, 0, 1, 1, n, 0, 0, 0)
  }

  lemma {:induction false} FreeList(m: NonceMap, chain: Chain, a: Addr)
    requires forall n :: n in m ==> m[n] == FreeTx(n) && n >= chain.Nonce(a)
    ensures From(m, chain.Nonce(a)) == m && Payable(m, chain, a) == m
    ensures L.AffordablePrefix(m, chain.Balance(a), chain.maxGas) == m
  {
    assert From(m, chain.Nonce(a)) == m;
  }

  /** After a reset with nonces 5 to 7 pending, the transaction of nonce 8 stays queued although it is payable and
      would continue the list: the next nonce on record is 5. */
  lemma {:induction false} StrandedExample(limit: Option<nat>)
    requires limit.Some? ==> limit.value > 0
    ensures var chain := Chain(map[0 := 5], map[], 0);
            var p: NonceMap := map[5 := FreeTx(5), 6 := FreeTx(6), 7 := FreeTx(7)];
            var q: NonceMap := map[8 := FreeTx(8)];
            && TidyAt(p, 5, 8) && Stranded(q, chain, 0, 5, limit, 8)
            && PromotionOf(q, chain, 0, 5, limit).ready == map[] && 8 in PromotionOf(q, chain, 0, 5, limit).kept
  {
    hide Stranded, Payable, L.Affordable, From, FreeTx, S.ReadyRun, Lowest, TakenOut;
    var chain := Chain(map[0 := 5], map[], 0);
    var p: NonceMap := map[5 := FreeTx(5), 6 := FreeTx(6), 7 := FreeTx(7)];
    var q: NonceMap := map[8 := FreeTx(8)];
    FreeList(q, chain, 0);
    TidyStranded(p, q, chain, 0, 5, limit, 8);
    KeptExact(q, chain, 0, 5, limit, 8);
    NothingReady(q, 5);
    PayableReady(q, chain, 0, 5, limit);
  }

  lemma {:induction false} PayableReady(q: NonceMap, chain: Chain, a: Addr, next: nat, limit: Option<nat>)
    ensures PromotionOf(q, chain, a, next, limit).ready == S.ReadyRun(Payable(q, chain, a), next)
  {
    hide S.ReadyRun, L.Affordable, From, Lowest, TakenOut;
  }

  /** Why nothing queued may be older than the account's nonce: with nonce 5 before, nonces 5 to 7 pending and nonce 3
      queued, a reset to nonce 3 would leave nonces 3, 5, 6 and 7 pending. No operation leaves such a queue. */
  lemma {:induction false} TornExample(limit: Option<nat>)
    ensures var chain := Chain(map[0 := 3], map[], 0);
            var p: NonceMap := map[5 := FreeTx(5), 6 := FreeTx(6), 7 := FreeTx(7)];
            var q: NonceMap := map[3 := FreeTx(3)];
            && TidyAt(p, 5, 8) && !Current(map[0 := q], Chain(map[0 := 5], map[], 0))
            && Torn(p, q, chain, 0, 5) && AfterReset(p, q, chain, 0, limit) == p + q
  {
    hide Payable, L.Affordable, From, FreeTx, S.ReadyRun, PromotionOf, L.AffordablePrefix, L.Invalidated, L.Unaffordable,
        HashesOf, Below, L.TooCostly;
    var chain := Chain(map[0 := 3], map[], 0);
    var p: NonceMap := map[5 := FreeTx(5), 6 := FreeTx(6), 7 := FreeTx(7)];
    var q: NonceMap := map[3 := FreeTx(3)];
    FreeList(q, chain, 0);
    FreeList(p + q, chain, 0);
    FreeCosts(5, chain, 0);
    OneReady(q, 3);
    PayableReady(q, chain, 0, 3, limit);
    assert 4 !in q;
    assert 3 in ListOf(map[0 := q], 0);
  }

  lemma {:induction false} FreeCosts(n: nat, chain: Chain, a: Addr)
    ensures !L.TooCostly(FreeTx(n), chain.Balance(a), chain.maxGas)
  {
  }

  lemma {:induction false} OneReady(q: NonceMap, n: nat)
    requires q.Keys == {n}
    ensures S.ReadyRun(q, n) == q
  {
    assert IsMin(q, n) && Consecutive(q, n, n);
    S.MinUnique(q, n, n);
  }
}
