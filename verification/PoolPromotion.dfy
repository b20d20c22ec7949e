/**
 Promotion of many accounts at once, why promoting an account again changes nothing, and what
 promotion leaves behind in the queue.
 */
module PoolPromotion {
  import opened Common
  import opened Transactions
  import opened PoolState
  import opened PoolSteps
  import F = Fairness
  import S = SortedMap
  import L = TxList

  type Nonces = map<Addr, nat>

  // ---------- Promotion of many accounts ----------

  function LimitOf(locals: set<Addr>, limit: nat, a: Addr): Option<nat>
  {
    if a in locals then None else Some(limit)
  }

  ghost function PromotionAt(s: Pool, nonces: Nonces, chain: Chain, locals: set<Addr>, limit: nat, a: Addr): Promotion
  {
    PromotionOf(ListOf(s.queue, a), chain, a, NextNonce(nonces, chain, a), LimitOf(locals, limit, a))
  }

  /** The account's lists and next nonce are what promotion makes of them, or as they were. */
  ghost predicate PromotedAccount(s: Pool, n0: Nonces, r: Pool, n1: Nonces, chain: Chain, p: Promotion, a: Addr, done: bool)
  {
    if done then
      && ListOf(r.queue, a) == p.kept && ListOf(r.pending, a) == ListOf(s.pending, a) + p.ready
      && Follows(p.ready, NextNonce(n0, chain, a), NextNonce(n1, chain, a))
    else
      && ListOf(r.queue, a) == ListOf(s.queue, a) && ListOf(r.pending, a) == ListOf(s.pending, a)
      && NextNonce(n1, chain, a) == NextNonce(n0, chain, a)
  }

  /** What promotion of the given accounts drops. */
  ghost function GoneBy(s: Pool, nonces: Nonces, chain: Chain, locals: set<Addr>, limit: nat, accounts: set<Addr>): set<Hash>
  {
    set a, h | a in accounts && h in PromotionAt(s, nonces, chain, locals, limit, a).gone :: h
  }

  /** Exactly the accounts in done have been promoted: their lists, their next nonces, what they lost and the
      commitments given back for it. */
  ghost predicate Promoted(s: Pool, n0: Nonces, r: Pool, n1: Nonces, chain: Chain, locals: set<Addr>, limit: nat, done: set<Addr>)
  {
    var gone := GoneBy(s, n0, chain, locals, limit, done);
    && (forall a :: PromotedAccount(s, n0, r, n1, chain, PromotionAt(s, n0, chain, locals, limit, a), a, a in done))
    && r.all == s.all - gone && r.cmdb == ReleaseSet(s.cmdb, Part(s.all, gone))
  }

  lemma {:induction false} PromotedNone(s: Pool, n: Nonces, chain: Chain, locals: set<Addr>, limit: nat)
    ensures Promoted(s, n, s, n, chain, locals, limit, {})
  {
    hide PromotionAt, ReleaseSet, Part;
    assert GoneBy(s, n, chain, locals, limit, {}) == {};
    DroppedNone(s.cmdb, s.all);
    NoAccounts(s, chain);
    assert s.all - {} == s.all;
  }

  /** What promotion drops was queued. */
  lemma {:induction false} GonePooled(s: Pool, chain: Chain, a: Addr, next: nat, limit: Option<nat>)
    requires Inv(s, {})
    ensures PromotionOf(ListOf(s.queue, a), chain, a, next, limit).gone <= s.all.Keys
  {
    hide Inv, S.ReadyRun, L.TooCostly, Lowest;
    ListFiled(s, {}, a);
    var q := ListOf(s.queue, a);
    forall h | h in PromotionOf(q, chain, a, next, limit).gone ensures h in s.all {
      var n :| n in q && q[n].hash == h;
      assert FiledAs(q[n], a, n, s.all);
    }
  }

  lemma {:induction false} GoneOneMore(s: Pool, nonces: Nonces, chain: Chain, locals: set<Addr>, limit: nat, done: set<Addr>, a: Addr)
    ensures GoneBy(s, nonces, chain, locals, limit, done + {a})
         == GoneBy(s, nonces, chain, locals, limit, done) + PromotionAt(s, nonces, chain, locals, limit, a).gone
  {
    hide PromotionAt;
  }

  /** The effect of promoting one account. */
  ghost predicate PromotesAccount(r: Pool, n1: Nonces, t: Pool, n2: Nonces, chain: Chain, p: Promotion, a: Addr)
  {
    && t.queue == SetList(r.queue, a, p.kept) && t.pending == AddAll(r.pending, a, p.ready)
    && t.all == r.all - p.gone && t.cmdb == ReleaseSet(r.cmdb, Part(r.all, p.gone))
    && Follows(p.ready, NextNonce(n1, chain, a), NextNonce(n2, chain, a))
    && (n2 == n1 || n2 == n1[a := NextNonce(n2, chain, a)])
  }

  lemma {:induction false} PromotedOneMore(s: Pool, n0: Nonces, r: Pool, n1: Nonces, t: Pool, n2: Nonces, chain: Chain,
    locals: set<Addr>, limit: nat, done: set<Addr>, a: Addr)
    requires Promoted(s, n0, r, n1, chain, locals, limit, done) && Inv(r, {}) && a !in done
    requires PromotesAccount(r, n1, t, n2, chain, PromotionAt(r, n1, chain, locals, limit, a), a)
    ensures Promoted(s, n0, t, n2, chain, locals, limit, done + {a})
  {
    hide Inv, PromotionAt, Follows, ReleaseSet, Part, PromotedAccount, GoneBy;
    SamePromotion(s, n0, r, n1, chain, locals, limit, done, a);
    var p := PromotionAt(s, n0, chain, locals, limit, a);
    GoneOneMore(s, n0, chain, locals, limit, done, a);
    GoneAt(r, n1, chain, locals, limit, a);
    ReleaseMore(s.cmdb, s.all, r.all, GoneBy(s, n0, chain, locals, limit, done), p.gone);
    forall b ensures PromotedAccount(s, n0, t, n2, chain, PromotionAt(s, n0, chain, locals, limit, b), b, b in done + {a}) {
      var pb := PromotionAt(s, n0, chain, locals, limit, b);
      assert PromotedAccount(s, n0, r, n1, chain, pb, b, b in done);
      AccountPromoted(s, n0, r, n1, t, n2, chain, p, pb, a, b, b in done);
    }
  }

  lemma {:induction false} GoneAt(r: Pool, nonces: Nonces, chain: Chain, locals: set<Addr>, limit: nat, a: Addr)
    requires Inv(r, {})
    ensures PromotionAt(r, nonces, chain, locals, limit, a).gone <= r.all.Keys
  {
    hide Inv, PromotionOf;
    GonePooled(r, chain, a, NextNonce(nonces, chain, a), LimitOf(locals, limit, a));
  }

  lemma {:induction false} SamePromotion(s: Pool, n0: Nonces, r: Pool, n1: Nonces, chain: Chain, locals: set<Addr>, limit: nat,
    done: set<Addr>, a: Addr)
    requires Promoted(s, n0, r, n1, chain, locals, limit, done) && a !in done
    ensures PromotionAt(r, n1, chain, locals, limit, a) == PromotionAt(s, n0, chain, locals, limit, a)
  {
    hide PromotionOf, ReleaseSet, Part, Follows;
    assert PromotedAccount(s, n0, r, n1, chain, PromotionAt(s, n0, chain, locals, limit, a), a, a in done);
  }

  lemma {:induction false} AccountPromoted(s: Pool, n0: Nonces, r: Pool, n1: Nonces, t: Pool, n2: Nonces, chain: Chain,
    p: Promotion, pb: Promotion, a: Addr, b: Addr, done: bool)
    requires PromotedAccount(s, n0, r, n1, chain, pb, b, done) && PromotesAccount(r, n1, t, n2, chain, p, a)
    requires a == b ==> !done && p == pb
    ensures PromotedAccount(s, n0, t, n2, chain, pb, b, done || a == b)
  {
    hide Follows, ReleaseSet, Part, SetList, AddAll;
    OtherLists(r.queue, a, p.kept, b);
    OtherLists(r.pending, a, p.ready, b);
  }

  // ---------- Promoting an account again ----------

  /** Promoting what promotion left changes nothing. */
  lemma {:induction false} PromotionAgain(q: NonceMap, chain: Chain, a: Addr, next: nat, limit: Option<nat>)
    requires Settled(q, chain, a, next, limit)
    ensures PromotionOf(q, chain, a, next, limit) == Promotion(map[], q, {})
  {
    hide L.Affordable, From, S.ReadyRun, Lowest;
    AllPayable(q, chain, a, next, limit);
    NothingReady(q, next);
    var none: NonceMap := map[];
    assert q - none.Keys == q && none + q == q;
    if limit.Some? {
      S.LowestAll(q, limit.value);
    }
    assert TakenOut(q, q) == {};
  }

  lemma {:induction false} AllPayable(q: NonceMap, chain: Chain, a: Addr, next: nat, limit: Option<nat>)
    requires Settled(q, chain, a, next, limit)
    ensures L.Affordable(From(q, chain.Nonce(a)), chain.Balance(a), chain.maxGas) == q
  {
    hide L.TooCostly;
    assert From(q, chain.Nonce(a)) == q;
  }

  lemma {:induction false} NothingReady(q: NonceMap, next: nat)
    requires forall n :: n in q ==> n > next
    ensures S.ReadyRun(q, next) == map[]
  {
  }

  lemma {:induction false} PromotedAgain(s: Pool, n0: Nonces, r: Pool, n1: Nonces, t: Pool, n2: Nonces, chain: Chain,
    locals: set<Addr>, limit: nat, done: set<Addr>, a: Addr)
    requires Promoted(s, n0, r, n1, chain, locals, limit, done) && a in done
    requires PromotesAccount(r, n1, t, n2, chain, PromotionAt(r, n1, chain, locals, limit, a), a)
    ensures Promoted(s, n0, t, n2, chain, locals, limit, done)
  {
    hide PromotionOf, PromotesAccount, ReleaseSet, Part, GoneBy, Settled;
    var p := PromotionAt(s, n0, chain, locals, limit, a);
    assert PromotedAccount(s, n0, r, n1, chain, p, a, a in done);
    PromotionSettles(ListOf(s.queue, a), chain, a, NextNonce(n0, chain, a), LimitOf(locals, limit, a), NextNonce(n1, chain, a));
    PromotionAgain(ListOf(r.queue, a), chain, a, NextNonce(n1, chain, a), LimitOf(locals, limit, a));
    hide PromotionAt, Follows;
    forall b ensures PromotedAccount(s, n0, t, n2, chain, PromotionAt(s, n0, chain, locals, limit, b), b, b in done) {
      assert PromotedAccount(s, n0, r, n1, chain, PromotionAt(s, n0, chain, locals, limit, b), b, b in done);
      NothingPromoted(r, n1, t, n2, chain, a, b);
    }
    NothingPromoted(r, n1, t, n2, chain, a, a);
  }

  lemma {:induction false} NothingPromoted(r: Pool, n1: Nonces, t: Pool, n2: Nonces, chain: Chain, a: Addr, b: Addr)
    requires PromotesAccount(r, n1, t, n2, chain, Promotion(map[], ListOf(r.queue, a), {}), a)
    ensures ListOf(t.queue, b) == ListOf(r.queue, b) && ListOf(t.pending, b) == ListOf(r.pending, b)
    ensures NextNonce(n2, chain, b) == NextNonce(n1, chain, b) && t.all == r.all && t.cmdb == r.cmdb
  {
    hide ReleaseSet, Part, SetList, AddAll;
    OtherLists(r.queue, a, ListOf(r.queue, a), b);
    OtherLists(r.pending, a, map[], b);
    assert ListOf(r.pending, b) + map[] == ListOf(r.pending, b);
    PartEmpty(r.cmdb, r.all);
  }

  lemma {:induction false} PartEmpty(cmdb: CMdb, all: Lookup)
    ensures all - {} == all && ReleaseSet(cmdb, Part(all, {})) == cmdb
  {
    assert Part(all, {}) == map[];
    ReleaseSetNone(cmdb);
  }

  /** Either way: one more pass over one account. */
  lemma {:induction false} PromotedPass(s: Pool, n0: Nonces, r: Pool, n1: Nonces, t: Pool, n2: Nonces, chain: Chain,
    locals: set<Addr>, limit: nat, done: set<Addr>, a: Addr)
    requires Promoted(s, n0, r, n1, chain, locals, limit, done) && Inv(r, {})
    requires PromotesAccount(r, n1, t, n2, chain, PromotionAt(r, n1, chain, locals, limit, a), a)
    ensures Promoted(s, n0, t, n2, chain, locals, limit, done + {a})
  {
    hide Promoted, Inv, PromotionAt, PromotesAccount;
    if a in done {
      PromotedAgain(s, n0, r, n1, t, n2, chain, locals, limit, done, a);
      assert done + {a} == done;
    } else {
      PromotedOneMore(s, n0, r, n1, t, n2, chain, locals, limit, done, a);
    }
  }

  /** Promoting an account with nothing queued changes nothing. */
  lemma {:induction false} PromotesNothing(r: Pool, nonces: Nonces, chain: Chain, locals: set<Addr>, limit: nat, a: Addr)
    requires a !in r.queue
    ensures PromotesAccount(r, nonces, r, nonces, chain, PromotionAt(r, nonces, chain, locals, limit, a), a)
  {
    hide PromotionOf, ReleaseSet, Part, Settled;
    SettledEmpty(chain, a, NextNonce(nonces, chain, a), LimitOf(locals, limit, a));
    PromotionAgain(map[], chain, a, NextNonce(nonces, chain, a), LimitOf(locals, limit, a));
    PartEmpty(r.cmdb, r.all);
    assert r.queue - {a} == r.queue;
  }

  /** Promoted accounts have nothing left that is payable and continues the run from their next nonce, and are
      within their limits. The other accounts are as before. */
  lemma {:induction false} PromotedSettled(s: Pool, n0: Nonces, r: Pool, n1: Nonces, chain: Chain, locals: set<Addr>, limit: nat,
    done: set<Addr>, a: Addr)
    requires Promoted(s, n0, r, n1, chain, locals, limit, done)
    ensures a in done ==> Settled(ListOf(r.queue, a), chain, a, NextNonce(n1, chain, a), LimitOf(locals, limit, a))
    ensures a !in done ==> ListOf(r.queue, a) == ListOf(s.queue, a) && ListOf(r.pending, a) == ListOf(s.pending, a)
    ensures a !in done ==> NextNonce(n1, chain, a) == NextNonce(n0, chain, a)
  {
    hide PromotionOf, ReleaseSet, Part, Settled, Follows, GoneBy;
    assert PromotedAccount(s, n0, r, n1, chain, PromotionAt(s, n0, chain, locals, limit, a), a, a in done);
    if a in done {
      PromotionSettles(ListOf(s.queue, a), chain, a, NextNonce(n0, chain, a), LimitOf(locals, limit, a), NextNonce(n1, chain, a));
    }
  }

  // ---------- What promotion leaves behind ----------

  /** t follows the pending list, or is the account's nonce when there is none. */
  ghost predicate IsTail(p: NonceMap, nonce: nat, t: nat)
  {
    if p == map[] then t == nonce else t > 0 && F.IsMax(p, t - 1)
  }

  function Payable(q: NonceMap, chain: Chain, a: Addr): NonceMap
  {
    L.Affordable(From(q, chain.Nonce(a)), chain.Balance(a), chain.maxGas)
  }

  /** Before promotion: the transaction that would continue the pending list is queued and payable, the run that
      Ready finds from the next nonce does not get to it, and the account's limit spares it. */
  ghost predicate Stranded(q: NonceMap, chain: Chain, a: Addr, next: nat, limit: Option<nat>, t: nat)
  {
    var payable := Payable(q, chain, a);
    && t in payable
    && !(exists b: nat :: IsMin(payable, b) && b <= next && Consecutive(payable, b, t))
    && (limit.Some? ==> Rank(payable - S.ReadyRun(payable, next).Keys, t) < limit.value)
  }

  /** After promotion the transaction that would continue the pending list is still queued if and only if it was
      stranded. */
  lemma {:induction false} StrandedExact(p: NonceMap, q: NonceMap, chain: Chain, a: Addr, next: nat, limit: Option<nat>,
    t: nat, t': nat)
    requires IsTail(p, chain.Nonce(a), t)
    requires IsTail(p + PromotionOf(q, chain, a, next, limit).ready, chain.Nonce(a), t')
    ensures t' in PromotionOf(q, chain, a, next, limit).kept <==> Stranded(q, chain, a, next, limit, t)
  {
    hide S.ReadyRun, L.Affordable, From, Rank, IsTail, Stranded;
    var payable := Payable(q, chain, a);
    var ready := S.ReadyRun(payable, next);
    KeptExact(q, chain, a, next, limit, t);
    var kept := PromotionOf(q, chain, a, next, limit).kept;
    forall x | x in kept ensures x in payable && x !in ready {
    }
    PayableFrom(q, chain, a);
    TailMoves(p, payable, chain.Nonce(a), next, t, t', kept);
  }

  lemma {:induction false} PayableFrom(q: NonceMap, chain: Chain, a: Addr)
    ensures forall n :: n in Payable(q, chain, a) ==>
              n >= chain.Nonce(a) && n in q && Payable(q, chain, a)[n] == q[n] && !L.TooCostly(q[n], chain.Balance(a), chain.maxGas)
  {
    hide L.TooCostly;
  }

  /** What promotion drops of a local account: exactly what is too old or too costly, whatever add let in. */
  lemma {:induction false} GoneExact(q: NonceMap, chain: Chain, a: Addr, next: nat, h: Hash)
    ensures h in PromotionOf(q, chain, a, next, None).gone <==>
              exists n :: n in q && q[n].hash == h && (n < chain.Nonce(a) || L.TooCostly(q[n], chain.Balance(a), chain.maxGas))
  {
    hide S.ReadyRun, L.TooCostly;
    var p := PromotionOf(q, chain, a, next, None);
    ReadyPart(Payable(q, chain, a), next);
    forall n | n in q ensures n in p.ready + p.kept <==> n in Payable(q, chain, a) {
    }
    if h in p.gone {
      var n :| n in q && n !in p.ready + p.kept && q[n].hash == h;
      assert n !in Payable(q, chain, a);
    }
  }

  lemma {:induction false} KeptExact(q: NonceMap, chain: Chain, a: Addr, next: nat, limit: Option<nat>, t: nat)
    ensures t in PromotionOf(q, chain, a, next, limit).kept <==> Stranded(q, chain, a, next, limit, t)
  {
    hide L.Affordable, From, Rank, TakenOut, S.ReadyRun;
    var payable := Payable(q, chain, a);
    if t in payable {
      ReadyMember(payable, next, t);
    }
  }

  lemma {:induction false} ReadyMember(m: NonceMap, next: nat, t: nat)
    requires t in m
    ensures t in S.ReadyRun(m, next) <==> exists b: nat :: IsMin(m, b) && b <= next && Consecutive(m, b, t)
  {
    if b: nat :| IsMin(m, b) && b <= next {
      S.MinUnique(m, b, next);
      assert b <= t;
    }
  }

  lemma {:induction false} TailMoves(p: NonceMap, m: NonceMap, nonce: nat, next: nat, t: nat, t': nat, kept: NonceMap)
    requires IsTail(p, nonce, t) && IsTail(p + S.ReadyRun(m, next), nonce, t')
    requires forall n :: n in m ==> n >= nonce
    requires forall n :: n in kept ==> n in m && n !in S.ReadyRun(m, next)
    ensures t' in kept <==> t in kept
  {
    var ready := S.ReadyRun(m, next);
    if ready == map[] {
      assert p + ready == p;
    } else {
      RunEnds(m, next);
      var after: nat :| Follows(ready, next, after);
      forall n | n in kept ensures n > after {
        ReadyGap(m, next, after, n);
      }
      ReadyPart(m, next);
      assert after - 1 in p + ready;
      if t' in kept {
        assert t' - 1 in p && F.IsMax(p, t' - 1);
      }
      if t in kept {
        assert p != map[];
        assert F.IsMax(p + ready, t - 1);
      }
    }
  }

  lemma {:induction false} RunEnds(m: NonceMap, next: nat)
    requires S.ReadyRun(m, next) != map[]
    ensures exists after: nat :: Follows(S.ReadyRun(m, next), next, after)
  {
    F.GreatestExists(S.ReadyRun(m, next));
    var n: nat :| F.IsMax(S.ReadyRun(m, next), n);
    assert Follows(S.ReadyRun(m, next), next, n + 1);
  }
}
