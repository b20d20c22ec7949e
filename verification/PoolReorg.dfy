/**
 A pool reorganisation as a whole: promotion, after a new block demotion, then the cut of the pending
 lists and of the queues. What leaves the pool, what is given back, what local accounts can lose, and
 in which order the pending lists are afterwards.
 */
module PoolReorg {
  import opened Common
  import opened Transactions
  import opened PoolState
  import opened PoolSteps
  import opened PoolPromotion
  import opened PoolOrder
  import H = PoolHistory
  import F = Fairness
  import S = SortedMap
  import L = TxList

  // ---------- What leaves ----------

  /** Transactions have left. Exactly their commitments are given back, but for those that were overtaken. */
  ghost predicate LeftBut(s: Pool, r: Pool, overtaken: set<Hash>)
  {
    && (forall h :: h in r.all ==> h in s.all && r.all[h] == s.all[h])
    && r.cmdb == ReleaseSet(s.cmdb, Part(s.all, s.all.Keys - r.all.Keys - overtaken))
  }

  lemma {:induction false} LeftTwice(s: Pool, r: Pool, t: Pool, x: set<Hash>, y: set<Hash>)
    requires LeftBut(s, r, x) && LeftBut(r, t, y) && x !! r.all.Keys && y <= r.all.Keys
    ensures LeftBut(s, t, x + y)
  {
    hide ReleaseSet, Part;
    var first, second := s.all.Keys - r.all.Keys - x, r.all.Keys - t.all.Keys - y;
    ReleaseMore(s.cmdb, s.all, r.all, first, second);
    assert first + second == s.all.Keys - t.all.Keys - (x + y);
  }

  lemma {:induction false} FreedLeaves(s: Pool, r: Pool)
    requires Freed(s, r)
    ensures LeftBut(s, r, {})
  {
    assert s.all.Keys - r.all.Keys - {} == s.all.Keys - r.all.Keys;
  }

  lemma {:induction false} PromotedLeaves(s: Pool, n0: Nonces, r: Pool, n1: Nonces, chain: Chain, locals: set<Addr>, limit: nat,
    done: set<Addr>)
    requires Promoted(s, n0, r, n1, chain, locals, limit, done) && Inv(s, {})
    ensures LeftBut(s, r, {})
  {
    hide Inv, PromotionAt, ReleaseSet, Part, PromotedAccount;
    var gone := GoneBy(s, n0, chain, locals, limit, done);
    forall h | h in gone ensures h in s.all {
      var a :| a in done && h in PromotionAt(s, n0, chain, locals, limit, a).gone;
      GoneAt(s, n0, chain, locals, limit, a);
    }
    assert s.all.Keys - r.all.Keys - {} == gone;
  }

  /** The pending transactions whose nonces the chain has passed, be it with them or with others. */
  function Overtaken(pending: AccountLists, chain: Chain): set<Hash>
  {
    set a, n | a in pending && n in pending[a] && n < chain.Nonce(a) :: pending[a][n].hash
  }

  lemma {:induction false} OvertakenSpent(pending: AccountLists, chain: Chain)
    ensures SpentBy(pending, chain, pending.Keys) == Overtaken(pending, chain)
  {
    hide L.AffordablePrefix, L.Invalidated, L.Unaffordable;
    forall h | h in Overtaken(pending, chain) ensures h in SpentBy(pending, chain, pending.Keys) {
      var a, n :| a in pending && n in pending[a] && n < chain.Nonce(a) && pending[a][n].hash == h;
      assert n in Below(pending[a], chain.Nonce(a));
      assert h in DemotionOf(pending[a], chain, a).spent;
    }
  }

  lemma {:induction false} DemotedLeaves(s: Pool, r: Pool, chain: Chain)
    requires DemotedSoFar(s, r, chain, s.pending.Keys) && Inv(s, {})
    ensures LeftBut(s, r, Overtaken(s.pending, chain)) && Overtaken(s.pending, chain) <= s.all.Keys
    ensures Overtaken(s.pending, chain) !! r.all.Keys
  {
    hide Inv, DemotedLists, DemotionOf, SpentBy, DroppedBy, ReleaseSet, Part, Overtaken;
    var spent, dropped := Overtaken(s.pending, chain), DroppedBy(s.pending, chain, s.pending.Keys);
    OvertakenSpent(s.pending, chain);
    forall h | h in spent ensures h in s.all && s.all[h].nonce < chain.Nonce(s.all[h].from) {
      OvertakenOld(s, chain, h);
    }
    forall h | h in dropped ensures h in s.all && s.all[h].nonce >= chain.Nonce(s.all[h].from) {
      DroppedNew(s, chain, h);
    }
    assert s.all.Keys - r.all.Keys - spent == dropped;
  }

  lemma {:induction false} OvertakenOld(s: Pool, chain: Chain, h: Hash)
    requires Inv(s, {}) && h in Overtaken(s.pending, chain)
    ensures h in s.all && s.all[h].nonce < chain.Nonce(s.all[h].from)
  {
    hide Inv;
    var a, n :| a in s.pending && n in s.pending[a] && n < chain.Nonce(a) && s.pending[a][n].hash == h;
    ListFiled(s, {}, a);
    assert FiledAs(ListOf(s.pending, a)[n], a, n, s.all);
  }

  /** What demotion drops is too costly, and not too old. */
  lemma {:induction false} DroppedNew(s: Pool, chain: Chain, h: Hash)
    requires Inv(s, {}) && h in DroppedBy(s.pending, chain, s.pending.Keys)
    ensures h in s.all && s.all[h].nonce >= chain.Nonce(s.all[h].from)
    ensures L.TooCostly(s.all[h], chain.Balance(s.all[h].from), chain.maxGas)
  {
    hide Inv, L.TooCostly, L.AffordablePrefix, L.Invalidated, Below;
    var a :| a in s.pending && h in DemotionOf(s.pending[a], chain, a).dropped;
    var costly := L.Unaffordable(From(s.pending[a], chain.Nonce(a)), chain.Balance(a), chain.maxGas);
    var n :| n in costly && costly[n].hash == h;
    ListFiled(s, {}, a);
    assert FiledAs(ListOf(s.pending, a)[n], a, n, s.all);
  }

  /** Promotion adds nothing that the chain has passed. */
  lemma {:induction false} SameOvertaken(s: Pool, n0: Nonces, r: Pool, n1: Nonces, chain: Chain, locals: set<Addr>, limit: nat,
    done: set<Addr>)
    requires Promoted(s, n0, r, n1, chain, locals, limit, done)
    ensures Overtaken(r.pending, chain) == Overtaken(s.pending, chain)
  {
    hide PromotionOf, Follows, ReleaseSet, Part, GoneBy;
    forall a, n: nat | n < chain.Nonce(a)
      ensures n in ListOf(r.pending, a) <==> n in ListOf(s.pending, a)
      ensures n in ListOf(s.pending, a) ==> ListOf(r.pending, a)[n] == ListOf(s.pending, a)[n]
    {
      assert PromotedAccount(s, n0, r, n1, chain, PromotionAt(s, n0, chain, locals, limit, a), a, a in done);
      ReadyNew(ListOf(s.queue, a), chain, a, NextNonce(n0, chain, a), LimitOf(locals, limit, a));
    }
    SameBelow(s.pending, r.pending, chain);
    SameBelow(r.pending, s.pending, chain);
  }

  lemma {:induction false} SameBelow(p: AccountLists, q: AccountLists, chain: Chain)
    requires forall a, n: nat :: n < chain.Nonce(a) && n in ListOf(p, a) ==> n in ListOf(q, a) && ListOf(q, a)[n] == ListOf(p, a)[n]
    ensures Overtaken(p, chain) <= Overtaken(q, chain)
  {
    forall h | h in Overtaken(p, chain) ensures h in Overtaken(q, chain) {
      var a, n :| a in p && n in p[a] && n < chain.Nonce(a) && p[a][n].hash == h;
      assert n in ListOf(p, a);
      assert a in q && n in q[a];
    }
  }

  /** What is ready is not too old and payable. */
  lemma {:induction false} ReadyNew(q: NonceMap, chain: Chain, a: Addr, next: nat, limit: Option<nat>)
    ensures forall n :: n in PromotionOf(q, chain, a, next, limit).ready ==>
              n >= chain.Nonce(a) && n in q && PromotionOf(q, chain, a, next, limit).ready[n] == q[n]
              && !L.TooCostly(q[n], chain.Balance(a), chain.maxGas)
  {
    hide S.ReadyRun, L.Affordable, From, L.TooCostly, TakenOut, Lowest;
    PayableFrom(q, chain, a);
    ReadyPart(Payable(q, chain, a), next);
  }

  // ---------- What becomes of commitments ----------

  /** Something that claims the commitment has left, and was not overtaken. */
  ghost predicate GivenBack(s: Pool, r: Pool, overtaken: set<Hash>, k: Hash)
  {
    exists h :: h in s.all && h !in r.all && h !in overtaken && Claim(s.all[h]) == k
  }

  /** Every entry is as it was, or unspent and unlocked if it was given back, whatever it was before. */
  lemma {:induction false} EntryExact(s: Pool, r: Pool, overtaken: set<Hash>, k: Hash)
    requires LeftBut(s, r, overtaken)
    ensures k in r.cmdb <==> k in s.cmdb
    ensures k in s.cmdb ==> r.cmdb[k] == if GivenBack(s, r, overtaken, k) then CM(false, false) else s.cmdb[k]
  {
    var gone := Part(s.all, s.all.Keys - r.all.Keys - overtaken);
    assert k in ClaimsOf(gone) <==> GivenBack(s, r, overtaken, k) by {
      if GivenBack(s, r, overtaken, k) {
        var h :| h in s.all && h !in r.all && h !in overtaken && Claim(s.all[h]) == k;
        assert h in gone;
      }
    }
  }

  /** Afterwards a lock has no holder exactly when it was there, and everything that claimed it was overtaken. */
  lemma {:induction false} OrphansAfter(s: Pool, r: Pool, overtaken: set<Hash>, k: Hash)
    requires LeftBut(s, r, overtaken) && overtaken <= s.all.Keys - r.all.Keys
    ensures H.Orphan(r, k) <==>
              k in s.cmdb && s.cmdb[k].lock && forall h :: h in s.all && Claim(s.all[h]) == k ==> h in overtaken
  {
    EntryExact(s, r, overtaken, k);
  }

  // ---------- What local accounts lose ----------

  /** Local transactions leave only when they are too old or too costly. */
  ghost predicate LocalsKept(s: Pool, r: Pool, chain: Chain, locals: set<Addr>)
  {
    forall h :: h in s.all && h !in r.all && s.all[h].from in locals ==> Unworkable(s.all[h], chain)
  }

  ghost predicate Unworkable(t: Tx, chain: Chain)
  {
    t.nonce < chain.Nonce(t.from) || !CanPay(t, chain.Balance(t.from), chain.maxGas)
  }

  /** The balance covers value and gas, and the gas fits into a block. */
  ghost predicate CanPay(t: Tx, balance: nat, maxGas: nat)
  {
    t.value + t.price * t.gas <= balance && t.gas <= maxGas
  }

  lemma {:induction false} CanPayExact(t: Tx, balance: nat, maxGas: nat)
    ensures CanPay(t, balance, maxGas) <==> !L.TooCostly(t, balance, maxGas)
  {
  }

  lemma {:induction false} LocalsTwice(s: Pool, r: Pool, t: Pool, chain: Chain, locals: set<Addr>)
    requires LocalsKept(s, r, chain, locals) && LocalsKept(r, t, chain, locals)
    requires forall h :: h in r.all ==> h in s.all && r.all[h] == s.all[h]
    ensures LocalsKept(s, t, chain, locals)
  {
    hide Unworkable;
  }

  /** An account whose lists are unchanged keeps its transactions. */
  lemma {:induction false} SameAccountKept(s: Pool, r: Pool, h: Hash)
    requires Inv(s, {}) && Inv(r, {}) && h in s.all
    requires var a := s.all[h].from; ListOf(r.pending, a) == ListOf(s.pending, a) && ListOf(r.queue, a) == ListOf(s.queue, a)
    ensures h in r.all
  {
    hide Inv;
    var a, n := s.all[h].from, s.all[h].nonce;
    ListedAs(s, {}, h);
    ListFiled(r, {}, a);
    assert n in ListOf(r.pending, a) ==> FiledAs(ListOf(r.pending, a)[n], a, n, r.all);
    assert n in ListOf(r.queue, a) ==> FiledAs(ListOf(r.queue, a)[n], a, n, r.all);
  }

  lemma {:induction false} PromotedLocals(s: Pool, n0: Nonces, r: Pool, n1: Nonces, chain: Chain, locals: set<Addr>, limit: nat,
    done: set<Addr>)
    requires Promoted(s, n0, r, n1, chain, locals, limit, done) && Inv(s, {})
    ensures LocalsKept(s, r, chain, locals)
  {
    hide Inv, PromotionAt, ReleaseSet, Part, PromotedAccount, Unworkable;
    forall h | h in s.all && h !in r.all && s.all[h].from in locals ensures Unworkable(s.all[h], chain) {
      var a :| a in done && h in PromotionAt(s, n0, chain, locals, limit, a).gone;
      GoneLocal(s, n0, chain, locals, limit, a, h);
    }
  }

  lemma {:induction false} GoneLocal(s: Pool, nonces: Nonces, chain: Chain, locals: set<Addr>, limit: nat, a: Addr, h: Hash)
    requires Inv(s, {}) && h in PromotionAt(s, nonces, chain, locals, limit, a).gone && h in s.all && s.all[h].from in locals
    ensures Unworkable(s.all[h], chain)
  {
    hide Inv, S.ReadyRun, Lowest, L.TooCostly, CanPay;
    CanPayExact(s.all[h], chain.Balance(s.all[h].from), chain.maxGas);
    var q := ListOf(s.queue, a);
    ListFiled(s, {}, a);
    var p := PromotionAt(s, nonces, chain, locals, limit, a);
    var n :| n in q && n !in p.ready + p.kept && q[n].hash == h;
    assert FiledAs(q[n], a, n, s.all);
    assert n !in Payable(q, chain, a);
  }

  lemma {:induction false} DemotedLocals(s: Pool, r: Pool, chain: Chain, locals: set<Addr>)
    requires DemotedSoFar(s, r, chain, s.pending.Keys) && Inv(s, {})
    ensures LocalsKept(s, r, chain, locals)
  {
    hide Inv, DemotedLists, DemotionOf, SpentBy, DroppedBy, ReleaseSet, Part, Overtaken, L.TooCostly, CanPay;
    OvertakenSpent(s.pending, chain);
    forall h | h in s.all && h !in r.all ensures Unworkable(s.all[h], chain) {
      CanPayExact(s.all[h], chain.Balance(s.all[h].from), chain.maxGas);
      if h in Overtaken(s.pending, chain) {
        OvertakenOld(s, chain, h);
      } else {
        DroppedNew(s, chain, h);
      }
    }
  }

  // ---------- The cuts ----------

  datatype Limits = Limits(accountSlots: nat, globalSlots: nat, accountQueue: nat, globalQueue: nat)

  /** The pending lists are within the limit, or cut to the highest level that will do, not below the floor. */
  ghost predicate PendingCut(s: Pool, r: Pool, locals: set<Addr>, lim: Limits, level: nat)
  {
    && r.queue == s.queue && Freed(s, r)
    && (F.Total(s.pending) <= lim.globalSlots ==> r == s)
    && (F.Total(s.pending) > lim.globalSlots ==>
          && level >= lim.accountSlots && r.pending == F.Level(s.pending, locals, level)
          && (F.Total(r.pending) <= lim.globalSlots || level == lim.accountSlots)
          && F.Total(F.Level(s.pending, locals, level + 1)) > lim.globalSlots)
  }

  /** The queues are within the limit, or drained from the end of the order until they meet it exactly or only
      local accounts have something queued. */
  ghost predicate QueueCut(s: Pool, r: Pool, locals: set<Addr>, lim: Limits, order: seq<Addr>, i: nat, k: nat)
  {
    && r.pending == s.pending && Freed(s, r) && CutOrder(s.queue, locals, order)
    && (F.Total(s.queue) <= lim.globalQueue ==> r == s)
    && (F.Total(s.queue) > lim.globalQueue ==>
          && i <= |order| && F.Total(r.queue) >= lim.globalQueue
          && (F.Total(r.queue) > lim.globalQueue ==> i == 0)
          && (k == 0 ==> DrainedFrom(s.queue, r.queue, order, i))
          && (k > 0 ==> i > 0 && CutAt(s.queue, r.queue, order, i, k)))
  }

  /** a was active before b; an account that never was counts as active at time 0. */
  ghost predicate Earlier(beats: map<Addr, nat>, a: Addr, b: Addr)
  {
    (if a in beats then beats[a] else 0) < (if b in beats then beats[b] else 0)
  }

  /** A remote account loses queued transactions in the cut only after the queues of all that were active later are
      empty. */
  ghost predicate LatestCutFirst(q0: AccountLists, q: AccountLists, locals: set<Addr>, beats: map<Addr, nat>)
  {
    forall a, b :: a in q0 && b in q0 && a !in locals && b !in locals && Earlier(beats, a, b) && ListOf(q, a) != q0[a] ==>
      ListOf(q, b) == map[]
  }

  lemma {:induction false} PendingCutLocal(s: Pool, r: Pool, locals: set<Addr>, lim: Limits, level: nat, a: Addr)
    requires PendingCut(s, r, locals, lim, level) && a in locals
    ensures ListOf(r.pending, a) == ListOf(s.pending, a)
  {
    hide F.Total, Freed, Lowest;
  }

  lemma {:induction false} QueueCutLocal(s: Pool, r: Pool, locals: set<Addr>, lim: Limits, order: seq<Addr>, i: nat, k: nat, a: Addr)
    requires QueueCut(s, r, locals, lim, order, i, k) && a in locals
    ensures ListOf(r.queue, a) == ListOf(s.queue, a)
  {
    hide F.Total, Freed, Lowest;
    assert a !in order;
  }

  lemma {:induction false} CutsLocals(s: Pool, r: Pool, t: Pool, chain: Chain, locals: set<Addr>, lim: Limits, level: nat,
    order: seq<Addr>, i: nat, k: nat)
    requires PendingCut(s, r, locals, lim, level) && QueueCut(r, t, locals, lim, order, i, k) && Inv(s, {}) && Inv(t, {})
    ensures LocalsKept(s, t, chain, locals)
  {
    hide Inv, F.Total, Freed, CutOrder, DrainedFrom, CutAt;
    forall h | h in s.all && s.all[h].from in locals ensures h in t.all {
      var a := s.all[h].from;
      PendingCutLocal(s, r, locals, lim, level, a);
      QueueCutLocal(r, t, locals, lim, order, i, k, a);
      SameAccountKept(s, t, h);
    }
  }

  // ---------- The whole reorganisation ----------

  /** What a reorganisation went through: the pool after promotion with the next nonces then, after demotion and
      after the cut of the pending lists; the level of that cut; and the order and the extent of the queue cut. */
  datatype Stages = Stages(promoted: Pool, nonces: Nonces, demoted: Pool, levelled: Pool, level: nat, order: seq<Addr>, i: nat, k: nat)

  ghost predicate Reorganised(s: Pool, n0: Nonces, r: Pool, chain: Chain, locals: set<Addr>, lim: Limits, accounts: set<Addr>,
    reset: bool, g: Stages)
  {
    && Promoted(s, n0, g.promoted, g.nonces, chain, locals, lim.accountQueue, accounts)
    && (if reset then DemotedSoFar(g.promoted, g.demoted, chain, g.promoted.pending.Keys) else g.demoted == g.promoted)
    && PendingCut(g.demoted, g.levelled, locals, lim, g.level)
    && QueueCut(g.levelled, r, locals, lim, g.order, g.i, g.k)
    && Inv(g.promoted, {}) && Inv(g.demoted, {}) && Inv(g.levelled, {}) && Inv(r, {})
  }

  /** Whatever leaves gives its commitment back, except the pending transactions that the chain has passed: they have
      left, and the entries of their commitments are as they were. */
  lemma {:induction false} ReorgLeaves(s: Pool, n0: Nonces, r: Pool, chain: Chain, locals: set<Addr>, lim: Limits,
    accounts: set<Addr>, reset: bool, g: Stages)
    requires Reorganised(s, n0, r, chain, locals, lim, accounts, reset, g) && Inv(s, {})
    ensures LeftBut(s, r, if reset then Overtaken(s.pending, chain) else {})
    ensures reset ==> Overtaken(s.pending, chain) <= s.all.Keys - r.all.Keys
  {
    hide Inv, Promoted, DemotedSoFar, LeftBut, Freed, F.Total, F.Level, CutOrder, DrainedFrom, CutAt, Overtaken;
    var overtaken := if reset then Overtaken(s.pending, chain) else {};
    PromotedLeaves(s, n0, g.promoted, g.nonces, chain, locals, lim.accountQueue, accounts);
    if reset {
      SameOvertaken(s, n0, g.promoted, g.nonces, chain, locals, lim.accountQueue, accounts);
      DemotedLeaves(g.promoted, g.demoted, chain);
      LeftTwice(s, g.promoted, g.demoted, {}, overtaken);
      assert {} + overtaken == overtaken;
    }
    FreedLeaves(g.demoted, g.levelled);
    FreedLeaves(g.levelled, r);
    LeftTwice(g.demoted, g.levelled, r, {}, {});
    LeftTwice(s, g.demoted, r, overtaken, {} + {});
    assert overtaken + ({} + {}) == overtaken;
    if reset {
      StillThere(s, g.demoted, overtaken);
      StillThere(s, g.promoted, {});
      StillThere(g.demoted, r, {} + {});
    }
  }

  lemma {:induction false} ReorgLocals(s: Pool, n0: Nonces, r: Pool, chain: Chain, locals: set<Addr>, lim: Limits,
    accounts: set<Addr>, reset: bool, g: Stages)
    requires Reorganised(s, n0, r, chain, locals, lim, accounts, reset, g) && Inv(s, {})
    ensures LocalsKept(s, r, chain, locals)
  {
    hide Inv, Promoted, DemotedSoFar, LocalsKept, PendingCut, QueueCut, LeftBut;
    PromotedLocals(s, n0, g.promoted, g.nonces, chain, locals, lim.accountQueue, accounts);
    PromotedLeaves(s, n0, g.promoted, g.nonces, chain, locals, lim.accountQueue, accounts);
    StillThere(s, g.promoted, {});
    if reset {
      DemotedLocals(g.promoted, g.demoted, chain, locals);
      DemotedLeaves(g.promoted, g.demoted, chain);
      StillThere(g.promoted, g.demoted, Overtaken(g.promoted.pending, chain));
      LocalsTwice(s, g.promoted, g.demoted, chain, locals);
    }
    CutsLocals(g.demoted, g.levelled, r, chain, locals, lim, g.level, g.order, g.i, g.k);
    LocalsTwice(s, g.demoted, r, chain, locals);
  }

  lemma {:induction false} StillThere(s: Pool, r: Pool, x: set<Hash>)
    requires LeftBut(s, r, x)
    ensures forall h :: h in r.all ==> h in s.all && r.all[h] == s.all[h]
  {
  }

  // ---------- The pending lists afterwards ----------

  /** The list starts at the account's nonce, and each of its transactions is payable. */
  ghost predicate Executable(p: NonceMap, chain: Chain, a: Addr)
  {
    && (p != map[] ==> chain.Nonce(a) in p)
    && forall n :: n in p ==> n >= chain.Nonce(a) && CanPay(p[n], chain.Balance(a), chain.maxGas)
  }

  lemma {:induction false} LevelExecutable(p: NonceMap, chain: Chain, a: Addr, level: nat)
    requires Executable(p, chain, a) && level > 0
    ensures Executable(Lowest(p, level), chain, a)
  {
    hide CanPay;
    if p != map[] {
      assert NoncesBelow(p, chain.Nonce(a)) == {};
    } else {
      assert Lowest(p, level) == map[];
    }
  }

  /** After a new block every pending list is executable. */
  lemma {:induction false} ReorgExecutable(s: Pool, n0: Nonces, r: Pool, chain: Chain, locals: set<Addr>, lim: Limits,
    accounts: set<Addr>, g: Stages, a: Addr)
    requires Reorganised(s, n0, r, chain, locals, lim, accounts, true, g) && lim.accountSlots >= 1
    ensures Executable(ListOf(r.pending, a), chain, a)
  {
    hide Inv, Promoted, DemotionOf, F.Total, Freed, QueueCut, Executable, DemotedLookup, Lowest;
    assert r.pending == g.levelled.pending by {
      QueueCutPending(g.levelled, r, locals, lim, g.order, g.i, g.k);
    }
    assert AccountAs(g.promoted, g.demoted, chain, a, a in g.promoted.pending.Keys);
    DemotedExecutable(g.promoted, g.demoted, chain, a);
    LevelExecutable(ListOf(g.demoted.pending, a), chain, a, if g.level > 0 then g.level else 1);
  }

  lemma {:induction false} QueueCutPending(s: Pool, r: Pool, locals: set<Addr>, lim: Limits, order: seq<Addr>, i: nat, k: nat)
    requires QueueCut(s, r, locals, lim, order, i, k)
    ensures r.pending == s.pending
  {
  }

  lemma {:induction false} DemotedExecutable(s: Pool, r: Pool, chain: Chain, a: Addr)
    requires AccountAs(s, r, chain, a, a in s.pending)
    ensures Executable(ListOf(r.pending, a), chain, a)
  {
    hide DemotionOf, L.TooCostly, CanPay;
    if a in s.pending {
      DemotionExecutable(s.pending[a], chain, a);
      forall n | n in ListOf(r.pending, a) ensures CanPay(ListOf(r.pending, a)[n], chain.Balance(a), chain.maxGas) {
        CanPayExact(ListOf(r.pending, a)[n], chain.Balance(a), chain.maxGas);
      }
    }
  }

  /** The global limits are met, as far as the remote accounts allow. */
  lemma {:induction false} ReorgWithin(s: Pool, n0: Nonces, r: Pool, chain: Chain, locals: set<Addr>, lim: Limits,
    accounts: set<Addr>, reset: bool, g: Stages)
    requires Reorganised(s, n0, r, chain, locals, lim, accounts, reset, g)
    ensures F.Total(r.pending) <= lim.globalSlots || forall a :: a in r.pending && a !in locals ==> |r.pending[a]| <= lim.accountSlots
    ensures F.Total(r.queue) <= lim.globalQueue || forall a :: a in r.queue && a !in locals ==> r.queue[a] == map[]
  {
    hide Inv, Promoted, DemotedSoFar, F.Total, F.Level, Freed, CutOrder, DrainedFrom, CutAt;
    PendingWithin(g.demoted.pending, g.levelled.pending, locals, g.level, lim.globalSlots, lim.accountSlots);
    if F.Total(r.queue) > lim.globalQueue {
      AllDrained(g.levelled.queue, r.queue, locals, g.order);
    }
  }

  // ---------- The order of the lists afterwards ----------

  /** Without a reset, tidy lists stay without gaps. */
  lemma {:induction false} ReorgTidy(s: Pool, n0: Nonces, r: Pool, chain: Chain, locals: set<Addr>, lim: Limits,
    accounts: set<Addr>, g: Stages, a: Addr)
    requires Reorganised(s, n0, r, chain, locals, lim, accounts, false, g) && Inv(s, {})
    requires TidyAt(ListOf(s.pending, a), chain.Nonce(a), NextNonce(n0, chain, a))
    ensures TidyAt(ListOf(g.promoted.pending, a), chain.Nonce(a), NextNonce(g.nonces, chain, a))
    ensures Straight(ListOf(r.pending, a), chain.Nonce(a))
  {
    hide Inv, Promoted, PendingCut, QueueCut, TidyAt;
    PromotedTidy(s, n0, g.promoted, g.nonces, chain, locals, lim.accountQueue, accounts, a);
    CutStraight(g.demoted, g.levelled, locals, lim, g.level, chain, a);
    QueueCutPending(g.levelled, r, locals, lim, g.order, g.i, g.k);
  }

  lemma {:induction false} PromotedTidy(s: Pool, n0: Nonces, r: Pool, n1: Nonces, chain: Chain, locals: set<Addr>, limit: nat,
    done: set<Addr>, a: Addr)
    requires Promoted(s, n0, r, n1, chain, locals, limit, done) && Inv(s, {})
    requires TidyAt(ListOf(s.pending, a), chain.Nonce(a), NextNonce(n0, chain, a))
    ensures TidyAt(ListOf(r.pending, a), chain.Nonce(a), NextNonce(n1, chain, a))
    ensures Straight(ListOf(r.pending, a), chain.Nonce(a))
  {
    hide Inv, PromotionOf, Follows, ReleaseSet, Part, GoneBy, TidyAt;
    assert PromotedAccount(s, n0, r, n1, chain, PromotionAt(s, n0, chain, locals, limit, a), a, a in done);
    if a in done {
      ListsDisjoint(s, a);
      TidyPromotes(ListOf(s.pending, a), ListOf(s.queue, a), chain, a, NextNonce(n0, chain, a), LimitOf(locals, limit, a), NextNonce(n1, chain, a));
    }
  }

  lemma {:induction false} ListsDisjoint(s: Pool, a: Addr)
    requires Inv(s, {})
    ensures Disjoint(ListOf(s.pending, a), ListOf(s.queue, a))
  {
    hide Inv;
    forall n | n in ListOf(s.pending, a) ensures n !in ListOf(s.queue, a) {
      if n in ListOf(s.queue, a) {
        QueuedNotPending(s, a, n);
      }
    }
  }

  lemma {:induction false} CutStraight(s: Pool, r: Pool, locals: set<Addr>, lim: Limits, level: nat, chain: Chain, a: Addr)
    requires PendingCut(s, r, locals, lim, level) && Straight(ListOf(s.pending, a), chain.Nonce(a))
    ensures Straight(ListOf(r.pending, a), chain.Nonce(a))
  {
    hide F.Total, Freed, Lowest, Straight;
    LevelStraight(ListOf(s.pending, a), chain.Nonce(a), level);
  }

  /** After a reset the lists that were not torn are without gaps. */
  lemma {:induction false} ReorgStraight(s: Pool, r: Pool, chain: Chain, locals: set<Addr>, lim: Limits,
    g: Stages, c: nat, t: nat, a: Addr)
    requires Reorganised(s, map[], r, chain, locals, lim, s.queue.Keys, true, g) && Inv(s, {})
    requires TidyAt(ListOf(s.pending, a), c, t)
    ensures ListOf(g.demoted.pending, a) == AfterReset(ListOf(s.pending, a), ListOf(s.queue, a), chain, a, LimitOf(locals, lim.accountQueue, a))
    ensures Straight(ListOf(g.demoted.pending, a), chain.Nonce(a)) <==> !Torn(ListOf(s.pending, a), ListOf(s.queue, a), chain, a, c)
    ensures !Torn(ListOf(s.pending, a), ListOf(s.queue, a), chain, a, c) ==> Straight(ListOf(r.pending, a), chain.Nonce(a))
  {
    hide Inv, Promoted, PendingCut, QueueCut, TidyAt, AfterReset, Torn, Straight, DemotedLookup;
    assert AccountAs(g.promoted, g.demoted, chain, a, a in g.promoted.pending.Keys);
    ResetAccount(s, g.promoted, g.nonces, g.demoted, chain, locals, lim.accountQueue, a);
    ListsDisjoint(s, a);
    TornExact(ListOf(s.pending, a), ListOf(s.queue, a), chain, a, LimitOf(locals, lim.accountQueue, a), c, t);
    if !Torn(ListOf(s.pending, a), ListOf(s.queue, a), chain, a, c) {
      CutStraight(g.demoted, g.levelled, locals, lim, g.level, chain, a);
      QueueCutPending(g.levelled, r, locals, lim, g.order, g.i, g.k);
    }
  }

  /** Promotion and demotion of one account after a reset. */
  lemma {:induction false} ResetAccount(s: Pool, r: Pool, n1: Nonces, t: Pool, chain: Chain, locals: set<Addr>, limit: nat, a: Addr)
    requires Promoted(s, map[], r, n1, chain, locals, limit, s.queue.Keys) && AccountAs(r, t, chain, a, a in r.pending)
    ensures ListOf(t.pending, a) == AfterReset(ListOf(s.pending, a), ListOf(s.queue, a), chain, a, LimitOf(locals, limit, a))
    ensures ListOf(t.pending, a) == map[] ==> NextNonce(n1, chain, a) == chain.Nonce(a)
  {
    hide ReleaseSet, Part, GoneBy, PromotionOf, DemotionOf, Follows;
    var none: Nonces := map[];
    var p := PromotionAt(s, none, chain, locals, limit, a);
    assert PromotedAccount(s, none, r, n1, chain, p, a, a in s.queue.Keys);
    if a !in s.queue {
      NothingQueued(chain, a, chain.Nonce(a), LimitOf(locals, limit, a));
      assert ListOf(s.pending, a) + map[] == ListOf(s.pending, a);
    }
    if a !in r.pending {
      NothingPending(chain, a);
    }
    assert ListOf(r.pending, a) == ListOf(s.pending, a) + p.ready;
    if ListOf(t.pending, a) == map[] {
      ReadyStays(ListOf(s.pending, a), ListOf(s.queue, a), chain, a, LimitOf(locals, limit, a));
      FollowsNone(p.ready, chain.Nonce(a), NextNonce(n1, chain, a));
    }
  }

  lemma {:induction false} FollowsNone(ready: NonceMap, next: nat, after: nat)
    requires ready == map[]
    ensures Follows(ready, next, after) <==> after == next
  {
  }

  lemma {:induction false} NothingQueued(chain: Chain, a: Addr, next: nat, limit: Option<nat>)
    ensures PromotionOf(map[], chain, a, next, limit).ready == map[]
  {
  }

  lemma {:induction false} NothingPending(chain: Chain, a: Addr)
    ensures DemotionOf(map[], chain, a).kept == map[]
  {
  }

  /** What promotion after a reset adds is not demoted altogether. */
  lemma {:induction false} ReadyStays(p: NonceMap, q: NonceMap, chain: Chain, a: Addr, limit: Option<nat>)
    requires AfterReset(p, q, chain, a, limit) == map[]
    ensures PromotionOf(q, chain, a, chain.Nonce(a), limit).ready == map[]
  {
    hide L.Affordable, From, S.ReadyRun, TakenOut, Lowest, L.TooCostly, L.AffordablePrefix, L.Invalidated, L.Unaffordable, HashesOf;
    var nonce := chain.Nonce(a);
    var payable := Payable(q, chain, a);
    PayableFrom(q, chain, a);
    var after := RunTail(payable, nonce);
    RunFromTail(payable, nonce, after);
    ReadyPart(payable, nonce);
    var ready := S.ReadyRun(payable, nonce);
    if ready != map[] {
      KeepsStart(p + ready, chain, a);
    }
  }

  lemma {:induction false} KeepsStart(p: NonceMap, chain: Chain, a: Addr)
    requires chain.Nonce(a) in p && !L.TooCostly(p[chain.Nonce(a)], chain.Balance(a), chain.maxGas)
    ensures chain.Nonce(a) in DemotionOf(p, chain, a).kept
  {
    hide L.TooCostly, L.AffordablePrefix, L.Invalidated, L.Unaffordable, HashesOf;
    PrefixMember(From(p, chain.Nonce(a)), chain, a, chain.Nonce(a));
  }

  /** Next nonces with nothing pending are the chain's, before the cuts of a reorganisation after a reset. */
  lemma {:induction false} ReorgIdle(s: Pool, r: Pool, chain: Chain, locals: set<Addr>, lim: Limits, g: Stages, a: Addr)
    requires Reorganised(s, map[], r, chain, locals, lim, s.queue.Keys, true, g) && a !in g.demoted.pending
    ensures NextNonce(g.nonces, chain, a) == chain.Nonce(a)
  {
    hide Inv, Promoted, PendingCut, QueueCut, AfterReset, DemotedLookup;
    assert AccountAs(g.promoted, g.demoted, chain, a, a in g.promoted.pending.Keys);
    ResetAccount(s, g.promoted, g.nonces, g.demoted, chain, locals, lim.accountQueue, a);
  }

  /** Next nonces that follow the last pending transaction, and are as they were where nothing is pending. */
  ghost predicate Refreshed(pending: AccountLists, n1: Nonces, n2: Nonces, chain: Chain)
  {
    forall a :: if a in pending then IsTail(pending[a], chain.Nonce(a), NextNonce(n2, chain, a))
                else NextNonce(n2, chain, a) == NextNonce(n1, chain, a)
  }

  lemma {:induction false} CutKeys(s: Pool, r: Pool, t: Pool, locals: set<Addr>, lim: Limits, level: nat, order: seq<Addr>, i: nat, k: nat)
    requires PendingCut(s, r, locals, lim, level) && QueueCut(r, t, locals, lim, order, i, k)
    ensures t.pending.Keys == s.pending.Keys
  {
    hide F.Total, Freed, Lowest, CutOrder, DrainedFrom, CutAt;
  }

  /** Without a reset a reorganisation keeps the pool in order. */
  lemma {:induction false} ReorgOrdered(s: Pool, n0: Nonces, r: Pool, n2: Nonces, chain: Chain, locals: set<Addr>, lim: Limits,
    accounts: set<Addr>, g: Stages)
    requires Reorganised(s, n0, r, chain, locals, lim, accounts, false, g) && Inv(s, {})
    requires Tidy(s.pending, n0, chain) && Current(s.queue, chain) && Refreshed(r.pending, g.nonces, n2, chain)
    ensures Tidy(r.pending, n2, chain) && Current(r.queue, chain)
  {
    hide Inv, Promoted, PendingCut, QueueCut, IsTail, TidyAt;
    CutKeys(g.demoted, g.levelled, r, locals, lim, g.level, g.order, g.i, g.k);
    forall a ensures TidyAt(ListOf(r.pending, a), chain.Nonce(a), NextNonce(n2, chain, a)) {
      assert TidyAt(ListOf(s.pending, a), chain.Nonce(a), NextNonce(n0, chain, a));
      ReorgTidy(s, n0, r, chain, locals, lim, accounts, g, a);
      if a !in r.pending {
        TidyTail(ListOf(g.promoted.pending, a), chain.Nonce(a), NextNonce(g.nonces, chain, a));
      }
      TidyAgain(ListOf(r.pending, a), chain.Nonce(a), NextNonce(n2, chain, a));
    }
    forall a, n | n in ListOf(r.queue, a) ensures n >= chain.Nonce(a) {
      CutQueued(g.demoted, g.levelled, r, locals, lim, g.level, g.order, g.i, g.k, a, n);
      PromotedQueued(s, n0, g.promoted, g.nonces, chain, locals, lim.accountQueue, accounts, a, n);
    }
  }

  /** What is queued after the cuts was queued before. */
  lemma {:induction false} CutQueued(s: Pool, r: Pool, t: Pool, locals: set<Addr>, lim: Limits, level: nat, order: seq<Addr>,
    i: nat, k: nat, a: Addr, n: nat)
    requires PendingCut(s, r, locals, lim, level) && QueueCut(r, t, locals, lim, order, i, k) && n in ListOf(t.queue, a)
    ensures n in ListOf(s.queue, a)
  {
    hide F.Total, Freed, F.Level, CutOrder, Rank;
  }

  /** What is queued after promotion was queued before and, where the account was treated, is not too old. */
  lemma {:induction false} PromotedQueued(s: Pool, n0: Nonces, r: Pool, n1: Nonces, chain: Chain, locals: set<Addr>, limit: nat,
    done: set<Addr>, a: Addr, n: nat)
    requires Promoted(s, n0, r, n1, chain, locals, limit, done) && n in ListOf(r.queue, a)
    ensures if a in done then n >= chain.Nonce(a) else n in ListOf(s.queue, a)
  {
    hide Promoted, L.TooCostly;
    PromotedSettled(s, n0, r, n1, chain, locals, limit, done, a);
  }

  /** What is queued after demotion was queued before, or is not too old. */
  lemma {:induction false} DemotedQueued(s: Pool, r: Pool, chain: Chain, a: Addr, n: nat)
    requires AccountAs(s, r, chain, a, a in s.pending) && n in ListOf(r.queue, a)
    ensures n in ListOf(s.queue, a) || n >= chain.Nonce(a)
  {
    hide L.TooCostly, HashesOf, L.Unaffordable;
  }

  /** In an ordered pool no list is torn: nothing queued is as old as it would have to be. */
  lemma {:induction false} NotTorn(p: NonceMap, q: NonceMap, chain: Chain, a: Addr, c: nat)
    requires forall n :: n in q ==> n >= c
    ensures !Torn(p, q, chain, a, c)
  {
    hide L.TooCostly;
  }

  /** A reset keeps the pool in order, too, whatever the new chain. */
  lemma {:induction false} ResetOrdered(s: Pool, n: Nonces, before: Chain, r: Pool, n2: Nonces, chain: Chain, locals: set<Addr>,
    lim: Limits, g: Stages)
    requires Reorganised(s, map[], r, chain, locals, lim, s.queue.Keys, true, g) && Inv(s, {})
    requires Tidy(s.pending, n, before) && Current(s.queue, before) && Refreshed(r.pending, g.nonces, n2, chain)
    ensures Tidy(r.pending, n2, chain) && Current(r.queue, chain)
  {
    hide Inv, Promoted, PendingCut, QueueCut, TidyAt, Torn, AfterReset, DemotedSoFar;
    CutKeys(g.demoted, g.levelled, r, locals, lim, g.level, g.order, g.i, g.k);
    forall a ensures TidyAt(ListOf(r.pending, a), chain.Nonce(a), NextNonce(n2, chain, a)) {
      assert TidyAt(ListOf(s.pending, a), before.Nonce(a), NextNonce(n, before, a));
      NotTorn(ListOf(s.pending, a), ListOf(s.queue, a), chain, a, before.Nonce(a));
      ReorgStraight(s, r, chain, locals, lim, g, before.Nonce(a), NextNonce(n, before, a), a);
      if a !in r.pending {
        ReorgIdle(s, r, chain, locals, lim, g, a);
      }
      TidyAgain(ListOf(r.pending, a), chain.Nonce(a), NextNonce(n2, chain, a));
    }
    forall a, k | k in ListOf(r.queue, a) ensures k >= chain.Nonce(a) {
      ResetQueued(s, r, chain, locals, lim, g, a, k);
    }
  }

  /** After a reset nothing queued is too old, whatever was queued before. */
  lemma {:induction false} ResetQueued(s: Pool, r: Pool, chain: Chain, locals: set<Addr>, lim: Limits, g: Stages, a: Addr, n: nat)
    requires Reorganised(s, map[], r, chain, locals, lim, s.queue.Keys, true, g) && n in ListOf(r.queue, a)
    ensures n >= chain.Nonce(a)
  {
    hide Inv, Promoted, PendingCut, QueueCut, DemotedLookup, AccountAs;
    CutQueued(g.demoted, g.levelled, r, locals, lim, g.level, g.order, g.i, g.k, a, n);
    assert AccountAs(g.promoted, g.demoted, chain, a, a in g.promoted.pending.Keys);
    DemotedQueued(g.promoted, g.demoted, chain, a, n);
    if n in ListOf(g.promoted.queue, a) {
      PromotedQueued(s, map[], g.promoted, g.nonces, chain, locals, lim.accountQueue, s.queue.Keys, a, n);
    }
  }

  // ---------- Coins that a block has spent ----------

  /** A queued transaction that the chain has passed leaves with a reset, and is not among those overtaken. */
  lemma {:induction false} QueuedLeaves(s: Pool, r: Pool, chain: Chain, locals: set<Addr>, lim: Limits, g: Stages, h: Hash)
    requires Reorganised(s, map[], r, chain, locals, lim, s.queue.Keys, true, g) && Inv(s, {}) && h in s.all
    requires s.all[h].nonce in ListOf(s.queue, s.all[h].from) && s.all[h].nonce < chain.Nonce(s.all[h].from)
    ensures h !in r.all && h !in Overtaken(s.pending, chain)
  {
    hide Inv, DemotedSoFar, Reorganised, LeftBut, PromotionAt, PromotedAccount, ReleaseSet, Part, Overtaken;
    var a, none: Nonces := s.all[h].from, map[];
    ReorgShrinks(s, none, r, chain, locals, lim, s.queue.Keys, true, g);
    ListedAs(s, {}, h);
    GoneOld(ListOf(s.queue, a), chain, a, NextNonce(none, chain, a), LimitOf(locals, lim.accountQueue, a), s.all[h].nonce);
    GoneIn(s, none, chain, locals, lim.accountQueue, s.queue.Keys, a, h);
    if h in Overtaken(s.pending, chain) {
      OvertakenPending(s, chain, h);
      ListsDisjoint(s, a);
    }
  }

  lemma {:induction false} GoneIn(s: Pool, nonces: Nonces, chain: Chain, locals: set<Addr>, limit: nat, done: set<Addr>, a: Addr, h: Hash)
    requires a in done
    requires h in PromotionOf(ListOf(s.queue, a), chain, a, NextNonce(nonces, chain, a), LimitOf(locals, limit, a)).gone
    ensures h in GoneBy(s, nonces, chain, locals, limit, done)
  {
    hide PromotionOf;
    assert h in PromotionAt(s, nonces, chain, locals, limit, a).gone;
  }

  lemma {:induction false} GoneOld(q: NonceMap, chain: Chain, a: Addr, next: nat, limit: Option<nat>, n: nat)
    requires n in q && n < chain.Nonce(a)
    ensures q[n].hash in PromotionOf(q, chain, a, next, limit).gone
  {
    hide S.ReadyRun, L.TooCostly, Rank;
    ReadyPart(Payable(q, chain, a), next);
  }

  lemma {:induction false} OvertakenPending(s: Pool, chain: Chain, h: Hash)
    requires Inv(s, {}) && h in Overtaken(s.pending, chain)
    ensures h in s.all && s.all[h].nonce in ListOf(s.pending, s.all[h].from)
  {
    hide Inv;
    var a, n :| a in s.pending && n in s.pending[a] && n < chain.Nonce(a) && s.pending[a][n].hash == h;
    ListFiled(s, {}, a);
    assert FiledAs(ListOf(s.pending, a)[n], a, n, s.all);
  }

  /** What promotion drops does not come back in a reorganisation. */
  lemma {:induction false} ReorgShrinks(s: Pool, n0: Nonces, r: Pool, chain: Chain, locals: set<Addr>, lim: Limits,
    accounts: set<Addr>, reset: bool, g: Stages)
    requires Reorganised(s, n0, r, chain, locals, lim, accounts, reset, g)
    ensures r.all.Keys !! GoneBy(s, n0, chain, locals, lim.accountQueue, accounts)
  {
    hide Inv, PromotedAccount, DemotedLists, SpentBy, DroppedBy, ReleaseSet, Part, GoneBy, F.Total, F.Level, CutOrder, DrainedFrom, CutAt;
  }

  /** After a reset, a coin that a block has spent can be spent again if and only if some transaction that claims it
      has left without having been pending at a nonce the chain has passed. A transfer that was still queued when its
      block came is one. */
  lemma {:induction false} SpentAfterReset(s: Pool, r: Pool, chain: Chain, locals: set<Addr>, lim: Limits, g: Stages, k: Hash)
    requires Reorganised(s, map[], r, chain, locals, lim, s.queue.Keys, true, g) && Inv(s, {})
    requires k in s.cmdb && s.cmdb[k].spent
    ensures H.Spendable(r.cmdb, k) <==> GivenBack(s, r, Overtaken(s.pending, chain), k)
    ensures (exists h :: h in s.all && Claim(s.all[h]) == k && s.all[h].nonce in ListOf(s.queue, s.all[h].from)
                         && s.all[h].nonce < chain.Nonce(s.all[h].from)) ==> H.Spendable(r.cmdb, k)
  {
    hide Inv, Reorganised, LeftBut, Overtaken;
    ReorgLeaves(s, map[], r, chain, locals, lim, s.queue.Keys, true, g);
    EntryExact(s, r, Overtaken(s.pending, chain), k);
    if h :| h in s.all && Claim(s.all[h]) == k && s.all[h].nonce in ListOf(s.queue, s.all[h].from)
            && s.all[h].nonce < chain.Nonce(s.all[h].from) {
      QueuedLeaves(s, r, chain, locals, lim, g, h);
    }
  }
}
