/**
 The transaction pool. Each operation states its whole effect on the lists, the lookup and the
 commitment database, and keeps the invariant of the pool state machine.
 */
module TxPool {
  import opened Common
  import opened Transactions
  import opened PoolState
  import opened PoolSteps
  import opened PoolPromotion
  import opened PoolOrder
  import opened PoolReorg
  import opened PoolRuns
  import F = Fairness
  import Heap
  import S = SortedMap
  import L = TxList
  import P = PricedList

  datatype Error = AlreadyKnown | InvalidCommitment | InvalidProof | Underpriced | ReplaceUnderpriced | Invalid(reason: Reason)

  datatype Reason = OversizedData | GasLimit | InvalidSender | NonceTooLow | GasOverflow

  /** What the pool is told about a transaction: whether its signature or its proofs hold, whether its sender can be
      recovered, and its intrinsic gas, if that does not overflow. */
  datatype Checks = Checks(proofs: bool, sender: bool, intrinsicGas: Option<nat>)

  /** validateTx. Neither price nor funds are looked at, and gas below the intrinsic gas is no reason to refuse. */
  function ValidateTx(tx: Tx, chain: Chain, checks: Checks): (r: Option<Reason>)
    ensures r.None? ==> tx.Slots() <= 2
    ensures r.None? <==>
              && tx.size <= 64 * 1024 && tx.gas <= chain.maxGas && checks.sender && tx.nonce >= chain.Nonce(tx.from)
              && checks.intrinsicGas.Some?
    ensures r == Some(OversizedData) <==> tx.size > 64 * 1024
    ensures r == Some(GasLimit) <==> tx.size <= 64 * 1024 && tx.gas > chain.maxGas
    ensures r == Some(GasOverflow) ==> checks.intrinsicGas.None? && checks.sender && tx.nonce >= chain.Nonce(tx.from)
    ensures r == Some(NonceTooLow) ==> tx.nonce < chain.Nonce(tx.from) && checks.sender
    ensures r == Some(InvalidSender) ==> !checks.sender
  {
    if tx.size > TX_MAX_SIZE then Some(OversizedData)
    else if chain.maxGas < tx.gas then Some(GasLimit)
    else if !checks.sender then Some(InvalidSender)
    else if chain.Nonce(tx.from) > tx.nonce then Some(NonceTooLow)
    else if checks.intrinsicGas.None? then Some(GasOverflow)
    else None
  }

  class TxPool {
    const accountSlots: nat
    const globalSlots: nat
    const accountQueue: nat
    const globalQueue: nat
    const priceBump: nat

    var pending: AccountLists
    var queue: AccountLists
    var all: Lookup
    var slots: int
    var cmdb: CMdb
    var locals: set<Addr>
    var pendingNonces: map<Addr, nat>
    var chain: Chain
    const priced: P.TxPricedList
    ghost var unpriced: set<Hash>

    ghost function State(): Pool
      reads this
    {
      Pool(pending, queue, all, slots, cmdb)
    }

    /** The pool with the given transactions in limbo. */
    ghost predicate ValidWith(limbo: set<Hash>)
      reads this, priced
    {
      Inv(State(), limbo) && priced.Valid() && Priced(priced.items, all, unpriced)
    }

    ghost predicate Valid()
      reads this, priced
    {
      && ValidWith({})
      && unpriced == {}
      && NoEmpty(pending) && NoEmpty(queue)
      && accountSlots >= 1
    }

    /** No pooled transaction is in the price heap twice. */
    ghost predicate Single()
      reads this, priced
    {
      OnceEach(priced.items, all)
    }

    /** Every pending list runs without a gap from the account's nonce to its next nonce, and nothing queued is older. */
    ghost predicate Ordered()
      reads this
    {
      Tidy(pending, pendingNonces, chain) && Current(queue, chain)
    }

    /** The commitments claimed by pooled transactions are pairwise distinct and locked. */
    ghost predicate LocksHeld()
      reads this
    {
      ClaimsLocked(all, cmdb)
    }

    /** A fresh pool, with unworkable limits replaced by their defaults. */
    constructor (accountSlots: nat, globalSlots: nat, accountQueue: nat, globalQueue: nat, priceBump: nat,
        cmdb: CMdb, chain: Chain)
      ensures Valid() && Ordered() && Single() && LocksHeld() && fresh(priced)
      ensures State() == EMPTY_POOL.(cmdb := cmdb) && this.chain == chain && locals == {}
      ensures this.accountSlots == (if accountSlots >= 1 then accountSlots else 16)
      ensures this.globalSlots == (if globalSlots >= 1 then globalSlots else 4096)
      ensures this.accountQueue == (if accountQueue >= 1 then accountQueue else 64)
      ensures this.globalQueue == (if globalQueue >= 1 then globalQueue else 1024)
      ensures this.priceBump == (if priceBump >= 1 then priceBump else 10)
    {
      hide Inv, Priced, OnceEach, NoEmpty, Tidy, Current, ClaimsLocked;
      this.accountSlots := if accountSlots < 1 then 16 else accountSlots;
      this.globalSlots := if globalSlots < 1 then 4096 else globalSlots;
      this.accountQueue := if accountQueue < 1 then 64 else accountQueue;
      this.globalQueue := if globalQueue < 1 then 1024 else globalQueue;
      this.priceBump := if priceBump < 1 then 10 else priceBump;
      pending, queue, all, slots, this.cmdb, locals, pendingNonces := map[], map[], map[], 0, cmdb, {}, map[];
      this.chain := chain;
      priced := new P.TxPricedList();
      unpriced := {};
      new;
      EmptyPoolInv(cmdb);
      EmptyLocked(cmdb);
      EmptyOrdered(chain);
    }

    function PendingNonce(a: Addr): nat
      reads this
    {
      NextNonce(pendingNonces, chain, a)
    }

    // ---------- Small steps ----------

    /** all.Remove, after reorgCM when the commitment is given back. */
    method Drop(h: Hash, release: bool, ghost limbo: set<Hash>)
      requires ValidWith(limbo) && h in limbo && h in all
      modifies this`all, this`slots, this`cmdb
      ensures ValidWith(limbo - {h}) && State() == Forget(old(State()), h, release)
      ensures old(Single()) ==> Single()
    {
      hide Inv;
      ForgetKeeps(State(), limbo, h, release);
      if Single() {
        OnceEachLess(priced.items, all, all - {h});
      }
      if release {
        cmdb := Released(cmdb, all[h]);
      }
      slots := slots - all[h].Slots();
      all := all - {h};
    }

    /** priced.Removed */
    method MarkRemoved(count: nat)
      requires priced.Valid() && Priced(priced.items, all, unpriced) && Keyed(all)
      modifies priced
      ensures priced.Valid() && Priced(priced.items, all, unpriced)
      ensures forall t :: t in priced.items ==> t in old(priced.items) || t.hash in all
      ensures old(Single()) ==> Single()
    {
      ghost var reheaped := priced.stales + count > |priced.items| / 4;
      priced.Removed(count, all);
      if reheaped {
        Reheaped(priced.items, all, unpriced);
        OnceEachRebuilt(priced.items, all);
      }
    }

    /** Drop every transaction of m, all of which are in limbo. */
    method DropAll(m: NonceMap, release: bool, ghost limbo: set<Hash>)
      requires ValidWith(limbo) && InLimbo(m, State(), limbo)
      modifies this`all, this`slots, this`cmdb
      ensures ValidWith(limbo - HashesOf(m))
      ensures all == old(all) - HashesOf(m)
      ensures cmdb == if release then ReleaseSet(old(cmdb), Part(old(all), HashesOf(m))) else old(cmdb)
      ensures old(Single()) ==> Single()
    {
      hide Inv, Priced, OnceEach, ReleaseSet, Part, InLimbo, HashesOf;
      var rest := m;
      ghost var lim := limbo;
      while rest != map[]
        invariant old(Single()) ==> Single()
        invariant ValidWith(lim) && InLimbo(rest, State(), lim)
        invariant all - HashesOf(rest) == old(all) - HashesOf(m) && lim - HashesOf(rest) == limbo - HashesOf(m)
        invariant release ==> ReleaseSet(cmdb, Part(all, HashesOf(rest))) == ReleaseSet(old(cmdb), Part(old(all), HashesOf(m)))
        invariant !release ==> cmdb == old(cmdb)
        decreases rest.Keys
      {
        var n :| n in rest;
        DropStep(State(), lim, rest, n, release);
        Drop(rest[n].hash, release, lim);
        lim := lim - {rest[n].hash};
        rest := rest - {n};
      }
      DroppedNone(cmdb, all);
      assert all - {} == all && lim - {} == lim;
    }

    /** A transaction leaves the lookup: reorgCM, all.Remove and, unless it left the price heap already,
        priced.Removed. */
    method Unpool(u: Tx, outofbound: bool)
      requires priced.Valid() && Priced(priced.items, all, unpriced) && Keyed(all) && u.hash in all && all[u.hash] == u
      modifies this`all, this`slots, this`cmdb, priced
      ensures priced.Valid() && Priced(priced.items, all, unpriced)
      ensures all == old(all) - {u.hash} && slots == old(slots) - u.Slots() && cmdb == Released(old(cmdb), u)
      ensures forall t :: t in priced.items ==> t in old(priced.items) || t.hash in all
      ensures !outofbound ==> priced.items == old(priced.items)
      ensures old(Single()) ==> Single()
    {
      cmdb := Released(cmdb, u);
      slots := slots - u.Slots();
      PricedShrinks(priced.items, all, unpriced, u.hash);
      if Single() {
        OnceEachLess(priced.items, all, all - {u.hash});
      }
      all := all - {u.hash};
      if outofbound {
        MarkRemoved(1);
      }
    }

    /** A new transaction is registered: processCM, all.Add, priced.Put. */
    method PoolTx(tx: Tx)
      requires priced.Valid() && Priced(priced.items, all, unpriced) && tx.hash !in all
      requires forall t :: t in priced.items && t.hash == tx.hash ==> t == tx
      modifies this`all, this`slots, this`cmdb, priced
      ensures priced.Valid() && Priced(priced.items, all, unpriced)
      ensures all == old(all)[tx.hash := tx] && slots == old(slots) + tx.Slots() && cmdb == Locked(old(cmdb), tx)
      ensures old(Single()) ==> (Single() <==> tx !in old(priced.items))
      ensures multiset(priced.items) == multiset(old(priced.items)) + multiset{tx}
    {
      cmdb := Locked(cmdb, tx);
      slots := slots + tx.Slots();
      all := all[tx.hash := tx];
      priced.Put(tx);
      PricedPut(old(priced.items), priced.items, old(all), unpriced, tx);
      if old(Single()) {
        OnceEachPut(old(priced.items), priced.items, old(all), tx);
      }
    }

    /** Insert into the queue: a new transaction, or a pooled one from limbo. */
    method EnqueueTx(tx: Tx, ghost limbo: set<Hash>) returns (replaced: bool, ok: bool, ghost left: seq<Tx>)
      requires ValidWith(limbo)
      requires tx.hash in all ==> tx.hash in limbo && all[tx.hash] == tx
      requires tx.hash !in all ==> Admissible(State(), limbo, tx, false) && forall t :: t in priced.items && t.hash == tx.hash ==> t == tx
      modifies this`queue, this`all, this`slots, this`cmdb, priced
      ensures tx.hash in old(all) ==> ok && !replaced && State() == Requeue(old(State()), tx.hash) && ValidWith(limbo - {tx.hash})
      ensures tx.hash in old(all) ==> priced.items == old(priced.items)
      ensures tx.hash !in old(all) ==> ValidWith(limbo) && ok == L.Accepts(ListOf(old(queue), tx.from), tx, priceBump)
      ensures tx.hash !in old(all) ==> replaced == (ok && tx.nonce in ListOf(old(queue), tx.from))
      ensures tx.hash !in old(all) && tx.nonce in ListOf(old(queue), tx.from) ==>
                var price := ListOf(old(queue), tx.from)[tx.nonce].price;
                ok <==> price < tx.price && price * (100 + priceBump) < 100 * (tx.price + 1)
      ensures tx.hash !in old(all) ==> State() == if ok then Entered(old(State()), tx, false) else old(State())
      ensures !ok || tx.hash in old(all) ==> (old(Single()) ==> Single())
      ensures ok && tx.hash !in old(all) ==> HeapBefore(old(priced.items), left, priced.items, tx, replaced)
      ensures ok && tx.hash !in old(all) && old(Single()) ==> (Single() <==> tx !in left)
    {
      hide Inv, Priced, OnceEach, Admissible, L.Replaces, Released, Locked, Tx.Slots;
      ghost var s := State();
      left := priced.items;
      var list := ListOf(queue, tx.from);
      L.AcceptsExact(list, tx, priceBump);
      if tx.hash in all {
        LimboFree(s, limbo, tx.hash);
        RequeueKeeps(s, limbo, tx.hash);
      }
      if !L.Accepts(list, tx, priceBump) {
        return false, false, left;
      }
      if tx.hash !in all {
        EnteredKeeps(s, limbo, tx, false);
        ReplacedIn(s.queue, tx);
      }
      queue := Into(queue, tx);
      if tx.nonce in list {
        ReplacedPooled(s, limbo, tx);
        Unpool(list[tx.nonce], true);
      }
      left := priced.items;
      if tx.hash !in all {
        PoolTx(tx);
      }
      return tx.nonce in list, true, left;
    }

    /** Requeue every transaction of m, all of them of one account and in limbo. */
    method RequeueAll(a: Addr, m: NonceMap, ghost limbo: set<Hash>)
      requires ValidWith(limbo) && InLimbo(m, State(), limbo) && forall n :: n in m ==> m[n].from == a
      modifies this`queue, this`all, this`slots, this`cmdb, priced
      ensures ValidWith(limbo - HashesOf(m))
      ensures State() == old(State()).(queue := AddAll(old(queue), a, m)) && priced.items == old(priced.items)
      ensures old(Single()) ==> Single()
    {
      hide Inv, Priced, OnceEach, Admissible, HashesOf, Into, AddAll, InLimbo;
      var rest := m;
      ghost var lim := limbo;
      while rest != map[]
        invariant old(Single()) ==> Single()
        invariant ValidWith(lim) && InLimbo(rest, State(), lim) && forall n :: n in rest ==> n in m && rest[n] == m[n]
        invariant lim - HashesOf(rest) == limbo - HashesOf(m)
        invariant AddAll(queue, a, rest) == AddAll(old(queue), a, m)
        invariant State() == old(State()).(queue := queue) && priced.items == old(priced.items)
        decreases rest.Keys
      {
        var n :| n in rest;
        InLimboAt(rest, State(), lim, n);
        RequeueStep(State(), lim, rest, n);
        AddStep(queue, a, rest, n);
        var _, _, _ := EnqueueTx(rest[n], lim);
        lim := lim - {rest[n].hash};
        rest := rest - {n};
      }
      RequeuedNone(queue, a);
      assert lim - {} == lim;
    }

    /** removeTx: drop one transaction and send what followed it in the pending list back to the queue. */
    method RemoveTx(h: Hash, outofbound: bool)
      requires ValidWith({}) && NoEmpty(pending) && NoEmpty(queue)
      modifies this`pending, this`queue, this`all, this`slots, this`cmdb, this`pendingNonces, priced
      ensures ValidWith({}) && NoEmpty(pending) && NoEmpty(queue) && State() == Without(old(State()), h)
      ensures !outofbound ==> priced.items == old(priced.items)
      ensures pendingNonces == NoncesWithout(old(State()), old(pendingNonces), chain, h)
      ensures Reaches(Config(old(State()), {}), Config(State(), {})) && (old(Ordered()) ==> Ordered()) && (old(LocksHeld()) ==> LocksHeld())
      ensures PoolStep(old(State()), State())
      ensures old(Single()) ==> Single()
    {
      hide Inv, Priced, OnceEach, NoEmpty, Without, NoncesWithout, Reaches, PricesKept, Tidy, Current, ClaimsLocked, Freed;
      ghost var s, n0 := State(), pendingNonces;
      TakeOut(h, outofbound);
      WithoutNoEmpty(s, h);
      FreedNone(s);
      WithoutFreed(s, s, h);
      FreedReached(s, State());
      LostOnly(s, State());
      if old(LocksHeld()) {
        ReachLocks(Config(s, {}), Config(State(), {}));
      }
      if old(Ordered()) {
        TidyWithout(s, n0, chain, h);
        CurrentWithout(s, n0, chain, h);
      }
    }

    /** The statements of removeTx. */
    method TakeOut(h: Hash, outofbound: bool)
      requires ValidWith({})
      modifies this`pending, this`queue, this`all, this`slots, this`cmdb, this`pendingNonces, priced
      ensures ValidWith({}) && State() == Without(old(State()), h)
      ensures !outofbound ==> priced.items == old(priced.items)
      ensures pendingNonces == NoncesWithout(old(State()), old(pendingNonces), chain, h)
      ensures old(Single()) ==> Single()
    {
      hide Inv, Priced, OnceEach, Released, AddAll, HashesOf, Below, L.Above, InLimbo, Tx.Slots, SetList;
      if h !in all {
        return;
      }
      ghost var s := State();
      var t := all[h];
      var a := t.from;
      ListedAs(s, {}, h);
      InvKeyed(s, {});
      Unpool(t, outofbound);
      var p := ListOf(pending, a);
      if t.nonce in p {
        RemovedPending(s, h);
        pending := SetList(pending, a, Below(p, t.nonce));
        var above := L.Above(p, t.nonce);
        ghost var limbo := HashesOf(above);
        RequeueAll(a, above, limbo);
        assert limbo - limbo == {};
        pendingNonces := Lowered(pendingNonces, chain, a, t.nonce);
        return;
      }
      RemovedQueued(s, h);
      queue := SetList(queue, a, ListOf(queue, a) - {t.nonce});
    }

    /** Drop the cheapest remote transactions until room is free for the slots needed. */
    method MakeRoom(needed: nat) returns (drop: seq<Tx>)
      requires Valid()
      modifies this`pending, this`queue, this`all, this`slots, this`cmdb, this`pendingNonces, this`unpriced, priced
      ensures Valid() && State() == WithoutAll(old(State()), HashSeq(drop))
      ensures Dropped(old(all), all, drop)
      ensures pendingNonces == NoncesWithoutAll(old(State()), old(pendingNonces), chain, HashSeq(drop))
      ensures Displaced(old(all), locals, drop, needed) && Freed(old(State()), State())
      ensures slots == old(slots) - SumSlots(Part(old(all), HashSet(drop)))
      ensures old(Single()) ==> slots <= old(slots) - needed || forall h :: h in all ==> all[h].from in locals
      ensures forall t :: t in priced.items ==> t in old(priced.items)
      ensures old(Single()) ==> Single()
    {
      hide Inv, Priced, Pooled, P.Without, WithoutAll, Without, NoncesWithoutAll, NoEmpty, HashSet, Displaced, OnceEach, SumSlots, Part, Freed;
      ghost var s, items := State(), priced.items;
      drop := TakeCheapest(needed);
      DisplacedPooled(all, locals, drop, needed);
      ghost var left := priced.items;
      RemoveDiscarded(drop);
      SlotsFreed(s, State(), HashSet(drop));
      if OnceEach(items, s.all) {
        RoomMade(s, State(), items, left, locals, drop, needed);
      }
    }

    /** Discard on the price heap alone. */
    method TakeCheapest(needed: nat) returns (drop: seq<Tx>)
      requires Valid()
      modifies this`unpriced, priced
      ensures ValidWith({}) && unpriced == HashSet(drop) && Displaced(all, locals, drop, needed)
      ensures P.Without(priced.items, old(priced.items), multiset(drop), all)
      ensures forall t :: t in priced.items ==> t in old(priced.items)
      ensures old(Single()) ==> Single()
    {
      hide Inv, Priced, P.Without, NoEmpty, HashSet, PriceKey, P.SlotsOf, Heap.Leq, OnceEach;
      drop := priced.Discard(needed, all, locals);
      InvKeyed(State(), {});
      PricedWithout(old(priced.items), priced.items, drop, all);
      if old(Single()) {
        OnceEachStill(old(priced.items), priced.items, drop, all);
      }
      unpriced := HashSet(drop);
    }

    /** Remove what has been discarded from the price heap already. */
    method RemoveDiscarded(drop: seq<Tx>)
      requires ValidWith({}) && NoEmpty(pending) && NoEmpty(queue) && unpriced == HashSet(drop) && accountSlots >= 1
      modifies this`pending, this`queue, this`all, this`slots, this`cmdb, this`pendingNonces, this`unpriced, priced
      ensures Valid() && State() == WithoutAll(old(State()), HashSeq(drop)) && priced.items == old(priced.items)
      ensures all == old(all) - HashSet(drop) && Freed(old(State()), State())
      ensures pendingNonces == NoncesWithoutAll(old(State()), old(pendingNonces), chain, HashSeq(drop))
      ensures old(Single()) ==> Single()
    {
      hide Inv, Priced, OnceEach, WithoutAll, Without, NoncesWithout, NoncesWithoutAll, NoEmpty, HashSet, Freed, Reaches,
          PricesKept, Tidy, Current, ClaimsLocked;
      WithoutNone(State(), drop);
      NoncesNone(State(), pendingNonces, chain, HashSeq(drop));
      FreedNone(State());
      for i := 0 to |drop|
        invariant old(Single()) ==> Single()
        invariant ValidWith({}) && NoEmpty(pending) && NoEmpty(queue) && priced.items == old(priced.items) && unpriced == HashSet(drop)
        invariant State() == WithoutAll(old(State()), HashSeq(drop)[..i])
        invariant all == old(all) - HashSet(drop[..i]) && Freed(old(State()), State())
        invariant pendingNonces == NoncesWithoutAll(old(State()), old(pendingNonces), chain, HashSeq(drop)[..i])
      {
        WithoutStep(old(State()), HashSeq(drop), i);
        NoncesStep(old(State()), old(pendingNonces), chain, HashSeq(drop), i);
        WithoutFreed(old(State()), State(), drop[i].hash);
        WithoutLookup(State(), drop[i].hash);
        HashSetStep(drop, i);
        RemoveTx(drop[i].hash, false);
      }
      assert drop[..|drop|] == drop && HashSeq(drop)[..|drop|] == HashSeq(drop);
      PricedAgain(priced.items, all, unpriced);
      unpriced := {};
    }

    /** Raise the price floor: every remote transaction below it is removed, and afterwards none is left. */
    method SetGasPrice(price: nat) returns (drop: seq<Tx>)
      requires Valid()
      modifies this`pending, this`queue, this`all, this`slots, this`cmdb, this`pendingNonces, this`unpriced, priced
      ensures Valid() && State() == WithoutAll(old(State()), HashSeq(drop))
      ensures forall t :: t in drop ==> t.hash in old(all) && old(all)[t.hash] == t && t.from !in locals && t.price < price
      ensures forall h :: h in all ==> h in old(all) && all[h] == old(all)[h] && (all[h].from in locals || all[h].price >= price)
      ensures pendingNonces == NoncesWithoutAll(old(State()), old(pendingNonces), chain, HashSeq(drop))
      ensures Reaches(Config(old(State()), {}), Config(State(), {})) && (old(Ordered()) ==> Ordered()) && (old(LocksHeld()) ==> LocksHeld())
      ensures PoolStep(old(State()), State())
      ensures old(Single()) ==> Single()
    {
      hide Inv, Priced, OnceEach, P.Without, WithoutAll, NoncesWithoutAll, NoEmpty, HashSet, Freed, Reaches, PricesKept, Tidy, Current, ClaimsLocked;
      ghost var s, n0 := State(), pendingNonces;
      drop := priced.Cap(price, all, locals);
      InvKeyed(State(), {});
      PricedWithout(old(priced.items), priced.items, drop, all);
      if old(Single()) {
        OnceEachStill(old(priced.items), priced.items, drop, all);
      }
      unpriced := HashSet(drop);
      RemoveDiscarded(drop);
      FreedReached(s, State());
      LostOnly(s, State());
      if old(LocksHeld()) {
        ReachLocks(Config(s, {}), Config(State(), {}));
      }
      if old(Ordered()) {
        TidyWithoutAll(s, n0, chain, HashSeq(drop));
      }
    }

    method IsUnderpriced(tx: Tx) returns (under: bool)
      requires Valid()
      modifies priced
      ensures Valid() && (forall t :: t in priced.items ==> t in old(priced.items))
      ensures old(Single()) ==> Single()
      ensures under <==> tx.from !in locals && all != map[] && forall h :: h in all ==> tx.price <= all[h].price
    {
      hide Inv, Priced, OnceEach, P.Without, NoEmpty;
      InvKeyed(State(), {});
      CheapestPooled(priced.items, all, tx.price);
      under := priced.Underpriced(tx, all, locals);
      ghost var drop: seq<Tx> := [];
      assert multiset(drop) == multiset{} && HashSet(drop) == {};
      PricedWithout(old(priced.items), priced.items, drop, all);
      if old(Single()) {
        OnceEachStill(old(priced.items), priced.items, drop, all);
      }
    }

    /** The part of add that makes room in a full pool, or refuses the transaction as underpriced. */
    method Room(tx: Tx, local: bool) returns (under: bool, drop: seq<Tx>)
      requires Valid()
      modifies this`pending, this`queue, this`all, this`slots, this`cmdb, this`pendingNonces, this`unpriced, priced
      ensures Valid() && State() == WithoutAll(old(State()), HashSeq(drop)) && Freed(old(State()), State())
      ensures Dropped(old(all), all, drop)
      ensures forall t :: t in priced.items ==> t in old(priced.items)
      ensures pendingNonces == NoncesWithoutAll(old(State()), old(pendingNonces), chain, HashSeq(drop))
      ensures slots == old(slots) - SumSlots(Part(old(all), HashSet(drop)))
      ensures under <==>
                && |old(all)| >= globalSlots + globalQueue && !local && tx.from !in locals
                && old(all) != map[] && forall h :: h in old(all) ==> tx.price <= old(all)[h].price
      ensures under || |old(all)| < globalSlots + globalQueue ==> drop == [] && State() == old(State()) && pendingNonces == old(pendingNonces)
      ensures |old(all)| < globalSlots + globalQueue ==> priced.items == old(priced.items)
      ensures old(Single()) ==> Single()
      ensures |old(all)| >= globalSlots + globalQueue && !under ==>
                && Displaced(old(all), locals, drop, old(slots) - (globalSlots + globalQueue) + tx.Slots())
                && (old(Single()) ==>
                      slots + tx.Slots() <= globalSlots + globalQueue || forall h :: h in all ==> all[h].from in locals)
    {
      hide Inv, Priced, Dropped, WithoutAll, NoncesWithoutAll, NoEmpty, Displaced, Tx.Slots, HashSeq, HashSet, Freed, OnceEach, SumSlots, Part;
      under, drop := false, [];
      ghost var items := priced.items;
      WithoutEmpty(State(), pendingNonces, chain);
      NothingCounted(all);
      NothingDropped(all);
      FreedNone(State());
      if |all| < globalSlots + globalQueue {
        return;
      }
      if !local {
        under := IsUnderpriced(tx);
        if under {
          return;
        }
      }
      RoomNeeded(State(), tx, globalSlots + globalQueue);
      drop := MakeRoom(slots - (globalSlots + globalQueue) + tx.Slots());
    }

    /** The part of add that replaces a pending transaction of the same nonce. */
    method ReplacePending(tx: Tx) returns (ok: bool, ghost left: seq<Tx>)
      requires ValidWith({}) && NoEmpty(pending) && tx.nonce in ListOf(pending, tx.from)
      requires Admissible(State(), {}, tx, true) && forall t :: t in priced.items && t.hash == tx.hash ==> t == tx
      modifies this`pending, this`all, this`slots, this`cmdb, priced
      ensures ValidWith({}) && NoEmpty(pending)
      ensures ok == L.Accepts(ListOf(old(pending), tx.from), tx, priceBump)
      ensures var price := ListOf(old(pending), tx.from)[tx.nonce].price;
              ok <==> price < tx.price && price * (100 + priceBump) < 100 * (tx.price + 1)
      ensures State() == if ok then Entered(old(State()), tx, true) else old(State())
      ensures !ok ==> (old(Single()) ==> Single())
      ensures ok ==> HeapBefore(old(priced.items), left, priced.items, tx, true)
      ensures ok && old(Single()) ==> (Single() <==> tx !in left)
    {
      hide Inv, Priced, OnceEach, L.Replaces, Released, Locked, Tx.Slots, NoEmpty, Entered, Into, Admissible;
      ghost var s := State();
      var list := ListOf(pending, tx.from);
      L.AcceptsExact(list, tx, priceBump);
      if !L.Accepts(list, tx, priceBump) {
        return false, priced.items;
      }
      EnteredKeeps(s, {}, tx, true);
      AdmissibleNew(s, {}, tx, true);
      ListFiled(s, {}, tx.from);
      InvKeyed(s, {});
      EnteredIs(s, tx, true);
      IntoNoEmpty(pending, tx);
      pending := Into(pending, tx);
      Unpool(list[tx.nonce], true);
      left := priced.items;
      PoolTx(tx);
      return true, left;
    }

    /** The part of add that files the transaction, in place of a pending one or into the queue. */
    method Insert(tx: Tx, local: bool) returns (replaced: bool, ok: bool, ghost left: seq<Tx>)
      requires Valid() && forall t :: t in priced.items && t.hash == tx.hash ==> t == tx
      requires Admissible(State(), {}, tx, tx.nonce in ListOf(pending, tx.from))
      modifies this`pending, this`queue, this`all, this`slots, this`cmdb, this`locals, priced
      ensures Valid()
      ensures var asPending := tx.nonce in ListOf(old(pending), tx.from);
              var list := ListOf(if asPending then old(pending) else old(queue), tx.from);
              && ok == L.Accepts(list, tx, priceBump)
              && State() == (if ok then Entered(old(State()), tx, asPending) else old(State()))
              && replaced == (ok && tx.nonce in list)
              && locals == if ok && local && !asPending then old(locals) + {tx.from} else old(locals)
      ensures !ok ==> (old(Single()) ==> Single())
      ensures ok ==> HeapBefore(old(priced.items), left, priced.items, tx, replaced)
      ensures ok && old(Single()) ==> (Single() <==> tx !in left)
    {
      hide Inv, Priced, L.Replaces, Entered, NoEmpty, OnceEach;
      AdmissibleNew(State(), {}, tx, tx.nonce in ListOf(pending, tx.from));
      EnteredNoEmpty(State(), tx, tx.nonce in ListOf(pending, tx.from));
      if tx.nonce in ListOf(pending, tx.from) {
        ok, left := ReplacePending(tx);
        replaced := ok;
        return;
      }
      replaced, ok, left := EnqueueTx(tx, {});
      if ok && local {
        locals := locals + {tx.from};
      }
    }

    /** The transaction is new and passes validateCM, its signature or proofs and validateTx. */
    predicate Passes(tx: Tx, checks: Checks)
      reads this
    {
      tx.hash !in all && ValidCM(cmdb, tx) && checks.proofs && ValidateTx(tx, chain, checks).None?
    }

    /** The part of add after the checks: make room, then file the transaction. */
    method Enter(tx: Tx, local: bool) returns (replaced: bool, err: Option<Error>, drop: seq<Tx>, ghost left: seq<Tx>)
      requires Valid() && forall t :: t in priced.items && t.hash == tx.hash ==> t == tx
      requires tx.hash !in all && ValidCM(cmdb, tx) && tx.nonce >= chain.Nonce(tx.from)
      modifies this`pending, this`queue, this`all, this`slots, this`cmdb, this`locals, this`pendingNonces, this`unpriced, priced
      ensures Valid() && (err.None? || err == Some(Underpriced) || err == Some(ReplaceUnderpriced))
      ensures err == Some(Underpriced) <==>
                && |old(all)| >= globalSlots + globalQueue && !local && tx.from !in old(locals)
                && old(all) != map[] && forall h :: h in old(all) ==> tx.price <= old(all)[h].price
      ensures err.Some? && err != Some(ReplaceUnderpriced) ==>
                drop == [] && State() == old(State()) && pendingNonces == old(pendingNonces)
      ensures err.None? || err == Some(ReplaceUnderpriced) ==>
                var room := WithoutAll(old(State()), HashSeq(drop));
                var asPending := tx.nonce in ListOf(room.pending, tx.from);
                var list := ListOf(if asPending then room.pending else room.queue, tx.from);
                && (err.None? <==> L.Accepts(list, tx, priceBump)) && (tx.nonce !in list ==> err.None?)
                && (tx.nonce in list ==> (err.None? <==> L.Outbids(list[tx.nonce].price, tx.price, priceBump)))
                && State() == (if err.None? then Entered(room, tx, asPending) else room)
                && replaced == (err.None? && tx.nonce in list)
                && locals == (if err.None? && local && !asPending then old(locals) + {tx.from} else old(locals))
                && pendingNonces == NoncesWithoutAll(old(State()), old(pendingNonces), chain, HashSeq(drop))
                && room.slots == old(slots) - SumSlots(Part(old(all), HashSet(drop)))
                && PoolStep(old(State()), room) && PoolStep(room, State())
      ensures err.Some? ==> !replaced && locals == old(locals)
      ensures err.None? ==> (PricesKept(old(State()), State()) <==> NoneDearer(drop, tx))
      ensures |old(all)| < globalSlots + globalQueue ==> drop == []
      ensures |old(all)| >= globalSlots + globalQueue && (err.None? || err == Some(ReplaceUnderpriced)) ==>
                Displaced(old(all), old(locals), drop, old(slots) - (globalSlots + globalQueue) + tx.Slots())
      ensures |old(all)| >= globalSlots + globalQueue && err.None? && old(Single()) ==>
                slots <= globalSlots + globalQueue || forall h :: h in all ==> h == tx.hash || all[h].from in old(locals)
      ensures err.Some? ==> (old(Single()) ==> Single())
      ensures err.None? ==> HeapBefore(old(priced.items), left, priced.items, tx, replaced || |old(all)| >= globalSlots + globalQueue)
      ensures err.None? && old(Single()) ==> (Single() <==> tx !in left)
      ensures Reaches(Config(old(State()), {}), Config(State(), {})) && (old(Ordered()) ==> Ordered()) && (old(LocksHeld()) ==> LocksHeld())
    {
      hide Inv, Priced, Dropped, NoneDearer, L.Accepts, L.Outbids, PoolStep, L.Replaces, WithoutAll, NoncesWithoutAll,
          Admissible, Entered, ValidCM, ValidateTx, NoEmpty, Displaced,
          Tx.Slots, HashSeq, HashSet, Freed, OnceEach, SumSlots, Part, Reaches, PricesKept, Tidy, Current, ClaimsLocked;
      left := priced.items;
      ghost var s, n0 := State(), pendingNonces;
      ReachSelf(Config(s, {}));
      var under;
      under, drop := Room(tx, local);
      if under {
        return false, Some(Underpriced), drop, left;
      }
      ghost var room := State();
      ghost var asPending := tx.nonce in ListOf(pending, tx.from);
      AdmissibleAfter(s, room, tx, drop);
      RoomThenEnter(s, n0, room, chain, HashSeq(drop), tx, asPending);
      RoomPrices(s, room, tx, asPending, priceBump, drop);
      EnteredSlots(room, tx, asPending);
      OutbidsExact(ListOf(if asPending then pending else queue, tx.from), tx, priceBump);
      var ok;
      replaced, ok, left := Insert(tx, local);
      err := if ok then None else Some(ReplaceUnderpriced);
    }

    /** Validate a transaction and insert it. Making room happens before the price bump is looked at, so a
        transaction refused for its bump may still have displaced others. */
    method Add(tx: Tx, local: bool, checks: Checks)
      returns (replaced: bool, err: Option<Error>, drop: seq<Tx>, ghost left: seq<Tx>)
      requires Valid() && forall t :: t in priced.items && t.hash == tx.hash ==> t == tx
      modifies this`pending, this`queue, this`all, this`slots, this`cmdb, this`locals, this`pendingNonces, this`unpriced, priced
      ensures Valid()
      ensures err == Some(AlreadyKnown) <==> tx.hash in old(all)
      ensures err == Some(InvalidCommitment) <==> tx.hash !in old(all) && !ValidCM(old(cmdb), tx)
      ensures err == Some(InvalidProof) <==> tx.hash !in old(all) && ValidCM(old(cmdb), tx) && !checks.proofs
      ensures (err.Some? && err.value.Invalid?) <==>
                tx.hash !in old(all) && ValidCM(old(cmdb), tx) && checks.proofs && ValidateTx(tx, chain, checks).Some?
      ensures err.Some? && err.value.Invalid? ==> ValidateTx(tx, chain, checks) == Some(err.value.reason)
      ensures err == Some(Underpriced) <==>
                && old(Passes(tx, checks)) && |old(all)| >= globalSlots + globalQueue && !local && tx.from !in old(locals)
                && old(all) != map[] && forall h :: h in old(all) ==> tx.price <= old(all)[h].price
      ensures err.Some? && err != Some(ReplaceUnderpriced) ==>
                drop == [] && State() == old(State()) && pendingNonces == old(pendingNonces)
      ensures err.None? || err == Some(ReplaceUnderpriced) ==>
                var room := WithoutAll(old(State()), HashSeq(drop));
                var asPending := tx.nonce in ListOf(room.pending, tx.from);
                var list := ListOf(if asPending then room.pending else room.queue, tx.from);
                && (err.None? <==> L.Accepts(list, tx, priceBump)) && (tx.nonce !in list ==> err.None?)
                && (tx.nonce in list ==>
                      (err.None? <==> list[tx.nonce].price < tx.price && list[tx.nonce].price * (100 + priceBump) < 100 * (tx.price + 1)))
                && State() == (if err.None? then Entered(room, tx, asPending) else room)
                && replaced == (err.None? && tx.nonce in list)
                && locals == (if err.None? && local && !asPending then old(locals) + {tx.from} else old(locals))
                && pendingNonces == NoncesWithoutAll(old(State()), old(pendingNonces), chain, HashSeq(drop))
                && room.slots == old(slots) - SumSlots(Part(old(all), HashSet(drop)))
                && PoolStep(old(State()), room) && PoolStep(room, State())
      ensures err.Some? ==> !replaced && locals == old(locals)
      ensures err.None? ==> (PricesKept(old(State()), State()) <==> NoneDearer(drop, tx))
      ensures |old(all)| < globalSlots + globalQueue ==> drop == []
      ensures |old(all)| >= globalSlots + globalQueue && (err.None? || err == Some(ReplaceUnderpriced)) ==>
                Displaced(old(all), old(locals), drop, old(slots) - (globalSlots + globalQueue) + tx.Slots())
      ensures |old(all)| >= globalSlots + globalQueue && err.None? && old(Single()) ==>
                slots <= globalSlots + globalQueue || forall h :: h in all ==> h == tx.hash || all[h].from in old(locals)
      ensures err.Some? ==> (old(Single()) ==> Single())
      ensures err.None? ==> HeapBefore(old(priced.items), left, priced.items, tx, replaced || |old(all)| >= globalSlots + globalQueue)
      ensures err.None? && old(Single()) ==> (Single() <==> tx !in left)
      ensures Reaches(Config(old(State()), {}), Config(State(), {})) && (old(Ordered()) ==> Ordered()) && (old(LocksHeld()) ==> LocksHeld())
    {
      hide Inv, Priced, Dropped, NoneDearer, L.Accepts, PoolStep, HeapBefore, L.Replaces, WithoutAll, NoncesWithoutAll,
          Admissible, Entered, ValidCM, ValidateTx, NoEmpty, Displaced,
          Tx.Slots, HashSeq, HashSet, Freed, OnceEach, SumSlots, Part, Reaches, PricesKept, Tidy, Current, ClaimsLocked;
      drop, left := [], priced.items;
      ReachSelf(Config(State(), {}));
      if tx.hash in all {
        return false, Some(AlreadyKnown), drop, left;
      }
      if !ValidCM(cmdb, tx) {
        return false, Some(InvalidCommitment), drop, left;
      }
      if !checks.proofs {
        return false, Some(InvalidProof), drop, left;
      }
      var reason := ValidateTx(tx, chain, checks);
      if reason.Some? {
        return false, Some(Invalid(reason.value)), drop, left;
      }
      replaced, err, drop, left := Enter(tx, local);
    }

    /** WriteAllCM on the database that the chain shares with the pool: for a purchase its coin is unlocked, for a
        transfer the old coin is spent and two new ones appear. */
    method WriteAllCM(block: seq<Tx>)
      requires Valid()
      modifies this`cmdb
      ensures Valid() && cmdb == BookedAll(old(cmdb), block) && PoolStep(old(State()), State())
    {
      hide Inv, Priced, NoEmpty, Reaches, PricesKept;
      ghost var s := State();
      for i := 0 to |block|
        invariant cmdb == BookedAll(old(cmdb), block[..i])
      {
        var t := block[i];
        assert block[..i + 1][..i] == block[..i];
        if t.id == 1 {
          cmdb := cmdb[t.cmV := CM(false, false)];
        }
        if t.id == 0 {
          cmdb := cmdb[t.cmO := CM(true, false)];
          cmdb := cmdb[t.cmS := CM(false, false)];
          cmdb := cmdb[t.cmR := CM(false, false)];
        }
      }
      assert block[..|block|] == block;
      ImportKeeps(s, {}, block);
      LosingKeepsPrices(s, State());
    }

    // ---------- Promotion ----------

    /** Keep a part of an account's queue and drop the rest. */
    method TrimQueue(a: Addr, kept: NonceMap, ghost limbo: set<Hash>)
      requires ValidWith(limbo) && a in queue && PartOf(kept, queue[a])
      modifies this`queue, this`all, this`slots, this`cmdb
      ensures ValidWith(limbo) && queue == old(queue)[a := kept]
      ensures all == old(all) - TakenOut(kept, old(queue)[a])
      ensures cmdb == ReleaseSet(old(cmdb), Part(old(all), TakenOut(kept, old(queue)[a])))
      ensures old(Single()) ==> Single()
    {
      hide Inv, Priced, OnceEach, TakenOut, HashesOf, InLimbo, ReleaseSet, Part;
      TrimmedQueue(State(), limbo, a, kept);
      var taken := queue[a] - kept.Keys;
      ghost var hashes := TakenOut(kept, queue[a]);
      queue := queue[a := kept];
      DropAll(taken, true, limbo + hashes);
    }

    /** promoteTx: a transaction in limbo joins the pending list, where its nonce is free. */
    method PromoteTx(tx: Tx, ghost limbo: set<Hash>)
      requires ValidWith(limbo) && tx.hash in limbo && tx.hash in all && all[tx.hash] == tx
      modifies this`pending, this`pendingNonces
      ensures ValidWith(limbo - {tx.hash}) && State() == Promote(old(State()), tx.hash)
      ensures tx.nonce !in ListOf(old(pending), tx.from)
      ensures pendingNonces == old(pendingNonces)[tx.from := tx.nonce + 1]
    {
      hide Inv, Priced, OnceEach;
      LimboFree(State(), limbo, tx.hash);
      PromoteKeeps(State(), limbo, tx.hash);
      pending := Into(pending, tx);
      pendingNonces := pendingNonces[tx.from := tx.nonce + 1];
    }

    /** Promote the transactions of m in the order of their nonces. */
    method PromoteAll(a: Addr, m: NonceMap, ghost limbo: set<Hash>)
      requires ValidWith(limbo) && InLimbo(m, State(), limbo) && forall n :: n in m ==> m[n].from == a
      requires NoEmpty(pending)
      modifies this`pending, this`pendingNonces
      ensures ValidWith(limbo - HashesOf(m)) && NoEmpty(pending)
      ensures State() == old(State()).(pending := AddAll(old(pending), a, m))
      ensures m == map[] ==> pendingNonces == old(pendingNonces)
      ensures m != map[] ==> a in pendingNonces && pendingNonces == old(pendingNonces)[a := pendingNonces[a]]
                             && Follows(m, 0, pendingNonces[a])
    {
      hide Inv, Priced, OnceEach, HashesOf, Into, AddAll, InLimbo, NoEmpty;
      var rest := m;
      ghost var lim := limbo;
      while rest != map[]
        invariant ValidWith(lim) && InLimbo(rest, State(), lim) && NoEmpty(pending)
        invariant forall n :: n in rest ==> n in m && rest[n] == m[n]
        invariant lim - HashesOf(rest) == limbo - HashesOf(m)
        invariant AddAll(pending, a, rest) == AddAll(old(pending), a, m)
        invariant State() == old(State()).(pending := pending)
        invariant rest == m ==> pendingNonces == old(pendingNonces)
        invariant rest != m ==>
                    && a in pendingNonces && pendingNonces == old(pendingNonces)[a := pendingNonces[a]]
                    && pendingNonces[a] > 0 && pendingNonces[a] - 1 in m
                    && forall n :: n in m ==> if n in rest then n >= pendingNonces[a] else n < pendingNonces[a]
        decreases rest.Keys
      {
        LeastExists(rest);
        var n :| n in rest && IsMin(rest, n);
        InLimboAt(rest, State(), lim, n);
        RequeueStep(State(), lim, rest, n);
        AddStep(pending, a, rest, n);
        IntoNoEmpty(pending, rest[n]);
        PromoteTx(rest[n], lim);
        lim := lim - {rest[n].hash};
        rest := rest - {n};
      }
      RequeuedNone(pending, a);
      assert lim - {} == lim;
    }

    /** Drop the queued transactions of an account that are too old or too costly. */
    method DropUnpayable(a: Addr) returns (count: nat)
      requires ValidWith({}) && a in queue
      modifies this`queue, this`all, this`slots, this`cmdb
      ensures ValidWith({})
      ensures var payable := L.Affordable(From(old(queue)[a], chain.Nonce(a)), chain.Balance(a), chain.maxGas);
              var taken := TakenOut(payable, old(queue)[a]);
              && queue == old(queue)[a := payable]
              && all == old(all) - taken && cmdb == ReleaseSet(old(cmdb), Part(old(all), taken))
      ensures old(Single()) ==> Single()
    {
      hide Inv, Priced, OnceEach, TakenOut, TakenCount, Part, ReleaseSet, L.TooCostly;
      var q := queue[a];
      var q1 := From(q, chain.Nonce(a));
      TrimQueue(a, q1, {});
      var q2 := L.Affordable(q1, chain.Balance(a), chain.maxGas);
      TrimQueue(a, q2, {});
      ReleaseTwo(old(cmdb), old(all), TakenOut(q1, q), TakenOut(q2, q1));
      TakenTwice(q, q1, q2);
      count := TakenCount(q1, q) + TakenCount(q2, q1);
    }

    /** Move the run of transactions that are ready from the queue to the pending list. */
    method PromoteReady(a: Addr) returns (r: NonceMap)
      requires ValidWith({}) && NoEmpty(pending) && a in queue
      modifies this`pending, this`queue, this`pendingNonces
      ensures ValidWith({}) && NoEmpty(pending)
      ensures r == S.ReadyRun(old(queue)[a], old(PendingNonce(a)))
      ensures queue == old(queue)[a := old(queue)[a] - r.Keys] && pending == AddAll(old(pending), a, r)
      ensures Follows(r, old(PendingNonce(a)), PendingNonce(a))
      ensures pendingNonces == old(pendingNonces) || pendingNonces == old(pendingNonces)[a := PendingNonce(a)]
    {
      hide Inv, Priced, OnceEach, TakenOut, AddAll, HashesOf, InLimbo, NoEmpty, S.ReadyRun;
      var q := queue[a];
      r := ReadyOf(q, PendingNonce(a));
      var rest := q - r.Keys;
      TrimmedQueue(State(), {}, a, rest);
      assert q - rest.Keys == r;
      queue := queue[a := rest];
      PromoteAll(a, r, {} + TakenOut(rest, q));
    }

    /** The part of promoteExecutables for one account: its queue, its pending list, what it lost and its next nonce
        are what PromotionOf says. */
    method PromoteAccount(a: Addr)
      requires Valid()
      modifies this`pending, this`queue, this`all, this`slots, this`cmdb, this`pendingNonces, priced
      ensures Valid()
      ensures PromotesAccount(old(State()), old(pendingNonces), State(), pendingNonces, chain,
                PromotionAt(old(State()), old(pendingNonces), chain, locals, accountQueue, a), a)
      ensures old(Single()) ==> Single()
    {
      hide Inv, Priced, OnceEach, TakenOut, TakenCount, Part, ReleaseSet, AddAll, NoEmpty, SetList, S.ReadyRun, Follows, L.Affordable, From;
      if a !in queue {
        PromotesNothing(State(), pendingNonces, chain, locals, accountQueue, a);
        return;
      }
      var q := queue[a];
      PayablePart(q, chain, a);
      var count := DropUnpayable(a);
      ghost var q2 := queue[a];
      var r := PromoteReady(a);
      ReadyPart(q2, old(PendingNonce(a)));
      ghost var q3 := queue[a];
      ghost var q4 := LimitQueue(a, count);
      ReleaseTwo(old(cmdb), old(all), TakenOut(q2, q), TakenOut(q4, q3));
      GoneParts(q, q2, r, q4);
      SetListOver(old(queue), a, q2, q3, q4);
      SetListNoEmpty(old(queue), a, q4);
    }

    /** Drop what exceeds a remote account's queue limit, and the queue itself if it became empty. */
    method LimitQueue(a: Addr, count: nat) returns (kept: NonceMap)
      requires ValidWith({}) && a in queue
      modifies this`queue, this`all, this`slots, this`cmdb, priced
      ensures ValidWith({})
      ensures kept == if a in locals then old(queue)[a] else Lowest(old(queue)[a], accountQueue)
      ensures queue == SetList(old(queue), a, kept) && PartOf(kept, old(queue)[a])
      ensures all == old(all) - TakenOut(kept, old(queue)[a])
      ensures cmdb == ReleaseSet(old(cmdb), Part(old(all), TakenOut(kept, old(queue)[a])))
      ensures old(Single()) ==> Single()
    {
      hide Inv, Priced, OnceEach, TakenOut, TakenCount, Part, ReleaseSet;
      var q := queue[a];
      kept := if a in locals then q else Lowest(q, accountQueue);
      TrimQueue(a, kept, {});
      InvKeyed(State(), {});
      MarkRemoved(count + TakenCount(kept, q));
      DropEmptyKeeps(State(), {}, a);
      if kept == map[] {
        queue := queue - {a};
        assert old(queue)[a := kept] - {a} == old(queue) - {a};
      }
    }

    method ReadyOf(m: NonceMap, next: nat) returns (r: NonceMap)
      ensures r == S.ReadyRun(m, next) && PartOf(r, m)
    {
      ReadyPart(m, next);
      r := map[];
      if n :| n in m && IsMin(m, n) && n <= next {
        S.MinUnique(m, n, next);
        r := RunFrom(m, n);
      }
    }

    /** Promote whatever has become processable. Exactly the accounts given are promoted, once each however often
        they are given. */
    method PromoteExecutables(accounts: seq<Addr>)
      requires Valid()
      modifies this`pending, this`queue, this`all, this`slots, this`cmdb, this`pendingNonces, priced
      ensures Valid()
      ensures Promoted(old(State()), old(pendingNonces), State(), pendingNonces, chain, locals, accountQueue, F.Members(accounts))
      ensures forall a :: a in accounts ==> Settled(ListOf(queue, a), chain, a, PendingNonce(a), LimitOf(locals, accountQueue, a))
      ensures old(Single()) ==> Single()
    {
      hide Inv, Priced, OnceEach, NoEmpty, Settled, Promoted, PromotesAccount, PromotionAt;
      ghost var s, n0 := State(), pendingNonces;
      PromotedNone(s, n0, chain, locals, accountQueue);
      assert F.Members(accounts[..0]) == {};
      for i := 0 to |accounts|
        invariant old(Single()) ==> Single()
        invariant Valid() && Promoted(s, n0, State(), pendingNonces, chain, locals, accountQueue, F.Members(accounts[..i]))
      {
        ghost var r, n1 := State(), pendingNonces;
        PromoteAccount(accounts[i]);
        PromotedPass(s, n0, r, n1, State(), pendingNonces, chain, locals, accountQueue, F.Members(accounts[..i]), accounts[i]);
        assert F.Members(accounts[..i + 1]) == F.Members(accounts[..i]) + {accounts[i]};
      }
      assert accounts[..|accounts|] == accounts;
      forall a | a in accounts ensures Settled(ListOf(queue, a), chain, a, PendingNonce(a), LimitOf(locals, accountQueue, a)) {
        PromotedSettled(s, n0, State(), pendingNonces, chain, locals, accountQueue, F.Members(accounts), a);
      }
    }

    // ---------- Demotion ----------

    /** Keep a part of an account's pending list and drop the rest. */
    method TrimPending(a: Addr, kept: NonceMap, release: bool)
      requires ValidWith({}) && a in pending && PartOf(kept, pending[a])
      modifies this`pending, this`all, this`slots, this`cmdb
      ensures ValidWith({}) && pending == old(pending)[a := kept]
      ensures all == old(all) - TakenOut(kept, old(pending)[a])
      ensures cmdb == if release then ReleaseSet(old(cmdb), Part(old(all), TakenOut(kept, old(pending)[a]))) else old(cmdb)
      ensures old(Single()) ==> Single()
    {
      hide Inv, Priced, OnceEach, TakenOut, HashesOf, InLimbo, ReleaseSet, Part;
      TrimmedPending(State(), {}, a, kept);
      var taken := pending[a] - kept.Keys;
      ghost var hashes := TakenOut(kept, pending[a]);
      pending := pending[a := kept];
      DropAll(taken, release, {} + hashes);
    }

    /** Drop the pending transactions an account cannot pay, and requeue what they invalidate. */
    method FilterPending(a: Addr, spent: nat)
      requires ValidWith({}) && a in pending
      modifies this`pending, this`queue, this`all, this`slots, this`cmdb, priced
      ensures ValidWith({})
      ensures var p, balance := old(pending)[a], chain.Balance(a);
              var gone := HashesOf(L.Unaffordable(p, balance, chain.maxGas));
              && pending == old(pending)[a := L.AffordablePrefix(p, balance, chain.maxGas)]
              && queue == AddAll(old(queue), a, L.Invalidated(p, balance, chain.maxGas))
              && all == old(all) - gone && cmdb == ReleaseSet(old(cmdb), Part(old(all), gone))
      ensures old(Single()) ==> Single()
    {
      hide Inv, Priced, OnceEach, TakenOut, HashesOf, InLimbo, ReleaseSet, Part, AddAll, L.AffordablePrefix, L.Invalidated, L.Unaffordable;
      var p := pending[a];
      var kept := L.AffordablePrefix(p, chain.Balance(a), chain.maxGas);
      var costly := L.Unaffordable(p, chain.Balance(a), chain.maxGas);
      var invalids := L.Invalidated(p, chain.Balance(a), chain.maxGas);
      FilterParts(p, chain.Balance(a), chain.maxGas);
      TrimmedPending(State(), {}, a, kept);
      ghost var limbo := {} + TakenOut(kept, p);
      pending := pending[a := kept];
      FilteredOut(State(), p, kept, costly, invalids, limbo);
      DropAll(costly, true, limbo);
      InvKeyed(State(), limbo - HashesOf(costly));
      MarkRemoved(spent + TakenCount(map[], costly));
      RequeueAll(a, invalids, limbo - HashesOf(costly));
    }

    /** A gap in front sends an account's whole pending list back to the queue. */
    method RequeueGapped(a: Addr)
      requires ValidWith({}) && a in pending
      modifies this`pending, this`queue, this`all, this`slots, this`cmdb, priced
      ensures ValidWith({})
      ensures var gapped := old(pending)[a] != map[] && chain.Nonce(a) !in old(pending)[a];
              && pending == SetList(old(pending), a, if gapped then map[] else old(pending)[a])
              && queue == (if gapped then AddAll(old(queue), a, old(pending)[a]) else old(queue))
              && all == old(all) && cmdb == old(cmdb)
      ensures old(Single()) ==> Single()
    {
      hide Inv, Priced, OnceEach, TakenOut, HashesOf, InLimbo, AddAll;
      var p := pending[a];
      if p != map[] && chain.Nonce(a) !in p {
        ghost var none: NonceMap := map[];
        TrimmedPending(State(), {}, a, none);
        assert p - none.Keys == p;
        ghost var limbo := {} + TakenOut(none, p);
        pending := pending[a := map[]];
        RequeueAll(a, p, limbo);
      }
      DropEmptyKeeps(State(), {}, a);
      if pending[a] == map[] {
        pending := pending - {a};
        assert old(pending)[a := map[]] - {a} == old(pending) - {a};
      } else {
        assert old(pending)[a := p] == old(pending);
      }
    }

    /** The part of demoteUnexecutables for one account. */
    method DemoteAccount(a: Addr)
      requires ValidWith({}) && a in pending
      modifies this`pending, this`queue, this`all, this`slots, this`cmdb, priced
      ensures ValidWith({})
      ensures var d := DemotionOf(old(pending)[a], chain, a);
              && pending == SetList(old(pending), a, d.kept) && queue == AddAll(old(queue), a, d.requeued)
              && all == old(all) - (d.spent + d.dropped) && cmdb == ReleaseSet(old(cmdb), Part(old(all), d.dropped))
      ensures old(Single()) ==> Single()
    {
      hide Inv, Priced, OnceEach, TakenOut, HashesOf, AddAll, ReleaseSet, Part, SetList, TakenCount, L.AffordablePrefix,
          L.Invalidated, L.Unaffordable, From, Below;
      var p := pending[a];
      var current := From(p, chain.Nonce(a));
      FilterParts(current, chain.Balance(a), chain.maxGas);
      FromPart(p, chain.Nonce(a));
      SpentFirst(State(), {}, a, chain.Nonce(a), L.Unaffordable(current, chain.Balance(a), chain.maxGas));
      TrimPending(a, current, false);
      FilterPending(a, TakenCount(current, p));
      ghost var payable := pending[a];
      RequeueGapped(a);
      SetListOver(old(pending), a, current, payable, if payable != map[] && chain.Nonce(a) !in payable then map[] else payable);
      AddTwice(old(queue), a, L.Invalidated(current, chain.Balance(a), chain.maxGas), payable);
    }

    /** Demote every account: the transactions the chain has passed leave without giving back their commitments, the
        unaffordable ones give them back, and what remains pending is executable. */
    method DemoteUnexecutables()
      requires Valid()
      modifies this`pending, this`queue, this`all, this`slots, this`cmdb, priced
      ensures Valid() && DemotedSoFar(old(State()), State(), chain, old(pending).Keys)
      ensures forall a :: a in old(pending) ==>
                && ListOf(pending, a) == DemotionOf(old(pending)[a], chain, a).kept
                && ListOf(queue, a) == ListOf(old(queue), a) + DemotionOf(old(pending)[a], chain, a).requeued
      ensures forall a :: a !in old(pending) ==> a !in pending && ListOf(queue, a) == ListOf(old(queue), a)
      ensures var spent, dropped := SpentBy(old(pending), chain, old(pending).Keys), DroppedBy(old(pending), chain, old(pending).Keys);
              all == old(all) - (spent + dropped) && cmdb == ReleaseSet(old(cmdb), Part(old(all), dropped))
      ensures old(Single()) ==> Single()
    {
      hide Inv, Priced, OnceEach, DemotionOf, SpentBy, DroppedBy, ReleaseSet, Part, DemotedSoFar, AddAll, SetList, NoEmpty;
      ghost var s := State();
      var todo := pending.Keys;
      ghost var done: set<Addr> := {};
      DemotedNone(s, chain);
      while todo != {}
        invariant old(Single()) ==> Single()
        invariant ValidWith({}) && NoEmpty(queue) && DemotedSoFar(s, State(), chain, done)
        invariant done + todo == s.pending.Keys && done !! todo
        decreases todo
      {
        var a :| a in todo;
        StillPending(s, State(), chain, done, a);
        ghost var r := State();
        DemoteAccount(a);
        DemotedOneMore(s, r, State(), chain, done, a);
        AddAllNoEmpty(r.queue, a, DemotionOf(s.pending[a], chain, a).requeued);
        done, todo := done + {a}, todo - {a};
      }
      assert done == s.pending.Keys;
      DemotedEach(s, State(), chain);
    }

    // ---------- Truncation ----------

    /** Drop the last pending transaction of an account. */
    method CapOne(a: Addr)
      requires ValidWith({}) && a in pending && pending[a] != map[]
      modifies this`pending, this`all, this`slots, this`cmdb, this`pendingNonces, priced
      ensures ValidWith({}) && pending == old(pending)[a := Lowest(old(pending)[a], |old(pending)[a]| - 1)]
      ensures forall s :: Freed(s, old(State())) ==> Freed(s, State())
      ensures forall p, n0 :: NoncesReset(p, n0, old(pending), old(pendingNonces), chain) ==> NoncesReset(p, n0, pending, pendingNonces, chain)
      ensures old(Single()) ==> Single()
    {
      hide Inv, Priced, OnceEach, TakenOut, ReleaseSet, Part, Freed, NoncesReset, Lowest;
      var p := pending[a];
      F.GreatestExists(p);
      var n :| n in p && F.IsMax(p, n);
      F.CutGreatest(p, n);
      F.LowestPart(p, |p| - 1);
      TrimPending(a, Lowest(p, |p| - 1), true);
      forall s | Freed(s, old(State())) ensures Freed(s, State()) {
        FreedMore(s, old(State()), State(), TakenOut(Lowest(p, |p| - 1), p));
      }
      forall q, n0 | NoncesReset(q, n0, old(pending), old(pendingNonces), chain)
        ensures NoncesReset(q, n0, pending, Lowered(pendingNonces, chain, a, n), chain) {
        NoncesResetMore(q, n0, old(pending), old(pendingNonces), chain, a, n);
      }
      pendingNonces := Lowered(pendingNonces, chain, a, n);
      InvKeyed(State(), {});
      MarkRemoved(1);
    }

    /** The pending lists of s0 have been cut to the level, which is not lower than it has to be. */
    ghost predicate Levelled(s0: Pool, n0: Nonces, level: nat, count: nat)
      reads this, priced
    {
      && ValidWith({})
      && pending == F.Level(s0.pending, locals, level) && count == F.Total(pending)
      && F.Total(F.Level(s0.pending, locals, level + 1)) > globalSlots
      && Freed(s0, State()) && NoncesReset(s0.pending, n0, pending, pendingNonces, chain)
    }

    /** Cut every offender by one transaction. */
    method CutRound(offs: seq<Addr>, count: nat, ghost s0: Pool, ghost n0: Nonces, ghost level: nat) returns (left: nat)
      requires Levelled(s0, n0, level, count) && level > 0 && count > globalSlots
      requires F.Cuttable(s0.pending, locals, offs, level) && F.OthersWithin(s0.pending, locals, offs, level - 1)
      modifies this`pending, this`all, this`slots, this`cmdb, this`pendingNonces, priced
      ensures Levelled(s0, n0, level - 1, left)
      ensures old(Single()) ==> Single()
    {
      hide Inv, Priced, OnceEach, F.Level, F.PartLevel, F.Total, Freed, NoncesReset;
      left := count;
      F.RoundDone(s0.pending, locals, level, F.Members(offs));
      assert F.Members(offs[..0]) == {} && offs[..|offs|] == offs;
      for i := 0 to |offs|
        invariant old(Single()) ==> Single()
        invariant ValidWith({}) && pending == F.PartLevel(s0.pending, locals, level, F.Members(offs[..i]))
        invariant left == F.Total(pending)
        invariant Freed(s0, State()) && NoncesReset(s0.pending, n0, pending, pendingNonces, chain)
      {
        F.MembersStep(offs, i);
        F.CutOneMore(s0.pending, locals, level, F.Members(offs[..i]), offs[i]);
        CapOne(offs[i]);
        left := left - 1;
      }
    }

    /** Cut the offenders, all of one length, until the pool is within its limit or they reach the floor. */
    method CutDown(offs: seq<Addr>, floor: nat, count: nat, ghost s0: Pool, ghost n0: Nonces, ghost level: nat) returns (left: nat, ghost low: nat)
      requires Levelled(s0, n0, level, count) && offs != [] && floor <= level
      requires F.Cuttable(s0.pending, locals, offs, level) && F.OthersWithin(s0.pending, locals, offs, floor)
      modifies this`pending, this`all, this`slots, this`cmdb, this`pendingNonces, priced
      ensures Levelled(s0, n0, low, left) && floor <= low <= level && (left <= globalSlots || low == floor)
      ensures old(Single()) ==> Single()
    {
      hide Inv, Priced, OnceEach, F.Level, F.Total, Freed, NoncesReset;
      left, low := count, level;
      var last := offs[|offs| - 1];
      F.LevelAt(s0.pending, locals, low, last);
      while left > globalSlots && |pending[last]| > floor
        invariant old(Single()) ==> Single()
        invariant Levelled(s0, n0, low, left) && floor <= low <= level
        invariant last in pending && |pending[last]| == low
        decreases low
      {
        left := CutRound(offs, left, s0, n0, low);
        low := low - 1;
        F.LevelAt(s0.pending, locals, low, last);
      }
    }

    /** Take offenders in turn, the most numerous first, and cut those before down to the length of the next. */
    method Equalize(ghost s0: Pool, ghost n0: Nonces, ghost start: nat, total: nat) returns (offenders: seq<Addr>, count: nat, ghost level: nat)
      requires Levelled(s0, n0, start, total) && pending == s0.pending && total > globalSlots
      requires F.Ranked(pending, locals, accountSlots, [], F.Spammers(pending, locals, accountSlots), start)
      modifies this`pending, this`all, this`slots, this`cmdb, this`pendingNonces, priced
      ensures Levelled(s0, n0, level, count) && level > accountSlots
      ensures count > globalSlots ==> F.Ranked(s0.pending, locals, accountSlots, offenders, {}, level)
      ensures old(Single()) ==> Single()
    {
      hide Inv, Priced, OnceEach, F.Level, F.Total, Freed, NoncesReset, F.Cuttable, F.OthersWithin, F.Ranked, F.IsMost, F.Spammers;
      offenders, count, level := [], total, start;
      F.RankedLevel(pending, locals, accountSlots, offenders, F.Spammers(pending, locals, accountSlots), start);
      var spammers := F.Spammers(pending, locals, accountSlots);
      while count > globalSlots && spammers != {}
        invariant old(Single()) ==> Single()
        invariant Levelled(s0, n0, level, count) && level > accountSlots
        invariant count > globalSlots ==> F.Ranked(s0.pending, locals, accountSlots, offenders, spammers, level)
        decreases spammers
      {
        F.MostQueued(s0.pending, locals, accountSlots, offenders, spammers, level);
        var o :| o in spammers && F.IsMost(pending, spammers, o);
        F.MostOriginal(s0.pending, locals, accountSlots, offenders, spammers, level, o);
        F.NextOffender(s0.pending, locals, accountSlots, offenders, spammers, level, o);
        if |offenders| > 0 {
          count, level := CutDown(offenders, |pending[o]|, count, s0, n0, level);
        } else {
          F.NothingCut(s0.pending, locals, accountSlots, spammers, level, |s0.pending[o]|);
          level := |s0.pending[o]|;
        }
        offenders, spammers := offenders + [o], spammers - {o};
      }
    }

    /** Bring the pending lists down to the global limit. Every remote account keeps its lowest nonces up to a
        common level, not below the account limit, and the level is the highest that will do. */
    method TruncatePending() returns (ghost level: nat)
      requires Valid()
      modifies this`pending, this`all, this`slots, this`cmdb, this`pendingNonces, priced
      ensures Valid()
      ensures F.Total(old(pending)) <= globalSlots ==> State() == old(State()) && pendingNonces == old(pendingNonces)
      ensures F.Total(old(pending)) > globalSlots ==>
                && level >= accountSlots && (F.Total(pending) <= globalSlots || level == accountSlots)
                && Levelled(old(State()), old(pendingNonces), level, F.Total(pending))
      ensures old(Single()) ==> Single()
    {
      hide Inv, Priced, OnceEach, F.Level, F.Total, Freed, NoncesReset, NoEmpty, F.Cuttable, F.OthersWithin, F.Ranked, F.IsMost, F.Spammers;
      ghost var s0, n0 := State(), pendingNonces;
      var count: nat := F.Count(pending);
      level := count + accountSlots + 1;
      if count <= globalSlots {
        return;
      }
      F.TotalBounds(pending);
      F.RankedStart(pending, locals, accountSlots, level);
      FreedNone(s0);
      NoncesResetNone(pending, pendingNonces, chain);
      var offenders;
      offenders, count, level := Equalize(s0, n0, level, count);
      if count > globalSlots {
        F.AllOffenders(s0.pending, locals, accountSlots, offenders, level);
        if |offenders| > 0 {
          count, level := CutDown(offenders, accountSlots, count, s0, n0, level);
        } else {
          F.NothingCut(s0.pending, locals, accountSlots, {}, level, accountSlots);
          level := accountSlots;
        }
      }
      LevelledNoEmpty(s0.pending, locals, level);
    }

    // ---------- The queue limit ----------

    /** removeTx on a queued transaction. */
    method RemoveQueued(a: Addr, n: nat)
      requires ValidWith({}) && NoEmpty(pending) && NoEmpty(queue) && a in queue && n in queue[a]
      modifies this`pending, this`queue, this`all, this`slots, this`cmdb, this`pendingNonces, priced
      ensures ValidWith({}) && NoEmpty(queue) && pending == old(pending) && pendingNonces == old(pendingNonces)
      ensures queue == SetList(old(queue), a, old(queue)[a] - {n})
      ensures forall s :: Freed(s, old(State())) ==> Freed(s, State())
      ensures old(Single()) ==> Single()
    {
      hide Inv, Priced, OnceEach, NoEmpty, Without, NoncesWithout, Reaches, PricesKept, Tidy, Current, ClaimsLocked, SetList, Freed,
          ReleaseSet, Part, Released, Tx.Slots;
      QueuedAlone(State(), a, n);
      ghost var h := queue[a][n].hash;
      QueuedNonces(State(), pendingNonces, chain, a, n);
      RemoveTx(queue[a][n].hash, true);
      forall s | Freed(s, old(State())) ensures Freed(s, State()) {
        FreedMore(s, old(State()), State(), {h});
      }
    }

    /** Remove all queued transactions of an account. */
    method DrainQueue(a: Addr)
      requires ValidWith({}) && NoEmpty(pending) && NoEmpty(queue) && a in queue
      modifies this`pending, this`queue, this`all, this`slots, this`cmdb, this`pendingNonces, priced
      ensures ValidWith({}) && NoEmpty(queue) && pending == old(pending) && pendingNonces == old(pendingNonces)
      ensures queue[a := map[]] == old(queue)[a := map[]] && ListOf(queue, a) == map[]
      ensures forall s :: Freed(s, old(State())) ==> Freed(s, State())
      ensures old(Single()) ==> Single()
    {
      hide Inv, Priced, OnceEach, NoEmpty, Freed;
      while ListOf(queue, a) != map[]
        invariant old(Single()) ==> Single()
        invariant ValidWith({}) && NoEmpty(pending) && NoEmpty(queue) && pending == old(pending) && pendingNonces == old(pendingNonces)
        invariant queue[a := map[]] == old(queue)[a := map[]]
        invariant forall s :: Freed(s, old(State())) ==> Freed(s, State())
        decreases ListOf(queue, a).Keys
      {
        LeastExists(queue[a]);
        var n :| n in queue[a] && IsMin(queue[a], n);
        RemoveQueued(a, n);
      }
    }

    /** Remove the last k queued transactions of an account. */
    method DropLast(a: Addr, k: nat)
      requires ValidWith({}) && NoEmpty(pending) && NoEmpty(queue) && a in queue && k <= |queue[a]|
      modifies this`pending, this`queue, this`all, this`slots, this`cmdb, this`pendingNonces, priced
      ensures ValidWith({}) && NoEmpty(queue) && pending == old(pending) && pendingNonces == old(pendingNonces)
      ensures queue[a := map[]] == old(queue)[a := map[]]
      ensures ListOf(queue, a) == Lowest(old(queue)[a], |old(queue)[a]| - k)
      ensures forall s :: Freed(s, old(State())) ==> Freed(s, State())
      ensures old(Single()) ==> Single()
    {
      hide Inv, Priced, OnceEach, NoEmpty, Freed, Lowest;
      ghost var all0 := queue[a];
      F.WholeIsLowest(all0);
      for i := 0 to k
        invariant old(Single()) ==> Single()
        invariant ValidWith({}) && NoEmpty(pending) && NoEmpty(queue) && pending == old(pending) && pendingNonces == old(pendingNonces)
        invariant queue[a := map[]] == old(queue)[a := map[]]
        invariant ListOf(queue, a) == Lowest(all0, |all0| - i)
        invariant forall s :: Freed(s, old(State())) ==> Freed(s, State())
      {
        F.LowestCount(all0, |all0| - i);
        F.LowestTwice(all0, |all0| - i, |all0| - i - 1);
        F.GreatestExists(queue[a]);
        var n :| n in queue[a] && F.IsMax(queue[a], n);
        F.CutGreatest(queue[a], n);
        RemoveQueued(a, n);
      }
    }

    /** Remove the last transactions of an account's queue, up to a number, and tell how many are left to remove. */
    method CutQueue(a: Addr, drop: nat) returns (rest: nat)
      requires ValidWith({}) && NoEmpty(pending) && NoEmpty(queue)
      modifies this`pending, this`queue, this`all, this`slots, this`cmdb, this`pendingNonces, priced
      ensures ValidWith({}) && NoEmpty(queue) && pending == old(pending) && pendingNonces == old(pendingNonces)
      ensures queue[a := map[]] == old(queue)[a := map[]]
      ensures var l := ListOf(old(queue), a);
              && ListOf(queue, a) == (if |l| <= drop then map[] else Lowest(l, |l| - drop))
              && rest == (if |l| <= drop then drop - |l| else 0)
      ensures F.Total(queue) == F.Total(old(queue)) - drop + rest
      ensures forall s :: Freed(s, old(State())) ==> Freed(s, State())
      ensures old(Single()) ==> Single()
    {
      hide Inv, Priced, OnceEach, NoEmpty, Freed, F.Total, Lowest;
      var l := ListOf(queue, a);
      if |l| <= drop {
        if a in queue {
          DrainQueue(a);
        }
        rest := drop - |l|;
      } else {
        DropLast(a, drop);
        F.LowestCount(l, |l| - drop);
        rest := 0;
      }
      F.TotalBut(old(queue), queue, a);
    }

    /** Bring the queues down to the global limit. Remote accounts are drained one after the other, from the end
        of the order; the last one touched may keep its lowest nonces. The limit is met exactly unless only local
        accounts are left with transactions. */
    method TruncateQueue(order: seq<Addr>) returns (ghost i: nat, ghost k: nat)
      requires Valid() && CutOrder(queue, locals, order)
      modifies this`pending, this`queue, this`all, this`slots, this`cmdb, this`pendingNonces, priced
      ensures Valid() && pending == old(pending) && pendingNonces == old(pendingNonces) && Freed(old(State()), State())
      ensures F.Total(old(queue)) <= globalQueue ==> State() == old(State())
      ensures F.Total(old(queue)) > globalQueue ==>
                && i <= |order| && F.Total(queue) >= globalQueue
                && (F.Total(queue) > globalQueue ==> i == 0)
                && (k == 0 ==> DrainedFrom(old(queue), queue, order, i))
                && (k > 0 ==> i > 0 && CutAt(old(queue), queue, order, i, k))
      ensures old(Single()) ==> Single()
    {
      hide Inv, Priced, OnceEach, NoEmpty, Freed, F.Total, Lowest, DrainedFrom, CutAt, CutOrder;
      FreedNone(State());
      i, k := |order|, 0;
      var count := F.Count(queue);
      if count <= globalQueue {
        return;
      }
      ghost var s0 := State();
      var drop: nat := count - globalQueue;
      var left := |order|;
      DrainedNone(queue, order);
      while drop > 0 && left > 0
        invariant old(Single()) ==> Single()
        invariant ValidWith({}) && NoEmpty(pending) && NoEmpty(queue) && Freed(s0, State())
        invariant pending == old(pending) && pendingNonces == old(pendingNonces)
        invariant 0 <= left <= |order| && drop == F.Total(queue) - globalQueue && DrainedFrom(s0.queue, queue, order, left)
        decreases left
      {
        var a := order[left - 1];
        StillQueued(s0.queue, queue, order, left);
        ghost var before := queue;
        var size, need := |ListOf(queue, a)|, drop;
        drop := CutQueue(a, drop);
        if size <= need {
          DrainedOneMore(s0.queue, before, queue, locals, order, left);
          left := left - 1;
        } else {
          i, k := left, size - need;
          CutAtIs(s0.queue, before, queue, order, left, k);
          return;
        }
      }
      i := left;
    }

    /** Every account's next nonce becomes the one after its last pending transaction. No list is empty. */
    method RefreshNonces()
      requires Valid()
      modifies this`pendingNonces
      ensures Valid() && Refreshed(pending, old(pendingNonces), pendingNonces, chain)
    {
      hide Inv, Priced, OnceEach, F.IsMax;
      var todo := pending.Keys;
      while todo != {}
        invariant todo <= pending.Keys
        invariant forall a :: a in pending && a !in todo ==> PendingNonce(a) > 0 && F.IsMax(pending[a], PendingNonce(a) - 1)
        invariant forall a :: a !in pending ==> PendingNonce(a) == old(PendingNonce(a))
        decreases todo
      {
        var a :| a in todo;
        F.GreatestListed(pending[a]);
        var n :| n in pending[a] && F.IsMax(pending[a], n);
        pendingNonces := pendingNonces[a := n + 1];
        todo := todo - {a};
      }
    }

    ghost function LimitsOf(): Limits
    {
      Limits(accountSlots, globalSlots, accountQueue, globalQueue)
    }

    /** truncatePending and truncateQueue together. */
    method Truncate(beats: map<Addr, nat>) returns (ghost mid: Pool, ghost level: nat, order: seq<Addr>, ghost i: nat, ghost k: nat)
      requires Valid()
      modifies this`pending, this`queue, this`all, this`slots, this`cmdb, this`pendingNonces, priced
      ensures Valid() && Inv(mid, {})
      ensures PendingCut(old(State()), mid, locals, LimitsOf(), level) && QueueCut(mid, State(), locals, LimitsOf(), order, i, k)
      ensures SortedBy(order, HeartbeatKey(beats))
      ensures forall a :: a !in pending ==> PendingNonce(a) == old(PendingNonce(a))
      ensures old(Single()) ==> Single()
    {
      hide Inv, Priced, OnceEach, NoEmpty, F.Total, F.Level, Freed, CutOrder, DrainedFrom, CutAt, SortedBy;
      ghost var s := State();
      FreedNone(s);
      level := TruncatePending();
      mid := State();
      order := SortByHeartbeat(queue, locals, beats);
      i, k := TruncateQueue(order);
    }

    /** A pool reorganisation, after new transactions or, with a new chain state, after a new block. It goes through
        the stages given. Whatever leaves gives its commitment back, except pending ones that the chain has passed; local accounts
        lose only what is too old or too costly; after a new block every pending list is executable; the global
        limits are met as far as the remote accounts allow; and every next nonce follows the last pending one. */
    method RunReorg(reset: Option<Chain>, dirty: seq<Addr>, beats: map<Addr, nat>) returns (ghost g: Stages)
      requires Valid()
      modifies this, priced
      ensures Valid() && locals == old(locals) && chain == if reset.Some? then reset.value else old(chain)
      ensures Reorganised(old(State()), if reset.Some? then map[] else old(pendingNonces), State(), chain, locals, LimitsOf(),
                if reset.Some? then old(queue).Keys else F.Members(dirty), reset.Some?, g)
      ensures Refreshed(pending, g.nonces, pendingNonces, chain) && LatestCutFirst(g.levelled.queue, queue, locals, beats)
      ensures LeftBut(old(State()), State(), if reset.Some? then Overtaken(old(pending), chain) else {})
      ensures reset.Some? ==> Overtaken(old(pending), chain) <= old(all).Keys - all.Keys
      ensures LocalsKept(old(State()), State(), chain, locals)
      ensures reset.Some? ==> forall a :: Executable(ListOf(pending, a), chain, a)
      ensures F.Total(pending) <= globalSlots || forall a :: a in pending && a !in locals ==> |pending[a]| <= accountSlots
      ensures F.Total(queue) <= globalQueue || forall a :: a in queue && a !in locals ==> queue[a] == map[]
      ensures Reaches(Config(old(State()), {}), Config(State(), {})) && (old(Ordered()) ==> Ordered())
      ensures (old(Single()) ==> Single()) && (old(LocksHeld()) ==> LocksHeld()) && PoolStep(old(State()), State())
    {
      hide Inv, Priced, OnceEach, NoEmpty, F.Total, PricesKept, Reorganised, LeftBut, Overtaken, LocalsKept, Executable, Reaches,
          Tidy, Current, ClaimsLocked, Torn, Refreshed, SortedBy;
      g := Reorganise(reset, dirty, beats);
      ghost var s, n0 := old(State()), if reset.Some? then map[] else old(pendingNonces);
      ghost var accounts := if reset.Some? then old(queue).Keys else F.Members(dirty);
      ReorgLeaves(s, n0, State(), chain, locals, LimitsOf(), accounts, reset.Some?, g);
      ReorgLocals(s, n0, State(), chain, locals, LimitsOf(), accounts, reset.Some?, g);
      ReorgWithin(s, n0, State(), chain, locals, LimitsOf(), accounts, reset.Some?, g);
      CutByBeats(s, n0, State(), chain, locals, LimitsOf(), accounts, reset.Some?, g, beats);
      LeftReached(s, State(), if reset.Some? then Overtaken(s.pending, chain) else {});
      StillThere(s, State(), if reset.Some? then Overtaken(s.pending, chain) else {});
      LosingKeepsPrices(s, State());
      if old(LocksHeld()) {
        ReachLocks(Config(s, {}), Config(State(), {}));
      }
      if reset.Some? {
        forall a ensures Executable(ListOf(pending, a), chain, a) {
          ReorgExecutable(s, n0, State(), chain, locals, LimitsOf(), accounts, g, a);
        }
        if old(Ordered()) {
          ResetOrdered(s, old(pendingNonces), old(chain), State(), pendingNonces, chain, locals, LimitsOf(), g);
        }
      } else if old(Ordered()) {
        ReorgOrdered(s, n0, State(), pendingNonces, chain, locals, LimitsOf(), accounts, g);
      }
    }

    /** The statements of runReorg. */
    method Reorganise(reset: Option<Chain>, dirty: seq<Addr>, beats: map<Addr, nat>) returns (ghost g: Stages)
      requires Valid()
      modifies this, priced
      ensures Valid() && locals == old(locals) && chain == if reset.Some? then reset.value else old(chain)
      ensures Reorganised(old(State()), if reset.Some? then map[] else old(pendingNonces), State(), chain, locals, LimitsOf(),
                if reset.Some? then old(queue).Keys else F.Members(dirty), reset.Some?, g)
      ensures SortedBy(g.order, HeartbeatKey(beats)) && Refreshed(pending, g.nonces, pendingNonces, chain)
      ensures old(Single()) ==> Single()
    {
      hide Inv, Priced, OnceEach, NoEmpty, F.Total, F.IsMax, Settled, DemotionOf, SpentBy, DroppedBy, ReleaseSet, Part, Promoted, DemotedSoFar,
          PendingCut, QueueCut, SortedBy;
      var accounts := dirty;
      if reset.Some? {
        chain, pendingNonces := reset.value, map[];
        accounts := F.Listed(queue.Keys);
        F.ListedMembers(queue.Keys, accounts);
      }
      PromoteExecutables(accounts);
      ghost var promoted, nonces := State(), pendingNonces;
      if reset.Some? {
        DemoteUnexecutables();
      }
      ghost var demoted := State();
      ghost var mid, level; var order; ghost var i, k;
      mid, level, order, i, k := Truncate(beats);
      g := Stages(promoted, nonces, demoted, mid, level, order, i, k);
      RefreshNonces();
    }
  }

  /** The steps of add, and what they do to prices. */
  lemma {:induction false} RoomPrices(s: Pool, room: Pool, t: Tx, asPending: bool, bump: nat, drop: seq<Tx>)
    requires Inv(s, {}) && Inv(room, {}) && NoEmpty(room.pending) && NoEmpty(room.queue) && Freed(s, room)
    requires Dropped(s.all, room.all, drop)
    requires t.hash !in s.all && Admissible(room, {}, t, asPending) && ValidCM(s.cmdb, t)
    ensures PoolStep(s, room) && PoolStep(room, room)
    ensures L.Accepts(ListOf(if asPending then room.pending else room.queue, t.from), t, bump) ==>
              && PoolStep(room, Entered(room, t, asPending))
              && (PricesKept(s, Entered(room, t, asPending)) <==> NoneDearer(drop, t))
  {
    hide Inv, NoEmpty, Freed, Admissible, ValidCM, Entered, Reaches, PricesKept, L.Accepts;
    FreedReached(s, room);
    LostOnly(s, room);
    FreedNone(room);
    ReachSelf(Config(room, {}));
    LostOnly(room, room);
    if L.Accepts(ListOf(if asPending then room.pending else room.queue, t.from), t, bump) {
      ValidAfter(s, room, t);
      EnteredReached(room, t, asPending);
      EnteringKeepsPrices(room, t, asPending, bump);
      AddPrices(s, room, t, asPending, bump, drop);
    }
  }

  lemma {:induction false} OutbidsExact(m: NonceMap, tx: Tx, bump: nat)
    ensures L.Accepts(m, tx, bump) <==> (tx.nonce in m ==> L.Outbids(m[tx.nonce].price, tx.price, bump))
  {
    L.AcceptsExact(m, tx, bump);
  }

  lemma {:induction false} LostOnly(s: Pool, r: Pool)
    requires Inv(s, {}) && Freed(s, r)
    ensures PricesKept(s, r)
  {
    hide Inv;
    LosingKeepsPrices(s, r);
  }

  /** What add keeps when it has made room, and when the transaction has entered. */
  lemma {:induction false} RoomThenEnter(s: Pool, n0: Nonces, room: Pool, chain: Chain, hs: seq<Hash>, t: Tx, asPending: bool)
    requires Inv(s, {}) && Inv(room, {}) && NoEmpty(room.pending) && NoEmpty(room.queue) && Freed(s, room) && room == WithoutAll(s, hs)
    requires Admissible(room, {}, t, asPending) && asPending == (t.nonce in ListOf(room.pending, t.from))
    requires ValidCM(s.cmdb, t) && t.nonce >= chain.Nonce(t.from)
    ensures var r, n1 := Entered(room, t, asPending), NoncesWithoutAll(s, n0, chain, hs);
            && Reaches(Config(s, {}), Config(room, {})) && Reaches(Config(s, {}), Config(r, {}))
            && (ClaimsLocked(s.all, s.cmdb) ==> ClaimsLocked(room.all, room.cmdb) && ClaimsLocked(r.all, r.cmdb))
            && (Tidy(s.pending, n0, chain) && Current(s.queue, chain) ==>
                  && Tidy(room.pending, n1, chain) && Current(room.queue, chain)
                  && Tidy(r.pending, n1, chain) && Current(r.queue, chain))
  {
    hide Inv, NoEmpty, Freed, Admissible, ValidCM, Entered, Reaches, ClaimsLocked, Tidy, Current, WithoutAll, NoncesWithoutAll;
    FreedReached(s, room);
    AddReached(s, room, t, asPending);
    if ClaimsLocked(s.all, s.cmdb) {
      ReachLocks(Config(s, {}), Config(room, {}));
      ReachLocks(Config(s, {}), Config(Entered(room, t, asPending), {}));
    }
    if Tidy(s.pending, n0, chain) && Current(s.queue, chain) {
      TidyWithoutAll(s, n0, chain, hs);
      TidyEntered(room, NoncesWithoutAll(s, n0, chain, hs), chain, t);
      CurrentEntered(room, chain, t, asPending);
    }
  }

  /** An account whose queue lost something in the cut was active no later than any account that has something left. */
  lemma {:induction false} CutByBeats(s: Pool, n0: Nonces, r: Pool, chain: Chain, locals: set<Addr>, lim: Limits,
    accounts: set<Addr>, reset: bool, g: Stages, beats: map<Addr, nat>)
    requires Reorganised(s, n0, r, chain, locals, lim, accounts, reset, g) && SortedBy(g.order, HeartbeatKey(beats))
    ensures LatestCutFirst(g.levelled.queue, r.queue, locals, beats)
  {
    hide Inv, Promoted, DemotedSoFar, PendingCut, F.Total, Freed, SortedBy, NotBefore;
    var q0 := g.levelled.queue;
    forall a, b | a in q0 && b in q0 && a !in locals && b !in locals && Earlier(beats, a, b) && ListOf(r.queue, a) != q0[a]
      ensures ListOf(r.queue, b) == map[]
    {
      InOrder(g.order, beats, a, b);
      PositionCut(g.levelled, r, locals, lim, g.order, g.i, g.k, a, b);
    }
  }

  /** The account active earlier comes first. */
  lemma {:induction false} InOrder(order: seq<Addr>, beats: map<Addr, nat>, a: Addr, b: Addr)
    requires SortedBy(order, HeartbeatKey(beats)) && Earlier(beats, a, b) && a in order && b in order
    ensures exists i, j :: 0 <= i < j < |order| && order[i] == a && order[j] == b
  {
    var i :| 0 <= i < |order| && order[i] == a;
    var j :| 0 <= j < |order| && order[j] == b;
    assert i != j;
  }

  /** Where one account's queue is cut, those of the accounts after it are empty. */
  lemma {:induction false} PositionCut(s: Pool, r: Pool, locals: set<Addr>, lim: Limits, order: seq<Addr>, i: nat, k: nat, a: Addr, b: Addr)
    requires QueueCut(s, r, locals, lim, order, i, k) && ListOf(r.queue, a) != ListOf(s.queue, a)
    requires exists x, y :: 0 <= x < y < |order| && order[x] == a && order[y] == b
    ensures ListOf(r.queue, b) == map[]
  {
    hide F.Total, Freed, Lowest;
    var x, y :| 0 <= x < y < |order| && order[x] == a && order[y] == b;
    FirstCut(order, i, x);
    LaterCut(order, i, y);
  }

  lemma {:induction false} FirstCut(order: seq<Addr>, i: nat, x: nat)
    requires (forall i, j :: 0 <= i < j < |order| ==> order[i] != order[j]) && x < |order| && i <= |order|
    requires NotBefore(order, i, order[x]) || (i > 0 && order[x] == order[i - 1])
    ensures x >= i - 1
  {
    assert x < i ==> order[..i][x] == order[x];
  }

  lemma {:induction false} LaterCut(order: seq<Addr>, i: nat, y: nat)
    requires (forall i, j :: 0 <= i < j < |order| ==> order[i] != order[j]) && i <= y < |order|
    ensures NotBefore(order, i, order[y])
  {
  }

  function HeartbeatKey(beats: map<Addr, nat>): Addr -> Heap.Key
  {
    (a: Addr) => Heap.Key(if a in beats then beats[a] else 0, 0)
  }

  /** The remote accounts with queued transactions, by their last activity. */
  method SortByHeartbeat(q: AccountLists, locals: set<Addr>, beats: map<Addr, nat>) returns (order: seq<Addr>)
    ensures CutOrder(q, locals, order) && SortedBy(order, HeartbeatKey(beats))
  {
    var remote := F.Listed(q.Keys - locals);
    order := Sort(remote, HeartbeatKey(beats));
    SortedListing(remote, order, q, locals);
  }
}
