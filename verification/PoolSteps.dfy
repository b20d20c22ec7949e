/**
 What the operations of the transaction pool do to its state, and why each of them keeps the
 invariant of the pool state machine.
 */
module PoolSteps {
  import opened Common
  import opened Transactions
  import opened PoolState
  import F = Fairness
  import Heap
  import S = SortedMap
  import L = TxList
  import P = PricedList

  /** The price heap holds every pooled transaction but those just discarded from it, and hashes identify
      transactions. */
  ghost predicate Priced(items: seq<Tx>, all: Lookup, unpriced: set<Hash>)
  {
    && (forall h :: h in all && h !in unpriced ==> all[h] in items)
    && (forall t :: t in items && t.hash in all ==> all[t.hash] == t)
  }

  /** The chain the pool validates against. */
  datatype Chain = Chain(nonces: map<Addr, nat>, balances: map<Addr, nat>, maxGas: nat)
  {
    function Nonce(a: Addr): (r: nat)
      ensures if a in nonces then r == nonces[a] else r == 0
    {
      if a in nonces then nonces[a] else 0
    }

    function Balance(a: Addr): (r: nat)
      ensures if a in balances then r == balances[a] else r == 0
    {
      if a in balances then balances[a] else 0
    }
  }

  /** The noncer: an account's next nonce, the chain's where nothing is known. */
  function NextNonce(nonces: map<Addr, nat>, chain: Chain, a: Addr): nat
  {
    if a in nonces then nonces[a] else chain.Nonce(a)
  }

  function Lowered(nonces: map<Addr, nat>, chain: Chain, a: Addr, n: nat): map<Addr, nat>
  {
    nonces[a := if NextNonce(nonces, chain, a) <= n then NextNonce(nonces, chain, a) else n]
  }

  function HashesOf(m: NonceMap): set<Hash>
  {
    set n | n in m :: m[n].hash
  }

  /** The part of the lookup with the given hashes. */
  function Part(all: Lookup, hs: set<Hash>): Lookup
  {
    map h | h in all && h in hs :: all[h]
  }

  // ---------- Effects on the pool state ----------

  /** A new transaction enters a list, replacing the transaction of its nonce if there is one. */
  function Entered(s: Pool, t: Tx, asPending: bool): Pool
  {
    var l := if asPending then s.pending else s.queue;
    var m := ListOf(l, t.from);
    if t.nonce in m && m[t.nonce].hash in s.all then
      var lifted := if asPending then LiftPending(s, t.from, m - {t.nonce}) else LiftQueue(s, t.from, m - {t.nonce});
      Admit(Forget(lifted, m[t.nonce].hash, true), t, asPending)
    else Admit(s, t, asPending)
  }

  /** removeTx: a pending transaction takes everything after it back to the queue. */
  function Without(s: Pool, h: Hash): Pool
  {
    if h !in s.all then s else
    var t := s.all[h];
    var p, q := ListOf(s.pending, t.from), ListOf(s.queue, t.from);
    var gone := Forget(s, h, true);
    if t.nonce in p
    then gone.(pending := SetList(s.pending, t.from, Below(p, t.nonce)), queue := AddAll(s.queue, t.from, L.Above(p, t.nonce)))
    else gone.(queue := SetList(s.queue, t.from, q - {t.nonce}))
  }

  function WithoutAll(s: Pool, hs: seq<Hash>): Pool
  {
    if hs == [] then s else Without(WithoutAll(s, hs[..|hs| - 1]), hs[|hs| - 1])
  }

  /** removeTx lowers the next nonce of the account when the transaction was pending. */
  function NoncesWithout(s: Pool, nonces: map<Addr, nat>, chain: Chain, h: Hash): map<Addr, nat>
  {
    if h in s.all && s.all[h].nonce in ListOf(s.pending, s.all[h].from)
    then Lowered(nonces, chain, s.all[h].from, s.all[h].nonce) else nonces
  }

  function NoncesWithoutAll(s: Pool, nonces: map<Addr, nat>, chain: Chain, hs: seq<Hash>): map<Addr, nat>
  {
    if hs == [] then nonces else
    var front := hs[..|hs| - 1];
    NoncesWithout(WithoutAll(s, front), NoncesWithoutAll(s, nonces, chain, front), chain, hs[|hs| - 1])
  }

  // ---------- Lemmas ----------

  lemma {:induction false} Reheaped(items: seq<Tx>, all: Lookup, unpriced: set<Hash>)
    requires Keyed(all)
    requires forall t :: multiset(items)[t] == if P.Live(all, t) && all[t.hash] == t then 1 else 0
    ensures Priced(items, all, unpriced)
  {
    forall h | h in all ensures all[h] in items {
      assert all[h] in multiset(items);
    }
    forall t | t in items && t.hash in all ensures all[t.hash] == t {
      assert t in multiset(items);
    }
  }

  lemma {:induction false} PricedShrinks(items: seq<Tx>, all: Lookup, unpriced: set<Hash>, h: Hash)
    requires Priced(items, all, unpriced)
    ensures Priced(items, all - {h}, unpriced)
  {
  }

  lemma {:induction false} PricedPut(items: seq<Tx>, r: seq<Tx>, all: Lookup, unpriced: set<Hash>, tx: Tx)
    requires Priced(items, all, unpriced) && multiset(r) == multiset(items) + multiset{tx}
    requires forall t :: t in items && t.hash == tx.hash ==> t == tx
    ensures Priced(r, all[tx.hash := tx], unpriced)
  {
    forall t ensures t in r <==> t in items || t == tx {
      assert t in r <==> t in multiset(r);
      assert t in items <==> t in multiset(items);
    }
  }

  /** The transactions of m are pooled and in limbo, filed under their nonces. */
  ghost predicate InLimbo(m: NonceMap, s: Pool, limbo: set<Hash>)
  {
    forall n :: n in m ==> m[n].nonce == n && m[n].hash in s.all && s.all[m[n].hash] == m[n] && m[n].hash in limbo
  }

  lemma {:induction false} DroppedNone(cmdb: CMdb, all: Lookup)
    ensures HashesOf(map[]) == {} && ReleaseSet(cmdb, Part(all, HashesOf(map[]))) == cmdb
  {
    assert Part(all, {}) == map[];
    ReleaseSetNone(cmdb);
  }

  lemma {:induction false} DropStep(s: Pool, lim: set<Hash>, rest: NonceMap, n: nat, release: bool)
    requires Inv(s, lim) && InLimbo(rest, s, lim) && n in rest
    ensures var h := rest[n].hash;
            && h in s.all && h in lim
            && InLimbo(rest - {n}, Forget(s, h, release), lim - {h})
            && HashesOf(rest) == HashesOf(rest - {n}) + {h}
            && ReleaseSet(Released(s.cmdb, s.all[h]), Part(s.all - {h}, HashesOf(rest - {n}))) == ReleaseSet(s.cmdb, Part(s.all, HashesOf(rest)))
  {
    hide Inv, Released, ReleaseSet, Tx.Slots;
    var h := rest[n].hash;
    HashesWithout(rest, n);
    assert h !in HashesOf(rest - {n});
    var gone := Part(s.all - {h}, HashesOf(rest - {n}));
    assert Part(s.all, HashesOf(rest)) == gone[h := s.all[h]];
    ClaimKnown(s, lim, h);
    ReleaseBoth(s.cmdb, gone, h, s.all[h]);
  }

  lemma {:induction false} ClaimKnown(s: Pool, limbo: set<Hash>, h: Hash)
    requires Inv(s, limbo) && h in s.all
    ensures KnownId(s.all[h]) && Claim(s.all[h]) in s.cmdb
  {
    hide SumSlots, Filed, Placed, UniqueNonces;
  }

  lemma {:induction false} HashesWithout(m: NonceMap, n: nat)
    requires n in m
    ensures HashesOf(m) == HashesOf(m - {n}) + {m[n].hash}
  {
    forall h | h in HashesOf(m) ensures h in HashesOf(m - {n}) + {m[n].hash} {
      var k :| k in m && m[k].hash == h;
      assert k != n ==> k in m - {n} && (m - {n})[k] == m[k];
    }
    forall h | h in HashesOf(m - {n}) ensures h in HashesOf(m) {
      var k :| k in m - {n} && (m - {n})[k].hash == h;
      assert k in m;
    }
  }

  lemma {:induction false} ReleaseBoth(cmdb: CMdb, gone: Lookup, h: Hash, t: Tx)
    requires KnownId(t) && Claim(t) in cmdb && h !in gone
    ensures ReleaseSet(Released(cmdb, t), gone) == ReleaseSet(cmdb, gone[h := t])
  {
    assert ClaimsOf(gone[h := t]) == ClaimsOf(gone) + {Claim(t)} by {
      ClaimsWith(gone, h, t);
    }
  }

  lemma {:induction false} ClaimsWith(gone: Lookup, h: Hash, t: Tx)
    requires h !in gone
    ensures ClaimsOf(gone[h := t]) == ClaimsOf(gone) + {Claim(t)}
  {
    var g := gone[h := t];
    forall c | c in ClaimsOf(gone) + {Claim(t)} ensures c in ClaimsOf(g) {
      if c == Claim(t) {
        assert h in g;
      } else {
        var k :| k in gone && Claim(gone[k]) == c;
        assert k in g && g[k] == gone[k];
      }
    }
  }

  /** A transaction in limbo finds its nonce free in both lists. */
  lemma {:induction false} LimboFree(s: Pool, limbo: set<Hash>, h: Hash)
    requires Inv(s, limbo) && h in limbo
    ensures h in s.all
    ensures s.all[h].nonce !in ListOf(s.queue, s.all[h].from) && s.all[h].nonce !in ListOf(s.pending, s.all[h].from)
  {
    hide SumSlots, ClaimsKnown;
    var t := s.all[h];
    assert t.nonce in ListOf(s.queue, t.from) ==> FiledAs(s.queue[t.from][t.nonce], t.from, t.nonce, s.all);
    assert t.nonce in ListOf(s.pending, t.from) ==> FiledAs(s.pending[t.from][t.nonce], t.from, t.nonce, s.all);
  }

  /** A new transaction may enter the given list: its nonce is free outside that list. */
  ghost predicate Admissible(s: Pool, limbo: set<Hash>, t: Tx, asPending: bool)
  {
    && t.hash !in s.all
    && KnownId(t)
    && (forall h :: h in s.all && s.all[h].from == t.from && s.all[h].nonce == t.nonce ==>
          In(if asPending then s.pending else s.queue, s.all[h]))
  }

  lemma {:induction false} ReplacedIn(l: AccountLists, t: Tx)
    ensures Into(l[t.from := ListOf(l, t.from) - {t.nonce}], t) == Into(l, t)
  {
    assert (ListOf(l, t.from) - {t.nonce})[t.nonce := t] == ListOf(l, t.from)[t.nonce := t];
  }

  /** Replacing a listed transaction, all at once. */
  lemma {:induction false} EnteredIs(s: Pool, t: Tx, asPending: bool)
    requires var l := ListOf(if asPending then s.pending else s.queue, t.from);
             t.nonce in l && l[t.nonce].hash in s.all && s.all[l[t.nonce].hash] == l[t.nonce]
    ensures var u := ListOf(if asPending then s.pending else s.queue, t.from)[t.nonce];
            Entered(s, t, asPending) == Pool(if asPending then Into(s.pending, t) else s.pending, if asPending then s.queue else Into(s.queue, t),
              (s.all - {u.hash})[t.hash := t], s.slots - u.Slots() + t.Slots(), Locked(Released(s.cmdb, u), t))
  {
    hide Into, Tx.Slots, Released, Locked;
    ReplacedIn(s.pending, t);
    ReplacedIn(s.queue, t);
  }

  lemma {:induction false} ReplacedPooled(s: Pool, limbo: set<Hash>, t: Tx)
    requires Inv(s, limbo) && t.nonce in ListOf(s.queue, t.from)
    ensures ListOf(s.queue, t.from)[t.nonce].hash in s.all && Keyed(s.all)
    ensures s.all[ListOf(s.queue, t.from)[t.nonce].hash] == ListOf(s.queue, t.from)[t.nonce]
  {
    hide SumSlots;
    assert FiledAs(s.queue[t.from][t.nonce], t.from, t.nonce, s.all);
  }

  lemma {:induction false} EnteredKeeps(s: Pool, limbo: set<Hash>, t: Tx, asPending: bool)
    requires Inv(s, limbo) && Admissible(s, limbo, t, asPending)
    ensures Inv(Entered(s, t, asPending), limbo)
  {
    var l := if asPending then s.pending else s.queue;
    var m := ListOf(l, t.from);
    if t.nonce in m {
      ReplaceKeeps(s, limbo, t, asPending);
    } else {
      hide SumSlots, ClaimsKnown, Placed;
      assert Fresh(s, t);
      AdmitKeeps(s, limbo, t, asPending);
    }
  }

  lemma {:induction false} ReplaceKeeps(s: Pool, limbo: set<Hash>, t: Tx, asPending: bool)
    requires Inv(s, limbo) && Admissible(s, limbo, t, asPending)
    requires t.nonce in ListOf(if asPending then s.pending else s.queue, t.from)
    ensures Inv(Entered(s, t, asPending), limbo)
  {
    hide SumSlots, ClaimsKnown, Placed;
    var l := if asPending then s.pending else s.queue;
    var m := l[t.from];
    var u := m[t.nonce];
    assert FiledAs(u, t.from, t.nonce, s.all);
    var kept := m - {t.nonce};
    assert TakenOut(kept, m) == {u.hash};
    var lifted := if asPending then LiftPending(s, t.from, kept) else LiftQueue(s, t.from, kept);
    if asPending {
      LiftPendingKeeps(s, limbo, t.from, kept);
    } else {
      LiftQueueKeeps(s, limbo, t.from, kept);
    }
    ForgetKeeps(lifted, limbo + {u.hash}, u.hash, true);
    var gone := Forget(lifted, u.hash, true);
    assert limbo + {u.hash} - {u.hash} == limbo;
    assert Fresh(gone, t);
    AdmitKeeps(gone, limbo, t, asPending);
  }

  /** Requeueing one transaction of an account leaves the rest to be added. */
  lemma {:induction false} AddStep(q: AccountLists, a: Addr, rest: NonceMap, n: nat)
    requires n in rest && rest[n].from == a && rest[n].nonce == n
    ensures AddAll(Into(q, rest[n]), a, rest - {n}) == AddAll(q, a, rest)
  {
    var m := ListOf(q, a);
    assert m[n := rest[n]] + (rest - {n}) == m + rest;
    if rest - {n} == map[] {
      assert forall k :: k in rest ==> k == n || k in rest - {n};
      assert m + rest == m[n := rest[n]];
    }
  }

  lemma {:induction false} RequeueStep(s: Pool, lim: set<Hash>, rest: NonceMap, n: nat)
    requires Inv(s, lim) && InLimbo(rest, s, lim) && n in rest
    ensures InLimbo(rest - {n}, Requeue(s, rest[n].hash), lim - {rest[n].hash})
    ensures InLimbo(rest - {n}, Promote(s, rest[n].hash), lim - {rest[n].hash})
    ensures HashesOf(rest) == HashesOf(rest - {n}) + {rest[n].hash}
  {
    hide Inv;
    HashesWithout(rest, n);
  }

  /** A pooled transaction whose nonce is in an account's list is that very entry. */
  lemma {:induction false} ListedAs(s: Pool, limbo: set<Hash>, h: Hash)
    requires Inv(s, limbo) && h in s.all
    ensures var t := s.all[h];
            && (t.nonce in ListOf(s.pending, t.from) ==> ListOf(s.pending, t.from)[t.nonce] == t)
            && (t.nonce in ListOf(s.queue, t.from) ==> ListOf(s.queue, t.from)[t.nonce] == t)
            && (t.nonce in ListOf(s.pending, t.from) || t.nonce in ListOf(s.queue, t.from) || h in limbo)
            && t.hash == h
  {
    hide SumSlots, ClaimsKnown;
    var t := s.all[h];
    assert t.nonce in ListOf(s.pending, t.from) ==> FiledAs(s.pending[t.from][t.nonce], t.from, t.nonce, s.all);
    assert t.nonce in ListOf(s.queue, t.from) ==> FiledAs(s.queue[t.from][t.nonce], t.from, t.nonce, s.all);
  }

  /** An account's list is filed under its nonces. */
  lemma {:induction false} ListFiled(s: Pool, limbo: set<Hash>, a: Addr)
    requires Inv(s, limbo)
    ensures forall n :: n in ListOf(s.pending, a) ==> FiledAs(ListOf(s.pending, a)[n], a, n, s.all)
    ensures forall n :: n in ListOf(s.queue, a) ==> FiledAs(ListOf(s.queue, a)[n], a, n, s.all)
  {
    hide SumSlots, ClaimsKnown, UniqueNonces, Placed, Keyed;
  }

  /** removeTx between taking a pending transaction out and requeueing what followed it. */
  function Interrupted(s: Pool, h: Hash): Pool
    requires h in s.all
  {
    var t := s.all[h];
    Forget(s, h, true).(pending := SetList(s.pending, t.from, Below(ListOf(s.pending, t.from), t.nonce)))
  }

  lemma {:induction false} RemovedPending(s: Pool, h: Hash)
    requires Inv(s, {}) && h in s.all && s.all[h].nonce in ListOf(s.pending, s.all[h].from)
    ensures var above := L.Above(ListOf(s.pending, s.all[h].from), s.all[h].nonce);
            && Inv(Interrupted(s, h), HashesOf(above))
            && InLimbo(above, Interrupted(s, h), HashesOf(above))
            && forall n :: n in above ==> above[n].from == s.all[h].from
  {
    hide Inv, TakenOut, Below, L.Above, HashesOf, InLimbo, Tx.Slots, Released;
    var t := s.all[h];
    var p := s.pending[t.from];
    var below, above := Below(p, t.nonce), L.Above(p, t.nonce);
    ListedAs(s, {}, h);
    SplitAt(p, t.nonce);
    LiftPendingKeeps(s, {}, t.from, below);
    ListFiled(s, {}, t.from);
    RestFiled(p, s.all, t.from, t.nonce, Interrupted(s, h));
    var lifted := LiftPending(s, t.from, below);
    assert {} + TakenOut(below, p) == TakenOut(below, p);
    ForgetKeeps(lifted, TakenOut(below, p), h, true);
    assert TakenOut(below, p) - {h} == HashesOf(above);
    DropEmptyKeeps(Forget(lifted, h, true), HashesOf(above), t.from);
    assert s.pending[t.from := below] - {t.from} == s.pending - {t.from};
  }

  lemma {:induction false} SplitAt(p: NonceMap, n: nat)
    requires n in p
    ensures TakenOut(Below(p, n), p) == HashesOf(L.Above(p, n)) + {p[n].hash} && PartOf(Below(p, n), p)
  {
    TakenWith(Below(p, n), p, L.Above(p, n), n);
  }

  lemma {:induction false} RestFiled(p: NonceMap, all: Lookup, a: Addr, n: nat, s: Pool)
    requires (forall k :: k in p ==> FiledAs(p[k], a, k, all)) && n in p && s.all == all - {p[n].hash}
    ensures p[n].hash !in HashesOf(L.Above(p, n)) && InLimbo(L.Above(p, n), s, HashesOf(L.Above(p, n)))
    ensures forall k :: k in L.Above(p, n) ==> L.Above(p, n)[k].from == a
  {
    var above := L.Above(p, n);
    forall k | k in above ensures above[k].hash != p[n].hash && above[k].hash in HashesOf(above) {
      assert FiledAs(p[k], a, k, all) && FiledAs(p[n], a, n, all);
    }
  }

  lemma {:induction false} TakenWith(kept: NonceMap, m: NonceMap, rest: NonceMap, n: nat)
    requires PartOf(kept, m) && PartOf(rest, m) && n in m && n !in kept && n !in rest
    requires forall k :: k in m ==> k == n || k in kept || k in rest
    requires forall k :: k in kept ==> k !in rest
    ensures TakenOut(kept, m) == HashesOf(rest) + {m[n].hash}
  {
    forall h | h in HashesOf(rest) ensures h in TakenOut(kept, m) {
      var k :| k in rest && rest[k].hash == h;
      assert k in m && k !in kept;
    }
  }

  lemma {:induction false} RemovedQueued(s: Pool, h: Hash)
    requires Inv(s, {}) && h in s.all && s.all[h].nonce !in ListOf(s.pending, s.all[h].from)
    ensures Inv(Without(s, h), {})
  {
    hide Inv;
    var t := s.all[h];
    ListedAs(s, {}, h);
    var q := s.queue[t.from];
    var kept := q - {t.nonce};
    LiftQueueKeeps(s, {}, t.from, kept);
    assert TakenOut(kept, q) == {h};
    var lifted := LiftQueue(s, t.from, kept);
    assert {} + {h} == {h} && {h} - {h} == {};
    ForgetKeeps(lifted, {h}, h, true);
    DropEmptyKeeps(Forget(lifted, h, true), {}, t.from);
    assert s.queue[t.from := kept] - {t.from} == s.queue - {t.from};
  }

  /** Pending lists are never empty: an account without pending transactions has no list. */
  ghost predicate NoEmpty(l: AccountLists)
  {
    forall a :: a in l ==> l[a] != map[]
  }

  lemma {:induction false} SetListNoEmpty(l: AccountLists, a: Addr, m: NonceMap)
    requires NoEmpty(l)
    ensures NoEmpty(SetList(l, a, m))
  {
  }

  lemma {:induction false} InvKeyed(s: Pool, limbo: set<Hash>)
    requires Inv(s, limbo)
    ensures Keyed(s.all)
  {
  }

  lemma {:induction false} InLimboAt(m: NonceMap, s: Pool, limbo: set<Hash>, n: nat)
    requires InLimbo(m, s, limbo) && n in m
    ensures m[n].nonce == n && m[n].hash in s.all && s.all[m[n].hash] == m[n] && m[n].hash in limbo
  {
  }

  lemma {:induction false} RequeuedNone(q: AccountLists, a: Addr)
    ensures HashesOf(map[]) == {} && AddAll(q, a, map[]) == q
  {
  }

  function HashSeq(txs: seq<Tx>): seq<Hash>
  {
    seq(|txs|, i requires 0 <= i < |txs| => txs[i].hash)
  }

  function HashSet(txs: seq<Tx>): set<Hash>
  {
    set t | t in txs :: t.hash
  }

  /** Entries leave the price heap: stale ones, and discarded ones that are still pooled. */
  lemma {:induction false} PricedWithout(items: seq<Tx>, r: seq<Tx>, drop: seq<Tx>, all: Lookup)
    requires Priced(items, all, {}) && P.Without(r, items, multiset(drop), all) && Keyed(all)
    ensures Priced(r, all, HashSet(drop))
    ensures forall t :: t in r || t in drop ==> t in items
    ensures forall h :: h in all && h !in HashSet(drop) ==> all[h] in r
    ensures forall t :: t in drop && t.hash in all ==> all[t.hash] == t
  {
    hide P.Without;
    forall t ensures (t in r || t in drop ==> t in items) && (t in items && P.Live(all, t) ==> t in r || t in drop) {
      P.WithoutMember(r, items, multiset(drop), all, t);
      assert t in multiset(drop) <==> t in drop;
    }
    forall h | h in all ensures all[h] in r || h in HashSet(drop) {
      assert all[h] in items;
    }
  }

  /** Once everything discarded has left the pool, the heap covers the pool again. */
  lemma {:induction false} PricedAgain(items: seq<Tx>, all: Lookup, unpriced: set<Hash>)
    requires Priced(items, all, unpriced) && all.Keys !! unpriced
    ensures Priced(items, all, {})
  {
  }

  /** Cheapest in the heap is cheapest in the pool. */
  lemma {:induction false} CheapestPooled(items: seq<Tx>, all: Lookup, price: nat)
    requires Priced(items, all, {}) && Keyed(all)
    ensures (exists t :: t in items && P.Live(all, t)) <==> all != map[]
    ensures (forall t :: t in items && P.Live(all, t) ==> price <= t.price) <==> (forall h :: h in all ==> price <= all[h].price)
  {
    if all != map[] {
      var h :| h in all;
      assert all[h] in items;
    }
  }

  lemma {:induction false} AdmissibleAfter(s: Pool, r: Pool, t: Tx, drop: seq<Tx>)
    requires Inv(s, {}) && Inv(r, {}) && t.hash !in s.all && ValidCM(s.cmdb, t) && Dropped(s.all, r.all, drop)
    ensures Admissible(r, {}, t, t.nonce in ListOf(r.pending, t.from))
  {
    hide Inv, Admissible, ValidCM;
    AdmissibleNow(s, r, t);
  }

  /** A transaction that passed validateCM may enter once some transactions have made room. */
  lemma {:induction false} AdmissibleNow(s: Pool, r: Pool, t: Tx)
    requires Inv(s, {}) && Inv(r, {}) && t.hash !in s.all && ValidCM(s.cmdb, t)
    requires forall h :: h in r.all ==> h in s.all && r.all[h] == s.all[h]
    ensures Admissible(r, {}, t, t.nonce in ListOf(r.pending, t.from))
  {
    hide Inv;
    forall h | h in r.all
      ensures r.all[h].from == t.from && r.all[h].nonce == t.nonce ==>
                In(if t.nonce in ListOf(r.pending, t.from) then r.pending else r.queue, r.all[h])
    {
      ListedAs(r, {}, h);
    }
  }

  lemma {:induction false} WithoutStep(s: Pool, hs: seq<Hash>, k: nat)
    requires k < |hs|
    ensures WithoutAll(s, hs[..k + 1]) == Without(WithoutAll(s, hs[..k]), hs[k])
  {
    assert hs[..k + 1][..k] == hs[..k];
  }

  lemma {:induction false} NoncesStep(s: Pool, nonces: map<Addr, nat>, chain: Chain, hs: seq<Hash>, k: nat)
    requires k < |hs|
    ensures NoncesWithoutAll(s, nonces, chain, hs[..k + 1])
         == NoncesWithout(WithoutAll(s, hs[..k]), NoncesWithoutAll(s, nonces, chain, hs[..k]), chain, hs[k])
  {
    hide WithoutAll, NoncesWithout;
    assert hs[..k + 1][..k] == hs[..k];
  }

  lemma {:induction false} NoncesNone(s: Pool, nonces: map<Addr, nat>, chain: Chain, hs: seq<Hash>)
    ensures NoncesWithoutAll(s, nonces, chain, hs[..0]) == nonces
  {
  }

  lemma {:induction false} WithoutEmpty(s: Pool, nonces: map<Addr, nat>, chain: Chain)
    ensures WithoutAll(s, HashSeq([])) == s && NoncesWithoutAll(s, nonces, chain, HashSeq([])) == nonces
  {
  }

  lemma {:induction false} AdmissibleNew(s: Pool, limbo: set<Hash>, t: Tx, asPending: bool)
    requires Admissible(s, limbo, t, asPending)
    ensures t.hash !in s.all
  {
  }

  lemma {:induction false} WithoutNone(s: Pool, txs: seq<Tx>)
    ensures WithoutAll(s, HashSeq(txs)[..0]) == s && s.all == s.all - HashSet(txs[..0])
  {
    assert HashSet(txs[..0]) == {};
  }

  lemma {:induction false} WithoutLookup(s: Pool, h: Hash)
    ensures Without(s, h).all == s.all - {h}
  {
  }

  /** What makes room: pooled remote transactions, no more of them than needed, and enough of them unless
      only local ones remain. None of the remote ones kept is cheaper, or as cheap with a higher nonce. */
  ghost predicate Displaced(all: Lookup, locals: set<Addr>, drop: seq<Tx>, needed: int)
  {
    && (forall t :: t in drop ==> t.hash in all && all[t.hash] == t && t.from !in locals)
    && (drop != [] ==> P.SlotsOf(drop[..|drop| - 1]) < needed)
    && (P.SlotsOf(drop) >= needed || forall h :: h in all && h !in HashSet(drop) ==> all[h].from in locals)
    && forall t, h :: t in drop && h in all && h !in HashSet(drop) && all[h].from !in locals ==>
         t.price < all[h].price || (t.price == all[h].price && t.nonce >= all[h].nonce)
  }

  /** The transactions are pooled. */
  ghost predicate Pooled(drop: seq<Tx>, all: Lookup)
  {
    forall t :: t in drop ==> t.hash in all && all[t.hash] == t
  }

  /** The transactions were pooled, and exactly they have left. */
  ghost predicate Dropped(before: Lookup, all: Lookup, drop: seq<Tx>)
  {
    Pooled(drop, before) && all == before - HashSet(drop)
  }

  /** None of the transactions has the account and nonce of tx and a higher price. */
  ghost predicate NoneDearer(drop: seq<Tx>, tx: Tx)
  {
    forall t :: t in drop && t.from == tx.from && t.nonce == tx.nonce ==> t.price <= tx.price
  }

  lemma {:induction false} DisplacedPooled(all: Lookup, locals: set<Addr>, drop: seq<Tx>, needed: int)
    requires Displaced(all, locals, drop, needed)
    ensures Pooled(drop, all)
  {
  }

  lemma {:induction false} NothingDropped(all: Lookup)
    ensures Dropped(all, all, [])
  {
  }

  lemma {:induction false} HashSetStep(txs: seq<Tx>, k: nat)
    requires k < |txs|
    ensures HashSet(txs[..k + 1]) == HashSet(txs[..k]) + {txs[k].hash}
  {
    assert txs[..k + 1] == txs[..k] + [txs[k]];
  }

  lemma {:induction false} IntoNoEmpty(l: AccountLists, t: Tx)
    requires NoEmpty(l)
    ensures NoEmpty(Into(l, t))
  {
    assert t.nonce in ListOf(l, t.from)[t.nonce := t];
  }

  lemma {:induction false} AddAllNoEmpty(l: AccountLists, a: Addr, m: NonceMap)
    requires NoEmpty(l)
    ensures NoEmpty(AddAll(l, a, m))
  {
    if n :| n in m {
      assert n in ListOf(l, a) + m;
    }
  }

  lemma {:induction false} WithoutNoEmpty(s: Pool, h: Hash)
    requires NoEmpty(s.pending) && NoEmpty(s.queue)
    ensures NoEmpty(Without(s, h).pending) && NoEmpty(Without(s, h).queue)
  {
    hide NoEmpty, Released, Tx.Slots, SetList, AddAll, Below, L.Above;
    if h in s.all {
      var t := s.all[h];
      var p, q := ListOf(s.pending, t.from), ListOf(s.queue, t.from);
      SetListNoEmpty(s.pending, t.from, Below(p, t.nonce));
      AddAllNoEmpty(s.queue, t.from, L.Above(p, t.nonce));
      SetListNoEmpty(s.queue, t.from, q - {t.nonce});
    }
  }

  lemma {:induction false} WithoutAllNoEmpty(s: Pool, hs: seq<Hash>)
    requires NoEmpty(s.pending) && NoEmpty(s.queue)
    ensures NoEmpty(WithoutAll(s, hs).pending) && NoEmpty(WithoutAll(s, hs).queue)
  {
    hide NoEmpty, Without;
    if hs != [] {
      WithoutAllNoEmpty(s, hs[..|hs| - 1]);
      WithoutNoEmpty(WithoutAll(s, hs[..|hs| - 1]), hs[|hs| - 1]);
    }
  }

  lemma {:induction false} EnteredNoEmpty(s: Pool, t: Tx, asPending: bool)
    requires NoEmpty(s.pending) && NoEmpty(s.queue)
    ensures NoEmpty(Entered(s, t, asPending).pending) && NoEmpty(Entered(s, t, asPending).queue)
  {
    hide NoEmpty, Released, Locked, Tx.Slots, Into;
    IntoNoEmpty(s.pending, t);
    IntoNoEmpty(s.queue, t);
    ReplacedIn(s.pending, t);
    ReplacedIn(s.queue, t);
  }

  // ---------- Slots ----------

  /** The slots of a pool are those of a part and those of the rest. */
  lemma {:induction false} SumSlotsPart(all: Lookup, hs: set<Hash>)
    ensures SumSlots(all) == SumSlots(all - hs) + SumSlots(Part(all, hs))
    decreases |all|
  {
    hide Tx.Slots, SumSlots, Part;
    var part := Part(all, hs);
    if part == map[] {
      PartMissing(all, hs);
      NoSlots();
    } else {
      var h :| h in part;
      PartWithout(all, hs, h);
      SumSlotsPart(all - {h}, hs);
      SumSlotsRemove(all, h);
      SumSlotsRemove(part, h);
    }
  }

  lemma {:induction false} PartMissing(all: Lookup, hs: set<Hash>)
    requires Part(all, hs) == map[]
    ensures all - hs == all
  {
    assert forall h :: h in all ==> h in Part(all, hs) || h !in hs;
  }

  lemma {:induction false} PartWithout(all: Lookup, hs: set<Hash>, h: Hash)
    requires h in Part(all, hs)
    ensures h in all && all[h] == Part(all, hs)[h] && |all - {h}| < |all|
    ensures all - {h} - hs == all - hs && Part(all - {h}, hs) == Part(all, hs) - {h}
  {
    assert (all - {h}).Keys == all.Keys - {h};
  }

  lemma {:induction false} NoSlots()
    ensures SumSlots(map[]) == 0
  {
  }

  /** What leaves frees its slots, each transaction once. */
  lemma {:induction false} SlotsFreed(s: Pool, r: Pool, hs: set<Hash>)
    requires Inv(s, {}) && Inv(r, {}) && r.all == s.all - hs
    ensures r.slots == s.slots - SumSlots(Part(s.all, hs))
  {
    hide SumSlots, Part, Filed, Placed, ClaimsKnown, UniqueNonces;
    SumSlotsPart(s.all, hs);
  }

  lemma {:induction false} NoDuplicatesMore(front: seq<Tx>, t: Tx)
    ensures NoDuplicates(front + [t]) <==> NoDuplicates(front) && t !in front
  {
    var drop := front + [t];
    if NoDuplicates(drop) {
      forall i, j | 0 <= i < j < |front| ensures front[i] != front[j] {
        assert drop[i] != drop[j];
      }
      forall i | 0 <= i < |front| ensures front[i] != t {
        assert drop[i] != drop[|front|];
      }
    }
  }

  /** There are at least as many slots as transactions. */
  lemma {:induction false} SlotsAtLeast(all: Lookup)
    ensures SumSlots(all) >= |all|
    decreases |all|
  {
    hide SumSlots;
    if all == map[] {
    } else {
      var h :| h in all;
      assert (all - {h}).Keys == all.Keys - {h};
      SlotsAtLeast(all - {h});
      SumSlotsRemove(all, h);
    }
  }

  /** A full pool never asks for a negative number of slots. */
  lemma {:induction false} RoomNeeded(s: Pool, t: Tx, limit: nat)
    requires Inv(s, {}) && |s.all| >= limit
    ensures s.slots - limit + t.Slots() > 0
  {
    hide SumSlots, Tx.Slots, Filed, Placed, ClaimsKnown, UniqueNonces;
    SlotsAtLeast(s.all);
  }

  /** The entries dropped count at least what they free, and exactly that if and only if none is dropped twice. */
  lemma {:induction false} SlotsCounted(all: Lookup, drop: seq<Tx>)
    requires forall t :: t in drop ==> t.hash in all && all[t.hash] == t
    ensures SumSlots(Part(all, HashSet(drop))) <= P.SlotsOf(drop)
    ensures SumSlots(Part(all, HashSet(drop))) == P.SlotsOf(drop) <==> NoDuplicates(drop)
  {
    hide Tx.Slots, SumSlots, Part, HashSet, NoDuplicates;
    if drop == [] {
      NothingCounted(all);
    } else {
      var front, t := drop[..|drop| - 1], drop[|drop| - 1];
      SlotsCounted(all, front);
      assert drop == front + [t];
      NoDuplicatesMore(front, t);
      PartMore(all, front, t);
    }
  }

  lemma {:induction false} NothingCounted(all: Lookup)
    ensures SumSlots(Part(all, HashSet([]))) == 0 && NoDuplicates<Tx>([])
  {
    assert Part(all, HashSet([])) == map[];
  }

  lemma {:induction false} PartMore(all: Lookup, front: seq<Tx>, t: Tx)
    requires forall u :: u in front + [t] ==> u.hash in all && all[u.hash] == u
    ensures SumSlots(Part(all, HashSet(front + [t]))) == SumSlots(Part(all, HashSet(front))) + if t in front then 0 else t.Slots()
  {
    hide Tx.Slots, SumSlots;
    var part := Part(all, HashSet(front));
    assert HashSet(front + [t]) == HashSet(front) + {t.hash};
    if t in front {
      assert HashSet(front + [t]) == HashSet(front);
    } else {
      assert t in front + [t];
      forall u | u in front ensures u.hash != t.hash {
        assert u in front + [t];
      }
      assert Part(all, HashSet(front + [t])) == part[t.hash := t] && part[t.hash := t] - {t.hash} == part;
      SumSlotsRemove(part[t.hash := t], t.hash);
    }
  }

  /** No live entry is in the price heap twice. */
  ghost predicate OnceEach(items: seq<Tx>, all: Lookup)
  {
    forall t :: P.Live(all, t) ==> multiset(items)[t] <= 1
  }

  /** A new transaction gets into the heap twice exactly when a stale entry of it is still there. */
  lemma {:induction false} OnceEachPut(items: seq<Tx>, r: seq<Tx>, all: Lookup, tx: Tx)
    requires OnceEach(items, all) && multiset(r) == multiset(items) + multiset{tx} && tx.hash !in all
    requires forall t :: t in items && t.hash == tx.hash ==> t == tx
    ensures OnceEach(r, all[tx.hash := tx]) <==> tx !in items
  {
    var now := all[tx.hash := tx];
    if tx in items {
      assert tx in multiset(items) && P.Live(now, tx) && multiset(r)[tx] >= 2;
    } else {
      forall t | P.Live(now, t) ensures multiset(r)[t] <= 1 {
        assert t in items <==> t in multiset(items);
        assert t.hash != tx.hash ==> P.Live(all, t);
      }
    }
  }

  /** left is the price heap just before tx is put there to give now: what it was at first, or rid of stale entries and
      rebuilt. An entry of tx in it, which is stale, was there at first. */
  ghost predicate HeapBefore(items: seq<Tx>, left: seq<Tx>, now: seq<Tx>, tx: Tx, changed: bool)
  {
    multiset(now) == multiset(left) + multiset{tx} && (tx in left ==> tx in items) && (!changed ==> left == items)
  }

  lemma {:induction false} OnceEachLess(items: seq<Tx>, all: Lookup, left: Lookup)
    requires OnceEach(items, all) && left.Keys <= all.Keys
    ensures OnceEach(items, left)
  {
  }

  lemma {:induction false} OnceEachRebuilt(items: seq<Tx>, all: Lookup)
    requires forall t :: multiset(items)[t] == if P.Live(all, t) && all[t.hash] == t then 1 else 0
    ensures OnceEach(items, all)
  {
  }

  lemma {:induction false} OnceEachStill(items: seq<Tx>, left: seq<Tx>, out: seq<Tx>, all: Lookup)
    requires OnceEach(items, all) && P.Without(left, items, multiset(out), all)
    ensures OnceEach(left, all)
  {
    forall t | P.Live(all, t) ensures multiset(left)[t] <= 1 {
      assert multiset(left)[t] + multiset(out)[t] <= multiset(items)[t];
    }
  }

  /** The room needed is made, or only local transactions remain, when no live entry was in the heap twice. */
  lemma {:induction false} RoomMade(s: Pool, r: Pool, items: seq<Tx>, left: seq<Tx>, locals: set<Addr>, drop: seq<Tx>, needed: int)
    requires Inv(s, {}) && Inv(r, {}) && r.all == s.all - HashSet(drop) && Displaced(s.all, locals, drop, needed)
    requires P.Without(left, items, multiset(drop), s.all) && OnceEach(items, s.all)
    ensures s.slots - r.slots >= needed || forall h :: h in r.all ==> r.all[h].from in locals
  {
    hide Inv, P.Without, SumSlots, Part, P.SlotsOf, PriceKey, Heap.Leq;
    P.DropDistinct(left, items, drop, s.all);
    SlotsFreed(s, r, HashSet(drop));
    SlotsCounted(s.all, drop);
  }

  lemma {:induction false} EnteredSlots(s: Pool, t: Tx, asPending: bool)
    ensures Entered(s, t, asPending).slots <= s.slots + t.Slots()
    ensures forall h :: h in Entered(s, t, asPending).all ==>
              h == t.hash || (h in s.all && Entered(s, t, asPending).all[h] == s.all[h])
  {
    hide Released, Locked;
  }

  /** How a transfer gets into the heap twice: it is removed while its entry stays in the heap, passes the commitment
      check again because its coin was given back, and is put into the heap once more. */
  lemma {:induction false} TwiceInHeap(s: Pool, items: seq<Tx>, r: seq<Tx>, t: Tx)
    requires Inv(s, {}) && t.hash in s.all && s.all[t.hash] == t && t.id == 0 && t.cmS !in s.cmdb && t.cmR !in s.cmdb
    requires Priced(items, s.all, {}) && OnceEach(items, s.all) && multiset(r) == multiset(items) + multiset{t}
    ensures var gone := Without(s, t.hash);
            && t.hash !in gone.all && ValidCM(gone.cmdb, t) && Priced(items, gone.all, {}) && OnceEach(items, gone.all)
            && !OnceEach(r, gone.all[t.hash := t])
  {
    hide Inv, Tx.Slots;
    ClaimKnown(s, {}, t.hash);
    assert t in multiset(items);
    assert multiset(r)[t] >= 2 && P.Live(Without(s, t.hash).all[t.hash := t], t);
  }

  /** A transfer for the instance below: its price is its hash, and it spends the coin of that number. */
  function SmallTransfer(h: nat): Tx
  {
    Tx(h, h, 0, h, 0, 0, 1, 0, 0, h, 10 + h, 20 + h)
  }

  const FOUR_POOLED: Lookup :=
    map[1 := SmallTransfer(1), 2 := SmallTransfer(2), 3 := SmallTransfer(3), 4 := SmallTransfer(4)]
  const FOUR_PRICED := [SmallTransfer(1), SmallTransfer(2), SmallTransfer(3), SmallTransfer(4)]
  const FIVE_PRICED := [SmallTransfer(1)] + FOUR_PRICED

  /** With the cheapest of four transfers twice in the heap, as it comes about that way, two slots are counted where one
      is freed. Four entries are enough for the first removal not to rebuild the heap. */
  lemma {:induction false} CountedTwice()
    ensures Heap.IsHeap(FOUR_PRICED, PriceKey) && Priced(FOUR_PRICED, FOUR_POOLED, {}) && OnceEach(FOUR_PRICED, FOUR_POOLED)
    ensures 1 <= |FOUR_PRICED| / 4 && multiset(FIVE_PRICED) == multiset(FOUR_PRICED) + multiset{SmallTransfer(1)}
    ensures Heap.IsHeap(FIVE_PRICED, PriceKey) && Priced(FIVE_PRICED, FOUR_POOLED, {})
    ensures var drop := [SmallTransfer(1), SmallTransfer(1)];
            Displaced(FOUR_POOLED, {}, drop, 2) && SumSlots(Part(FOUR_POOLED, HashSet(drop))) == 1
  {
    hide SumSlots, Displaced, Priced, OnceEach, Heap.IsHeap, SmallTransfer, HashSet, Part;
    FourPriced();
    FivePriced();
    TwiceDisplaced();
    OneSlot(FOUR_POOLED, SmallTransfer(1));
    SmallSlots(1);
  }

  lemma {:induction false} SmallSlots(h: nat)
    ensures SmallTransfer(h).Slots() == 1 && SmallTransfer(h).hash == h
  {
  }

  lemma {:induction false} AscendingHeap(items: seq<Tx>, prices: seq<nat>)
    requires |items| == |prices| && forall i :: 0 <= i < |items| ==> items[i] == SmallTransfer(prices[i])
    requires forall i, j :: 0 <= i < j < |items| ==> prices[i] <= prices[j]
    ensures Heap.IsHeap(items, PriceKey)
  {
    forall i | 0 < i < |items| ensures Heap.Ordered(items, PriceKey, i) {
      assert prices[Heap.Parent(i)] <= prices[i];
    }
  }

  lemma {:induction false} FourPriced()
    ensures Heap.IsHeap(FOUR_PRICED, PriceKey) && Priced(FOUR_PRICED, FOUR_POOLED, {}) && OnceEach(FOUR_PRICED, FOUR_POOLED)
  {
    hide Heap.IsHeap, OnceEach;
    AscendingHeap(FOUR_PRICED, [1, 2, 3, 4]);
    FourOnce();
    forall h | h in FOUR_POOLED ensures FOUR_POOLED[h] in FOUR_PRICED {
      assert FOUR_PRICED[h - 1] == SmallTransfer(h);
    }
  }

  lemma {:induction false} FourOnce()
    ensures OnceEach(FOUR_PRICED, FOUR_POOLED)
  {
    hide P.Live;
    forall i, j | 0 <= i < j < |FOUR_PRICED| ensures FOUR_PRICED[i] != FOUR_PRICED[j] {
      assert FOUR_PRICED[i].hash == i + 1 && FOUR_PRICED[j].hash == j + 1;
    }
    forall t ensures multiset(FOUR_PRICED)[t] <= 1 {
      Once(FOUR_PRICED, t);
    }
  }

  lemma {:induction false} FivePriced()
    ensures Heap.IsHeap(FIVE_PRICED, PriceKey) && Priced(FIVE_PRICED, FOUR_POOLED, {})
    ensures multiset(FIVE_PRICED) == multiset(FOUR_PRICED) + multiset{SmallTransfer(1)}
  {
    hide Priced, OnceEach, Heap.IsHeap, SmallTransfer;
    FourPriced();
    AscendingHeap(FIVE_PRICED, [1, 1, 2, 3, 4]);
    FourHashes();
    PricedPut(FOUR_PRICED, FIVE_PRICED, FOUR_POOLED, {}, SmallTransfer(1));
  }

  lemma {:induction false} FourHashes()
    ensures forall t :: t in FOUR_PRICED && t.hash == SmallTransfer(1).hash ==> t == SmallTransfer(1)
    ensures FOUR_POOLED[SmallTransfer(1).hash := SmallTransfer(1)] == FOUR_POOLED
  {
  }

  lemma {:induction false} TwiceDisplaced()
    ensures Displaced(FOUR_POOLED, {}, [SmallTransfer(1), SmallTransfer(1)], 2)
  {
    var drop := [SmallTransfer(1), SmallTransfer(1)];
    assert drop[..1] == [SmallTransfer(1)] && [SmallTransfer(1)][..0] == [];
    SmallSlots(1);
    assert P.SlotsOf(drop[..1]) == 1 && P.SlotsOf(drop) == 2;
  }

  lemma {:induction false} OneSlot(all: Lookup, t: Tx)
    requires t.hash in all && all[t.hash] == t
    ensures SumSlots(Part(all, HashSet([t, t]))) == t.Slots() && HashSet([t, t]) == {t.hash}
  {
    hide SumSlots, Tx.Slots;
    assert HashSet([t, t]) == {t.hash} by {
      assert [t, t][0] == t;
    }
    var none: Lookup := map[];
    assert Part(all, {t.hash}) == none[t.hash := t] && none[t.hash := t] - {t.hash} == none;
    NoSlots();
    SumSlotsRemove(none[t.hash := t], t.hash);
  }

  // ---------- Trimming a list ----------

  /** What was taken out of a list, as a list. */
  function TakenCount(kept: NonceMap, m: NonceMap): nat
  {
    |m - kept.Keys|
  }

  lemma {:induction false} TakenHashes(kept: NonceMap, m: NonceMap)
    ensures HashesOf(m - kept.Keys) == TakenOut(kept, m)
  {
    forall h | h in TakenOut(kept, m) ensures h in HashesOf(m - kept.Keys) {
      var n :| n in m && n !in kept && m[n].hash == h;
      assert n in m - kept.Keys;
    }
  }

  lemma {:induction false} TrimmedPending(s: Pool, limbo: set<Hash>, a: Addr, kept: NonceMap)
    requires Inv(s, limbo) && a in s.pending && PartOf(kept, s.pending[a])
    ensures var taken := TakenOut(kept, s.pending[a]);
            && Inv(LiftPending(s, a, kept), limbo + taken) && limbo + taken - taken == limbo
            && InLimbo(s.pending[a] - kept.Keys, LiftPending(s, a, kept), limbo + taken)
            && HashesOf(s.pending[a] - kept.Keys) == taken
            && forall n :: n in s.pending[a] - kept.Keys ==> s.pending[a][n].from == a
  {
    hide Inv;
    LiftPendingKeeps(s, limbo, a, kept);
    TakenHashes(kept, s.pending[a]);
    ListFiled(s, limbo, a);
    assert ListOf(s.pending, a) == s.pending[a];
    TakenFiled(s.pending[a], kept, a, s.all);
  }

  lemma {:induction false} TrimmedQueue(s: Pool, limbo: set<Hash>, a: Addr, kept: NonceMap)
    requires Inv(s, limbo) && a in s.queue && PartOf(kept, s.queue[a])
    ensures var taken := TakenOut(kept, s.queue[a]);
            && Inv(LiftQueue(s, a, kept), limbo + taken) && limbo + taken - taken == limbo
            && InLimbo(s.queue[a] - kept.Keys, LiftQueue(s, a, kept), limbo + taken)
            && HashesOf(s.queue[a] - kept.Keys) == taken
            && forall n :: n in s.queue[a] - kept.Keys ==> s.queue[a][n].from == a
  {
    hide Inv;
    LiftQueueKeeps(s, limbo, a, kept);
    TakenHashes(kept, s.queue[a]);
    ListFiled(s, limbo, a);
    assert ListOf(s.queue, a) == s.queue[a];
    TakenFiled(s.queue[a], kept, a, s.all);
  }

  lemma {:induction false} TakenFiled(m: NonceMap, kept: NonceMap, a: Addr, all: Lookup)
    requires forall n :: n in m ==> FiledAs(m[n], a, n, all)
    ensures forall n :: n in m - kept.Keys ==> m[n].hash in TakenOut(kept, m) && m[n].nonce == n && m[n].hash in all && all[m[n].hash] == m[n]
    ensures forall n :: n in m - kept.Keys ==> m[n].from == a
  {
  }

  /** Two rounds of releases are one. */
  lemma {:induction false} ReleaseTwo(cmdb: CMdb, all: Lookup, x: set<Hash>, y: set<Hash>)
    ensures ReleaseSet(ReleaseSet(cmdb, Part(all, x)), Part(all - x, y)) == ReleaseSet(cmdb, Part(all, x + y))
    ensures all - x - y == all - (x + y)
  {
    var both, first, second := Part(all, x + y), Part(all, x), Part(all - x, y);
    forall c ensures c in ClaimsOf(both) <==> c in ClaimsOf(first) || c in ClaimsOf(second) {
      if c in ClaimsOf(both) {
        var h :| h in both && Claim(both[h]) == c;
        assert h in first || h in second;
      }
      if c in ClaimsOf(first) {
        var h :| h in first && Claim(first[h]) == c;
        assert h in both;
      }
      if c in ClaimsOf(second) {
        var h :| h in second && Claim(second[h]) == c;
        assert h in both;
      }
    }
  }

  // ---------- Promotion ----------

  /** What becomes of an account's queue: some transactions turn pending, some stay, the others are gone. */
  datatype Promotion = Promotion(ready: NonceMap, kept: NonceMap, gone: set<Hash>)

  ghost function PromotionOf(q: NonceMap, chain: Chain, a: Addr, next: nat, limit: Option<nat>): Promotion
  {
    var payable := L.Affordable(From(q, chain.Nonce(a)), chain.Balance(a), chain.maxGas);
    var ready := S.ReadyRun(payable, next);
    var rest := payable - ready.Keys;
    var kept := if limit.Some? then Lowest(rest, limit.value) else rest;
    Promotion(ready, kept, TakenOut(ready + kept, q))
  }

  lemma {:induction false} ReadyPart(m: NonceMap, next: nat)
    ensures PartOf(S.ReadyRun(m, next), m)
  {
  }

  /** Two rounds of taking out. */
  lemma {:induction false} TakenTwice(q: NonceMap, q1: NonceMap, q2: NonceMap)
    requires PartOf(q1, q) && PartOf(q2, q1)
    ensures TakenOut(q1, q) + TakenOut(q2, q1) == TakenOut(q2, q)
  {
    forall h | h in TakenOut(q2, q) ensures h in TakenOut(q1, q) + TakenOut(q2, q1) {
      var n :| n in q && n !in q2 && q[n].hash == h;
      assert n in q1 ==> q1[n] == q[n];
    }
    forall h | h in TakenOut(q2, q1) ensures h in TakenOut(q2, q) {
      var n :| n in q1 && n !in q2 && q1[n].hash == h;
      assert n in q && q[n].hash == h;
    }
  }

  /** What is gone in the end is neither ready nor kept. */
  lemma {:induction false} GoneParts(q: NonceMap, q2: NonceMap, r: NonceMap, q4: NonceMap)
    requires PartOf(q2, q) && PartOf(r, q2) && PartOf(q4, q2 - r.Keys)
    ensures TakenOut(q2, q) + TakenOut(q4, q2 - r.Keys) == TakenOut(r + q4, q)
  {
    var q3 := q2 - r.Keys;
    forall h | h in TakenOut(r + q4, q) ensures h in TakenOut(q2, q) + TakenOut(q4, q3) {
      var n :| n in q && n !in r + q4 && q[n].hash == h;
      assert n in q2 ==> q2[n] == q[n] && n in q3;
    }
    forall h | h in TakenOut(q4, q3) ensures h in TakenOut(r + q4, q) {
      var n :| n in q3 && n !in q4 && q3[n].hash == h;
      assert n in q2 && n in q && q[n].hash == h;
    }
  }

  lemma {:induction false} LeastExists(m: NonceMap)
    requires m != map[]
    ensures exists n: nat :: n in m && IsMin(m, n)
    decreases |m|
  {
    var n :| n in m;
    var rest := m - {n};
    assert |rest.Keys| == |m.Keys| - 1 by {
      assert rest.Keys == m.Keys - {n};
    }
    if rest == map[] {
      assert forall x :: x in m ==> x == n || x in rest;
      assert IsMin(m, n);
    } else {
      LeastExists(rest);
      var k: nat :| k in rest && IsMin(rest, k);
      assert forall x :: x in m ==> x == n || x in rest;
      assert IsMin(m, if k < n then k else n);
    }
  }

  /** after follows the run that is ready, or is where the run would have started. */
  ghost predicate Follows(ready: NonceMap, next: nat, after: nat)
  {
    if ready == map[] then after == next else after > 0 && after - 1 in ready && forall n :: n in ready ==> n < after
  }

  lemma {:induction false} ReadyGap(m: NonceMap, next: nat, after: nat, n: nat)
    requires Follows(S.ReadyRun(m, next), next, after) && n in m && n !in S.ReadyRun(m, next)
    ensures n > after
  {
    LeastExists(m);
    var b: nat :| b in m && IsMin(m, b);
    if b <= next {
      S.MinUnique(m, b, next);
      assert Consecutive(m, b, b) && b in S.ReadyRun(m, next);
      assert Consecutive(m, b, after - 1);
      assert after in m ==> Consecutive(m, b, after);
      assert n < after ==> Consecutive(m, b, n);
    }
  }

  /** After promotion nothing processable is left queued: what stays is affordable, not too old, and
      above the next pending nonce. */
  lemma {:induction false} PromotionLeavesGap(q: NonceMap, chain: Chain, a: Addr, next: nat, limit: Option<nat>,
      after: nat, n: nat)
    requires Follows(PromotionOf(q, chain, a, next, limit).ready, next, after)
    requires n in PromotionOf(q, chain, a, next, limit).kept
    ensures n > after && n >= chain.Nonce(a) && n in q && !L.TooCostly(q[n], chain.Balance(a), chain.maxGas)
  {
    hide S.ReadyRun, L.TooCostly, Follows, TakenOut, Rank;
    var payable := L.Affordable(From(q, chain.Nonce(a)), chain.Balance(a), chain.maxGas);
    ReadyGap(payable, next, after, n);
  }

  /** Nothing processable is left queued, and a remote account is within its limit. */
  ghost predicate Settled(q: NonceMap, chain: Chain, a: Addr, next: nat, limit: Option<nat>)
  {
    && (forall n :: n in q ==> n > next && n >= chain.Nonce(a) && !L.TooCostly(q[n], chain.Balance(a), chain.maxGas))
    && (limit.Some? ==> |q| <= limit.value)
  }

  lemma {:induction false} PromotionSettles(q: NonceMap, chain: Chain, a: Addr, next: nat, limit: Option<nat>, after: nat)
    requires Follows(PromotionOf(q, chain, a, next, limit).ready, next, after)
    ensures Settled(PromotionOf(q, chain, a, next, limit).kept, chain, a, after, limit)
  {
    hide S.ReadyRun, L.TooCostly, Follows, TakenOut, L.Affordable, From;
    var kept := PromotionOf(q, chain, a, next, limit).kept;
    PayablePart(q, chain, a);
    forall n | n in kept ensures n > after && n >= chain.Nonce(a) && !L.TooCostly(kept[n], chain.Balance(a), chain.maxGas) {
      PromotionLeavesGap(q, chain, a, next, limit, after, n);
    }
    if limit.Some? {
      var payable := L.Affordable(From(q, chain.Nonce(a)), chain.Balance(a), chain.maxGas);
      F.LowestCount(payable - S.ReadyRun(payable, next).Keys, limit.value);
    }
  }

  lemma {:induction false} SettledEmpty(chain: Chain, a: Addr, next: nat, limit: Option<nat>)
    ensures Settled(map[], chain, a, next, limit)
  {
  }

  lemma {:induction false} PayablePart(q: NonceMap, chain: Chain, a: Addr)
    ensures PartOf(L.Affordable(From(q, chain.Nonce(a)), chain.Balance(a), chain.maxGas), q)
  {
  }

  lemma {:induction false} SetListOver(l: AccountLists, a: Addr, x: NonceMap, y: NonceMap, m: NonceMap)
    ensures SetList(l[a := x][a := y], a, m) == SetList(l, a, m)
  {
    assert l[a := x][a := y] - {a} == l - {a};
    assert l[a := x][a := y][a := m] == l[a := m];
  }

  // ---------- Demotion ----------

  /** What becomes of an account's pending list: some stay, some return to the queue, those the chain has passed
      are spent, and the unaffordable ones are dropped. */
  datatype Demotion = Demotion(kept: NonceMap, requeued: NonceMap, spent: set<Hash>, dropped: set<Hash>)

  function DemotionOf(p: NonceMap, chain: Chain, a: Addr): Demotion
  {
    var nonce := chain.Nonce(a);
    var current := From(p, nonce);
    var payable := L.AffordablePrefix(current, chain.Balance(a), chain.maxGas);
    var invalids := L.Invalidated(current, chain.Balance(a), chain.maxGas);
    var gapped := payable != map[] && nonce !in payable;
    Demotion(if gapped then map[] else payable, if gapped then invalids + payable else invalids,
             HashesOf(Below(p, nonce)), HashesOf(L.Unaffordable(current, chain.Balance(a), chain.maxGas)))
  }

  /** What stays pending is executable: it starts at the account's nonce and is affordable. */
  lemma {:induction false} DemotionExecutable(p: NonceMap, chain: Chain, a: Addr)
    ensures var kept := DemotionOf(p, chain, a).kept;
            && (kept != map[] ==> chain.Nonce(a) in kept)
            && PartOf(kept, p)
            && (forall n :: n in kept ==> n >= chain.Nonce(a) && !L.TooCostly(kept[n], chain.Balance(a), chain.maxGas))
            && (GapFree(p) ==> GapFree(kept))
  {
    var nonce := chain.Nonce(a);
    var current := From(p, nonce);
    var kept := DemotionOf(p, chain, a).kept;
    forall n | n in kept ensures !L.TooCostly(p[n], chain.Balance(a), chain.maxGas) {
      assert n in current && n <= n;
    }
    if GapFree(p) {
      hide L.TooCostly, Consecutive;
      L.FromGapFree(p, nonce);
      L.PrefixGapFree(current, chain.Balance(a), chain.maxGas);
    }
  }

  /** What becomes of a pending list, nonce by nonce. It stays pending exactly when everything from the account's nonce
      up to it, that nonce included, can be paid; of the rest from that nonce on the payable transactions are requeued
      and the others dropped. What is older is spent. */
  lemma {:induction false} DemotionExact(p: NonceMap, chain: Chain, a: Addr, n: nat)
    requires n in p
    ensures var d, nonce, balance := DemotionOf(p, chain, a), chain.Nonce(a), chain.Balance(a);
            && (n in d.kept <==>
                  n >= nonce && nonce in p && forall k :: k in p && nonce <= k <= n ==> !L.TooCostly(p[k], balance, chain.maxGas))
            && (n in d.requeued <==> n >= nonce && n !in d.kept && !L.TooCostly(p[n], balance, chain.maxGas))
            && (n >= nonce && L.TooCostly(p[n], balance, chain.maxGas) ==> p[n].hash in d.dropped)
            && (n < nonce ==> p[n].hash in d.spent)
  {
    hide L.TooCostly, L.AffordablePrefix, L.Invalidated;
    var nonce, balance := chain.Nonce(a), chain.Balance(a);
    var current := From(p, nonce);
    var payable := L.AffordablePrefix(current, balance, chain.maxGas);
    assert n < nonce ==> n in Below(p, nonce);
    assert n >= nonce && L.TooCostly(p[n], balance, chain.maxGas) ==> n in L.Unaffordable(current, balance, chain.maxGas);
    PayablePrefix(p, chain, a, n);
    PayablePrefix(p, chain, a, nonce);
    if n >= nonce {
      FilterSplits(current, balance, chain.maxGas, n);
    }
    InvalidatedNew(current, balance, chain.maxGas, n);
  }

  lemma {:induction false} InvalidatedNew(m: NonceMap, balance: nat, maxGas: nat, n: nat)
    ensures n in L.Invalidated(m, balance, maxGas) ==> n in m
  {
  }

  lemma {:induction false} PayablePrefix(p: NonceMap, chain: Chain, a: Addr, n: nat)
    ensures var nonce, payable := chain.Nonce(a), L.AffordablePrefix(From(p, chain.Nonce(a)), chain.Balance(a), chain.maxGas);
            && (n in payable <==>
                  n in p && n >= nonce && forall k :: k in p && nonce <= k <= n ==> !L.TooCostly(p[k], chain.Balance(a), chain.maxGas))
            && (n in payable ==> payable != map[])
  {
    hide L.TooCostly;
    var nonce := chain.Nonce(a);
    var current := From(p, nonce);
    PrefixExact(current, chain, a, n);
    assert forall k :: k in current <==> k in p && k >= nonce;
    assert forall k :: k in current ==> current[k] == p[k];
  }

  lemma {:induction false} PrefixExact(m: NonceMap, chain: Chain, a: Addr, n: nat)
    ensures var payable := L.AffordablePrefix(m, chain.Balance(a), chain.maxGas);
            && (n in payable <==> n in m && forall k :: k in m && k <= n ==> !L.TooCostly(m[k], chain.Balance(a), chain.maxGas))
  {
    hide L.TooCostly;
  }

  /** The strict filter splits a list in three. */
  lemma {:induction false} FilterSplits(m: NonceMap, costLimit: nat, gasLimit: nat, n: nat)
    requires n in m
    ensures n in L.Unaffordable(m, costLimit, gasLimit) <==>
              n !in L.AffordablePrefix(m, costLimit, gasLimit) && n !in L.Invalidated(m, costLimit, gasLimit)
    ensures n in L.Invalidated(m, costLimit, gasLimit) ==> n !in L.AffordablePrefix(m, costLimit, gasLimit)
  {
  }

  /** Of what a strict filter takes out, the costly part is dropped and the invalidated part requeued. */
  lemma {:induction false} FilteredOut(s: Pool, m: NonceMap, kept: NonceMap, costly: NonceMap, invalids: NonceMap,
      limbo: set<Hash>)
    requires InLimbo(m - kept.Keys, s, limbo) && limbo == HashesOf(m - kept.Keys)
    requires PartOf(costly, m) && PartOf(invalids, m)
    requires forall n :: n in m && n !in kept <==> n in costly || n in invalids
    requires forall n :: n in costly ==> n !in invalids
    ensures InLimbo(costly, s, limbo) && limbo - HashesOf(costly) - HashesOf(invalids) == {}
    ensures forall r: Pool :: r.all == s.all - HashesOf(costly) ==> InLimbo(invalids, r, limbo - HashesOf(costly))
  {
    var out := m - kept.Keys;
    forall n | n in costly || n in invalids ensures n in out && m[n] == out[n] {
    }
    forall n, k | n in invalids && k in costly ensures invalids[n].hash != costly[k].hash {
      assert out[n].nonce == n && out[k].nonce == k;
    }
    forall h | h in limbo ensures h in HashesOf(costly) || h in HashesOf(invalids) {
      var n :| n in out && out[n].hash == h;
      assert n in costly || n in invalids;
    }
  }

  lemma {:induction false} FilterParts(m: NonceMap, costLimit: nat, gasLimit: nat)
    ensures var kept, costly := L.AffordablePrefix(m, costLimit, gasLimit), L.Unaffordable(m, costLimit, gasLimit);
            var invalids := L.Invalidated(m, costLimit, gasLimit);
            && PartOf(kept, m) && PartOf(costly, m) && PartOf(invalids, m)
            && (forall n :: n in m && n !in kept <==> n in costly || n in invalids)
            && forall n :: n in costly ==> n !in invalids
  {
    forall n | n in m
      ensures n in L.Unaffordable(m, costLimit, gasLimit) <==>
                n !in L.AffordablePrefix(m, costLimit, gasLimit) && n !in L.Invalidated(m, costLimit, gasLimit)
      ensures n in L.Invalidated(m, costLimit, gasLimit) ==> n !in L.AffordablePrefix(m, costLimit, gasLimit)
    {
      FilterSplits(m, costLimit, gasLimit, n);
    }
  }

  lemma {:induction false} AddTwice(q: AccountLists, a: Addr, x: NonceMap, y: NonceMap)
    ensures AddAll(AddAll(q, a, x), a, y) == AddAll(q, a, x + y)
  {
    if x == map[] {
      assert x + y == y;
    } else if y == map[] {
      assert x + y == x;
    } else {
      assert x + y != map[];
      assert ListOf(q, a) + x + y == ListOf(q, a) + (x + y);
    }
  }

  /** The transactions the chain has passed leave first, so that nothing dropped later is among them. */
  lemma {:induction false} SpentFirst(s: Pool, limbo: set<Hash>, a: Addr, nonce: nat, dropped: NonceMap)
    requires Inv(s, limbo) && PartOf(dropped, From(ListOf(s.pending, a), nonce))
    ensures var p := ListOf(s.pending, a);
            && TakenOut(From(p, nonce), p) == HashesOf(Below(p, nonce))
            && Part(s.all - HashesOf(Below(p, nonce)), HashesOf(dropped)) == Part(s.all, HashesOf(dropped))
            && s.all - HashesOf(Below(p, nonce)) - HashesOf(dropped) == s.all - (HashesOf(Below(p, nonce)) + HashesOf(dropped))
  {
    hide Inv;
    var p := ListOf(s.pending, a);
    ListFiled(s, limbo, a);
    TakenHashes(From(p, nonce), p);
    assert p - From(p, nonce).Keys == Below(p, nonce);
    forall h | h in HashesOf(dropped) ensures h !in HashesOf(Below(p, nonce)) {
      var n :| n in dropped && dropped[n].hash == h;
      assert FiledAs(p[n], a, n, s.all);
      forall k | k in Below(p, nonce) ensures p[k].hash != h {
        assert FiledAs(p[k], a, k, s.all);
      }
    }
  }

  lemma {:induction false} FromPart(m: NonceMap, t: nat)
    ensures PartOf(From(m, t), m)
  {
  }

  /** The transactions of the given accounts that the chain has passed, and the unaffordable ones. */
  function SpentBy(p: AccountLists, chain: Chain, accounts: set<Addr>): set<Hash>
  {
    set a, h | a in accounts && a in p && h in DemotionOf(p[a], chain, a).spent :: h
  }

  function DroppedBy(p: AccountLists, chain: Chain, accounts: set<Addr>): set<Hash>
  {
    set a, h | a in accounts && a in p && h in DemotionOf(p[a], chain, a).dropped :: h
  }

  lemma {:induction false} OneMore(p: AccountLists, chain: Chain, accounts: set<Addr>, a: Addr)
    requires a in p
    ensures SpentBy(p, chain, accounts + {a}) == SpentBy(p, chain, accounts) + DemotionOf(p[a], chain, a).spent
    ensures DroppedBy(p, chain, accounts + {a}) == DroppedBy(p, chain, accounts) + DemotionOf(p[a], chain, a).dropped
  {
    hide DemotionOf;
  }

  lemma {:induction false} NoAccounts(s: Pool, chain: Chain)
    ensures SpentBy(s.pending, chain, {}) == {} && DroppedBy(s.pending, chain, {}) == {}
    ensures s.all == s.all - ({} + {}) && ReleaseSet(s.cmdb, Part(s.all, {})) == s.cmdb
  {
    DroppedNone(s.cmdb, s.all);
  }

  lemma {:induction false} DroppedPooled(s: Pool, chain: Chain, a: Addr)
    requires Inv(s, {}) && a in s.pending
    ensures DemotionOf(s.pending[a], chain, a).dropped <= s.all.Keys
  {
    hide Inv, L.TooCostly;
    ListFiled(s, {}, a);
    var p := ListOf(s.pending, a);
    var costly := L.Unaffordable(From(p, chain.Nonce(a)), chain.Balance(a), chain.maxGas);
    forall h | h in HashesOf(costly) ensures h in s.all {
      var n :| n in costly && costly[n].hash == h;
      assert FiledAs(p[n], a, n, s.all);
    }
  }

  /** A further round of releases, after other transactions have left. */
  lemma {:induction false} ReleaseMore(cmdb: CMdb, all: Lookup, left: Lookup, x: set<Hash>, y: set<Hash>)
    requires forall h :: h in left ==> h in all && left[h] == all[h]
    requires y <= left.Keys
    ensures ReleaseSet(ReleaseSet(cmdb, Part(all, x)), Part(left, y)) == ReleaseSet(cmdb, Part(all, x + y))
  {
    hide ClaimsOf;
    var both, first, second := Part(all, x + y), Part(all, x), Part(left, y);
    assert both == first + second;
    forall c ensures c in ClaimsOf(both) <==> c in ClaimsOf(first) || c in ClaimsOf(second) {
      ClaimsUnion(first, second, c);
    }
  }

  lemma {:induction false} ClaimsUnion(x: Lookup, y: Lookup, c: Hash)
    requires forall h :: h in x && h in y ==> x[h] == y[h]
    ensures c in ClaimsOf(x + y) <==> c in ClaimsOf(x) || c in ClaimsOf(y)
  {
    var both := x + y;
    if c in ClaimsOf(both) {
      var h :| h in both && Claim(both[h]) == c;
      assert h in x || h in y;
    }
    if c in ClaimsOf(x) {
      var h :| h in x && Claim(x[h]) == c;
      assert h in both;
    }
    if c in ClaimsOf(y) {
      var h :| h in y && Claim(y[h]) == c;
      assert h in both;
    }
  }

  ghost predicate Demoted(s: Pool, r: Pool, chain: Chain, a: Addr)
  {
    && a in s.pending
    && ListOf(r.pending, a) == DemotionOf(s.pending[a], chain, a).kept
    && ListOf(r.queue, a) == ListOf(s.queue, a) + DemotionOf(s.pending[a], chain, a).requeued
  }

  /** The accounts in done have been demoted, starting from s and leading to r. */
  ghost predicate DemotedSoFar(s: Pool, r: Pool, chain: Chain, done: set<Addr>)
  {
    DemotedLists(s, r, chain, done) && DemotedLookup(s, r, chain, done)
  }

  ghost predicate DemotedLists(s: Pool, r: Pool, chain: Chain, done: set<Addr>)
  {
    forall a :: AccountAs(s, r, chain, a, a in done)
  }

  /** The account has been demoted, or is as it was. */
  ghost predicate AccountAs(s: Pool, r: Pool, chain: Chain, a: Addr, done: bool)
  {
    && (a in r.pending ==> a in s.pending && r.pending[a] != map[])
    && if done then Demoted(s, r, chain, a) else
       && (a in s.pending ==> a in r.pending && r.pending[a] == s.pending[a])
       && ListOf(r.queue, a) == ListOf(s.queue, a)
  }

  ghost predicate DemotedLookup(s: Pool, r: Pool, chain: Chain, done: set<Addr>)
  {
    && r.all == s.all - (SpentBy(s.pending, chain, done) + DroppedBy(s.pending, chain, done))
    && r.cmdb == ReleaseSet(s.cmdb, Part(s.all, DroppedBy(s.pending, chain, done)))
  }

  lemma {:induction false} DemotedNone(s: Pool, chain: Chain)
    requires NoEmpty(s.pending)
    ensures DemotedSoFar(s, s, chain, {})
  {
    hide DemotionOf, SpentBy, DroppedBy, ReleaseSet, Part;
    NoAccounts(s, chain);
    forall a ensures AccountAs(s, s, chain, a, false) {
    }
  }

  lemma {:induction false} DemotedOneMore(s: Pool, r: Pool, t: Pool, chain: Chain, done: set<Addr>, a: Addr)
    requires DemotedSoFar(s, r, chain, done) && Inv(r, {}) && a in s.pending && a !in done
    requires var d := DemotionOf(s.pending[a], chain, a);
             && t.pending == SetList(r.pending, a, d.kept) && t.queue == AddAll(r.queue, a, d.requeued)
             && t.all == r.all - (d.spent + d.dropped) && t.cmdb == ReleaseSet(r.cmdb, Part(r.all, d.dropped))
    ensures DemotedSoFar(s, t, chain, done + {a})
  {
    hide Inv, DemotedLists, DemotedLookup, DemotionOf, ReleaseSet, Part;
    ListsOneMore(s, r, t, chain, done, a);
    StillPending(s, r, chain, done, a);
    LookupOneMore(s, r, t, chain, done, a);
  }

  lemma {:induction false} ListsOneMore(s: Pool, r: Pool, t: Pool, chain: Chain, done: set<Addr>, a: Addr)
    requires DemotedLists(s, r, chain, done) && a in s.pending && a !in done
    requires var d := DemotionOf(s.pending[a], chain, a);
             t.pending == SetList(r.pending, a, d.kept) && t.queue == AddAll(r.queue, a, d.requeued)
    ensures DemotedLists(s, t, chain, done + {a})
  {
    hide AccountAs, DemotionOf, SetList, AddAll;
    forall b ensures AccountAs(s, t, chain, b, b in done + {a}) {
      assert AccountAs(s, r, chain, b, b in done);
      AccountOneMore(s, r, t, chain, b in done, a, b);
    }
  }

  lemma {:induction false} AccountOneMore(s: Pool, r: Pool, t: Pool, chain: Chain, done: bool, a: Addr, b: Addr)
    requires AccountAs(s, r, chain, b, done) && a in s.pending && (a == b ==> !done)
    requires var d := DemotionOf(s.pending[a], chain, a);
             t.pending == SetList(r.pending, a, d.kept) && t.queue == AddAll(r.queue, a, d.requeued)
    ensures AccountAs(s, t, chain, b, done || a == b)
  {
    hide DemotionOf;
  }

  lemma {:induction false} LookupOneMore(s: Pool, r: Pool, t: Pool, chain: Chain, done: set<Addr>, a: Addr)
    requires DemotedLookup(s, r, chain, done) && Inv(r, {}) && a in s.pending && a in r.pending && r.pending[a] == s.pending[a]
    requires var d := DemotionOf(s.pending[a], chain, a);
             t.all == r.all - (d.spent + d.dropped) && t.cmdb == ReleaseSet(r.cmdb, Part(r.all, d.dropped))
    ensures DemotedLookup(s, t, chain, done + {a})
  {
    hide Inv, DemotionOf, SpentBy, DroppedBy, ReleaseSet, Part;
    DroppedPooled(r, chain, a);
    OneMore(s.pending, chain, done, a);
    ReleaseMore(s.cmdb, s.all, r.all, DroppedBy(s.pending, chain, done), DemotionOf(s.pending[a], chain, a).dropped);
  }

  lemma {:induction false} StillPending(s: Pool, r: Pool, chain: Chain, done: set<Addr>, a: Addr)
    requires DemotedSoFar(s, r, chain, done) && a in s.pending && a !in done
    ensures a in r.pending && r.pending[a] == s.pending[a]
  {
    assert AccountAs(s, r, chain, a, a in done);
  }

  lemma {:induction false} DemotedEach(s: Pool, r: Pool, chain: Chain)
    requires DemotedSoFar(s, r, chain, s.pending.Keys)
    ensures NoEmpty(r.pending)
    ensures forall a :: a in s.pending ==> Demoted(s, r, chain, a)
    ensures forall a :: a !in s.pending ==> a !in r.pending && ListOf(r.queue, a) == ListOf(s.queue, a)
    ensures r.all == s.all - (SpentBy(s.pending, chain, s.pending.Keys) + DroppedBy(s.pending, chain, s.pending.Keys))
    ensures r.cmdb == ReleaseSet(s.cmdb, Part(s.all, DroppedBy(s.pending, chain, s.pending.Keys)))
  {
    hide DemotionOf, SpentBy, DroppedBy, ReleaseSet, Part;
    forall a
      ensures a in r.pending ==> r.pending[a] != map[]
      ensures if a in s.pending then Demoted(s, r, chain, a) else a !in r.pending && ListOf(r.queue, a) == ListOf(s.queue, a)
    {
      assert AccountAs(s, r, chain, a, a in s.pending.Keys);
    }
  }

  // ---------- Truncation ----------

  /** Transactions have left, and exactly theirs are the commitments given back. */
  ghost predicate Freed(s: Pool, r: Pool)
  {
    && (forall h :: h in r.all ==> h in s.all && r.all[h] == s.all[h])
    && r.cmdb == ReleaseSet(s.cmdb, Part(s.all, s.all.Keys - r.all.Keys))
  }

  lemma {:induction false} FreedNone(s: Pool)
    ensures Freed(s, s)
  {
    assert s.all.Keys - s.all.Keys == {};
    NoAccounts(s, Chain(map[], map[], 0));
  }

  lemma {:induction false} FreedMore(s: Pool, r: Pool, t: Pool, y: set<Hash>)
    requires Freed(s, r) && t.all == r.all - y && t.cmdb == ReleaseSet(r.cmdb, Part(r.all, y))
    ensures Freed(s, t)
  {
    hide ReleaseSet, ClaimsOf;
    var gone := s.all.Keys - r.all.Keys;
    var more := y * r.all.Keys;
    assert Part(r.all, y) == Part(r.all, more);
    ReleaseMore(s.cmdb, s.all, r.all, gone, more);
    assert gone + more == s.all.Keys - t.all.Keys;
  }

  /** removeTx gives back the commitment of what it removes. */
  lemma {:induction false} WithoutFreed(s: Pool, r: Pool, h: Hash)
    requires Freed(s, r) && Inv(r, {})
    ensures Freed(s, Without(r, h))
  {
    hide Inv, ReleaseSet, Released, Part, Freed, Tx.Slots;
    if h in r.all {
      ClaimKnown(r, {}, h);
      ReleaseOne(r.cmdb, r.all, h);
      FreedMore(s, r, Without(r, h), {h});
    }
  }

  /** The next nonce of an account is no higher than any nonce it lost, and that of an account without a list is
      as it was. */
  ghost predicate NoncesReset(p0: AccountLists, n0: map<Addr, nat>, p: AccountLists, nonces: map<Addr, nat>, chain: Chain)
  {
    && (forall a, n :: a in p0 && n in p0[a] && n !in ListOf(p, a) ==> NextNonce(nonces, chain, a) <= n)
    && (forall a :: a !in p ==> NextNonce(nonces, chain, a) == NextNonce(n0, chain, a))
  }

  lemma {:induction false} NoncesResetMore(p0: AccountLists, n0: map<Addr, nat>, p: AccountLists, nonces: map<Addr, nat>, chain: Chain,
      a: Addr, n: nat)
    requires NoncesReset(p0, n0, p, nonces, chain) && a in p && n in p[a]
    ensures NoncesReset(p0, n0, p[a := p[a] - {n}], Lowered(nonces, chain, a, n), chain)
  {
    var q, r := p[a := p[a] - {n}], Lowered(nonces, chain, a, n);
    forall b, k | b in p0 && k in p0[b] && k !in ListOf(q, b) ensures NextNonce(r, chain, b) <= k {
      if b == a && k == n {
      } else {
        assert k !in ListOf(p, b);
      }
    }
  }

  lemma {:induction false} NoncesResetNone(p: AccountLists, nonces: map<Addr, nat>, chain: Chain)
    ensures NoncesReset(p, nonces, p, nonces, chain)
  {
  }

  lemma {:induction false} LevelledNoEmpty(p: AccountLists, locals: set<Addr>, level: nat)
    requires NoEmpty(p) && level > 0
    ensures NoEmpty(F.Level(p, locals, level))
  {
    hide Lowest;
    forall a | a in p ensures F.Level(p, locals, level)[a] != map[] {
      F.LevelNoEmpty(p, locals, level, a);
    }
  }

  lemma {:induction false} OtherLists(l: AccountLists, a: Addr, m: NonceMap, b: Addr)
    ensures ListOf(SetList(l, a, m), b) == if b == a then m else ListOf(l, b)
    ensures ListOf(AddAll(l, a, m), b) == if b == a then ListOf(l, a) + m else ListOf(l, b)
  {
  }

  // ---------- The queue limit ----------

  /** A queued transaction is not pending as well, so removing it touches the queue alone. */
  lemma {:induction false} QueuedAlone(s: Pool, a: Addr, n: nat)
    requires Inv(s, {}) && a in s.queue && n in s.queue[a]
    ensures var h := s.queue[a][n].hash;
            && h in s.all && s.all[h] == s.queue[a][n]
            && Without(s, h) == Forget(s, h, true).(queue := SetList(s.queue, a, s.queue[a] - {n}))
            && n !in ListOf(s.pending, a) && s.all[h].from == a && s.all[h].nonce == n
            && Forget(s, h, true).cmdb == ReleaseSet(s.cmdb, Part(s.all, {h}))
  {
    hide Inv, ReleaseSet, Released;
    ListFiled(s, {}, a);
    var t := ListOf(s.queue, a)[n];
    assert FiledAs(t, a, n, s.all);
    if a in s.pending {
      QueuedNotPending(s, a, n);
    }
    ClaimKnown(s, {}, t.hash);
    ReleaseOne(s.cmdb, s.all, t.hash);
  }

  lemma {:induction false} QueuedNonces(s: Pool, nonces: map<Addr, nat>, chain: Chain, a: Addr, n: nat)
    requires Inv(s, {}) && a in s.queue && n in s.queue[a]
    ensures NoncesWithout(s, nonces, chain, s.queue[a][n].hash) == nonces
  {
    hide Inv, Without, Lowered, ReleaseSet, Released, Tx.Slots, Part;
    QueuedAlone(s, a, n);
  }

  lemma {:induction false} QueuedNotPending(s: Pool, a: Addr, n: nat)
    requires Inv(s, {}) && a in s.queue && n in s.queue[a] && a in s.pending
    ensures n !in s.pending[a]
  {
    hide Inv;
    if n in s.pending[a] {
      NotBoth(s, {}, a, n);
    }
  }

  lemma {:induction false} ReleaseOne(cmdb: CMdb, all: Lookup, h: Hash)
    requires h in all && KnownId(all[h]) && Claim(all[h]) in cmdb
    ensures Released(cmdb, all[h]) == ReleaseSet(cmdb, Part(all, {h}))
  {
    var none: Lookup := map[];
    assert Part(all, {h}) == none[h := all[h]];
    ReleaseBoth(cmdb, none, h, all[h]);
    ReleaseSetNone(Released(cmdb, all[h]));
  }

  /** The accounts in the order in which their queues are cut, the last one first. */
  ghost predicate CutOrder(q: AccountLists, locals: set<Addr>, order: seq<Addr>)
  {
    && (forall i, j :: 0 <= i < j < |order| ==> order[i] != order[j])
    && forall a :: a in order <==> a in q && a !in locals
  }

  /** The queues of the accounts from position i of the order on are empty, the others as they were. */
  ghost predicate DrainedFrom(q0: AccountLists, q: AccountLists, order: seq<Addr>, i: nat)
  {
    forall a :: ListOf(q, a) == if a in order && NotBefore(order, i, a) then map[] else ListOf(q0, a)
  }

  ghost predicate NotBefore(order: seq<Addr>, i: nat, a: Addr)
  {
    i <= |order| && a !in order[..i]
  }

  lemma {:induction false} DrainedOneMore(q0: AccountLists, q: AccountLists, r: AccountLists, locals: set<Addr>,
      order: seq<Addr>, i: nat)
    requires 0 < i <= |order| && CutOrder(q0, locals, order)
    requires DrainedFrom(q0, q, order, i) && q[order[i - 1] := map[]] == r[order[i - 1] := map[]] && ListOf(r, order[i - 1]) == map[]
    ensures DrainedFrom(q0, r, order, i - 1)
  {
    var a := order[i - 1];
    forall b ensures ListOf(r, b) == if b in order && NotBefore(order, i - 1, b) then map[] else ListOf(q0, b) {
      assert order[..i] == order[..i - 1] + [a];
      if b == a {
        assert a in order && a !in order[..i - 1];
      } else {
        OtherThan(q, r, a, b);
      }
    }
  }

  lemma {:induction false} OtherThan(q: AccountLists, r: AccountLists, a: Addr, b: Addr)
    requires q[a := map[]] == r[a := map[]] && b != a
    ensures ListOf(q, b) == ListOf(r, b)
  {
    assert b in q <==> b in q[a := map[]];
    assert b in r <==> b in r[a := map[]];
    assert b in q ==> q[b] == q[a := map[]][b] == r[a := map[]][b] == r[b];
  }

  lemma {:induction false} DrainedNone(q: AccountLists, order: seq<Addr>)
    ensures DrainedFrom(q, q, order, |order|)
  {
    assert order[..|order|] == order;
  }

  lemma {:induction false} StillQueued(q0: AccountLists, q: AccountLists, order: seq<Addr>, i: nat)
    requires DrainedFrom(q0, q, order, i) && 0 < i <= |order|
    ensures ListOf(q, order[i - 1]) == ListOf(q0, order[i - 1])
  {
    assert order[i - 1] in order[..i];
  }

  /** Everything from position i on is drained, and the account before keeps its k lowest nonces. */
  ghost predicate CutAt(q0: AccountLists, q: AccountLists, order: seq<Addr>, i: nat, k: nat)
    requires 0 < i <= |order|
  {
    && k < |ListOf(q0, order[i - 1])|
    && forall a :: ListOf(q, a) == if a == order[i - 1] then Lowest(ListOf(q0, a), k)
                                   else if a in order && NotBefore(order, i, a) then map[] else ListOf(q0, a)
  }

  lemma {:induction false} CutAtIs(q0: AccountLists, q: AccountLists, r: AccountLists, order: seq<Addr>, i: nat, k: nat)
    requires 0 < i <= |order| && DrainedFrom(q0, q, order, i) && k < |ListOf(q, order[i - 1])|
    requires q[order[i - 1] := map[]] == r[order[i - 1] := map[]] && ListOf(r, order[i - 1]) == Lowest(ListOf(q, order[i - 1]), k)
    ensures CutAt(q0, r, order, i, k)
  {
    hide Lowest;
    var a := order[i - 1];
    StillQueued(q0, q, order, i);
    forall b | b != a ensures ListOf(r, b) == if b in order && NotBefore(order, i, b) then map[] else ListOf(q0, b) {
      OtherThan(q, r, a, b);
    }
  }

  lemma {:induction false} SortedListing(s: seq<Addr>, r: seq<Addr>, q: AccountLists, locals: set<Addr>)
    requires multiset(s) == multiset(q.Keys - locals) && multiset(r) == multiset(s)
    ensures CutOrder(q, locals, r)
  {
    forall i, j | 0 <= i < j < |r| ensures r[i] != r[j] {
      if r[i] == r[j] {
        Twice(r, i, j);
        assert false;
      }
    }
    forall a ensures a in r <==> a in q && a !in locals {
      assert a in r <==> a in multiset(r);
    }
  }

  /** What truncatePending leaves: the total is within the limit, or every remote account within its own. */
  lemma {:induction false} PendingWithin(p0: AccountLists, p: AccountLists, locals: set<Addr>, level: nat, limit: nat, slots: nat)
    requires F.Total(p0) <= limit ==> p == p0
    requires F.Total(p0) > limit ==> p == F.Level(p0, locals, level) && (F.Total(p) <= limit || level == slots)
    ensures F.Total(p) <= limit || forall a :: a in p && a !in locals ==> |p[a]| <= slots
  {
    hide F.Total;
    if F.Total(p) > limit {
      forall a | a in p && a !in locals ensures |p[a]| <= slots {
        F.LevelAt(p0, locals, level, a);
      }
    }
  }

  lemma {:induction false} AllDrained(q0: AccountLists, q: AccountLists, locals: set<Addr>, order: seq<Addr>)
    requires CutOrder(q0, locals, order) && DrainedFrom(q0, q, order, 0)
    ensures forall a :: a in q && a !in locals ==> q[a] == map[]
  {
    forall a | a in q && a !in locals ensures q[a] == map[] {
      assert ListOf(q, a) == q[a];
      assert a !in q0 ==> ListOf(q0, a) == map[];
    }
  }
}
