/**
 The operations of the pool as runs of the state machine: whatever rearranges the lists, drops
 transactions and gives some of their commitments back is made of the machine's moves.
 */
module PoolRuns {
  import opened Transactions
  import opened PoolState
  import opened PoolSteps
  import opened PoolOrder
  import opened PoolReorg
  import H = PoolHistory
  import L = TxList
  import P = PricedList

  /** Some run of the pool's own moves leads from c to d. */
  ghost predicate Reaches(c: Config, d: Config)
  {
    exists states, moves :: RunFromTo(states, moves, c, d)
  }

  ghost predicate RunFromTo(states: seq<Config>, moves: seq<Move>, c: Config, d: Config)
  {
    IsRun(states, moves) && states[0] == c && states[|moves|] == d && forall m :: m in moves ==> !m.MImport?
  }

  lemma {:induction false} ReachSelf(c: Config)
    ensures Reaches(c, c)
  {
    assert RunFromTo([c], [], c, c);
  }

  lemma {:induction false} ReachMove(c: Config, m: Move)
    requires Enabled(c, m) && !m.MImport?
    ensures Reaches(c, Apply(c, m))
  {
    hide Enabled, Apply;
    assert RunFromTo([c, Apply(c, m)], [m], c, Apply(c, m));
  }

  lemma {:induction false} ReachTrans(c: Config, d: Config, e: Config)
    requires Reaches(c, d) && Reaches(d, e)
    ensures Reaches(c, e)
  {
    hide IsRun;
    var states, moves :| RunFromTo(states, moves, c, d);
    var states', moves' :| RunFromTo(states', moves', d, e);
    RunShape(states, moves);
    RunShape(states', moves');
    JoinRuns(states, moves, states', moves');
    RunShape(states + states'[1..], moves + moves');
    assert RunFromTo(states + states'[1..], moves + moves', c, e);
  }

  lemma {:induction false} RunShape(states: seq<Config>, moves: seq<Move>)
    requires IsRun(states, moves)
    ensures |states| == |moves| + 1
  {
  }

  /** What is reached from a good state is good. */
  lemma {:induction false} ReachKeeps(c: Config, d: Config)
    requires Reaches(c, d) && Inv(c.s, c.limbo)
    ensures Inv(d.s, d.limbo)
  {
    hide Inv, Enabled, Apply;
    var states, moves :| RunFromTo(states, moves, c, d);
    RunKeeps(states, moves, |moves|);
  }

  /** The pool's own moves keep claims distinct and locked. */
  lemma {:induction false} ReachLocks(c: Config, d: Config)
    requires Reaches(c, d) && Inv(c.s, c.limbo) && ClaimsLocked(c.s.all, c.s.cmdb)
    ensures ClaimsLocked(d.s.all, d.s.cmdb)
  {
    hide Inv, Enabled, Apply, Guarded;
    var states, moves :| RunFromTo(states, moves, c, d);
    forall k ensures Guarded(d.s.all, d.s.cmdb, k) {
      RunGuards(states, moves, |moves|, k);
      NoImports(moves, k);
    }
  }

  lemma {:induction false} NoImports(moves: seq<Move>, k: Hash)
    requires forall m :: m in moves ==> !m.MImport?
    ensures !ImportWrote(moves, |moves|, k)
  {
  }

  lemma {:induction false} ThenMove(c: Config, d: Config, m: Move)
    requires Reaches(c, d) && Enabled(d, m) && Inv(d.s, d.limbo) && !m.MImport?
    ensures Reaches(c, Apply(d, m)) && Inv(Apply(d, m).s, Apply(d, m).limbo)
  {
    hide Inv, Enabled, Apply, Reaches;
    ReachMove(d, m);
    ReachTrans(c, d, Apply(d, m));
    MoveKeeps(d, m);
  }

  // ---------- Taking everything out ----------

  lemma {:induction false} LiftAllPending(s: Pool, limbo: set<Hash>) returns (lim: set<Hash>)
    requires Inv(s, limbo)
    ensures Inv(s.(pending := map[]), lim) && Reaches(Config(s, limbo), Config(s.(pending := map[]), lim))
    decreases |s.pending|
  {
    hide Inv, Reaches, TakenOut;
    var c := Config(s, limbo);
    ReachSelf(c);
    if s.pending == map[] {
      assert s.(pending := map[]) == s;
      lim := limbo;
    } else {
      var a :| a in s.pending;
      ThenMove(c, c, MLiftPending(a, map[]));
      var d := Apply(c, MLiftPending(a, map[]));
      ThenMove(c, d, MDropEmpty(a, true));
      var e := Apply(d, MDropEmpty(a, true));
      assert e.s.pending == s.pending - {a};
      assert (s.pending - {a}).Keys == s.pending.Keys - {a};
      lim := LiftAllPending(e.s, e.limbo);
      assert e.s.(pending := map[]) == s.(pending := map[]);
      ReachTrans(c, e, Config(s.(pending := map[]), lim));
    }
  }

  lemma {:induction false} LiftAllQueued(s: Pool, limbo: set<Hash>) returns (lim: set<Hash>)
    requires Inv(s, limbo)
    ensures Inv(s.(queue := map[]), lim) && Reaches(Config(s, limbo), Config(s.(queue := map[]), lim))
    decreases |s.queue|
  {
    hide Inv, Reaches, TakenOut;
    var c := Config(s, limbo);
    ReachSelf(c);
    if s.queue == map[] {
      assert s.(queue := map[]) == s;
      lim := limbo;
    } else {
      var a :| a in s.queue;
      ThenMove(c, c, MLiftQueue(a, map[]));
      var d := Apply(c, MLiftQueue(a, map[]));
      ThenMove(c, d, MDropEmpty(a, false));
      var e := Apply(d, MDropEmpty(a, false));
      assert e.s.queue == s.queue - {a};
      assert (s.queue - {a}).Keys == s.queue.Keys - {a};
      lim := LiftAllQueued(e.s, e.limbo);
      assert e.s.(queue := map[]) == s.(queue := map[]);
      ReachTrans(c, e, Config(s.(queue := map[]), lim));
    }
  }

  lemma {:induction false} AllInLimbo(s: Pool, limbo: set<Hash>)
    requires Inv(s, limbo) && s.pending == map[] && s.queue == map[]
    ensures limbo == s.all.Keys
  {
    hide SumSlots, ClaimsKnown, UniqueNonces;
  }

  // ---------- Dropping ----------

  /** Everything in gone is dropped, and the commitments of given are given back. */
  lemma {:induction false} ForgetAll(s: Pool, limbo: set<Hash>, gone: set<Hash>, given: set<Hash>) returns (t: Pool)
    requires Inv(s, limbo) && gone <= limbo && given <= gone && limbo <= s.all.Keys
    ensures Inv(t, limbo - gone) && Reaches(Config(s, limbo), Config(t, limbo - gone))
    ensures t.pending == s.pending && t.queue == s.queue && t.all == s.all - gone
    ensures t.cmdb == ReleaseSet(s.cmdb, Part(s.all, given))
    decreases |gone|
  {
    hide Inv, Reaches, ReleaseSet, Part, Released, Tx.Slots;
    var c := Config(s, limbo);
    ReachSelf(c);
    if gone == {} {
      assert given == {} && limbo - gone == limbo && s.all - gone == s.all;
      PartNone(s.cmdb, s.all);
      t := s;
    } else {
      var h :| h in gone;
      var m := MForget(h, h in given);
      ThenMove(c, c, m);
      var d := Apply(c, m);
      t := ForgetAll(d.s, limbo - {h}, gone - {h}, given - {h});
      assert limbo - {h} - (gone - {h}) == limbo - gone;
      assert s.all - {h} - (gone - {h}) == s.all - gone;
      ReachTrans(c, d, Config(t, limbo - gone));
      ForgetRelease(s, limbo, h, given);
    }
  }

  lemma {:induction false} PartNone(cmdb: CMdb, all: Lookup)
    ensures ReleaseSet(cmdb, Part(all, {})) == cmdb
  {
    assert Part(all, {}) == map[];
    ReleaseSetNone(cmdb);
  }

  lemma {:induction false} ForgetRelease(s: Pool, limbo: set<Hash>, h: Hash, given: set<Hash>)
    requires Inv(s, limbo) && h in s.all
    ensures ReleaseSet(Forget(s, h, h in given).cmdb, Part(s.all - {h}, given - {h})) == ReleaseSet(s.cmdb, Part(s.all, given))
  {
    hide Inv, ReleaseSet, Released, Tx.Slots;
    if h in given {
      ClaimKnown(s, limbo, h);
      ReleaseOne(s.cmdb, s.all, h);
      ReleaseTwo(s.cmdb, s.all, {h}, given - {h});
      assert {h} + (given - {h}) == given;
    } else {
      assert Part(s.all - {h}, given - {h}) == Part(s.all, given);
    }
  }

  // ---------- Putting back ----------

  /** The lists of p are parts of those of q, and not empty. */
  ghost predicate Within(p: AccountLists, q: AccountLists)
  {
    forall a :: a in p ==> p[a] != map[] && a in q && PartOf(p[a], q[a])
  }

  lemma {:induction false} IntoWithin(p: AccountLists, q: AccountLists, t: Tx)
    requires Within(p, q) && In(q, t)
    ensures Within(Into(p, t), q)
  {
    assert t.nonce in Into(p, t)[t.from];
  }

  /** What is in limbo is put where r has it. */
  lemma {:induction false} PlaceAll(s: Pool, limbo: set<Hash>, r: Pool)
    requires Inv(s, limbo) && Inv(r, {}) && s.all == r.all && s.cmdb == r.cmdb
    requires Within(s.pending, r.pending) && Within(s.queue, r.queue) && NoEmpty(r.pending) && NoEmpty(r.queue)
    ensures Reaches(Config(s, limbo), Config(r, {}))
    decreases |limbo|
  {
    hide Inv, Reaches, Within, NoEmpty, Into, In;
    var c := Config(s, limbo);
    if limbo == {} {
      AllPlaced(s, r);
      ReachSelf(c);
    } else {
      var h :| h in limbo;
      LimboFree(s, limbo, h);
      PlaceOf(r, h);
      var m := if In(r.pending, r.all[h]) then MPromote(h) else MRequeue(h);
      ReachSelf(c);
      ThenMove(c, c, m);
      var d := Apply(c, m);
      if m.MPromote? {
        IntoWithin(s.pending, r.pending, r.all[h]);
      } else {
        IntoWithin(s.queue, r.queue, r.all[h]);
      }
      PlaceAll(d.s, d.limbo, r);
      ReachTrans(c, d, Config(r, {}));
    }
  }

  lemma {:induction false} PlaceOf(r: Pool, h: Hash)
    requires Inv(r, {}) && h in r.all
    ensures In(r.pending, r.all[h]) || In(r.queue, r.all[h])
    ensures !(In(r.pending, r.all[h]) && In(r.queue, r.all[h]))
  {
    hide SumSlots, ClaimsKnown, UniqueNonces, Filed;
  }

  /** With nothing in limbo, lists within those of r are those of r. */
  lemma {:induction false} AllPlaced(s: Pool, r: Pool)
    requires Inv(s, {}) && Inv(r, {}) && s.all == r.all && s.cmdb == r.cmdb
    requires Within(s.pending, r.pending) && Within(s.queue, r.queue) && NoEmpty(r.pending) && NoEmpty(r.queue)
    ensures s == r
  {
    hide Inv;
    forall a, n | a in r.pending && n in r.pending[a] ensures a in s.pending && n in s.pending[a] {
      ListFiled(r, {}, a);
      assert FiledAs(ListOf(r.pending, a)[n], a, n, r.all);
      var t := r.pending[a][n];
      PlaceOf(s, t.hash);
      PlaceOf(r, t.hash);
    }
    forall a, n | a in r.queue && n in r.queue[a] ensures a in s.queue && n in s.queue[a] {
      ListFiled(r, {}, a);
      assert FiledAs(ListOf(r.queue, a)[n], a, n, r.all);
      var t := r.queue[a][n];
      PlaceOf(s, t.hash);
      PlaceOf(r, t.hash);
    }
    SameLists(s.pending, r.pending);
    SameLists(s.queue, r.queue);
    SameSlots(s, r);
  }

  lemma {:induction false} SameLists(p: AccountLists, q: AccountLists)
    requires Within(p, q) && NoEmpty(q) && forall a, n :: a in q && n in q[a] ==> a in p && n in p[a]
    ensures p == q
  {
    forall a | a in q ensures a in p {
      var n :| n in q[a];
    }
    forall a | a in q ensures p[a] == q[a] {
    }
  }

  lemma {:induction false} SameSlots(s: Pool, r: Pool)
    requires Inv(s, {}) && Inv(r, {}) && s.all == r.all
    ensures s.slots == r.slots
  {
    hide ClaimsKnown, UniqueNonces, Filed, Placed;
  }

  /** Any good state with fewer transactions, in which exactly the commitments of given were given back, is
      reached by a run of moves. */
  lemma {:induction false} Rearranged(s: Pool, r: Pool, given: set<Hash>)
    requires Inv(s, {}) && Inv(r, {}) && NoEmpty(r.pending) && NoEmpty(r.queue)
    requires forall h :: h in r.all ==> h in s.all && r.all[h] == s.all[h]
    requires given <= s.all.Keys - r.all.Keys && r.cmdb == ReleaseSet(s.cmdb, Part(s.all, given))
    ensures Reaches(Config(s, {}), Config(r, {}))
  {
    hide Inv, Reaches, ReleaseSet, Part, NoEmpty;
    var c := Config(s, {});
    var lim := LiftAllPending(s, {});
    var s1 := s.(pending := map[]);
    var lim2 := LiftAllQueued(s1, lim);
    var s2 := s1.(queue := map[]);
    ReachTrans(c, Config(s1, lim), Config(s2, lim2));
    AllInLimbo(s2, lim2);
    var gone := s.all.Keys - r.all.Keys;
    var t := ForgetAll(s2, lim2, gone, given);
    ReachTrans(c, Config(s2, lim2), Config(t, lim2 - gone));
    assert t.all == r.all;
    PlaceAll(t, lim2 - gone, r);
    ReachTrans(c, Config(t, lim2 - gone), Config(r, {}));
  }

  // ---------- The operations ----------

  /** Promotion, demotion and the cuts: whatever only takes transactions away and gives back the commitments of
      all but those overtaken. */
  lemma {:induction false} LeftReached(s: Pool, r: Pool, overtaken: set<Hash>)
    requires Inv(s, {}) && Inv(r, {}) && NoEmpty(r.pending) && NoEmpty(r.queue) && LeftBut(s, r, overtaken)
    ensures Reaches(Config(s, {}), Config(r, {}))
  {
    hide Inv, Reaches, ReleaseSet, Part, NoEmpty;
    Rearranged(s, r, s.all.Keys - r.all.Keys - overtaken);
  }

  /** removeTx, any number of times. */
  lemma {:induction false} FreedReached(s: Pool, r: Pool)
    requires Inv(s, {}) && Inv(r, {}) && NoEmpty(r.pending) && NoEmpty(r.queue) && Freed(s, r)
    ensures Reaches(Config(s, {}), Config(r, {}))
  {
    hide Inv, Reaches, NoEmpty, Freed, LeftBut;
    FreedLeaves(s, r);
    LeftReached(s, r, {});
  }

  /** A new transaction that passes validateCM enters by a lift, a release and an admission, or by the last alone. */
  lemma {:induction false} EnteredReached(s: Pool, t: Tx, asPending: bool)
    requires Inv(s, {}) && Admissible(s, {}, t, asPending) && ValidCM(s.cmdb, t)
    ensures Reaches(Config(s, {}), Config(Entered(s, t, asPending), {}))
  {
    hide Inv, Reaches, ValidCM, Tx.Slots, Released, Locked, Into;
    var c := Config(s, {});
    ReachSelf(c);
    var m := ListOf(if asPending then s.pending else s.queue, t.from);
    if t.nonce in m {
      ListFiled(s, {}, t.from);
      var u := m[t.nonce];
      assert FiledAs(u, t.from, t.nonce, s.all);
      var kept := m - {t.nonce};
      assert TakenOut(kept, m) == {u.hash} && {} + {u.hash} == {u.hash} && {u.hash} - {u.hash} == {};
      var lift := if asPending then MLiftPending(t.from, kept) else MLiftQueue(t.from, kept);
      ThenMove(c, c, lift);
      var d := Apply(c, lift);
      ThenMove(c, d, MForget(u.hash, true));
      var e := Apply(d, MForget(u.hash, true));
      ValidStill(s, u.hash, t);
      NonceFree(s, u.hash, t);
      ThenMove(c, e, MAdmit(t, asPending));
    } else {
      ThenMove(c, c, MAdmit(t, asPending));
    }
  }

  lemma {:induction false} ValidStill(s: Pool, h: Hash, t: Tx)
    requires Inv(s, {}) && h in s.all && ValidCM(s.cmdb, t)
    ensures ValidCM(Released(s.cmdb, s.all[h]), t)
  {
    hide Inv;
    ClaimKnown(s, {}, h);
  }

  lemma {:induction false} NonceFree(s: Pool, h: Hash, t: Tx)
    requires Inv(s, {}) && h in s.all && s.all[h].from == t.from && s.all[h].nonce == t.nonce
    ensures forall k :: k in s.all - {h} ==> !(s.all[k].from == t.from && s.all[k].nonce == t.nonce)
  {
    hide Filed, Placed, SumSlots, ClaimsKnown;
  }

  /** Making room does not spoil what validateCM found. */
  lemma {:induction false} ValidAfter(s: Pool, r: Pool, t: Tx)
    requires Freed(s, r) && ValidCM(s.cmdb, t)
    ensures ValidCM(r.cmdb, t)
  {
  }

  /** Making room and entering. */
  lemma {:induction false} AddReached(s: Pool, room: Pool, t: Tx, asPending: bool)
    requires Inv(s, {}) && Inv(room, {}) && NoEmpty(room.pending) && NoEmpty(room.queue) && Freed(s, room)
    requires Admissible(room, {}, t, asPending) && ValidCM(s.cmdb, t)
    ensures Reaches(Config(s, {}), Config(Entered(room, t, asPending), {}))
  {
    hide Inv, Reaches, NoEmpty, Freed, Admissible, ValidCM, Entered;
    FreedReached(s, room);
    ValidAfter(s, room, t);
    EnteredReached(room, t, asPending);
    ReachTrans(Config(s, {}), Config(room, {}), Config(Entered(room, t, asPending), {}));
  }

  // ---------- Sequences of operations ----------

  /** Where a nonce of an account is pooled before and after, the price pooled there has not fallen. */
  ghost predicate PricesKept(s: Pool, r: Pool)
  {
    forall h, k :: h in s.all && k in r.all && s.all[h].from == r.all[k].from && s.all[h].nonce == r.all[k].nonce ==>
      s.all[h].price <= r.all[k].price
  }

  /** One operation of the pool, or the import of a block. Adding a transaction to a full pool is two: making room and
      entering. */
  ghost predicate PoolStep(s: Pool, r: Pool)
  {
    && PricesKept(s, r)
    && (Reaches(Config(s, {}), Config(r, {})) || exists block: seq<Tx> :: r == s.(cmdb := BookedAll(s.cmdb, block)))
  }

  /** What only loses transactions keeps prices. */
  lemma {:induction false} LosingKeepsPrices(s: Pool, r: Pool)
    requires Inv(s, {}) && forall h :: h in r.all ==> h in s.all && r.all[h] == s.all[h]
    ensures PricesKept(s, r)
  {
    hide Filed, Placed, ClaimsKnown, SumSlots;
  }

  /** A transaction that enters under the bump rule raises the price of its nonce, if that is taken. */
  lemma {:induction false} EnteringKeepsPrices(s: Pool, t: Tx, asPending: bool, bump: nat)
    requires Inv(s, {}) && Admissible(s, {}, t, asPending)
    requires L.Accepts(ListOf(if asPending then s.pending else s.queue, t.from), t, bump)
    ensures PricesKept(s, Entered(s, t, asPending))
  {
    hide Inv, L.Replaces, Released, Locked, Tx.Slots, Into;
    var r, list := Entered(s, t, asPending), ListOf(if asPending then s.pending else s.queue, t.from);
    L.AcceptsExact(list, t, bump);
    EnteredSlots(s, t, asPending);
    LosingKeepsPrices(s, s);
    forall h, k | h in s.all && k in r.all && s.all[h].from == r.all[k].from && s.all[h].nonce == r.all[k].nonce
      ensures s.all[h].price <= r.all[k].price
    {
      if k == t.hash {
        assert r.all[k] == t;
      }
    }
  }

  /** Making room and entering together keep prices if and only if no dearer transaction of the same account and nonce had
      to make room. */
  lemma {:induction false} AddPrices(s: Pool, room: Pool, t: Tx, asPending: bool, bump: nat, drop: seq<Tx>)
    requires Inv(s, {}) && Inv(room, {}) && t.hash !in s.all && Admissible(room, {}, t, asPending)
    requires Dropped(s.all, room.all, drop)
    requires L.Accepts(ListOf(if asPending then room.pending else room.queue, t.from), t, bump)
    ensures PricesKept(s, Entered(room, t, asPending)) <==> NoneDearer(drop, t)
  {
    hide Inv, L.Accepts, Entered, Admissible;
    var r := Entered(room, t, asPending);
    EnteringKeepsPrices(room, t, asPending, bump);
    EnteredThere(room, t, asPending);
    LosingKeepsPrices(s, s);
    forall h | h in s.all && h !in room.all ensures s.all[h] in drop {
      var u :| u in drop && u.hash == h;
    }
    if NoneDearer(drop, t) {
      forall h, k | h in s.all && k in r.all && s.all[h].from == r.all[k].from && s.all[h].nonce == r.all[k].nonce
        ensures s.all[h].price <= r.all[k].price
      {
        if k == t.hash && h in room.all {
          assert room.all[h] == s.all[h];
        }
      }
    }
  }

  lemma {:induction false} EnteredThere(s: Pool, t: Tx, asPending: bool)
    ensures var r := Entered(s, t, asPending).all;
            && t.hash in r && r[t.hash] == t && forall h :: h in r ==> h == t.hash || (h in s.all && r[h] == s.all[h])
  {
    hide Released, Locked, Tx.Slots, Into;
  }

  /** A transfer of two slots by account 5. */
  const LARGE := Tx(9, 5, 0, 3, 0, 0, TX_SLOT_SIZE + 1, 0, 0, 9, 19, 29)

  const TWO_COINS := EMPTY_POOL.(cmdb := map[1 := CM(false, false), 5 := CM(false, false), 9 := CM(false, false)])

  /** A pool of two slots with transfers of price 1 and 5, the latter by account 5. */
  function TwoPooled(): Pool
  {
    Admit(Admit(TWO_COINS, SmallTransfer(1), false), SmallTransfer(5), false)
  }

  /** With room for two slots, a transfer of price 3 and two slots makes both leave and takes the nonce of the dearer one. */
  lemma {:induction false} PriceFalls(bump: nat)
    ensures var s, drop := TwoPooled(), [SmallTransfer(1), SmallTransfer(5)];
            var room := WithoutAll(s, HashSeq(drop));
            && Inv(s, {}) && s.slots == 2 && ValidCM(s.cmdb, LARGE) && Displaced(s.all, {}, drop, s.slots - 2 + LARGE.Slots())
            && L.Accepts(ListOf(room.queue, 5), LARGE, bump) && LARGE.nonce !in ListOf(room.pending, 5)
            && !PricesKept(s, Entered(room, LARGE, false))
  {
    hide Inv, Displaced, PricesKept, L.Accepts, WithoutAll, Entered;
    TwoInv();
    TwoDisplaced();
    TwoLeave();
    var s, room := TwoPooled(), WithoutAll(TwoPooled(), HashSeq([SmallTransfer(1), SmallTransfer(5)]));
    EnteredThere(room, LARGE, false);
    L.AcceptsExact(map[], LARGE, bump);
    Fallen(s, Entered(room, LARGE, false));
  }

  lemma {:induction false} Fallen(s: Pool, r: Pool)
    requires 5 in s.all && s.all[5] == SmallTransfer(5) && 9 in r.all && r.all[9] == LARGE
    ensures !PricesKept(s, r)
  {
  }

  lemma {:induction false} TwoInv()
    ensures var s := TwoPooled();
            && Inv(s, {}) && s.slots == 2 && ValidCM(s.cmdb, LARGE) && s.pending == map[]
            && s.queue == map[1 := map[0 := SmallTransfer(1)], 5 := map[0 := SmallTransfer(5)]]
            && s.all == map[1 := SmallTransfer(1), 5 := SmallTransfer(5)]
  {
    hide Inv;
    var t, u := SmallTransfer(1), SmallTransfer(5);
    EmptyPoolInv(TWO_COINS.cmdb);
    assert TWO_COINS == EMPTY_POOL.(cmdb := TWO_COINS.cmdb);
    AdmitKeeps(TWO_COINS, {}, t, false);
    AdmitKeeps(Admit(TWO_COINS, t, false), {}, u, false);
  }

  lemma {:induction false} TwoDisplaced()
    ensures Displaced(TwoPooled().all, {}, [SmallTransfer(1), SmallTransfer(5)], LARGE.Slots()) && LARGE.Slots() == 2
  {
    hide SmallTransfer, Inv, Tx.Slots;
    var drop := [SmallTransfer(1), SmallTransfer(5)];
    TwoInv();
    SmallSlots(1);
    SmallSlots(5);
    LargeSlots();
    assert drop[..1] == [SmallTransfer(1)] && [SmallTransfer(1)][..0] == [];
    assert P.SlotsOf(drop[..1]) == 1 && P.SlotsOf(drop) == 2;
    assert drop[0].hash in HashSet(drop) && drop[1].hash in HashSet(drop);
  }

  lemma {:induction false} LargeSlots()
    ensures LARGE.Slots() == 2
  {
  }

  lemma {:induction false} TwoLeave()
    ensures var room := WithoutAll(TwoPooled(), HashSeq([SmallTransfer(1), SmallTransfer(5)]));
            room.pending == map[] && room.queue == map[]
  {
    hide Inv;
    TwoInv();
    var s, hs := TwoPooled(), HashSeq([SmallTransfer(1), SmallTransfer(5)]);
    assert hs[..1] == [1] && hs[1] == 5 && [1][..0] == [];
    assert WithoutAll(s, hs) == Without(WithoutAll(s, [1]), 5);
    var one := Without(s, 1);
    assert WithoutAll(s, [1]) == one;
    assert map[0 := SmallTransfer(1)] - {0} == map[];
    assert one.queue == map[5 := map[0 := SmallTransfer(5)]];
    assert map[0 := SmallTransfer(5)] - {0} == map[];
    assert Without(one, 5).queue == map[];
  }

  /** The account has a transaction of the nonce in the pool. */
  ghost predicate Holds(s: Pool, a: Addr, n: nat)
  {
    exists h :: h in s.all && s.all[h].from == a && s.all[h].nonce == n
  }

  /** Over any sequence of operations: as long as a nonce of an account stays pooled, the price pooled there never falls. */
  lemma {:induction false} HistoryPrices(pools: seq<Pool>, db: CMdb, j: nat, i: nat, h: Hash, k: Hash)
    requires History(pools, db) && j <= i < |pools| && h in pools[j].all && k in pools[i].all
    requires pools[j].all[h].from == pools[i].all[k].from && pools[j].all[h].nonce == pools[i].all[k].nonce
    requires forall x :: j <= x <= i ==> Holds(pools[x], pools[j].all[h].from, pools[j].all[h].nonce)
    ensures pools[j].all[h].price <= pools[i].all[k].price
    decreases i
  {
    hide Inv, Reaches, BookedAll;
    if i == j {
      HistoryKeeps(pools, db, j);
      LosingKeepsPrices(pools[j], pools[j]);
    } else {
      assert Holds(pools[i - 1], pools[j].all[h].from, pools[j].all[h].nonce);
      var g :| g in pools[i - 1].all && pools[i - 1].all[g].from == pools[j].all[h].from && pools[i - 1].all[g].nonce == pools[j].all[h].nonce;
      HistoryPrices(pools, db, j, i - 1, h, g);
      assert PoolStep(pools[i - 1], pools[i - 1 + 1]);
    }
  }

  /** The states between the operations on a pool that was empty at first. */
  ghost predicate History(pools: seq<Pool>, db: CMdb)
  {
    && |pools| > 0 && pools[0] == EMPTY_POOL.(cmdb := db)
    && forall i :: 0 <= i < |pools| - 1 ==> PoolStep(pools[i], pools[i + 1])
  }

  /** The run passes through the pools in their order. */
  ghost predicate PassesThrough(states: seq<Config>, pools: seq<Pool>, at: seq<nat>)
  {
    && |at| == |pools|
    && (forall i :: 0 <= i < |at| ==> at[i] < |states| && states[at[i]] == Config(pools[i], {}))
    && (forall i, j :: 0 <= i < j < |at| ==> at[i] <= at[j])
  }

  /** Any sequence of operations and imports is one run of the machine, so what is said about runs and their histories
      is said about the pool. */
  lemma {:induction false} HistoryRun(pools: seq<Pool>, db: CMdb) returns (states: seq<Config>, moves: seq<Move>, at: seq<nat>)
    requires History(pools, db)
    ensures H.RunOver(states, moves, db) && PassesThrough(states, pools, at) && at[|at| - 1] == |moves|
  {
    hide PoolStep;
    if |pools| == 1 {
      states, moves, at := [Config(pools[0], {})], [], [0];
    } else {
      var front, r := pools[..|pools| - 1], pools[|pools| - 1];
      var before, first, at0 := HistoryRun(front, db);
      assert PoolStep(pools[|pools| - 2], pools[|pools| - 1]);
      var after, second := StepRun(front[|front| - 1], r);
      states, moves, at := before + after[1..], first + second, at0 + [|first| + |second|];
      JoinRuns(before, first, after, second);
      assert pools == front + [r];
      assert forall i :: 0 <= i < |front| ==> states[at[i]] == before[at0[i]];
    }
  }

  lemma {:induction false} StepRun(s: Pool, r: Pool) returns (states: seq<Config>, moves: seq<Move>)
    requires PoolStep(s, r)
    ensures IsRun(states, moves) && states[0] == Config(s, {}) && states[|moves|] == Config(r, {})
  {
    hide Enabled, BookedAll;
    if Reaches(Config(s, {}), Config(r, {})) {
      states, moves :| RunFromTo(states, moves, Config(s, {}), Config(r, {}));
    } else {
      var block: seq<Tx> :| r == s.(cmdb := BookedAll(s.cmdb, block));
      states, moves := [Config(s, {}), Config(r, {})], [MImport(block)];
      ImportMove(s, block);
    }
  }

  lemma {:induction false} ImportMove(s: Pool, block: seq<Tx>)
    ensures var c, m := Config(s, {}), MImport(block);
            Enabled(c, m) && Apply(c, m) == Config(s.(cmdb := BookedAll(s.cmdb, block)), {})
  {
  }

  lemma {:induction false} JoinRuns(states: seq<Config>, moves: seq<Move>, states': seq<Config>, moves': seq<Move>)
    requires IsRun(states, moves) && IsRun(states', moves') && states[|moves|] == states'[0]
    ensures IsRun(states + states'[1..], moves + moves')
    ensures (states + states'[1..])[|moves| + |moves'|] == states'[|moves'|]
  {
    hide Enabled, Apply;
    var all, both := states + states'[1..], moves + moves';
    forall i | 0 <= i < |both| ensures Enabled(all[i], both[i]) && all[i + 1] == Apply(all[i], both[i]) {
      if i < |moves| {
        assert all[i] == states[i] && all[i + 1] == states[i + 1];
      } else {
        var j := i - |moves|;
        assert all[i] == states'[j] && all[i + 1] == states'[j + 1];
      }
    }
  }

  /** Between the operations the pool invariant holds, and without imports claims are distinct and locked. */
  lemma {:induction false} HistoryKeeps(pools: seq<Pool>, db: CMdb, i: nat)
    requires History(pools, db) && i < |pools|
    ensures Inv(pools[i], {})
    ensures (forall j :: 0 <= j < i ==> Reaches(Config(pools[j], {}), Config(pools[j + 1], {}))) ==>
              ClaimsLocked(pools[i].all, pools[i].cmdb)
  {
    hide Inv, Reaches, ClaimsLocked, BookedAll;
    if i == 0 {
      EmptyPoolInv(db);
      EmptyLocked(db);
    } else {
      HistoryKeeps(pools, db, i - 1);
      assert PoolStep(pools[i - 1], pools[i - 1 + 1]);
      var c, d := Config(pools[i - 1], {}), Config(pools[i], {});
      if Reaches(c, d) {
        ReachKeeps(c, d);
        if ClaimsLocked(c.s.all, c.s.cmdb) {
          ReachLocks(c, d);
        }
      } else {
        var block: seq<Tx> :| pools[i] == pools[i - 1].(cmdb := BookedAll(pools[i - 1].cmdb, block));
        ImportKeeps(pools[i - 1], {}, block);
        assert !Reaches(Config(pools[i - 1], {}), Config(pools[i - 1 + 1], {}));
      }
    }
  }

  lemma {:induction false} EmptyOrdered(chain: Chain)
    ensures Tidy(map[], map[], chain) && Current(map[], chain) && NoEmpty(map[]) && Priced([], map[], {}) && OnceEach([], map[])
  {
  }

  lemma {:induction false} EmptyLocked(db: CMdb)
    ensures ClaimsLocked(EMPTY_POOL.(cmdb := db).all, db)
  {
  }
}
