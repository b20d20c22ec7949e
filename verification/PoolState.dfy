/**
 The transaction pool as a state machine: pending and queued nonce maps per account, the lookup of
 all transactions with its slot count, and the commitment database. The machine's moves are the
 small steps from which every pool operation is made. Between two moves a transaction may be in limbo:
 known to the lookup, but in neither list.
 */
module PoolState {
  import opened Common
  import opened Transactions

  /** A commitment's entry in the database. */
  datatype CM = CM(spent: bool, lock: bool)

  type CMdb = map<Hash, CM>

  type AccountLists = map<Addr, NonceMap>

  datatype Pool = Pool(pending: AccountLists, queue: AccountLists, all: Lookup, slots: int, cmdb: CMdb)

  const EMPTY_POOL := Pool(map[], map[], map[], 0, map[])

  // ---------- Commitments ----------

  /** The commitment a transaction claims: the one it creates by purchase or the one it spends. */
  function Claim(t: Tx): Hash
  {
    if t.id == 1 then t.cmV else t.cmO
  }

  predicate KnownId(t: Tx)
  {
    t.id == 0 || t.id == 1
  }

  /** validateCM */
  predicate ValidCM(cmdb: CMdb, t: Tx)
  {
    if t.id == 1 then t.cmV !in cmdb
    else
      && t.id == 0
      && t.cmO in cmdb && !cmdb[t.cmO].spent && !cmdb[t.cmO].lock
      && t.cmS !in cmdb && t.cmR !in cmdb
  }

  /** processCM */
  function Locked(cmdb: CMdb, t: Tx): CMdb
  {
    if KnownId(t) then cmdb[Claim(t) := CM(false, true)] else cmdb
  }

  /** reorgCM */
  function Released(cmdb: CMdb, t: Tx): CMdb
  {
    if KnownId(t) then cmdb[Claim(t) := CM(false, false)] else cmdb
  }

  /** What WriteAllCM does for one transaction of an imported block. */
  function Booked(cmdb: CMdb, t: Tx): CMdb
  {
    if t.id == 1 then cmdb[t.cmV := CM(false, false)]
    else if t.id == 0 then cmdb[t.cmO := CM(true, false)][t.cmS := CM(false, false)][t.cmR := CM(false, false)]
    else cmdb
  }

  /** WriteAllCM */
  function BookedAll(cmdb: CMdb, block: seq<Tx>): CMdb
  {
    if block == [] then cmdb else Booked(BookedAll(cmdb, block[..|block| - 1]), block[|block| - 1])
  }

  /** The entry that an imported transaction writes for a commitment, if any. */
  function TxBooks(t: Tx, k: Hash): Option<CM>
  {
    if t.id == 1 then (if k == t.cmV then Some(CM(false, false)) else None)
    else if t.id == 0 then
      if k == t.cmS || k == t.cmR then Some(CM(false, false)) else if k == t.cmO then Some(CM(true, false)) else None
    else None
  }

  /** The entry that an imported block leaves for a commitment, if it writes one. */
  function BlockBooks(block: seq<Tx>, k: Hash): Option<CM>
  {
    if block == [] then None
    else if TxBooks(block[|block| - 1], k).Some? then TxBooks(block[|block| - 1], k)
    else BlockBooks(block[..|block| - 1], k)
  }

  /** Importing a block changes exactly the entries it writes. */
  lemma {:induction false} BookedExact(cmdb: CMdb, block: seq<Tx>, k: Hash)
    ensures var now, w := BookedAll(cmdb, block), BlockBooks(block, k);
            if w.Some? then k in now && now[k] == w.value else (k in now <==> k in cmdb) && (k in now ==> now[k] == cmdb[k])
  {
    if block != [] {
      BookedExact(cmdb, block[..|block| - 1], k);
    }
  }

  /** The transaction has the commitment nowhere. */
  predicate Unrelated(t: Tx, k: Hash)
  {
    k != t.cmV && k != t.cmO && k != t.cmS && k != t.cmR
  }

  /** A transfer in a block spends its old coin and creates two, a purchase creates one, unless the block goes on to do
      something else with them. */
  lemma {:induction false} BlockSpends(cmdb: CMdb, block: seq<Tx>, i: nat, k: Hash)
    requires i < |block| && forall j :: i < j < |block| ==> Unrelated(block[j], k)
    ensures var t, now := block[i], BookedAll(cmdb, block);
            && (t.id == 0 && k == t.cmO && k != t.cmS && k != t.cmR ==> k in now && now[k].spent && !now[k].lock)
            && (t.id == 0 && (k == t.cmS || k == t.cmR) ==> k in now && !now[k].spent && !now[k].lock)
            && (t.id == 1 && k == t.cmV ==> k in now && !now[k].spent && !now[k].lock)
    decreases |block|
  {
    if i < |block| - 1 {
      BlockSpends(cmdb, block[..|block| - 1], i, k);
      assert Unrelated(block[|block| - 1], k);
    }
  }

  // ---------- The invariant ----------

  function ListOf(l: AccountLists, a: Addr): NonceMap
  {
    if a in l then l[a] else map[]
  }

  predicate In(l: AccountLists, t: Tx)
  {
    t.from in l && t.nonce in l[t.from] && l[t.from][t.nonce] == t
  }

  ghost predicate FiledAs(t: Tx, a: Addr, n: nat, all: Lookup)
  {
    t.from == a && t.nonce == n && t.hash in all && all[t.hash] == t
  }

  /** Every entry of the lists is filed under its sender and nonce and is in the lookup. */
  ghost predicate Filed(l: AccountLists, all: Lookup)
  {
    forall a, n :: a in l && n in l[a] ==> FiledAs(l[a][n], a, n, all)
  }

  /** No account has two pooled transactions of one nonce. */
  ghost predicate UniqueNonces(all: Lookup)
  {
    forall h, k :: h in all && k in all && all[h].from == all[k].from && all[h].nonce == all[k].nonce ==> h == k
  }

  /** Every pooled transaction is in exactly one place: pending, queue or limbo. */
  ghost predicate Placed(s: Pool, limbo: set<Hash>)
  {
    forall h :: h in s.all ==>
      var t := s.all[h];
      && (In(s.pending, t) || In(s.queue, t) || h in limbo)
      && !(In(s.pending, t) && In(s.queue, t))
      && (h in limbo ==> !In(s.pending, t) && !In(s.queue, t))
  }

  /** The database has the commitments claimed by pooled transactions. */
  ghost predicate ClaimsKnown(all: Lookup, cmdb: CMdb)
  {
    forall h :: h in all ==> KnownId(all[h]) && Claim(all[h]) in cmdb
  }

  /** At most one pooled transaction claims the commitment, and then it is locked. */
  ghost predicate Guarded(all: Lookup, cmdb: CMdb, k: Hash)
  {
    && (forall g, h :: g in all && h in all && Claim(all[g]) == k && Claim(all[h]) == k ==> g == h)
    && (forall h :: h in all && Claim(all[h]) == k ==> k in cmdb && cmdb[k].lock)
  }

  /** The commitments claimed by pooled transactions are pairwise distinct and locked. The pool's own steps keep this;
      the import of a block may not. */
  ghost predicate ClaimsLocked(all: Lookup, cmdb: CMdb)
  {
    forall k :: Guarded(all, cmdb, k)
  }

  ghost function SumSlots(all: Lookup): nat
  {
    if all == map[] then 0 else
    var h :| h in all;
    all[h].Slots() + SumSlots(all - {h})
  }

  ghost predicate Inv(s: Pool, limbo: set<Hash>)
  {
    && Filed(s.pending, s.all)
    && Filed(s.queue, s.all)
    && Keyed(s.all)
    && UniqueNonces(s.all)
    && limbo <= s.all.Keys
    && Placed(s, limbo)
    && s.slots == SumSlots(s.all)
    && ClaimsKnown(s.all, s.cmdb)
  }

  lemma {:induction false} SumSlotsRemove(all: Lookup, h: Hash)
    requires h in all
    ensures SumSlots(all) == all[h].Slots() + SumSlots(all - {h})
    decreases |all|
  {
    var k :| k in all && SumSlots(all) == all[k].Slots() + SumSlots(all - {k});
    if k != h {
      assert |(all - {k}).Keys| == |all.Keys| - 1 by {
        assert (all - {k}).Keys == all.Keys - {k};
      }
      SumSlotsRemove(all - {k}, h);
      assert all - {k} - {h} == all - {h} - {k};
      assert |(all - {h}).Keys| == |all.Keys| - 1 by {
        assert (all - {h}).Keys == all.Keys - {h};
      }
      SumSlotsRemove(all - {h}, k);
    }
  }

  // ---------- Moves ----------

  /** list.Forward, Filter, Cap, Remove, Ready: what is left of an account's list is a part of it. */
  predicate PartOf(kept: NonceMap, m: NonceMap)
  {
    forall n :: n in kept ==> n in m && m[n] == kept[n]
  }

  /** The hashes of what an operation took out of a list. */
  function TakenOut(kept: NonceMap, m: NonceMap): set<Hash>
  {
    set n | n in m && n !in kept :: m[n].hash
  }

  function LiftPending(s: Pool, a: Addr, kept: NonceMap): Pool
  {
    s.(pending := s.pending[a := kept])
  }

  function LiftQueue(s: Pool, a: Addr, kept: NonceMap): Pool
  {
    s.(queue := s.queue[a := kept])
  }

  /** all.Remove, with or without giving the commitment back. */
  function Forget(s: Pool, h: Hash, release: bool): Pool
    requires h in s.all
  {
    s.(all := s.all - {h}, slots := s.slots - s.all[h].Slots(),
       cmdb := if release then Released(s.cmdb, s.all[h]) else s.cmdb)
  }

  function Into(l: AccountLists, t: Tx): AccountLists
  {
    l[t.from := ListOf(l, t.from)[t.nonce := t]]
  }

  function Requeue(s: Pool, h: Hash): Pool
    requires h in s.all
  {
    s.(queue := Into(s.queue, s.all[h]))
  }

  function Promote(s: Pool, h: Hash): Pool
    requires h in s.all
  {
    s.(pending := Into(s.pending, s.all[h]))
  }

  /** A new transaction enters, into the pending list or the queue. */
  function Admit(s: Pool, t: Tx, asPending: bool): Pool
  {
    var pooled := s.(all := s.all[t.hash := t], slots := s.slots + t.Slots(), cmdb := Locked(s.cmdb, t));
    if asPending then pooled.(pending := Into(s.pending, t)) else pooled.(queue := Into(s.queue, t))
  }

  /** Nothing pooled has the hash or the sender and nonce of t. */
  ghost predicate Fresh(s: Pool, t: Tx)
  {
    && t.hash !in s.all
    && KnownId(t)
    && (forall h :: h in s.all ==> !(s.all[h].from == t.from && s.all[h].nonce == t.nonce))
  }

  // ---------- Every move keeps the invariant ----------

  lemma {:induction false} LiftPendingKeeps(s: Pool, limbo: set<Hash>, a: Addr, kept: NonceMap)
    requires Inv(s, limbo) && a in s.pending && PartOf(kept, s.pending[a])
    ensures Inv(LiftPending(s, a, kept), limbo + TakenOut(kept, s.pending[a]))
    ensures TakenOut(kept, s.pending[a]) !! limbo
  {
    hide SumSlots, UniqueNonces, ClaimsKnown;
    LiftFiled(s.pending, s.all, a, kept);
    LiftPendingPlaced(s, limbo, a, kept);
  }

  lemma {:induction false} LiftFiled(l: AccountLists, all: Lookup, a: Addr, kept: NonceMap)
    requires Filed(l, all) && a in l && PartOf(kept, l[a])
    ensures Filed(l[a := kept], all) && TakenOut(kept, l[a]) <= all.Keys
  {
    var r := l[a := kept];
    forall b: Addr, n: nat | b in r && n in r[b] ensures FiledAs(r[b][n], b, n, all) {
      assert n in l[b] && l[b][n] == r[b][n];
    }
    forall h | h in TakenOut(kept, l[a]) ensures h in all {
      var n :| n in l[a] && n !in kept && l[a][n].hash == h;
    }
  }

  /** What Lift does to membership: t leaves the list exactly when its hash is taken out. */
  lemma {:induction false} LiftIn(l: AccountLists, all: Lookup, a: Addr, kept: NonceMap, h: Hash)
    requires Filed(l, all) && Keyed(all) && a in l && PartOf(kept, l[a]) && h in all
    ensures In(l[a := kept], all[h]) <==> In(l, all[h]) && h !in TakenOut(kept, l[a])
    ensures h in TakenOut(kept, l[a]) ==> In(l, all[h])
  {
    var t := all[h];
    if h in TakenOut(kept, l[a]) {
      var n :| n in l[a] && n !in kept && l[a][n].hash == h;
      assert l[a][n].from == a && l[a][n].nonce == n && all[h] == l[a][n];
    }
    if In(l, t) && t.from == a && t.nonce !in kept {
      assert h in TakenOut(kept, l[a]);
    }
  }

  lemma {:induction false} LiftPendingPlaced(s: Pool, limbo: set<Hash>, a: Addr, kept: NonceMap)
    requires Inv(s, limbo) && a in s.pending && PartOf(kept, s.pending[a])
    ensures Placed(LiftPending(s, a, kept), limbo + TakenOut(kept, s.pending[a]))
    ensures TakenOut(kept, s.pending[a]) !! limbo
  {
    hide SumSlots, UniqueNonces, ClaimsKnown, In, TakenOut;
    forall h | h in s.all ensures
        && (In(s.pending[a := kept], s.all[h]) <==> In(s.pending, s.all[h]) && h !in TakenOut(kept, s.pending[a]))
        && (h in TakenOut(kept, s.pending[a]) ==> In(s.pending, s.all[h])) {
      LiftIn(s.pending, s.all, a, kept, h);
    }
    LiftFiled(s.pending, s.all, a, kept);
  }

  lemma {:induction false} LiftQueueKeeps(s: Pool, limbo: set<Hash>, a: Addr, kept: NonceMap)
    requires Inv(s, limbo) && a in s.queue && PartOf(kept, s.queue[a])
    ensures Inv(LiftQueue(s, a, kept), limbo + TakenOut(kept, s.queue[a]))
    ensures TakenOut(kept, s.queue[a]) !! limbo
  {
    hide SumSlots, UniqueNonces, ClaimsKnown;
    LiftFiled(s.queue, s.all, a, kept);
    LiftQueuePlaced(s, limbo, a, kept);
  }

  lemma {:induction false} LiftQueuePlaced(s: Pool, limbo: set<Hash>, a: Addr, kept: NonceMap)
    requires Inv(s, limbo) && a in s.queue && PartOf(kept, s.queue[a])
    ensures Placed(LiftQueue(s, a, kept), limbo + TakenOut(kept, s.queue[a]))
    ensures TakenOut(kept, s.queue[a]) !! limbo
  {
    hide SumSlots, UniqueNonces, ClaimsKnown, In, TakenOut;
    forall h | h in s.all ensures
        && (In(s.queue[a := kept], s.all[h]) <==> In(s.queue, s.all[h]) && h !in TakenOut(kept, s.queue[a]))
        && (h in TakenOut(kept, s.queue[a]) ==> In(s.queue, s.all[h])) {
      LiftIn(s.queue, s.all, a, kept, h);
    }
    LiftFiled(s.queue, s.all, a, kept);
  }

  lemma {:induction false} DropEmptyKeeps(s: Pool, limbo: set<Hash>, a: Addr)
    requires Inv(s, limbo)
    ensures a in s.pending && s.pending[a] == map[] ==> Inv(s.(pending := s.pending - {a}), limbo)
    ensures a in s.queue && s.queue[a] == map[] ==> Inv(s.(queue := s.queue - {a}), limbo)
  {
    hide SumSlots, UniqueNonces, ClaimsKnown;
  }

  lemma {:induction false} ForgetKeeps(s: Pool, limbo: set<Hash>, h: Hash, release: bool)
    requires Inv(s, limbo) && h in limbo
    ensures Inv(Forget(s, h, release), limbo - {h})
  {
    hide SumSlots, ClaimsKnown, Filed, Placed;
    SumSlotsRemove(s.all, h);
    ForgetPlaced(s, limbo, h, release);
    ForgetClaims(s.all, s.cmdb, h, release);
    ForgetFiled(s.pending, s.all, h);
    ForgetFiled(s.queue, s.all, h);
  }

  lemma {:induction false} ForgetPlaced(s: Pool, limbo: set<Hash>, h: Hash, release: bool)
    requires Placed(s, limbo) && h in limbo && h in s.all
    ensures Placed(Forget(s, h, release), limbo - {h})
    ensures !In(s.pending, s.all[h]) && !In(s.queue, s.all[h])
  {
    hide In;
  }

  lemma {:induction false} ForgetClaims(all: Lookup, cmdb: CMdb, h: Hash, release: bool)
    requires ClaimsKnown(all, cmdb) && h in all
    ensures ClaimsKnown(all - {h}, if release then Released(cmdb, all[h]) else cmdb)
  {
  }

  lemma {:induction false} ForgetFiled(l: AccountLists, all: Lookup, h: Hash)
    requires Filed(l, all) && h in all && !In(l, all[h])
    ensures Filed(l, all - {h})
  {
    forall a, n | a in l && n in l[a] ensures l[a][n].hash != h {
      assert l[a][n].from == a && l[a][n].nonce == n;
    }
  }

  lemma {:induction false} IntoFiled(l: AccountLists, all: Lookup, t: Tx)
    requires Filed(l, all) && t.hash in all && all[t.hash] == t
    ensures Filed(Into(l, t), all)
  {
  }

  /** Filing t changes the membership of nothing else, its sender and nonce being its own. */
  lemma {:induction false} IntoIn(l: AccountLists, t: Tx, u: Tx)
    requires u.from == t.from && u.nonce == t.nonce ==> u == t
    ensures In(Into(l, t), u) <==> u == t || In(l, u)
  {
  }

  lemma {:induction false} RequeueKeeps(s: Pool, limbo: set<Hash>, h: Hash)
    requires Inv(s, limbo) && h in limbo
    ensures Inv(Requeue(s, h), limbo - {h})
  {
    hide SumSlots, ClaimsKnown, In;
    var t := s.all[h];
    IntoFiled(s.queue, s.all, t);
    forall k | k in s.all ensures In(Into(s.queue, t), s.all[k]) <==> k == h || In(s.queue, s.all[k]) {
      IntoIn(s.queue, t, s.all[k]);
    }
  }

  lemma {:induction false} PromoteKeeps(s: Pool, limbo: set<Hash>, h: Hash)
    requires Inv(s, limbo) && h in limbo
    ensures Inv(Promote(s, h), limbo - {h})
  {
    hide SumSlots, ClaimsKnown, In;
    var t := s.all[h];
    IntoFiled(s.pending, s.all, t);
    forall k | k in s.all ensures In(Into(s.pending, t), s.all[k]) <==> k == h || In(s.pending, s.all[k]) {
      IntoIn(s.pending, t, s.all[k]);
    }
  }

  lemma {:induction false} AdmitKeeps(s: Pool, limbo: set<Hash>, t: Tx, asPending: bool)
    requires Inv(s, limbo) && Fresh(s, t)
    ensures Inv(Admit(s, t, asPending), limbo)
  {
    hide SumSlots, In, Filed, Placed, ClaimsKnown;
    var all := s.all[t.hash := t];
    SumSlotsRemove(all, t.hash);
    assert all - {t.hash} == s.all;
    AdmitFiled(s.pending, s.all, t);
    AdmitFiled(s.queue, s.all, t);
    AdmitPlaced(s, limbo, t, asPending);
    AdmitClaims(s, t);
  }

  lemma {:induction false} AdmitFiled(l: AccountLists, all: Lookup, t: Tx)
    requires Filed(l, all) && t.hash !in all
    ensures Filed(l, all[t.hash := t]) && Filed(Into(l, t), all[t.hash := t])
  {
    IntoFiled(l, all[t.hash := t], t);
  }

  lemma {:induction false} AdmitClaims(s: Pool, t: Tx)
    requires ClaimsKnown(s.all, s.cmdb) && Fresh(s, t)
    ensures ClaimsKnown(s.all[t.hash := t], Locked(s.cmdb, t))
  {
  }

  lemma {:induction false} AdmitPlaced(s: Pool, limbo: set<Hash>, t: Tx, asPending: bool)
    requires Inv(s, limbo) && Fresh(s, t)
    ensures Placed(Admit(s, t, asPending), limbo)
  {
    hide SumSlots, ClaimsKnown;
    assert !In(s.pending, t) && !In(s.queue, t);
    var r := Admit(s, t, asPending);
    forall k | k in r.all ensures
        && (In(Into(s.pending, t), r.all[k]) <==> k == t.hash || In(s.pending, r.all[k]))
        && (In(Into(s.queue, t), r.all[k]) <==> k == t.hash || In(s.queue, r.all[k])) {
      IntoIn(s.pending, t, r.all[k]);
      IntoIn(s.queue, t, r.all[k]);
    }
  }

  // ---------- Declarative effects ----------

  function ClaimsOf(gone: Lookup): set<Hash>
  {
    set h | h in gone :: Claim(gone[h])
  }

  /** The claims of the transactions that are gone are given back; nothing else changes. */
  function ReleaseSet(cmdb: CMdb, gone: Lookup): CMdb
  {
    map c | c in cmdb :: if c in ClaimsOf(gone) then CM(false, false) else cmdb[c]
  }

  lemma {:induction false} ReleaseSetNone(cmdb: CMdb)
    ensures ReleaseSet(cmdb, map[]) == cmdb
  {
    assert ClaimsOf(map[]) == {};
  }

  /** A list that becomes empty is deleted. */
  function SetList(l: AccountLists, a: Addr, m: NonceMap): AccountLists
  {
    if m == map[] then l - {a} else l[a := m]
  }

  /** The transactions of m join their account's list, which is created for them if need be. */
  function AddAll(l: AccountLists, a: Addr, m: NonceMap): AccountLists
  {
    if m == map[] then l else l[a := ListOf(l, a) + m]
  }

  // ---------- Runs ----------

  datatype Move =
    | MLiftPending(a: Addr, kept: NonceMap)
    | MLiftQueue(a: Addr, kept: NonceMap)
    | MDropEmpty(a: Addr, asPending: bool)
    | MForget(h: Hash, release: bool)
    | MRequeue(h: Hash)
    | MPromote(h: Hash)
    | MAdmit(t: Tx, asPending: bool)
    | MImport(block: seq<Tx>)

  datatype Config = Config(s: Pool, limbo: set<Hash>)

  /** When a move can happen. A transaction is admitted only if its commitment passes validateCM, its hash
      is unknown and its nonce is free. */
  ghost predicate Enabled(c: Config, m: Move)
  {
    match m
    case MLiftPending(a, kept) => a in c.s.pending && PartOf(kept, c.s.pending[a])
    case MLiftQueue(a, kept) => a in c.s.queue && PartOf(kept, c.s.queue[a])
    case MDropEmpty(a, asPending) =>
      if asPending then a in c.s.pending && c.s.pending[a] == map[] else a in c.s.queue && c.s.queue[a] == map[]
    case MForget(h, release) => h in c.limbo && h in c.s.all
    case MRequeue(h) => h in c.limbo && h in c.s.all
    case MPromote(h) => h in c.limbo && h in c.s.all
    case MAdmit(t, asPending) =>
      && t.hash !in c.s.all && ValidCM(c.s.cmdb, t)
      && forall h :: h in c.s.all ==> !(c.s.all[h].from == t.from && c.s.all[h].nonce == t.nonce)
    case MImport(_) => true
  }

  ghost function Apply(c: Config, m: Move): Config
    requires Enabled(c, m)
  {
    match m
    case MLiftPending(a, kept) => Config(LiftPending(c.s, a, kept), c.limbo + TakenOut(kept, c.s.pending[a]))
    case MLiftQueue(a, kept) => Config(LiftQueue(c.s, a, kept), c.limbo + TakenOut(kept, c.s.queue[a]))
    case MDropEmpty(a, asPending) =>
      if asPending then Config(c.s.(pending := c.s.pending - {a}), c.limbo) else Config(c.s.(queue := c.s.queue - {a}), c.limbo)
    case MForget(h, release) => Config(Forget(c.s, h, release), c.limbo - {h})
    case MRequeue(h) => Config(Requeue(c.s, h), c.limbo - {h})
    case MPromote(h) => Config(Promote(c.s, h), c.limbo - {h})
    case MAdmit(t, asPending) => Config(Admit(c.s, t, asPending), c.limbo)
    case MImport(block) => Config(c.s.(cmdb := BookedAll(c.s.cmdb, block)), c.limbo)
  }

  /** states is a run of the machine by the given moves. */
  ghost predicate IsRun(states: seq<Config>, moves: seq<Move>)
  {
    && |states| == |moves| + 1
    && forall i :: 0 <= i < |moves| ==> Enabled(states[i], moves[i]) && states[i + 1] == Apply(states[i], moves[i])
  }

  /** A guarded commitment that passes validateCM is claimed by no pooled transaction. */
  lemma {:induction false} ValidIsFree(s: Pool, limbo: set<Hash>, t: Tx)
    requires Inv(s, limbo) && ValidCM(s.cmdb, t) && Guarded(s.all, s.cmdb, Claim(t))
    ensures forall h :: h in s.all ==> Claim(s.all[h]) != Claim(t)
  {
    hide SumSlots, Filed, Placed;
  }

  /** Every move but the import of a block that writes the commitment keeps it guarded. */
  lemma {:induction false} MoveGuards(c: Config, m: Move, k: Hash)
    requires Inv(c.s, c.limbo) && Enabled(c, m) && Guarded(c.s.all, c.s.cmdb, k)
    requires m.MImport? ==> BlockBooks(m.block, k).None?
    ensures Guarded(Apply(c, m).s.all, Apply(c, m).s.cmdb, k)
  {
    hide Inv, Guarded, PartOf, TakenOut, Into, BookedAll, Released, Locked, Tx.Slots;
    match m
    case MAdmit(t, _) => AdmitGuards(c.s, c.limbo, t, k);
    case MForget(h, release) => ForgetGuards(c.s, h, release, k);
    case MImport(block) => ImportGuards(c.s, block, k);
    case _ =>
  }

  lemma {:induction false} AdmitGuards(s: Pool, limbo: set<Hash>, t: Tx, k: Hash)
    requires Inv(s, limbo) && t.hash !in s.all && ValidCM(s.cmdb, t) && Guarded(s.all, s.cmdb, k)
    ensures Guarded(s.all[t.hash := t], Locked(s.cmdb, t), k)
  {
    hide Inv;
    if Claim(t) == k {
      ValidIsFree(s, limbo, t);
    }
  }

  lemma {:induction false} ForgetGuards(s: Pool, h: Hash, release: bool, k: Hash)
    requires h in s.all && Guarded(s.all, s.cmdb, k)
    ensures Guarded(s.all - {h}, if release then Released(s.cmdb, s.all[h]) else s.cmdb, k)
  {
  }

  lemma {:induction false} ImportGuards(s: Pool, block: seq<Tx>, k: Hash)
    requires Guarded(s.all, s.cmdb, k) && BlockBooks(block, k).None?
    ensures Guarded(s.all, BookedAll(s.cmdb, block), k)
  {
    hide BookedAll;
    BookedExact(s.cmdb, block, k);
  }

  lemma {:induction false} MoveKeeps(c: Config, m: Move)
    requires Inv(c.s, c.limbo) && Enabled(c, m)
    ensures Inv(Apply(c, m).s, Apply(c, m).limbo)
  {
    hide Inv;
    match m
    case MLiftPending(a, kept) => LiftPendingKeeps(c.s, c.limbo, a, kept);
    case MLiftQueue(a, kept) => LiftQueueKeeps(c.s, c.limbo, a, kept);
    case MDropEmpty(a, asPending) => DropEmptyKeeps(c.s, c.limbo, a);
    case MForget(h, release) => ForgetKeeps(c.s, c.limbo, h, release);
    case MRequeue(h) => RequeueKeeps(c.s, c.limbo, h);
    case MPromote(h) => PromoteKeeps(c.s, c.limbo, h);
    case MAdmit(t, asPending) =>
      AdmitKeeps(c.s, c.limbo, t, asPending);
    case MImport(block) => ImportKeeps(c.s, c.limbo, block);
  }

  lemma {:induction false} ImportKeeps(s: Pool, limbo: set<Hash>, block: seq<Tx>)
    requires Inv(s, limbo)
    ensures Inv(s.(cmdb := BookedAll(s.cmdb, block)), limbo)
  {
    hide SumSlots, Filed, In, UniqueNonces, BookedAll;
    forall h | h in s.all ensures Claim(s.all[h]) in BookedAll(s.cmdb, block) {
      BookedExact(s.cmdb, block, Claim(s.all[h]));
    }
  }

  /** In every state of every run the lookup is exactly the disjoint union of the pending lists, the queue
      lists and limbo, nonces are unique, the slot count is right and claims are known. */
  lemma {:induction false} RunKeeps(states: seq<Config>, moves: seq<Move>, i: nat)
    requires IsRun(states, moves) && Inv(states[0].s, states[0].limbo) && i < |states|
    ensures Inv(states[i].s, states[i].limbo)
  {
    hide Inv, Enabled, Apply;
    if i > 0 {
      RunKeeps(states, moves, i - 1);
      MoveKeeps(states[i - 1], moves[i - 1]);
    }
  }

  lemma {:induction false} EmptyPoolInv(cmdb: CMdb)
    ensures Inv(EMPTY_POOL.(cmdb := cmdb), {})
  {
  }

  /** An imported block has written the commitment. */
  ghost predicate ImportWrote(moves: seq<Move>, i: nat, k: Hash)
    requires i <= |moves|
  {
    exists j :: 0 <= j < i && moves[j].MImport? && BlockBooks(moves[j].block, k).Some?
  }

  /** In every state of every run, a commitment that was guarded at first is, unless a block has written it. */
  lemma {:induction false} RunGuards(states: seq<Config>, moves: seq<Move>, i: nat, k: Hash)
    requires IsRun(states, moves) && Inv(states[0].s, states[0].limbo) && Guarded(states[0].s.all, states[0].s.cmdb, k)
    requires i < |states|
    ensures ImportWrote(moves, i, k) || Guarded(states[i].s.all, states[i].s.cmdb, k)
  {
    hide Inv, Enabled, Apply, Guarded;
    if i > 0 {
      RunGuards(states, moves, i - 1, k);
      RunKeeps(states, moves, i - 1);
      if !ImportWrote(moves, i, k) {
        MoveGuards(states[i - 1], moves[i - 1], k);
      }
    }
  }

  /** From an empty pool over any database: unless a block has written the commitment, no two pooled transactions ever
      claim it and it is locked while one does. No account ever has one nonce both pending and queued. */
  lemma {:induction false} NoDoubleSpend(states: seq<Config>, moves: seq<Move>, cmdb: CMdb, i: nat, h: Hash, k: Hash)
    requires IsRun(states, moves) && states[0] == Config(EMPTY_POOL.(cmdb := cmdb), {}) && i < |states|
    requires h in states[i].s.all && k in states[i].s.all && h != k
    ensures var s := states[i].s;
            && (ImportWrote(moves, i, Claim(s.all[h])) ||
                (Claim(s.all[h]) != Claim(s.all[k]) && Claim(s.all[h]) in s.cmdb && s.cmdb[Claim(s.all[h])].lock))
            && forall a, n :: a in s.pending && n in s.pending[a] && a in s.queue ==> n !in s.queue[a]
  {
    hide SumSlots, IsRun, ImportWrote;
    EmptyPoolInv(cmdb);
    RunKeeps(states, moves, i);
    var s := states[i].s;
    RunGuards(states, moves, i, Claim(s.all[h]));
    forall a, n | a in s.pending && n in s.pending[a] && a in s.queue ensures n !in s.queue[a] {
      NotBoth(s, states[i].limbo, a, n);
    }
  }

  lemma {:induction false} NotBoth(s: Pool, limbo: set<Hash>, a: Addr, n: nat)
    requires Inv(s, limbo) && a in s.pending && n in s.pending[a] && a in s.queue
    ensures n !in s.queue[a]
  {
    hide SumSlots, ClaimsKnown;
    assert FiledAs(s.pending[a][n], a, n, s.all);
    assert n in s.queue[a] ==> FiledAs(s.queue[a][n], a, n, s.all);
  }

  /** Giving a commitment back undoes its locking exactly for transfers: a purchase leaves its new
      commitment behind in the database, unlocked and unspent. */
  lemma {:induction false} ReleaseUndoesLock(cmdb: CMdb, t: Tx)
    requires ValidCM(cmdb, t)
    ensures Released(Locked(cmdb, t), t) == cmdb <==> t.id == 0
    ensures t.id == 1 ==> Released(Locked(cmdb, t), t) == cmdb[t.cmV := CM(false, false)]
  {
    if t.id == 0 {
      assert cmdb[t.cmO] == CM(false, false);
    } else {
      assert t.cmV in Released(Locked(cmdb, t), t);
    }
  }
}
