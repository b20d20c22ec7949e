/**
 The commitment database along the runs of the pool, with blocks imported at any moment: who decides about an entry,
 when a coin that no block ever had can be spent, when a spent coin can be spent again, and when a lock is left
 without a transaction that holds it.
 */
module PoolHistory {
  import opened Common
  import opened Transactions
  import opened PoolState

  /** The entry that a move writes for the commitment, if any. */
  ghost function Writes(c: Config, m: Move, k: Hash): Option<CM>
  {
    match m
    case MAdmit(t, _) => if Claim(t) == k then Some(CM(false, true)) else None
    case MForget(h, release) => if release && h in c.s.all && Claim(c.s.all[h]) == k then Some(CM(false, false)) else None
    case MImport(block) => BlockBooks(block, k)
    case _ => None
  }

  lemma {:induction false} WritesExact(c: Config, m: Move, k: Hash)
    requires Inv(c.s, c.limbo) && Enabled(c, m)
    ensures var w, now := Writes(c, m, k), Apply(c, m).s.cmdb;
            if w.Some? then k in now && now[k] == w.value else (k in now <==> k in c.s.cmdb) && (k in now ==> now[k] == c.s.cmdb[k])
  {
    hide SumSlots, Filed, Placed, UniqueNonces, PartOf, TakenOut, Into, BookedAll, BlockBooks;
    if m.MImport? {
      BookedExact(c.s.cmdb, m.block, k);
    }
  }

  /** The last move before i that wrote the entry of k. */
  ghost function LastWrite(states: seq<Config>, moves: seq<Move>, i: nat, k: Hash): (r: Option<nat>)
    requires i <= |moves| <= |states|
    ensures r.Some? ==> r.value < i && Writes(states[r.value], moves[r.value], k).Some?
  {
    if i == 0 then None
    else if Writes(states[i - 1], moves[i - 1], k).Some? then Some(i - 1)
    else LastWrite(states, moves, i - 1, k)
  }

  /** A run of the pool from an empty one over the database db. */
  ghost predicate RunOver(states: seq<Config>, moves: seq<Move>, db: CMdb)
  {
    IsRun(states, moves) && states[0] == Config(EMPTY_POOL.(cmdb := db), {})
  }

  lemma {:induction false} RunStep(states: seq<Config>, moves: seq<Move>, db: CMdb, i: nat)
    requires RunOver(states, moves, db) && i < |moves|
    ensures i + 1 < |states| && Enabled(states[i], moves[i]) && states[i + 1] == Apply(states[i], moves[i])
    ensures Inv(states[i].s, states[i].limbo)
  {
    hide Inv, Enabled, Apply;
    EmptyPoolInv(db);
    RunKeeps(states, moves, i);
  }

  /** Every entry is as its last writer left it, or as the database had it. */
  lemma {:induction false} StatusExact(states: seq<Config>, moves: seq<Move>, db: CMdb, i: nat, k: Hash)
    requires RunOver(states, moves, db) && i < |states|
    ensures var w, now := LastWrite(states, moves, i, k), states[i].s.cmdb;
            if w.Some? then k in now && Some(now[k]) == Writes(states[w.value], moves[w.value], k)
            else (k in now <==> k in db) && (k in now ==> now[k] == db[k])
  {
    hide Inv, Enabled, Apply, Writes;
    if i > 0 {
      StatusExact(states, moves, db, i - 1, k);
      RunStep(states, moves, db, i - 1);
      WritesExact(states[i - 1], moves[i - 1], k);
    }
  }

  // ---------- Which commitments the database knows ----------

  /** A purchase of k was admitted before move i. */
  ghost predicate Bought(moves: seq<Move>, i: nat, k: Hash)
    requires i <= |moves|
  {
    exists j :: 0 <= j < i && moves[j].MAdmit? && moves[j].t.id == 1 && moves[j].t.cmV == k
  }

  ghost predicate Known(db: CMdb, moves: seq<Move>, i: nat, k: Hash)
    requires i <= |moves|
  {
    k in db || Bought(moves, i, k) || ImportWrote(moves, i, k)
  }

  /** The database knows its own commitments, those of every purchase ever admitted and those that blocks wrote. */
  lemma {:induction false} KeysExact(states: seq<Config>, moves: seq<Move>, db: CMdb, i: nat, k: Hash)
    requires RunOver(states, moves, db) && i < |states|
    ensures k in states[i].s.cmdb <==> Known(db, moves, i, k)
  {
    hide Inv, Enabled, Apply, Known;
    if i == 0 {
      KnownAtFirst(db, moves, k);
    } else {
      KeysExact(states, moves, db, i - 1, k);
      RunStep(states, moves, db, i - 1);
      WritesExact(states[i - 1], moves[i - 1], k);
      KnownLater(db, moves, i, k);
      KnownBefore(states[i - 1], moves[i - 1], k);
    }
  }

  lemma {:induction false} KnownAtFirst(db: CMdb, moves: seq<Move>, k: Hash)
    ensures Known(db, moves, 0, k) <==> k in db
  {
  }

  lemma {:induction false} KnownLater(db: CMdb, moves: seq<Move>, i: nat, k: Hash)
    requires 0 < i <= |moves|
    ensures Known(db, moves, i, k) <==> Known(db, moves, i - 1, k) || Introduces(moves[i - 1], k)
  {
    var m := moves[i - 1];
    if Introduces(m, k) {
      assert if m.MImport? then ImportWrote(moves, i, k) else Bought(moves, i, k);
    }
    if ImportWrote(moves, i - 1, k) {
      assert ImportWrote(moves, i, k);
    }
  }

  /** The move may bring the commitment into the database. */
  ghost predicate Introduces(m: Move, k: Hash)
  {
    || (m.MAdmit? && m.t.id == 1 && m.t.cmV == k)
    || (m.MImport? && BlockBooks(m.block, k).Some?)
  }

  lemma {:induction false} KnownBefore(c: Config, m: Move, k: Hash)
    requires Inv(c.s, c.limbo) && Enabled(c, m)
    ensures Introduces(m, k) ==> Writes(c, m, k).Some?
    ensures Writes(c, m, k).Some? && !Introduces(m, k) ==> k in c.s.cmdb
  {
    hide SumSlots, Filed, Placed, UniqueNonces, PartOf, TakenOut;
  }

  // ---------- Coins that no block ever had ----------

  /** The purchase of k has left the pool, and its commitment was given back. */
  ghost predicate PurchaseReleased(states: seq<Config>, moves: seq<Move>, i: nat, k: Hash)
    requires i <= |moves| <= |states|
  {
    exists j :: 0 <= j < i && ReleasesPurchase(states[j], moves[j], k)
  }

  ghost predicate ReleasesPurchase(c: Config, m: Move, k: Hash)
  {
    m.MForget? && m.release && m.h in c.s.all && c.s.all[m.h].id == 1 && c.s.all[m.h].cmV == k
  }

  /** No pooled transfer spends k. */
  ghost predicate Unspent(s: Pool, k: Hash)
  {
    forall h :: h in s.all && s.all[h].id == 0 ==> s.all[h].cmO != k
  }

  /** A coin that neither the database nor a block ever had stays locked and unspent until its purchase is released. */
  lemma {:induction false} LockedUntilReleased(states: seq<Config>, moves: seq<Move>, db: CMdb, i: nat, k: Hash)
    requires RunOver(states, moves, db) && i < |states| && k !in db
    ensures k in states[i].s.cmdb ==>
              || ImportWrote(moves, i, k) || PurchaseReleased(states, moves, i, k)
              || (states[i].s.cmdb[k].lock && Unspent(states[i].s, k))
  {
    hide Inv, Enabled, Apply, PurchaseReleased, ImportWrote, Unspent;
    if i > 0 {
      LockedUntilReleased(states, moves, db, i - 1, k);
      RunStep(states, moves, db, i - 1);
      ReleasedLater(states, moves, i, k);
      WroteLater(moves, i, k);
      if !PurchaseReleased(states, moves, i - 1, k) && !ImportWrote(moves, i, k) {
        LockedStep(states[i - 1], moves[i - 1], k);
      }
    }
  }

  lemma {:induction false} ReleasedLater(states: seq<Config>, moves: seq<Move>, i: nat, k: Hash)
    requires 0 < i <= |moves| <= |states|
    ensures PurchaseReleased(states, moves, i, k) <==>
            PurchaseReleased(states, moves, i - 1, k) || ReleasesPurchase(states[i - 1], moves[i - 1], k)
  {
  }

  lemma {:induction false} WroteLater(moves: seq<Move>, i: nat, k: Hash)
    requires 0 < i <= |moves|
    ensures ImportWrote(moves, i, k) <==>
            ImportWrote(moves, i - 1, k) || (moves[i - 1].MImport? && BlockBooks(moves[i - 1].block, k).Some?)
  {
  }

  lemma {:induction false} LockedStep(c: Config, m: Move, k: Hash)
    requires Inv(c.s, c.limbo) && Enabled(c, m) && (m.MImport? ==> BlockBooks(m.block, k).None?)
    requires k in c.s.cmdb ==> c.s.cmdb[k].lock && Unspent(c.s, k)
    ensures var r := Apply(c, m).s;
            k in r.cmdb ==> ReleasesPurchase(c, m, k) || (r.cmdb[k].lock && Unspent(r, k))
  {
    hide Inv, PartOf, TakenOut, Into, BookedAll, BlockBooks;
    WritesExact(c, m, k);
    KnownClaims(c);
  }

  lemma {:induction false} KnownClaims(c: Config)
    requires Inv(c.s, c.limbo)
    ensures ClaimsKnown(c.s.all, c.s.cmdb)
  {
  }

  /** Whether a commitment is unspent and unlocked is decided by its last writer. */
  lemma {:induction false} SpendableExact(states: seq<Config>, moves: seq<Move>, db: CMdb, i: nat, k: Hash)
    requires RunOver(states, moves, db) && i < |states|
    ensures var w := LastWrite(states, moves, i, k);
            Spendable(states[i].s.cmdb, k) <==>
              if w.None? then Spendable(db, k) else
              moves[w.value].MForget? || (moves[w.value].MImport? && BlockBooks(moves[w.value].block, k) == Some(CM(false, false)))
  {
    hide Inv, Enabled, Apply;
    StatusExact(states, moves, db, i, k);
  }

  ghost predicate Spendable(cmdb: CMdb, k: Hash)
  {
    k in cmdb && !cmdb[k].spent && !cmdb[k].lock
  }

  /** When a transfer of a coin passes the check that neither the database nor a block ever had: its last writer gave
      it back, and its outputs are new. Its purchase has left the pool then, and can never enter it again. */
  lemma {:induction false} CoinOutsideExact(states: seq<Config>, moves: seq<Move>, db: CMdb, i: nat, t: Tx)
    requires RunOver(states, moves, db) && i < |states| && t.id == 0 && t.cmO !in db && !ImportWrote(moves, i, t.cmO)
    ensures var w, now := LastWrite(states, moves, i, t.cmO), states[i].s.cmdb;
            && (ValidCM(now, t) <==>
                  w.Some? && moves[w.value].MForget? && !Known(db, moves, i, t.cmS) && !Known(db, moves, i, t.cmR))
            && (ValidCM(now, t) ==> PurchaseReleased(states, moves, i, t.cmO))
            && (Bought(moves, i, t.cmO) ==> forall p: Tx :: p.id == 1 && p.cmV == t.cmO ==> !ValidCM(now, p))
  {
    hide Inv, Enabled, Apply, PurchaseReleased, LastWrite, Bought, Writes, BlockBooks;
    SpendableExact(states, moves, db, i, t.cmO);
    LockedUntilReleased(states, moves, db, i, t.cmO);
    KeysExact(states, moves, db, i, t.cmO);
    KeysExact(states, moves, db, i, t.cmS);
    KeysExact(states, moves, db, i, t.cmR);
    NotImported(states, moves, i, t.cmO);
  }

  lemma {:induction false} NotImported(states: seq<Config>, moves: seq<Move>, i: nat, k: Hash)
    requires i <= |moves| <= |states| && !ImportWrote(moves, i, k)
    ensures var w := LastWrite(states, moves, i, k); w.Some? ==> !moves[w.value].MImport?
  {
  }

  /** A purchase passes the check exactly when its coin is new to the database, to blocks and to the pool's past. */
  lemma {:induction false} PurchaseExact(states: seq<Config>, moves: seq<Move>, db: CMdb, i: nat, t: Tx)
    requires RunOver(states, moves, db) && i < |states| && t.id == 1
    ensures ValidCM(states[i].s.cmdb, t) <==> !Known(db, moves, i, t.cmV)
  {
    hide RunOver, Known;
    KeysExact(states, moves, db, i, t.cmV);
  }

  /** What that means for one purchase: refused before, the transfer of its coin passes once it was dropped, and
      the purchase is refused for good. */
  lemma {:induction false} DroppedPurchase(db: CMdb, p: Tx, t: Tx)
    requires p.id == 1 && ValidCM(db, p) && t.id == 0 && t.cmO == p.cmV
    requires t.cmS !in db && t.cmR !in db && t.cmS != p.cmV && t.cmR != p.cmV
    ensures var after := Released(Locked(db, p), p);
            !ValidCM(db, t) && ValidCM(after, t) && !ValidCM(after, p)
  {
  }

  // ---------- Spending a coin again ----------

  /** A transaction that claimed k in state j, and was pooled then, has been given back since. */
  ghost predicate ReleasedSince(states: seq<Config>, moves: seq<Move>, j: nat, i: nat, k: Hash)
    requires j <= i <= |moves| <= |states| && j < |states|
  {
    exists x :: j <= x < i && ReleasesOld(states[j], states[x], moves[x], k)
  }

  ghost predicate ReleasesOld(c0: Config, c: Config, m: Move, k: Hash)
  {
    && Writes(c, m, k).Some? && m.MForget? && m.h in c0.s.all && m.h in c.s.all && c0.s.all[m.h] == c.s.all[m.h]
  }

  /** No block imported from state j on leaves k unspent. */
  ghost predicate NotRecreated(moves: seq<Move>, j: nat, i: nat, k: Hash)
    requires j <= i <= |moves|
  {
    forall x :: j <= x < i && moves[x].MImport? ==> BlockBooks(moves[x].block, k) != Some(CM(false, false))
  }

  /** The commitment is spent, and whatever claims it was pooled in the old state. */
  ghost predicate SpentFor(c0: Config, s: Pool, k: Hash)
  {
    && k in s.cmdb && s.cmdb[k].spent
    && forall h :: h in s.all && Claim(s.all[h]) == k ==> h in c0.s.all && c0.s.all[h] == s.all[h]
  }

  /** A spent coin stays spent until a transaction is given back that claimed it all the time. */
  lemma {:induction false} SpentUntilReleased(states: seq<Config>, moves: seq<Move>, db: CMdb, j: nat, i: nat, k: Hash)
    requires RunOver(states, moves, db) && j <= i < |states| && NotRecreated(moves, j, i, k)
    requires k in states[j].s.cmdb && states[j].s.cmdb[k].spent
    ensures ReleasedSince(states, moves, j, i, k) || SpentFor(states[j], states[i].s, k)
    decreases i
  {
    hide Inv, Enabled, Apply, SpentFor, ReleasesOld;
    if i == j {
      SpentSelf(states[j], k);
    } else {
      SpentUntilReleased(states, moves, db, j, i - 1, k);
      RunStep(states, moves, db, i - 1);
      if ReleasedSince(states, moves, j, i - 1, k) {
        var x :| j <= x < i - 1 && ReleasesOld(states[j], states[x], moves[x], k);
        assert ReleasedSince(states, moves, j, i, k);
      } else {
        SpentStep(states[j], states[i - 1], moves[i - 1], k);
        if ReleasesOld(states[j], states[i - 1], moves[i - 1], k) {
          assert ReleasedSince(states, moves, j, i, k);
        }
      }
    }
  }

  lemma {:induction false} SpentSelf(c: Config, k: Hash)
    requires k in c.s.cmdb && c.s.cmdb[k].spent
    ensures SpentFor(c, c.s, k)
  {
  }

  lemma {:induction false} SpentStep(c0: Config, c: Config, m: Move, k: Hash)
    requires Inv(c.s, c.limbo) && Enabled(c, m) && SpentFor(c0, c.s, k)
    requires m.MImport? ==> BlockBooks(m.block, k) != Some(CM(false, false))
    ensures ReleasesOld(c0, c, m, k) || SpentFor(c0, Apply(c, m).s, k)
  {
    hide Inv, PartOf, TakenOut, Into, BookedAll, BlockBooks;
    WritesExact(c, m, k);
    if m.MImport? {
      BooksUnlocked(m.block, k);
    }
  }

  lemma {:induction false} BooksUnlocked(block: seq<Tx>, k: Hash)
    ensures BlockBooks(block, k).Some? ==> !BlockBooks(block, k).value.lock
  {
    if block != [] {
      BooksUnlocked(block[..|block| - 1], k);
    }
  }

  /** When a spent coin passes the check again: its last writer gave it back, and the outputs are new. Then a
      transaction that claimed the coin when it was spent, and stayed in the pool, has been given back since. */
  lemma {:induction false} SpentAgainExact(states: seq<Config>, moves: seq<Move>, db: CMdb, j: nat, i: nat, t: Tx)
    requires RunOver(states, moves, db) && j <= i < |states| && t.id == 0 && NotRecreated(moves, j, i, t.cmO)
    requires t.cmO in states[j].s.cmdb && states[j].s.cmdb[t.cmO].spent
    ensures var w, now := LastWrite(states, moves, i, t.cmO), states[i].s.cmdb;
            && (ValidCM(now, t) <==>
                  && w.Some? && w.value >= j && moves[w.value].MForget?
                  && !Known(db, moves, i, t.cmS) && !Known(db, moves, i, t.cmR))
            && (ValidCM(now, t) ==> ReleasedSince(states, moves, j, i, t.cmO))
  {
    hide Inv, Enabled, Apply, LastWrite, ReleasedSince, Known, Writes, BlockBooks;
    SpendableExact(states, moves, db, i, t.cmO);
    SpentUntilReleased(states, moves, db, j, i, t.cmO);
    KeysExact(states, moves, db, i, t.cmS);
    KeysExact(states, moves, db, i, t.cmR);
    WrittenSince(states, moves, db, j, i, t.cmO);
  }

  /** Without a later writer the entry is as it was. */
  lemma {:induction false} WrittenSince(states: seq<Config>, moves: seq<Move>, db: CMdb, j: nat, i: nat, k: Hash)
    requires RunOver(states, moves, db) && j <= i < |states|
    ensures var w := LastWrite(states, moves, i, k);
            (w.None? || w.value < j) ==> LastWrite(states, moves, j, k) == w && (k in states[i].s.cmdb <==> k in states[j].s.cmdb)
                                         && (k in states[j].s.cmdb ==> states[i].s.cmdb[k] == states[j].s.cmdb[k])
    decreases i
  {
    hide Inv, Enabled, Apply, Writes;
    SameWriter(states, moves, j, i, k);
    StatusExact(states, moves, db, i, k);
    StatusExact(states, moves, db, j, k);
  }

  lemma {:induction false} SameWriter(states: seq<Config>, moves: seq<Move>, j: nat, i: nat, k: Hash)
    requires j <= i <= |moves| <= |states|
    ensures var w := LastWrite(states, moves, i, k); (w.None? || w.value < j) ==> LastWrite(states, moves, j, k) == w
    decreases i
  {
    hide Writes;
    if i > j {
      SameWriter(states, moves, j, i - 1, k);
    }
  }

  // ---------- What blocks contained is refused ----------

  /** A transaction of an imported block never passes the check again, in any later state. */
  lemma {:induction false} ImportedRefused(states: seq<Config>, moves: seq<Move>, db: CMdb, j: nat, i: nat, t: Tx)
    requires RunOver(states, moves, db) && j < i < |states| && moves[j].MImport? && t in moves[j].block
    ensures !ValidCM(states[i].s.cmdb, t)
  {
    hide Inv, Enabled, Apply, BlockBooks;
    if KnownId(t) {
      var k := if t.id == 1 then t.cmV else t.cmS;
      InBlock(moves[j].block, t, k);
      assert ImportWrote(moves, i, k);
      KeysExact(states, moves, db, i, k);
    }
  }

  lemma {:induction false} InBlock(block: seq<Tx>, t: Tx, k: Hash)
    requires t in block && TxBooks(t, k).Some?
    ensures BlockBooks(block, k).Some?
  {
    var front := block[..|block| - 1];
    if t != block[|block| - 1] {
      assert block == front + [block[|block| - 1]];
      InBlock(front, t, k);
    }
  }

  // ---------- Locks without a holder ----------

  /** The commitment is locked, and no pooled transaction claims it. */
  ghost predicate Orphan(s: Pool, k: Hash)
  {
    k in s.cmdb && s.cmdb[k].lock && !Claimed(s, k)
  }

  ghost predicate Claimed(s: Pool, k: Hash)
  {
    exists h :: h in s.all && Claim(s.all[h]) == k
  }

  /** The transaction left between the moves without giving back its commitment. */
  ghost predicate LeftSilently(moves: seq<Move>, j: nat, i: nat, h: Hash)
    requires i <= |moves|
  {
    exists x :: j < x < i && moves[x] == MForget(h, false)
  }

  /** Which locks have no holder, as long as no block has written the commitment: those the database had, and those of
      transactions that left without giving them back. */
  lemma {:induction false} OrphanExact(states: seq<Config>, moves: seq<Move>, db: CMdb, i: nat, k: Hash)
    requires RunOver(states, moves, db) && i < |states| && !ImportWrote(moves, i, k)
    ensures var w := LastWrite(states, moves, i, k);
            Orphan(states[i].s, k) <==>
              if w.None? then k in db && db[k].lock
              else moves[w.value].MAdmit? && LeftSilently(moves, w.value, i, moves[w.value].t.hash)
  {
    hide Inv, Enabled, Apply, ImportWrote, LeftSilently;
    var w := LastWrite(states, moves, i, k);
    StatusExact(states, moves, db, i, k);
    NotImported(states, moves, i, k);
    if w.None? {
      NeverClaimed(states, moves, db, i, k);
    } else if moves[w.value].MAdmit? {
      HeldUntilLeft(states, moves, db, w.value, i, k);
    }
  }

  lemma {:induction false} NeverClaimed(states: seq<Config>, moves: seq<Move>, db: CMdb, i: nat, k: Hash)
    requires RunOver(states, moves, db) && i < |states| && LastWrite(states, moves, i, k).None?
    ensures !Claimed(states[i].s, k)
  {
    hide Inv, Enabled, Apply;
    if i > 0 {
      NeverClaimed(states, moves, db, i - 1, k);
      RunStep(states, moves, db, i - 1);
      NotClaimedStep(states[i - 1], moves[i - 1], k);
    }
  }

  lemma {:induction false} NotClaimedStep(c: Config, m: Move, k: Hash)
    requires Enabled(c, m) && !Claimed(c.s, k) && Writes(c, m, k).None?
    ensures !Claimed(Apply(c, m).s, k)
  {
    hide PartOf, TakenOut, Into, BookedAll, BlockBooks;
  }

  /** With no other writer since its admission, a transaction holds its lock until it leaves. */
  lemma {:induction false} HeldUntilLeft(states: seq<Config>, moves: seq<Move>, db: CMdb, j: nat, i: nat, k: Hash)
    requires RunOver(states, moves, db) && j < i < |states| && !ImportWrote(moves, i, k)
    requires moves[j].MAdmit? && LastWrite(states, moves, i, k) == Some(j)
    ensures var t := moves[j].t;
            if LeftSilently(moves, j, i, t.hash) then !Claimed(states[i].s, k)
            else t.hash in states[i].s.all && states[i].s.all[t.hash] == t && Claim(t) == k
    decreases i
  {
    hide Inv, Enabled, Apply, ImportWrote, Claimed;
    var t := moves[j].t;
    RunStep(states, moves, db, i - 1);
    if i == j + 1 {
      Admitted(states[j], moves[j]);
    } else {
      WroteLater(moves, i, k);
      HeldUntilLeft(states, moves, db, j, i - 1, k);
      LeftLater(moves, j, i, t.hash);
      if LeftSilently(moves, j, i - 1, t.hash) {
        NotClaimedStep(states[i - 1], moves[i - 1], k);
      } else {
        EmptyGuarded(states, moves, db, i - 1, k);
        HolderStep(states[i - 1], moves[i - 1], t, k);
      }
    }
  }

  lemma {:induction false} Admitted(c: Config, m: Move)
    requires Enabled(c, m) && m.MAdmit?
    ensures m.t.hash in Apply(c, m).s.all && Apply(c, m).s.all[m.t.hash] == m.t
  {
  }

  lemma {:induction false} LeftLater(moves: seq<Move>, j: nat, i: nat, h: Hash)
    requires j + 1 < i <= |moves|
    ensures LeftSilently(moves, j, i, h) <==> LeftSilently(moves, j, i - 1, h) || moves[i - 1] == MForget(h, false)
  {
  }

  lemma {:induction false} EmptyGuarded(states: seq<Config>, moves: seq<Move>, db: CMdb, i: nat, k: Hash)
    requires RunOver(states, moves, db) && i < |states| && !ImportWrote(moves, i, k)
    ensures Guarded(states[i].s.all, states[i].s.cmdb, k)
  {
    hide Inv, Enabled, Apply, ImportWrote;
    EmptyPoolInv(db);
    RunGuards(states, moves, i, k);
  }

  lemma {:induction false} HolderStep(c: Config, m: Move, t: Tx, k: Hash)
    requires Enabled(c, m) && Writes(c, m, k).None? && Guarded(c.s.all, c.s.cmdb, k)
    requires t.hash in c.s.all && c.s.all[t.hash] == t && Claim(t) == k
    ensures var r := Apply(c, m).s;
            if m == MForget(t.hash, false) then !Claimed(r, k) else t.hash in r.all && r.all[t.hash] == t
  {
    hide PartOf, TakenOut, Into, BookedAll, BlockBooks;
  }
}
