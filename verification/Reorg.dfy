/**
 Chain reorganisation: finding the two branches, moving the canonical index, the head and the
 transaction lookup entries to the new branch.
 */
module Reorg {
  import opened Headers

  type TxHash = nat

  type Bodies = map<Hash, seq<TxHash>>

  /** Stored blocks are filed under their hashes, have bodies, and a stored parent is one number below. */
  ghost predicate Links(s: Store, bodies: Bodies)
  {
    && ZERO !in s
    && bodies.Keys == s.Keys
    && forall h {:trigger Link(s, h)} :: h in s ==> Link(s, h)
  }

  ghost predicate Link(s: Store, h: Hash)
  {
    && h in s && s[h].hash == h
    && (s[h].parent in s ==> s[h].number == s[s[h].parent].number + 1)
  }

  /** The index is the parent path of the head, down to block zero, and empty above it. */
  ghost predicate IsIndex(canon: Index, s: Store, head: Hash)
  {
    && head in s
    && (forall n: nat :: n in canon <==> n <= s[head].number)
    && canon[s[head].number] == head
    && (forall n: nat {:trigger Entry(canon, s, n)} :: n in canon ==> Entry(canon, s, n))
  }

  ghost predicate Entry(canon: Index, s: Store, n: nat)
  {
    && n in canon && canon[n] in s && s[canon[n]].number == n
    && (n > 0 ==> n - 1 in canon && s[canon[n]].parent == canon[n - 1])
  }

  /** The lookup has exactly the transactions of the indexed blocks, each at its number. */
  ghost predicate LookupExact(lookup: map<TxHash, nat>, canon: Index, bodies: Bodies)
  {
    && (forall n, t :: n in canon && InBody(bodies, canon[n], t) ==> t in lookup && lookup[t] == n)
    && (forall t :: t in lookup ==> lookup[t] in canon && InBody(bodies, canon[lookup[t]], t))
  }

  // ---------- The branch of a block ----------

  predicate OnIndex(canon: Index, s: Store, h: Hash)
  {
    h in s && s[h].number in canon && canon[s[h].number] == h
  }

  /** The blocks from h down that are off the index. */
  ghost function Branch(s: Store, bodies: Bodies, canon: Index, h: Hash): seq<Hash>
    requires Links(s, bodies) && h in s
    decreases s[h].number
  {
    if OnIndex(canon, s, h) then [] else
    assert Link(s, h);
    if s[h].parent in s then [h] + Branch(s, bodies, canon, s[h].parent) else [h]
  }

  /** The walk from h down meets the index. */
  ghost predicate Meets(s: Store, bodies: Bodies, canon: Index, h: Hash)
    requires Links(s, bodies) && h in s
    decreases s[h].number
  {
    OnIndex(canon, s, h) || (assert Link(s, h); s[h].parent in s && Meets(s, bodies, canon, s[h].parent))
  }

  /** The parent path of h as an index, where it meets the old one. */
  ghost function PathIndex(s: Store, bodies: Bodies, canon: Index, h: Hash): Index
    requires Links(s, bodies) && h in s
  {
    var b := Branch(s, bodies, canon, h);
    map n: nat | n <= s[h].number && (s[h].number - n < |b| || n in canon) :: if s[h].number - n < |b| then b[s[h].number - n] else canon[n]
  }

  lemma {:induction false} BranchStep(s: Store, bodies: Bodies, canon: Index, h: Hash)
    requires Links(s, bodies) && h in s && !OnIndex(canon, s, h)
    ensures s[h].parent in s ==> s[h].number == s[s[h].parent].number + 1
    ensures s[h].parent in s ==> Branch(s, bodies, canon, h) == [h] + Branch(s, bodies, canon, s[h].parent)
    ensures Meets(s, bodies, canon, h) <==> s[h].parent in s && Meets(s, bodies, canon, s[h].parent)
  {
    assert Link(s, h);
  }

  ghost predicate Leads(s: Store, b: seq<Hash>, i: nat)
  {
    i + 1 < |b| && b[i] in s && s[b[i]].parent == b[i + 1]
  }

  /** A branch that meets the index leads down to it, link by link. */
  lemma {:induction false} BranchLinks(s: Store, bodies: Bodies, canon: Index, head: Hash, h: Hash)
    requires Links(s, bodies) && IsIndex(canon, s, head) && h in s && Meets(s, bodies, canon, h)
    ensures var b := Branch(s, bodies, canon, h);
            && |b| <= s[h].number && s[h].number - |b| in canon
            && (forall i :: 0 <= i < |b| ==> b[i] in s && s[b[i]].number == s[h].number - i && !OnIndex(canon, s, b[i]))
            && (forall i {:trigger Leads(s, b, i)} :: 0 <= i < |b| - 1 ==> Leads(s, b, i))
            && (b != [] ==> b[0] == h && s[b[|b| - 1]].parent == canon[s[h].number - |b|])
            && (b == [] ==> OnIndex(canon, s, h))
    decreases s[h].number
  {
    if !OnIndex(canon, s, h) {
      BranchStep(s, bodies, canon, h);
      BranchLinks(s, bodies, canon, head, s[h].parent);
      var b, rest := Branch(s, bodies, canon, h), Branch(s, bodies, canon, s[h].parent);
      forall i | 0 <= i < |b| - 1 ensures Leads(s, b, i) {
        assert i > 0 ==> Leads(s, rest, i - 1);
      }
    }
  }

  lemma {:induction false} PathIsIndex(s: Store, bodies: Bodies, canon: Index, head: Hash, h: Hash)
    requires Links(s, bodies) && IsIndex(canon, s, head) && h in s && Meets(s, bodies, canon, h)
    ensures IsIndex(PathIndex(s, bodies, canon, h), s, h)
  {
    hide Branch, Meets, Links;
    BranchLinks(s, bodies, canon, head, h);
    var b, idx := Branch(s, bodies, canon, h), PathIndex(s, bodies, canon, h);
    var fork := s[h].number - |b|;
    forall n: nat | n <= s[h].number ensures n in idx {
      assert n <= fork ==> n in canon;
    }
    forall n | n in idx ensures Entry(idx, s, n) {
      if n <= fork {
        assert Entry(canon, s, n);
      } else {
        var i := s[h].number - n;
        assert idx[n] == b[i];
        if n - 1 > fork {
          assert Leads(s, b, i);
        }
      }
    }
  }

  // ---------- Transactions ----------

  /** The transactions of the blocks of a chain from position i on. */
  function TxsFrom(bodies: Bodies, chain: seq<Hash>, i: nat): set<TxHash>
  {
    set j, t | i <= j < |chain| && chain[j] in bodies && t in bodies[chain[j]] :: t
  }

  function Txs(body: seq<TxHash>): set<TxHash>
  {
    set t | t in body
  }

  predicate InBody(bodies: Bodies, h: Hash, t: TxHash)
  {
    h in bodies && t in bodies[h]
  }

  ghost predicate DistinctBranch(bodies: Bodies, branch: seq<Hash>)
  {
    forall j, k, t :: 0 <= j < |branch| && 0 <= k < |branch| && InBody(bodies, branch[j], t) && InBody(bodies, branch[k], t) ==> j == k
  }

  /** now is the lookup before with the entries of the branch from position i on written over it. */
  ghost predicate LookupOver(now: map<TxHash, nat>, before: map<TxHash, nat>, bodies: Bodies, branch: seq<Hash>, top: nat, i: nat)
  {
    && (forall t :: t in now <==> t in before || t in TxsFrom(bodies, branch, i))
    && (forall t :: t in before && t !in TxsFrom(bodies, branch, i) ==> now[t] == before[t])
    && (forall j, t :: i <= j < |branch| && InBody(bodies, branch[j], t) ==> now[t] == top - j)
  }

  lemma {:induction false} TxsStep(bodies: Bodies, chain: seq<Hash>, i: nat)
    requires 0 < i <= |chain| && chain[i - 1] in bodies
    ensures TxsFrom(bodies, chain, i - 1) == TxsFrom(bodies, chain, i) + Txs(bodies[chain[i - 1]])
    ensures TxsFrom(bodies, chain, |chain|) == {}
  {
    var all, rest := TxsFrom(bodies, chain, i - 1), TxsFrom(bodies, chain, i);
    forall t | t in all ensures t in rest || t in bodies[chain[i - 1]] {
      var j :| i - 1 <= j < |chain| && InBody(bodies, chain[j], t);
      if j >= i {
        TxsMember(bodies, chain, i, j, t);
      }
    }
  }

  lemma {:induction false} LookupStep(now: map<TxHash, nat>, before: map<TxHash, nat>, bodies: Bodies,
      branch: seq<Hash>, top: nat, i: nat)
    requires 0 < i <= |branch| <= top && branch[i - 1] in bodies && DistinctBranch(bodies, branch)
    requires LookupOver(now, before, bodies, branch, top, i)
    ensures LookupOver(WithTxs(now, bodies[branch[i - 1]], top - (i - 1)), before, bodies, branch, top, i - 1)
  {
    hide TxsFrom;
    TxsStep(bodies, branch, i);
    var r := WithTxs(now, bodies[branch[i - 1]], top - (i - 1));
    forall j, t | i - 1 <= j < |branch| && InBody(bodies, branch[j], t) ensures t in r && r[t] == top - j {
      if j >= i {
        TxsMember(bodies, branch, i, j, t);
        assert !InBody(bodies, branch[i - 1], t);
      }
    }
  }

  lemma {:induction false} TxsMember(bodies: Bodies, chain: seq<Hash>, i: nat, j: nat, t: TxHash)
    requires i <= j < |chain| && InBody(bodies, chain[j], t)
    ensures t in TxsFrom(bodies, chain, i)
  {
  }

  /** No transaction is in two blocks of the index. */
  ghost predicate Distinct(canon: Index, bodies: Bodies)
  {
    forall n, m, t :: n in canon && m in canon && InBody(bodies, canon[n], t) && InBody(bodies, canon[m], t) ==> n == m
  }

  function WithTxs(lookup: map<TxHash, nat>, txs: seq<TxHash>, number: nat): map<TxHash, nat>
  {
    lookup + map t | t in txs :: number
  }

  /** now is the index before with the branch from position i on written over it. The branch starts at number
      top. */
  ghost predicate Over(now: Index, before: Index, branch: seq<Hash>, top: nat, i: nat)
  {
    forall n: nat ::
      && (n in now <==> n in before || (n <= top && i <= top - n < |branch|))
      && (n in now ==> now[n] == if n <= top && i <= top - n < |branch| then branch[top - n] else before[n])
  }

  lemma {:induction false} OverStep(now: Index, before: Index, branch: seq<Hash>, top: nat, i: nat)
    requires 0 < i <= |branch| <= top && Over(now, before, branch, top, i)
    ensures Over(now[top - (i - 1) := branch[i - 1]], before, branch, top, i - 1)
  {
  }

  /** The chain is the index downwards from number top. */
  ghost predicate Descends(canon: Index, top: nat, chain: seq<Hash>)
  {
    |chain| <= top + 1 && forall i {:trigger chain[i]} :: 0 <= i < |chain| ==> top - i in canon && chain[i] == canon[top - i]
  }

  class BlockChain {
    const s: Store
    const bodies: Bodies
    var canon: Index
    var lookup: map<TxHash, nat>
    var head: Hash

    ghost predicate Valid()
      reads this
    {
      Links(s, bodies) && IsIndex(canon, s, head) && LookupExact(lookup, canon, bodies)
    }

    constructor (s: Store, bodies: Bodies, genesis: Hash)
      requires Links(s, bodies) && genesis in s && s[genesis].number == 0
      ensures Valid() && head == genesis && this.s == s && this.bodies == bodies
    {
      this.s, this.bodies, canon, head := s, bodies, map[0 := genesis], genesis;
      lookup := WithTxs(map[], bodies[genesis], 0);
    }

    /** GetBlock on the parent hash and the number before finds a block. */
    predicate HasParent(h: Hash)
      requires h in s
    {
      s[h].parent in s && s[h].number > 0 && s[s[h].parent].number == s[h].number - 1
    }

    /** Make a block the head, with its index entry and the lookup entries of its transactions. A block on top of
        the head whose transactions are new keeps the index and the lookup exact. */
    method WriteHeadBlock(h: Hash)
      requires h in s && h in bodies
      modifies this
      ensures canon == old(canon)[s[h].number := h] && lookup == WithTxs(old(lookup), bodies[h], s[h].number) && head == h
      ensures old(Valid()) && s[h].parent == old(head) && (forall t :: t in bodies[h] ==> t !in old(lookup)) ==> Valid()
    {
      if Valid() && s[h].parent == head && forall t :: t in bodies[h] ==> t !in lookup {
        OnTopKeeps(s, bodies, canon, lookup, head, h);
      }
      canon := canon[s[h].number := h];
      WriteTxLookupEntries(h);
      head := h;
    }

    method WriteTxLookupEntries(h: Hash)
      requires h in s && h in bodies
      modifies this`lookup
      ensures lookup == WithTxs(old(lookup), bodies[h], s[h].number)
    {
      var txs := bodies[h];
      for i := 0 to |txs|
        invariant lookup == WithTxs(old(lookup), txs[..i], s[h].number)
      {
        WithOneMore(old(lookup), txs, i, s[h].number);
        lookup := lookup[txs[i] := s[h].number];
      }
      assert txs[..|txs|] == txs;
    }

    /** Walk both chains back to where they meet. */
    method FindBranches(newBlock: Hash) returns (ok: bool, oldChain: seq<Hash>, newChain: seq<Hash>)
      requires Valid() && newBlock in s
      ensures ok == Meets(s, bodies, canon, newBlock)
      ensures ok ==> newChain == Branch(s, bodies, canon, newBlock)
      ensures ok ==> |newChain| <= s[newBlock].number && |oldChain| == s[head].number + |newChain| - s[newBlock].number
      ensures ok ==> Descends(canon, s[head].number, oldChain)
    {
      hide Branch, Meets, LookupExact, IsIndex, OldSoFar, Descends;
      OldStarts(canon, s, head);
      var o, n := head, newBlock;
      oldChain, newChain := [], [];
      if s[o].number > s[n].number {
        while s[o].number != s[n].number
          invariant o in s && s[o].number >= s[n].number && OldSoFar(canon, s, head, oldChain, o)
          decreases s[o].number
        {
          OldStep(canon, s, head, oldChain, o);
          oldChain, o := oldChain + [o], s[o].parent;
        }
      } else {
        while s[n].number != s[o].number
          invariant n in s && s[n].number >= s[o].number && NewSoFar(s, bodies, canon, newBlock, newChain, n)
          decreases s[n].number
        {
          AboveIndex(canon, s, head, n);
          BranchStep(s, bodies, canon, n);
          newChain := newChain + [n];
          if !HasParent(n) {
            return false, oldChain, newChain;
          }
          n := s[n].parent;
        }
      }
      while o != n
        invariant o in s && n in s && s[o].number == s[n].number
        invariant OldSoFar(canon, s, head, oldChain, o) && NewSoFar(s, bodies, canon, newBlock, newChain, n)
        decreases s[o].number
      {
        OffIndex(canon, s, head, oldChain, o, n);
        BranchStep(s, bodies, canon, n);
        newChain := newChain + [n];
        if !HasParent(o) {
          OldEnds(canon, s, head, oldChain, o);
          return false, oldChain, newChain;
        }
        OldStep(canon, s, head, oldChain, o);
        oldChain, o := oldChain + [o], s[o].parent;
        if !HasParent(n) {
          return false, oldChain, newChain;
        }
        n := s[n].parent;
      }
      Met(s, bodies, canon, head, oldChain, n);
      return true, oldChain, newChain;
    }

    /** Write the blocks of the new branch, all but its head, from the fork upwards. */
    method InsertBranch(newChain: seq<Hash>, ghost top: nat) returns (added: set<TxHash>)
      requires |newChain| <= top && DistinctBranch(bodies, newChain)
      requires forall j :: 0 <= j < |newChain| ==> newChain[j] in s && newChain[j] in bodies && s[newChain[j]].number == top - j
      modifies this
      ensures Over(canon, old(canon), newChain, top, 1) && added == TxsFrom(bodies, newChain, 1)
      ensures LookupOver(lookup, old(lookup), bodies, newChain, top, 1)
      ensures head == if |newChain| >= 2 then newChain[1] else old(head)
    {
      hide Over, LookupOver, DistinctBranch, TxsFrom;
      added := {};
      var i := if |newChain| == 0 then 1 else |newChain|;
      InsertNothing(canon, lookup, bodies, newChain, top, i);
      while i > 1
        invariant i >= 1 && (|newChain| >= 1 ==> i <= |newChain|)
        invariant Over(canon, old(canon), newChain, top, i) && added == TxsFrom(bodies, newChain, i)
        invariant LookupOver(lookup, old(lookup), bodies, newChain, top, i)
        invariant head == if i < |newChain| then newChain[i] else old(head)
      {
        OverStep(canon, old(canon), newChain, top, i);
        LookupStep(lookup, old(lookup), bodies, newChain, top, i);
        TxsStep(bodies, newChain, i);
        i := i - 1;
        WriteHeadBlock(newChain[i]);
        added := added + Txs(bodies[newChain[i]]);
      }
    }

    /** Delete the index assignments above the current head. */
    method DeleteStale(ghost high: nat)
      requires head in s && (forall n: nat :: n > s[head].number ==> (n in canon <==> n <= high))
      modifies this`canon
      ensures forall n :: n in canon <==> n in old(canon) && n <= s[head].number
      ensures forall n :: n in canon ==> canon[n] == old(canon)[n]
    {
      var batch := canon;
      var i := s[head].number + 1;
      while i in canon
        invariant i > s[head].number
        invariant forall n :: n in batch <==> n in canon && !(s[head].number < n < i)
        invariant forall n :: n in batch ==> batch[n] == canon[n]
        decreases high + 1 - i
      {
        batch := batch - {i};
        i := i + 1;
      }
      canon := batch;
    }

    /** reorg: move from the current head to the branch of a new block, all but that block itself. */
    method Reorganise(newBlock: Hash) returns (ok: bool, oldChain: seq<Hash>, newChain: seq<Hash>)
      requires Valid() && newBlock in s && DistinctBranch(bodies, Branch(s, bodies, canon, newBlock))
      modifies this
      ensures ok == old(Meets(s, bodies, canon, newBlock))
      ensures !ok ==> canon == old(canon) && lookup == old(lookup) && head == old(head)
      ensures ok ==> newChain == old(Branch(s, bodies, canon, newBlock)) && Descends(old(canon), s[old(head)].number, oldChain)
                     && |newChain| <= s[newBlock].number && |oldChain| == s[old(head)].number + |newChain| - s[newBlock].number
      ensures ok ==> Moved(s, bodies, old(canon), old(head), newBlock, canon)
      ensures ok ==> head == if |newChain| >= 2 then newChain[1] else old(head)
      ensures ok ==> LookupMoved(lookup, old(lookup), bodies, oldChain, newChain, s[newBlock].number)
    {
      hide Branch, Meets, LookupExact, IsIndex, Links, Over, LookupOver, DistinctBranch, TxsFrom, Moved, Descends;
      ok, oldChain, newChain := FindBranches(newBlock);
      if !ok {
        return;
      }
      BranchShape(s, bodies, canon, head, newBlock);
      var deleted := TxsFrom(bodies, oldChain, 0);
      var added := InsertBranch(newChain, s[newBlock].number);
      LookupMovedIs(lookup, old(lookup), bodies, oldChain, newChain, s[newBlock].number);
      lookup := lookup - (deleted - added);
      StaleAbove(s, bodies, old(canon), old(head), newBlock, canon);
      ghost var inserted := canon;
      DeleteStale(s[old(head)].number);
      MovedIs(s, bodies, old(canon), old(head), newBlock, inserted, canon);
    }

    /** Reorganise to a new block and make it the head. The lookup then has exactly the transactions of the new
        block's path. The index is that path if and only if the new block is no lower than the old head or its
        branch has at least two blocks; otherwise the assignments above the new block survive. */
    method SetHead(newBlock: Hash) returns (ok: bool)
      requires Valid() && newBlock in s
      requires Distinct(PathIndex(s, bodies, canon, newBlock), bodies)
      modifies this
      ensures ok == old(Meets(s, bodies, canon, newBlock))
      ensures !ok ==> canon == old(canon) && lookup == old(lookup) && head == old(head)
      ensures ok ==> head == newBlock && LookupExact(lookup, old(PathIndex(s, bodies, canon, newBlock)), bodies)
      ensures ok ==> forall n: nat :: n <= s[newBlock].number ==>
                       n in canon && n in old(PathIndex(s, bodies, canon, newBlock)) && canon[n] == old(PathIndex(s, bodies, canon, newBlock))[n]
      ensures ok ==> (IsIndex(canon, s, newBlock) <==>
                        s[newBlock].number >= s[old(head)].number || |old(Branch(s, bodies, canon, newBlock))| >= 2)
      ensures ok && IsIndex(canon, s, newBlock) ==> Valid()
    {
      hide Branch, Meets, LookupExact, IsIndex, Links, DistinctBranch, Distinct, Moved, LookupMoved, Descends, PathIndex;
      ghost var path := PathIndex(s, bodies, canon, newBlock);
      ghost var before, oldHead, entries := canon, head, lookup;
      PathDistinct(s, bodies, canon, newBlock);
      var oldChain, newChain;
      ok, oldChain, newChain := Reorganise(newBlock);
      if ok {
        FinalIndex(s, bodies, before, oldHead, newBlock, canon);
        FinalLookup(s, bodies, before, oldHead, newBlock, entries, lookup, oldChain);
        WriteHeadBlock(newBlock);
      }
    }
  }

  lemma {:induction false} WithOneMore(lookup: map<TxHash, nat>, txs: seq<TxHash>, i: nat, number: nat)
    requires i < |txs|
    ensures WithTxs(lookup, txs[..i], number)[txs[i] := number] == WithTxs(lookup, txs[..i + 1], number)
  {
    assert txs[..i + 1] == txs[..i] + [txs[i]];
  }

  lemma {:induction false} OnTopKeeps(s: Store, bodies: Bodies, canon: Index, lookup: map<TxHash, nat>, head: Hash, h: Hash)
    requires Links(s, bodies) && IsIndex(canon, s, head) && LookupExact(lookup, canon, bodies)
    requires h in s && s[h].parent == head && forall t :: t in bodies[h] ==> t !in lookup
    ensures IsIndex(canon[s[h].number := h], s, h)
    ensures LookupExact(WithTxs(lookup, bodies[h], s[h].number), canon[s[h].number := h], bodies)
  {
    hide LookupExact;
    assert Link(s, h);
    var top, now := s[h].number, canon[s[h].number := h];
    forall n: nat | n in now ensures Entry(now, s, n) {
      if n < top {
        assert Entry(canon, s, n);
      }
    }
    LookupOnTop(bodies, canon, lookup, h, top);
  }

  lemma {:induction false} LookupOnTop(bodies: Bodies, canon: Index, lookup: map<TxHash, nat>, h: Hash, top: nat)
    requires LookupExact(lookup, canon, bodies) && top !in canon && h in bodies && forall t :: t in bodies[h] ==> t !in lookup
    ensures LookupExact(WithTxs(lookup, bodies[h], top), canon[top := h], bodies)
  {
    var now, final := canon[top := h], WithTxs(lookup, bodies[h], top);
    forall n, t | n in now && InBody(bodies, now[n], t) ensures t in final && final[t] == n {
      if n != top {
        assert t in lookup && lookup[t] == n;
      }
    }
    forall t | t in final ensures final[t] in now && InBody(bodies, now[final[t]], t) {
    }
  }

  lemma {:induction false} InsertNothing(canon: Index, lookup: map<TxHash, nat>, bodies: Bodies, branch: seq<Hash>,
      top: nat, i: nat)
    requires i >= |branch|
    ensures Over(canon, canon, branch, top, i) && LookupOver(lookup, lookup, bodies, branch, top, i) && TxsFrom(bodies, branch, i) == {}
  {
  }

  /** The walk down the old chain has followed the index from the head to o. */
  ghost predicate OldSoFar(canon: Index, s: Store, head: Hash, oldChain: seq<Hash>, o: Hash)
  {
    && head in s && o in s && s[o].number == s[head].number - |oldChain|
    && OnIndex(canon, s, o)
    && Descends(canon, s[head].number, oldChain)
  }

  lemma {:induction false} OldStarts(canon: Index, s: Store, head: Hash)
    requires IsIndex(canon, s, head)
    ensures OldSoFar(canon, s, head, [], head)
  {
  }

  lemma {:induction false} OldStep(canon: Index, s: Store, head: Hash, oldChain: seq<Hash>, o: Hash)
    requires IsIndex(canon, s, head) && OldSoFar(canon, s, head, oldChain, o) && s[o].number > 0
    ensures s[o].parent in s && s[s[o].parent].number == s[o].number - 1
    ensures OldSoFar(canon, s, head, oldChain + [o], s[o].parent)
  {
    assert Entry(canon, s, s[o].number);
    assert Entry(canon, s, s[o].number - 1);
  }

  /** Only block zero of the index has no parent. */
  lemma {:induction false} OldEnds(canon: Index, s: Store, head: Hash, oldChain: seq<Hash>, o: Hash)
    requires IsIndex(canon, s, head) && OldSoFar(canon, s, head, oldChain, o)
    ensures s[o].number > 0 ==> s[o].parent in s && s[s[o].parent].number == s[o].number - 1
  {
    if s[o].number > 0 {
      OldStep(canon, s, head, oldChain, o);
    }
  }

  /** The walk up the new chain has collected part of the branch, down to n. */
  ghost predicate NewSoFar(s: Store, bodies: Bodies, canon: Index, newBlock: Hash, newChain: seq<Hash>, n: Hash)
    requires Links(s, bodies) && newBlock in s && n in s
  {
    && newChain + Branch(s, bodies, canon, n) == Branch(s, bodies, canon, newBlock)
    && (Meets(s, bodies, canon, newBlock) <==> Meets(s, bodies, canon, n))
    && |newChain| == s[newBlock].number - s[n].number
  }

  lemma {:induction false} AboveIndex(canon: Index, s: Store, head: Hash, n: Hash)
    requires IsIndex(canon, s, head) && n in s && s[n].number > s[head].number
    ensures !OnIndex(canon, s, n)
  {
  }

  lemma {:induction false} OffIndex(canon: Index, s: Store, head: Hash, oldChain: seq<Hash>, o: Hash, n: Hash)
    requires OldSoFar(canon, s, head, oldChain, o) && n in s && s[n].number == s[o].number && n != o
    ensures !OnIndex(canon, s, n)
  {
  }

  lemma {:induction false} Met(s: Store, bodies: Bodies, canon: Index, head: Hash, oldChain: seq<Hash>, n: Hash)
    requires Links(s, bodies) && OldSoFar(canon, s, head, oldChain, n)
    ensures Branch(s, bodies, canon, n) == [] && Meets(s, bodies, canon, n)
    ensures s[n].number == s[head].number - |oldChain|
    ensures Descends(canon, s[head].number, oldChain)
  {
  }

  // ---------- After the move ----------

  /** What the walk found: the branch hangs on the index by its last block. */
  lemma {:induction false} BranchShape(s: Store, bodies: Bodies, canon: Index, head: Hash, h: Hash)
    requires Links(s, bodies) && IsIndex(canon, s, head) && h in s && Meets(s, bodies, canon, h)
    ensures var b := Branch(s, bodies, canon, h);
            && head in s && |b| <= s[h].number && s[h].number - |b| in canon && s[h].number - |b| <= s[head].number
            && (forall i :: 0 <= i < |b| ==> b[i] in s && b[i] in bodies && s[b[i]].number == s[h].number - i)
            && (b != [] ==> b[0] == h) && (b == [] ==> OnIndex(canon, s, h))
  {
    hide Branch, Meets;
    BranchLinks(s, bodies, canon, head, h);
  }

  /** The index after reorg: the branch but for its head is written, and nothing is left above the block that
      is then the head. */
  ghost predicate Moved(s: Store, bodies: Bodies, before: Index, oldHead: Hash, newBlock: Hash, now: Index)
    requires Links(s, bodies) && newBlock in s
  {
    var b, top := Branch(s, bodies, before, newBlock), s[newBlock].number;
    && oldHead in s
    && forall n: nat ::
         && (n in now <==> (n in before || (n <= top && 1 <= top - n < |b|)) && n <= if |b| >= 2 then top - 1 else s[oldHead].number)
         && (n in now ==> now[n] == if n <= top && 1 <= top - n < |b| then b[top - n] else before[n])
  }

  lemma {:induction false} StaleAbove(s: Store, bodies: Bodies, before: Index, oldHead: Hash, newBlock: Hash, now: Index)
    requires Links(s, bodies) && IsIndex(before, s, oldHead) && newBlock in s && Meets(s, bodies, before, newBlock)
    requires Over(now, before, Branch(s, bodies, before, newBlock), s[newBlock].number, 1)
    ensures var b := Branch(s, bodies, before, newBlock);
            var number := if |b| >= 2 then s[newBlock].number - 1 else s[oldHead].number;
            forall n: nat :: n > number ==> (n in now <==> n <= s[oldHead].number)
  {
    hide Branch, Meets, Links;
  }

  lemma {:induction false} MovedIs(s: Store, bodies: Bodies, before: Index, oldHead: Hash, newBlock: Hash,
      inserted: Index, now: Index)
    requires Links(s, bodies) && newBlock in s && oldHead in s
    requires Over(inserted, before, Branch(s, bodies, before, newBlock), s[newBlock].number, 1)
    requires var number := if |Branch(s, bodies, before, newBlock)| >= 2 then s[newBlock].number - 1 else s[oldHead].number;
             && (forall n :: n in now <==> n in inserted && n <= number)
             && (forall n :: n in now ==> now[n] == inserted[n])
    ensures Moved(s, bodies, before, oldHead, newBlock, now)
  {
    hide Branch, Links;
  }

  /** The lookup after reorg: the branch's transactions but for its head's are entered, and those of the old
      branch that are not among them are gone. */
  ghost predicate LookupMoved(now: map<TxHash, nat>, before: map<TxHash, nat>, bodies: Bodies, oldChain: seq<Hash>,
      newChain: seq<Hash>, top: nat)
  {
    var deleted, added := TxsFrom(bodies, oldChain, 0), TxsFrom(bodies, newChain, 1);
    && (forall t :: t in now <==> (t in before || t in added) && !(t in deleted && t !in added))
    && (forall t :: t in now && t !in added ==> now[t] == before[t])
    && (forall j, t :: 1 <= j < |newChain| && InBody(bodies, newChain[j], t) ==> t in now && now[t] == top - j)
  }

  lemma {:induction false} LookupMovedIs(inserted: map<TxHash, nat>, before: map<TxHash, nat>, bodies: Bodies,
      oldChain: seq<Hash>, newChain: seq<Hash>, top: nat)
    requires LookupOver(inserted, before, bodies, newChain, top, 1)
    ensures LookupMoved(inserted - (TxsFrom(bodies, oldChain, 0) - TxsFrom(bodies, newChain, 1)), before, bodies, oldChain, newChain, top)
  {
    hide TxsFrom;
    forall j, t | 1 <= j < |newChain| && InBody(bodies, newChain[j], t) ensures t in TxsFrom(bodies, newChain, 1) {
      TxsMember(bodies, newChain, 1, j, t);
    }
  }

  /** The branch's blocks are on the path. */
  lemma {:induction false} BranchOnPath(s: Store, bodies: Bodies, canon: Index, h: Hash, j: nat)
    requires Links(s, bodies) && h in s && j < |Branch(s, bodies, canon, h)|
    ensures var b := Branch(s, bodies, canon, h);
            && b[j] in s && s[b[j]].number == s[h].number - j
            && s[h].number - j in PathIndex(s, bodies, canon, h) && PathIndex(s, bodies, canon, h)[s[h].number - j] == b[j]
  {
    BranchNumbers(s, bodies, canon, h, j);
    hide Branch;
  }

  lemma {:induction false} BranchNumbers(s: Store, bodies: Bodies, canon: Index, h: Hash, j: nat)
    requires Links(s, bodies) && h in s && j < |Branch(s, bodies, canon, h)|
    ensures var b := Branch(s, bodies, canon, h);
            b[j] in s && s[b[j]].number == s[h].number - j
    decreases s[h].number
  {
    BranchStep(s, bodies, canon, h);
    if j > 0 {
      BranchNumbers(s, bodies, canon, s[h].parent, j - 1);
    }
  }

  lemma {:induction false} PathDistinct(s: Store, bodies: Bodies, canon: Index, h: Hash)
    requires Links(s, bodies) && h in s && Distinct(PathIndex(s, bodies, canon, h), bodies)
    ensures DistinctBranch(bodies, Branch(s, bodies, canon, h))
  {
    hide Branch, PathIndex, Links;
    var b := Branch(s, bodies, canon, h);
    forall j, k, t | 0 <= j < |b| && 0 <= k < |b| && InBody(bodies, b[j], t) && InBody(bodies, b[k], t) ensures j == k {
      BranchOnPath(s, bodies, canon, h, j);
      BranchOnPath(s, bodies, canon, h, k);
    }
  }

  /** Whether the index is the path of the new block. */
  lemma {:induction false} FinalIndex(s: Store, bodies: Bodies, before: Index, oldHead: Hash, newBlock: Hash, moved: Index)
    requires Links(s, bodies) && IsIndex(before, s, oldHead) && newBlock in s && Meets(s, bodies, before, newBlock)
    requires Moved(s, bodies, before, oldHead, newBlock, moved)
    ensures var now, path, top := moved[s[newBlock].number := newBlock], PathIndex(s, bodies, before, newBlock), s[newBlock].number;
            var whole := top >= s[oldHead].number || |Branch(s, bodies, before, newBlock)| >= 2;
            && (forall n: nat :: n <= top ==> n in now && n in path && now[n] == path[n])
            && (IsIndex(now, s, newBlock) <==> whole)
            && (whole ==> now == path)
  {
    hide Branch, Meets, Links;
    var now, path, top := moved[s[newBlock].number := newBlock], PathIndex(s, bodies, before, newBlock), s[newBlock].number;
    var b := Branch(s, bodies, before, newBlock);
    BranchShape(s, bodies, before, oldHead, newBlock);
    PathIsIndex(s, bodies, before, oldHead, newBlock);
    forall n: nat | n <= top ensures n in now && n in path && now[n] == path[n] {
    }
    if top >= s[oldHead].number || |b| >= 2 {
      assert now == path;
    } else {
      assert s[oldHead].number in now;
    }
  }

  /** The lookup ends up exact for the path of the new block. */
  lemma {:induction false} FinalLookup(s: Store, bodies: Bodies, before: Index, oldHead: Hash, newBlock: Hash,
      entries: map<TxHash, nat>, moved: map<TxHash, nat>, oldChain: seq<Hash>)
    requires Links(s, bodies) && IsIndex(before, s, oldHead) && newBlock in s && Meets(s, bodies, before, newBlock)
    requires LookupExact(entries, before, bodies) && Distinct(PathIndex(s, bodies, before, newBlock), bodies)
    requires Descends(before, s[oldHead].number, oldChain)
    requires |oldChain| == s[oldHead].number + |Branch(s, bodies, before, newBlock)| - s[newBlock].number
    requires LookupMoved(moved, entries, bodies, oldChain, Branch(s, bodies, before, newBlock), s[newBlock].number)
    ensures newBlock in bodies && LookupExact(WithTxs(moved, bodies[newBlock], s[newBlock].number), PathIndex(s, bodies, before, newBlock), bodies)
  {
    hide Branch, Meets, TxsFrom, PathIndex, Descends, Distinct, LookupMoved, LookupExact, Parts;
    var b, top, path := Branch(s, bodies, before, newBlock), s[newBlock].number, PathIndex(s, bodies, before, newBlock);
    PathParts(s, bodies, before, oldHead, newBlock);
    var final := WithTxs(moved, bodies[newBlock], top);
    forall n, t | n in path && InBody(bodies, path[n], t) ensures t in final && final[t] == n {
      LookupFinds(bodies, before, path, b, top, newBlock, s[oldHead].number, oldChain, entries, moved, n, t);
    }
    forall t | t in final ensures final[t] in path && InBody(bodies, path[final[t]], t) {
      LookupOnly(bodies, before, path, b, top, newBlock, s[oldHead].number, oldChain, entries, moved, t);
    }
    ExactIs(final, path, bodies);
  }

  lemma {:induction false} ExactIs(lookup: map<TxHash, nat>, canon: Index, bodies: Bodies)
    requires forall n, t :: n in canon && InBody(bodies, canon[n], t) ==> t in lookup && lookup[t] == n
    requires forall t :: t in lookup ==> lookup[t] in canon && InBody(bodies, canon[lookup[t]], t)
    ensures LookupExact(lookup, canon, bodies)
  {
  }

  /** The path is the old index up to the fork and the branch above it. */
  ghost predicate Parts(path: Index, before: Index, b: seq<Hash>, top: nat, newBlock: Hash, oldTop: nat)
  {
    && |b| <= top && top - |b| <= oldTop
    && (forall n: nat :: n in before <==> n <= oldTop)
    && (forall n: nat :: n in path <==> n <= top)
    && (forall n: nat :: n <= top - |b| ==> n in before && path[n] == before[n])
    && (forall n: nat :: top - |b| < n <= top ==> path[n] == b[top - n])
    && path[top] == newBlock
  }

  lemma {:induction false} PathParts(s: Store, bodies: Bodies, before: Index, oldHead: Hash, h: Hash)
    requires Links(s, bodies) && IsIndex(before, s, oldHead) && h in s && Meets(s, bodies, before, h)
    ensures Parts(PathIndex(s, bodies, before, h), before, Branch(s, bodies, before, h), s[h].number, h, s[oldHead].number)
  {
    hide Branch, Meets, Links;
    BranchShape(s, bodies, before, oldHead, h);
  }

  lemma {:induction false} LookupFinds(bodies: Bodies, before: Index, path: Index, b: seq<Hash>, top: nat,
      newBlock: Hash, oldTop: nat, oldChain: seq<Hash>, entries: map<TxHash, nat>, moved: map<TxHash, nat>, n: nat,
      t: TxHash)
    requires Parts(path, before, b, top, newBlock, oldTop) && Distinct(path, bodies) && LookupExact(entries, before, bodies)
    requires Descends(before, oldTop, oldChain) && |oldChain| == oldTop + |b| - top && newBlock in bodies
    requires LookupMoved(moved, entries, bodies, oldChain, b, top)
    requires n in path && InBody(bodies, path[n], t)
    ensures t in WithTxs(moved, bodies[newBlock], top) && WithTxs(moved, bodies[newBlock], top)[t] == n
  {
    hide TxsFrom;
    if n < top {
      assert !InBody(bodies, path[top], t);
      if n > top - |b| {
        assert InBody(bodies, b[top - n], t);
      } else {
        assert t in entries && entries[t] == n;
        NotInChain(bodies, path, b, top, 1, n, t);
        NotInOldChain(bodies, before, entries, oldTop, oldChain, n, t);
      }
    }
  }

  lemma {:induction false} NotInChain(bodies: Bodies, path: Index, b: seq<Hash>, top: nat, i: nat, n: nat, t: TxHash)
    requires Distinct(path, bodies) && n in path && InBody(bodies, path[n], t) && |b| <= top && n <= top - |b|
    requires forall m: nat :: top - |b| < m <= top ==> m in path && path[m] == b[top - m]
    ensures t !in TxsFrom(bodies, b, i)
  {
    forall j | i <= j < |b| ensures !InBody(bodies, b[j], t) {
      assert path[top - j] == b[j];
    }
  }

  lemma {:induction false} DescendsAt(canon: Index, top: nat, chain: seq<Hash>, i: nat)
    requires Descends(canon, top, chain) && i < |chain|
    ensures top - i in canon && chain[i] == canon[top - i]
  {
    var h := chain[i];
  }

  lemma {:induction false} NotInOldChain(bodies: Bodies, before: Index, entries: map<TxHash, nat>, oldTop: nat,
      oldChain: seq<Hash>, n: nat, t: TxHash)
    requires LookupExact(entries, before, bodies) && Descends(before, oldTop, oldChain)
    requires t in entries && entries[t] == n <= oldTop - |oldChain|
    ensures t !in TxsFrom(bodies, oldChain, 0)
  {
    forall j | 0 <= j < |oldChain| ensures !InBody(bodies, oldChain[j], t) {
      DescendsAt(before, oldTop, oldChain, j);
    }
  }

  lemma {:induction false} LookupOnly(bodies: Bodies, before: Index, path: Index, b: seq<Hash>, top: nat,
      newBlock: Hash, oldTop: nat, oldChain: seq<Hash>, entries: map<TxHash, nat>, moved: map<TxHash, nat>, t: TxHash)
    requires Parts(path, before, b, top, newBlock, oldTop) && LookupExact(entries, before, bodies)
    requires Descends(before, oldTop, oldChain) && |oldChain| == oldTop + |b| - top && newBlock in bodies
    requires LookupMoved(moved, entries, bodies, oldChain, b, top)
    requires t in WithTxs(moved, bodies[newBlock], top)
    ensures var n := WithTxs(moved, bodies[newBlock], top)[t];
            n in path && InBody(bodies, path[n], t)
  {
    hide TxsFrom;
    if t !in bodies[newBlock] {
      if t in TxsFrom(bodies, b, 1) {
        var j := WhereIn(bodies, b, 1, t);
        var n: nat := top - j;
        assert n in path && path[n] == b[top - n] && top - n == j;
      } else {
        var n := entries[t];
        assert n in before && InBody(bodies, before[n], t);
        if n > top - |b| {
          assert oldChain[oldTop - n] == before[n];
          TxsMember(bodies, oldChain, 0, oldTop - n, t);
        }
      }
    }
  }

  lemma {:induction false} WhereIn(bodies: Bodies, chain: seq<Hash>, i: nat, t: TxHash) returns (j: nat)
    requires t in TxsFrom(bodies, chain, i)
    ensures i <= j < |chain| && InBody(bodies, chain[j], t)
  {
    j :| i <= j < |chain| && chain[j] in bodies && t in bodies[chain[j]];
  }

  /** A head moved to a lower block on a branch of one block, where stale assignments survive above it. */
  lemma {:induction false} StaleExample()
    ensures var s: Store := map[1 := Header(1, 0, 0, 1), 2 := Header(2, 1, 1, 1), 3 := Header(3, 2, 2, 1), 4 := Header(4, 1, 1, 9)];
            var bodies: Bodies := map[1 := [], 2 := [], 3 := [], 4 := []];
            var canon: Index := map[0 := 1, 1 := 2, 2 := 3];
            && Links(s, bodies) && IsIndex(canon, s, 3) && Meets(s, bodies, canon, 4)
            && forall moved: Index :: Moved(s, bodies, canon, 3, 4, moved) ==>
                 var now := moved[s[4].number := 4];
                 !IsIndex(now, s, 4) && 2 in now && now[2] == 3
  {
    var s: Store := map[1 := Header(1, 0, 0, 1), 2 := Header(2, 1, 1, 1), 3 := Header(3, 2, 2, 1), 4 := Header(4, 1, 1, 9)];
    var bodies: Bodies := map[1 := [], 2 := [], 3 := [], 4 := []];
    var canon: Index := map[0 := 1, 1 := 2, 2 := 3];
    BranchStep(s, bodies, canon, 4);
    assert OnIndex(canon, s, 1);
    assert Branch(s, bodies, canon, 4) == [4];
    assert Entry(canon, s, 0) && Entry(canon, s, 1) && Entry(canon, s, 2);
    forall moved: Index | Moved(s, bodies, canon, 3, 4, moved)
      ensures var now := moved[s[4].number := 4];
              !IsIndex(now, s, 4) && 2 in now && now[2] == 3
    {
      FinalIndex(s, bodies, canon, 3, 4, moved);
      assert 2 in moved;
    }
  }
}
