/**
 txPricedList: a heap of all pooled transactions by price, from which removed transactions are not
 taken out at once. An entry is stale when the pool's lookup no longer has its hash.
 */
module PricedList {
  import opened Heap
  import opened Transactions

  predicate Live(all: Lookup, t: Tx)
  {
    t.hash in all
  }

  predicate LiveRemote(all: Lookup, locals: set<Addr>, t: Tx)
  {
    Live(all, t) && t.from !in locals
  }

  /** now results from before by taking out stale entries and the transactions out, nothing else. */
  ghost predicate Without(now: seq<Tx>, before: seq<Tx>, out: multiset<Tx>, all: Lookup)
  {
    && |now| + |out| <= |before|
    && forall t :: && multiset(now)[t] + out[t] <= multiset(before)[t]
                   && (Live(all, t) ==> multiset(now)[t] + out[t] == multiset(before)[t])
  }

  lemma {:induction false} WithoutMember(now: seq<Tx>, before: seq<Tx>, out: multiset<Tx>, all: Lookup, t: Tx)
    requires Without(now, before, out, all)
    ensures t in now || t in out ==> t in before
    ensures t in before && Live(all, t) ==> t in now || t in out
  {
    assert t in now <==> t in multiset(now);
    assert t in before <==> t in multiset(before);
  }

  /** Taking one more entry t out of now, which counts only when it is live. */
  lemma {:induction false} WithoutStep(now: seq<Tx>, r: seq<Tx>, before: seq<Tx>, out: multiset<Tx>, all: Lookup, t: Tx)
    requires Without(now, before, out, all) && t in now
    requires multiset(r) == multiset(now) - multiset{t} && |r| == |now| - 1
    ensures Without(r, before, out + multiset{t}, all)
    ensures !Live(all, t) ==> Without(r, before, out, all)
  {
    assert t in multiset(now);
  }

  function SlotsOf(txs: seq<Tx>): nat
  {
    if txs == [] then 0 else SlotsOf(txs[..|txs| - 1]) + txs[|txs| - 1].Slots()
  }

  /** What the price heap orders by: the price, and the higher nonce first. */
  lemma {:induction false} PriceOrder(t: Tx, u: Tx)
    ensures Leq(PriceKey(t), PriceKey(u)) <==> t.price < u.price || (t.price == u.price && t.nonce >= u.nonce)
  {
  }

  // ---------- Loops on heaps ----------

  /** Discard stale price points at the heap start. */
  method PopStale(h0: seq<Tx>, all: Lookup) returns (h: seq<Tx>)
    requires IsHeap(h0, PriceKey)
    ensures IsHeap(h, PriceKey) && Without(h, h0, multiset{}, all)
    ensures h != [] ==> Live(all, h[0])
  {
    hide IsHeap, PriceKey, Without;
    h := h0;
    NothingOut(h, all);
    while |h| > 0 && !Live(all, h[0])
      invariant IsHeap(h, PriceKey) && Without(h, h0, multiset{}, all)
      decreases |h|
    {
      var t, r := Pop(h, PriceKey);
      WithoutStep(h, r, h0, multiset{}, all, t);
      h := r;
    }
  }

  method PushAll(h0: seq<Tx>, save: seq<Tx>) returns (h: seq<Tx>)
    requires IsHeap(h0, PriceKey)
    ensures IsHeap(h, PriceKey) && multiset(h) == multiset(h0) + multiset(save) && |h| == |h0| + |save|
  {
    hide IsHeap, PriceKey;
    h := h0;
    for i := 0 to |save|
      invariant IsHeap(h, PriceKey) && multiset(h) == multiset(h0) + multiset(save[..i]) && |h| == |h0| + i
    {
      h := Push(h, save[i], PriceKey);
      assert save[..i + 1] == save[..i] + [save[i]];
    }
    assert save[..|save|] == save;
  }

  /** What a discarding loop has done: drop and save hold the live entries popped so far, cheapest first,
      remote ones in drop. */
  ghost predicate Sifted(h0: seq<Tx>, h: seq<Tx>, drop: seq<Tx>, save: seq<Tx>, all: Lookup, locals: set<Addr>)
  {
    && IsHeap(h, PriceKey)
    && Without(h, h0, multiset(drop) + multiset(save), all)
    && (forall t :: t in drop ==> LiveRemote(all, locals, t))
    && (forall t, u :: t in drop && u in h ==> Leq(PriceKey(t), PriceKey(u)))
  }

  lemma {:induction false} SiftStep(h0: seq<Tx>, h: seq<Tx>, r: seq<Tx>, drop: seq<Tx>, save: seq<Tx>, all: Lookup,
      locals: set<Addr>)
    requires Sifted(h0, h, drop, save, all, locals) && h != []
    requires IsHeap(r, PriceKey) && multiset(r) == multiset(h) - multiset{h[0]} && |r| == |h| - 1
    ensures !Live(all, h[0]) ==> Sifted(h0, r, drop, save, all, locals)
    ensures LiveRemote(all, locals, h[0]) ==> Sifted(h0, r, drop + [h[0]], save, all, locals)
    ensures Sifted(h0, r, drop, save + [h[0]], all, locals)
  {
    var t := h[0];
    RootIsLeast(h, PriceKey);
    hide IsHeap, PriceKey, Leq, Without;
    forall u | u in r ensures u in h {
      assert u in multiset(r);
    }
    WithoutStep(h, r, h0, multiset(drop) + multiset(save), all, t);
    assert multiset(drop + [t]) + multiset(save) == multiset(drop) + multiset(save) + multiset{t};
    assert multiset(drop) + multiset(save + [t]) == multiset(drop) + multiset(save) + multiset{t};
  }

  lemma {:induction false} SiftedStart(h: seq<Tx>, all: Lookup, locals: set<Addr>)
    requires IsHeap(h, PriceKey)
    ensures Sifted(h, h, [], [], all, locals)
  {
  }

  /** Pushing the saved entries back leaves the drops as the only live entries missing. */
  lemma {:induction false} SavedBack(h0: seq<Tx>, h: seq<Tx>, r: seq<Tx>, drop: seq<Tx>, save: seq<Tx>, all: Lookup,
      locals: set<Addr>)
    requires Sifted(h0, h, drop, save, all, locals)
    requires multiset(r) == multiset(h) + multiset(save) && |r| == |h| + |save|
    ensures Without(r, h0, multiset(drop), all)
    ensures forall u :: u in r ==> u in h || u in save
  {
    hide IsHeap, PriceKey, Leq;
    forall u | u in r ensures u in h || u in save {
      assert u in multiset(r);
      assert u in multiset(h) || u in multiset(save);
    }
  }

  // ---------- The class ----------

  class TxPricedList {
    var items: seq<Tx>
    var stales: int

    ghost predicate Valid()
      reads this
    {
      IsHeap(items, PriceKey)
    }

    constructor ()
      ensures Valid() && items == [] && stales == 0
    {
      items, stales := [], 0;
    }

    method Put(tx: Tx)
      requires Valid()
      modifies this
      ensures Valid() && multiset(items) == old(multiset(items)) + multiset{tx} && stales == old(stales)
    {
      items := Push(items, tx, PriceKey);
    }

    /** Count stale entries; when there are too many, rebuild the heap from the lookup. */
    method Removed(count: nat, all: Lookup)
      requires Valid() && Keyed(all)
      modifies this
      ensures Valid()
      ensures old(stales) + count <= |old(items)| / 4 ==> items == old(items) && stales == old(stales) + count
      ensures old(stales) + count > |old(items)| / 4 ==>
                stales == 0 && forall t :: multiset(items)[t] == if Live(all, t) && all[t.hash] == t then 1 else 0
    {
      stales := stales + count;
      if stales <= |items| / 4 {
        return;
      }
      var todo, s := all.Keys, [];
      while todo != {}
        invariant todo <= all.Keys
        invariant forall t :: multiset(s)[t] == if Live(all, t) && t.hash !in todo && all[t.hash] == t then 1 else 0
        decreases todo
      {
        var h :| h in todo;
        todo, s := todo - {h}, s + [all[h]];
      }
      stales := 0;
      items := Init(s, PriceKey);
    }

    /** Is the transaction no dearer than the cheapest pooled one? */
    method Underpriced(tx: Tx, all: Lookup, locals: set<Addr>) returns (under: bool)
      requires Valid()
      modifies this
      ensures Valid() && Without(items, old(items), multiset{}, all)
      ensures old(stales) - stales == |old(items)| - |items|
      ensures under <==> tx.from !in locals && (exists t :: t in old(items) && Live(all, t))
                         && forall t :: t in old(items) && Live(all, t) ==> tx.price <= t.price
    {
      hide Without;
      NothingOut(items, all);
      if tx.from in locals {
        return false;
      }
      var h := PopStale(items, all);
      stales := stales - (|items| - |h|);
      items := h;
      forall t | t in old(items) && Live(all, t) ensures t in items {
        WithoutMember(items, old(items), multiset{}, all, t);
      }
      if |items| == 0 {
        return false;
      }
      WithoutMember(items, old(items), multiset{}, all, items[0]);
      RootIsLeast(items, PriceKey);
      return items[0].price >= tx.price;
    }

    /** Drop the cheapest remote transactions until the slots are freed, sparing local ones. */
    method Discard(slots: nat, all: Lookup, locals: set<Addr>) returns (drop: seq<Tx>)
      requires Valid()
      modifies this
      ensures Valid() && Without(items, old(items), multiset(drop), all)
      ensures old(stales) - stales == |old(items)| - |items| - |drop|
      ensures forall t :: t in drop ==> LiveRemote(all, locals, t)
      ensures SlotsOf(drop) >= slots || forall t :: t in items ==> !LiveRemote(all, locals, t)
      ensures drop != [] ==> SlotsOf(drop[..|drop| - 1]) < slots
      ensures forall t, u :: t in drop && u in items && u.from !in locals ==>
                t.price < u.price || (t.price == u.price && t.nonce >= u.nonce)
    {
      hide Without, IsHeap, PriceKey, Leq;
      drop := [];
      var save := [];
      var h := items;
      var left: int := slots;
      SiftedStart(h, all, locals);
      while |h| > 0 && left > 0
        invariant Sifted(items, h, drop, save, all, locals)
        invariant forall t :: t in save ==> t.from in locals
        invariant left == slots - SlotsOf(drop)
        invariant drop != [] ==> SlotsOf(drop[..|drop| - 1]) < slots
        invariant old(stales) - stales == |items| - |h| - |drop| - |save| && items == old(items)
        decreases |h|
      {
        var t, r := Pop(h, PriceKey);
        SiftStep(items, h, r, drop, save, all, locals);
        h := r;
        if !Live(all, t) {
          stales := stales - 1;
        } else if t.from in locals {
          save := save + [t];
        } else {
          assert (drop + [t])[..|drop|] == drop;
          drop := drop + [t];
          left := left - t.Slots();
        }
      }
      var r := PushAll(h, save);
      SavedBack(items, h, r, drop, save, all, locals);
      items := r;
      forall t, u | t in drop && u in items && u.from !in locals
        ensures t.price < u.price || (t.price == u.price && t.nonce >= u.nonce)
      {
        PriceOrder(t, u);
      }
    }

    /** Drop every remote transaction cheaper than the threshold. */
    method Cap(threshold: nat, all: Lookup, locals: set<Addr>) returns (drop: seq<Tx>)
      requires Valid()
      modifies this
      ensures Valid() && Without(items, old(items), multiset(drop), all)
      ensures old(stales) - stales == |old(items)| - |items| - |drop|
      ensures forall t :: t in drop ==> LiveRemote(all, locals, t) && t.price < threshold
      ensures forall t :: t in items && LiveRemote(all, locals, t) ==> t.price >= threshold
    {
      hide Without, IsHeap, Leq;
      drop := [];
      var save := [];
      var h := items;
      SiftedStart(h, all, locals);
      while |h| > 0
        invariant Sifted(items, h, drop, save, all, locals)
        invariant forall t :: t in drop ==> t.price < threshold
        invariant forall t :: t in save ==> t.from in locals
        invariant old(stales) - stales == |items| - |h| - |drop| - |save| && items == old(items)
        decreases |h|
      {
        RootCheapest(h);
        var t, r := Pop(h, PriceKey);
        SiftStep(items, h, r, drop, save, all, locals);
        RestIn(h, r);
        h := r;
        if !Live(all, t) {
          stales := stales - 1;
          continue;
        }
        if t.price >= threshold {
          save := save + [t];
          break;
        }
        if t.from in locals {
          save := save + [t];
        } else {
          drop := drop + [t];
        }
      }
      var r := PushAll(h, save);
      SavedBack(items, h, r, drop, save, all, locals);
      items := r;
    }
  }

  lemma {:induction false} RestIn(h: seq<Tx>, r: seq<Tx>)
    requires h != [] && multiset(r) == multiset(h) - multiset{h[0]}
    ensures forall t :: t in r ==> t in h
  {
    forall t | t in r ensures t in h {
      assert t in multiset(r);
    }
  }

  lemma {:induction false} NothingOut(h: seq<Tx>, all: Lookup)
    ensures Without(h, h, multiset{}, all)
  {
  }

  lemma {:induction false} RootCheapest(h: seq<Tx>)
    requires IsHeap(h, PriceKey) && h != []
    ensures forall t :: t in h ==> h[0].price <= t.price
  {
    RootIsLeast(h, PriceKey);
  }

  /** When every pooled transaction is in the heap once, nothing is dropped twice. */
  lemma {:induction false} DropDistinct(now: seq<Tx>, before: seq<Tx>, drop: seq<Tx>, all: Lookup)
    requires Without(now, before, multiset(drop), all)
    requires forall t :: t in drop ==> Live(all, t)
    requires forall t :: Live(all, t) ==> multiset(before)[t] <= 1
    ensures NoDuplicates(drop)
  {
    forall i, j | 0 <= i < j < |drop| ensures drop[i] != drop[j] {
      if drop[i] == drop[j] {
        Twice(drop, i, j);
        assert false;
      }
    }
  }
}
