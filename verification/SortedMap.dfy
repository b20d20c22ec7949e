/**
 txSortedMap: a nonce map with a heap of its nonces and a cache of its sorted contents. Every
 operation is specified on the plain nonce map alone.
 */
module SortedMap {
  import opened Common
  import opened Heap
  import opened Transactions

  // ---------- The heap of nonces ----------

  /** index holds the nonces of m, each once, in heap order. */
  ghost predicate IndexOf(index: seq<nat>, m: NonceMap)
  {
    IsHeap(index, NonceKey) && multiset(index) == multiset(m.Keys)
  }

  lemma {:induction false} RootIsMin(index: seq<nat>, m: NonceMap)
    requires IndexOf(index, m)
    ensures index == [] <==> m == map[]
    ensures index != [] ==> IsMin(m, index[0])
    ensures |index| == |m|
  {
    assert |multiset(index)| == |multiset(m.Keys)|;
    if index != [] {
      RootIsLeast(index, NonceKey);
      assert index[0] in multiset(index);
      forall n | n in m ensures index[0] <= n {
        assert n in multiset(index);
        assert Leq(NonceKey(index[0]), NonceKey(n));
      }
    }
  }

  lemma {:induction false} IndexWithout(index: seq<nat>, r: seq<nat>, m: NonceMap, n: nat)
    requires multiset(index) == multiset(m.Keys) && n in m
    requires multiset(r) == multiset(index) - multiset{n}
    ensures multiset(r) == multiset((m - {n}).Keys)
  {
    assert (m - {n}).Keys == m.Keys - {n};
  }

  // ---------- Popping from the front ----------

  /** items is what is left of m after the transactions removed were taken from the front in order. */
  ghost predicate Popped(m: NonceMap, items: NonceMap, removed: seq<Tx>)
  {
    && items == m - (m.Keys - items.Keys)
    && Lists(removed, m - items.Keys)
    && Ascending(removed)
    && forall i, n :: 0 <= i < |removed| && n in items ==> removed[i].nonce < n
  }

  lemma {:induction false} PoppedNone(m: NonceMap)
    ensures Popped(m, m, []) && Lists([], map[]) && Ascending([])
  {
    assert m - m.Keys == map[];
  }

  lemma {:induction false} PopStep(m: NonceMap, items: NonceMap, removed: seq<Tx>, n: nat)
    requires WellKeyed(m) && Popped(m, items, removed) && IsMin(items, n)
    ensures Popped(m, items - {n}, removed + [items[n]])
  {
    var r, left := removed + [items[n]], items - {n};
    assert m - left.Keys == (m - items.Keys)[n := m[n]];
    forall k | k in m - left.Keys ensures (m - left.Keys)[k] in r {
      if k != n {
        assert (m - items.Keys)[k] in removed;
      } else {
        assert r[|removed|] == m[n];
      }
    }
  }

  /** Whatever was popped below t and left from t on: the map split at t. */
  lemma {:induction false} PoppedSplit(m: NonceMap, items: NonceMap, removed: seq<Tx>, t: nat)
    requires WellKeyed(m) && Popped(m, items, removed)
    requires forall i :: 0 <= i < |removed| ==> removed[i].nonce < t
    requires forall n :: n in items ==> n >= t
    ensures items == From(m, t) && Lists(removed, Below(m, t)) && Ascending(removed)
  {
    forall n | n in m ensures n in items <==> n >= t {
      assert n !in items ==> (m - items.Keys)[n] in removed;
    }
    assert m - items.Keys == Below(m, t);
  }

  /** A cached listing shifted by what was popped lists what is left. */
  lemma {:induction false} ShiftCache(c: seq<Tx>, m: NonceMap, t: nat, removed: seq<Tx>)
    requires WellKeyed(m) && Lists(c, m) && Ascending(c) && Lists(removed, Below(m, t))
    ensures |removed| <= |c| && Lists(c[|removed|..], From(m, t)) && Ascending(c[|removed|..])
  {
    var k := AscendingSplit(c, m, t);
    ListsLength(removed, Below(m, t));
  }

  /** Popping while the next nonce is there takes exactly the run of consecutive nonces from the minimum. */
  lemma {:induction false} PoppedRun(m: NonceMap, items: NonceMap, ready: seq<Tx>, a: nat, next: nat)
    requires WellKeyed(m) && Popped(m, items, ready) && IsMin(m, a) && a <= next
    requires forall n :: a <= n < next <==> n in m && n !in items
    requires next !in items
    ensures Lists(ready, RunFrom(m, a)) && Ascending(ready) && items == m - RunFrom(m, a).Keys
  {
    forall n | n in m ensures n in RunFrom(m, a) <==> n !in items {
      assert n !in items ==> Consecutive(m, a, n);
      assert n in items ==> next <= n;
    }
    assert m - items.Keys == RunFrom(m, a);
  }

  // ---------- The loops ----------

  /** Pop heap items until the threshold is reached. */
  method PopBelow(m: NonceMap, index0: seq<nat>, threshold: nat) returns (items: NonceMap, index: seq<nat>, removed: seq<Tx>)
    requires WellKeyed(m) && IndexOf(index0, m)
    ensures items == From(m, threshold) && IndexOf(index, items) && WellKeyed(items)
    ensures Lists(removed, Below(m, threshold)) && Ascending(removed)
  {
    hide Popped, Lists, Ascending, IsHeap, From, Below;
    items, index, removed := m, index0, [];
    PoppedNone(m);
    RootIsMin(index, items);
    while |index| > 0 && index[0] < threshold
      invariant WellKeyed(items) && IndexOf(index, items) && Popped(m, items, removed)
      invariant forall i :: 0 <= i < |removed| ==> removed[i].nonce < threshold
      decreases |index|
    {
      RootIsMin(index, items);
      PopStep(m, items, removed, index[0]);
      ghost var before := index;
      var nonce;
      nonce, index := Pop(index, NonceKey);
      IndexWithout(before, index, items, nonce);
      removed := removed + [items[nonce]];
      items := items - {nonce};
    }
    RootIsMin(index, items);
    PoppedSplit(m, items, removed, threshold);
  }

  /** Pop heap items while they continue the run of consecutive nonces. */
  method PopRun(m: NonceMap, index0: seq<nat>) returns (items: NonceMap, index: seq<nat>, ready: seq<Tx>)
    requires WellKeyed(m) && IndexOf(index0, m) && index0 != []
    ensures items == m - RunFrom(m, index0[0]).Keys && IndexOf(index, items) && WellKeyed(items)
    ensures Lists(ready, RunFrom(m, index0[0])) && Ascending(ready)
  {
    hide Popped, Lists, Ascending, IsHeap, RunFrom;
    items, index, ready := m, index0, [];
    RootIsMin(index, items);
    PoppedNone(m);
    var next := index[0];
    while |index| > 0 && index[0] == next
      invariant WellKeyed(items) && IndexOf(index, items) && Popped(m, items, ready)
      invariant index0[0] <= next && items == m - (m.Keys - items.Keys)
      invariant forall n :: index0[0] <= n < next <==> n in m && n !in items
      decreases |index|
    {
      RootIsMin(index, items);
      PopStep(m, items, ready, next);
      ready := ready + [items[next]];
      ghost var before := index;
      var popped;
      popped, index := Pop(index, NonceKey);
      IndexWithout(before, index, items, next);
      items := items - {next};
      next := next + 1;
    }
    RootIsMin(index, items);
    NextMissing(m, items, index0[0], next);
    PoppedRun(m, items, ready, index0[0], next);
  }

  /** Visit the items in any order and take out those that match. */
  method TakeMatching(m: NonceMap, f: Tx -> bool) returns (items: NonceMap, removed: seq<Tx>)
    requires WellKeyed(m)
    ensures items == NotMatching(m, f) && Lists(removed, Matching(m, f))
    ensures removed == [] ==> items == m
  {
    hide Lists;
    items, removed := m, [];
    var todo := m.Keys;
    PoppedNone(m);
    assert m - m.Keys == map[];
    while todo != {}
      invariant todo <= items.Keys <= m.Keys
      invariant items == m - (m.Keys - items.Keys)
      invariant forall n :: n in m && n !in todo ==> (n in items <==> !f(m[n]))
      invariant Lists(removed, m - items.Keys)
      decreases todo
    {
      var n :| n in todo;
      todo := todo - {n};
      if f(items[n]) {
        TakeOut(m, items, removed, n);
        removed := removed + [items[n]];
        items := items - {n};
      }
    }
    FilterSplits(m, items, f);
    if removed == [] {
      NothingTaken(m, items);
    }
  }

  /** Gather the nonces of the map in any order and heapify them. */
  method Reindex(m: NonceMap) returns (index: seq<nat>)
    ensures IndexOf(index, m)
  {
    var todo, s := m.Keys, [];
    while todo != {}
      invariant todo <= m.Keys
      invariant multiset(s) == multiset(m.Keys - todo)
      decreases todo
    {
      var n :| n in todo;
      assert m.Keys - (todo - {n}) == (m.Keys - todo) + {n};
      todo, s := todo - {n}, s + [n];
    }
    assert m.Keys - {} == m.Keys;
    index := Init(s, NonceKey);
  }

  /** Sort the nonces and drop the highest until k are left. */
  method DropHighest(m: NonceMap, index0: seq<nat>, k: nat) returns (items: NonceMap, index: seq<nat>, drops: seq<Tx>)
    requires WellKeyed(m) && IndexOf(index0, m) && k < |m|
    ensures items == Lowest(m, k) && IndexOf(index, items)
    ensures Lists(drops, AboveLowest(m, k)) && Descending(drops)
  {
    hide Dropped, Lists, Descending, Lowest, AboveLowest;
    items, drops := m, [];
    RootIsMin(index0, m);
    var sorted := Sort(index0, NonceKey);
    var size := |sorted|;
    DroppedNone(m, sorted);
    while size > k
      invariant k <= size <= |sorted|
      invariant Dropped(m, items, sorted, drops, size)
    {
      DropStep(m, items, sorted, drops, size);
      drops := drops + [items[sorted[size - 1]]];
      items := items - {sorted[size - 1]};
      size := size - 1;
    }
    DroppedAll(m, items, sorted, drops, k);
    index := Init(sorted[..k], NonceKey);
  }

  /** Gather the transactions in any order and sort them by nonce. */
  method SortItems(m: NonceMap) returns (sorted: seq<Tx>)
    requires WellKeyed(m)
    ensures Lists(sorted, m) && Ascending(sorted)
  {
    hide Lists, Ascending, SortedBy;
    var todo, s := m.Keys, [];
    PoppedNone(m);
    assert m - m.Keys == map[];
    while todo != {}
      invariant todo <= m.Keys && Lists(s, m - todo)
      decreases todo
    {
      var n :| n in todo;
      ListMore(m, todo, s, n);
      todo, s := todo - {n}, s + [m[n]];
    }
    assert m - {} == m;
    sorted := Sort(s, TxNonceKey);
    SortedListing(s, sorted, m);
  }

  method Find(index: seq<nat>, nonce: nat) returns (i: nat)
    requires nonce in index
    ensures i < |index| && index[i] == nonce
  {
    i := 0;
    while index[i] != nonce
      invariant i < |index| && nonce in index[i..]
      decreases |index| - i
    {
      assert index[i..] == [index[i]] + index[i + 1..];
      i := i + 1;
    }
  }

  // ---------- The class ----------

  class TxSortedMap {
    var items: NonceMap
    var index: seq<nat>
    var cache: Option<seq<Tx>>

    ghost predicate Valid()
      reads this
    {
      && WellKeyed(items)
      && IndexOf(index, items)
      && (cache.Some? ==> Lists(cache.value, items) && Ascending(cache.value))
    }

    constructor ()
      ensures Valid() && items == map[]
    {
      items, index, cache := map[], [], None;
    }

    method Get(nonce: nat) returns (tx: Option<Tx>)
      requires Valid()
      ensures tx == if nonce in items then Some(items[nonce]) else None
    {
      tx := if nonce in items then Some(items[nonce]) else None;
    }

    method Put(tx: Tx)
      requires Valid()
      modifies this
      ensures Valid() && items == old(items)[tx.nonce := tx]
    {
      hide IsHeap;
      if tx.nonce !in items {
        index := Push(index, tx.nonce, NonceKey);
        assert items[tx.nonce := tx].Keys == items.Keys + {tx.nonce};
      } else {
        assert items[tx.nonce := tx].Keys == items.Keys;
      }
      items, cache := items[tx.nonce := tx], None;
    }

    method Forward(threshold: nat) returns (removed: seq<Tx>)
      requires Valid()
      modifies this
      ensures Valid() && items == From(old(items), threshold)
      ensures Lists(removed, Below(old(items), threshold)) && Ascending(removed)
    {
      hide Lists, Ascending, IsHeap, From, Below;
      items, index, removed := PopBelow(items, index, threshold);
      if cache.Some? {
        ShiftCache(cache.value, old(items), threshold, removed);
        cache := Some(cache.value[|removed|..]);
      }
    }

    method Filter(f: Tx -> bool) returns (removed: seq<Tx>)
      requires Valid()
      modifies this
      ensures Valid() && items == NotMatching(old(items), f)
      ensures Lists(removed, Matching(old(items), f))
    {
      hide Lists, Ascending, IsHeap;
      items, removed := TakeMatching(items, f);
      if |removed| > 0 {
        index := Reindex(items);
        cache := None;
      }
    }

    method Cap(threshold: nat) returns (drops: seq<Tx>)
      requires Valid()
      modifies this
      ensures Valid() && items == Lowest(old(items), threshold)
      ensures Lists(drops, AboveLowest(old(items), threshold)) && Descending(drops)
    {
      hide Lists, Ascending, Descending, IsHeap, Rank;
      if |items| <= threshold {
        LowestAll(items, threshold);
        return [];
      }
      items, index, drops := DropHighest(items, index, threshold);
      if cache.Some? {
        TrimCache(cache.value, old(items), threshold, drops);
        cache := Some(cache.value[..|cache.value| - |drops|]);
      }
    }

    method Remove(nonce: nat) returns (found: bool)
      requires Valid()
      modifies this
      ensures Valid() && found == (nonce in old(items)) && items == old(items) - {nonce}
    {
      hide IsHeap, Lists, Ascending;
      if nonce !in items {
        return false;
      }
      assert nonce in multiset(index);
      var i := Find(index, nonce);
      ghost var before := index;
      index := Heap.Remove(index, i, NonceKey);
      IndexWithout(before, index, items, nonce);
      items, cache := items - {nonce}, None;
      return true;
    }

    method Ready(start: nat) returns (ready: seq<Tx>)
      requires Valid()
      modifies this
      ensures Valid() && Ascending(ready)
      ensures items == old(items) - ReadyRun(old(items), start).Keys
      ensures Lists(ready, ReadyRun(old(items), start))
    {
      hide Lists, Ascending, IsHeap, RunFrom, ReadyRun;
      RootIsMin(index, items);
      if |index| == 0 || index[0] > start {
        NoneReady(items, start);
        return [];
      }
      MinUnique(items, index[0], start);
      items, index, ready := PopRun(items, index);
      cache := None;
    }

    method Flatten() returns (txs: seq<Tx>)
      requires Valid()
      modifies this`cache
      ensures Valid() && Lists(txs, items) && Ascending(txs)
    {
      if cache.None? {
        var sorted := SortItems(items);
        cache := Some(sorted);
      }
      txs := cache.value;
    }
  }

  // ---------- Lemmas about the operations ----------

  lemma {:induction false} TakeOut(m: NonceMap, items: NonceMap, removed: seq<Tx>, n: nat)
    requires WellKeyed(m) && items == m - (m.Keys - items.Keys) && n in items
    requires Lists(removed, m - items.Keys)
    ensures Lists(removed + [items[n]], m - (items - {n}).Keys)
  {
    var r, left := removed + [items[n]], items - {n};
    forall k | k in m - left.Keys ensures (m - left.Keys)[k] in r {
      if k != n {
        assert (m - items.Keys)[k] in removed;
      } else {
        assert r[|removed|] == m[n];
      }
    }
  }

  lemma {:induction false} FilterSplits(m: NonceMap, items: NonceMap, f: Tx -> bool)
    requires items == m - (m.Keys - items.Keys)
    requires forall n :: n in m ==> (n in items <==> !f(m[n]))
    ensures items == NotMatching(m, f) && m - items.Keys == Matching(m, f)
  {
  }

  lemma {:induction false} NothingTaken(m: NonceMap, items: NonceMap)
    requires WellKeyed(m) && items == m - (m.Keys - items.Keys) && Lists([], m - items.Keys)
    ensures items == m
  {
    hide Lists;
    ListsLength([], m - items.Keys);
    assert (m - items.Keys).Keys == {};
    assert forall n :: n in m ==> n in items || n in m - items.Keys;
  }

  lemma {:induction false} ListMore(m: NonceMap, todo: set<nat>, s: seq<Tx>, n: nat)
    requires WellKeyed(m) && n in todo && todo <= m.Keys && Lists(s, m - todo)
    ensures Lists(s + [m[n]], m - (todo - {n}))
  {
    var r := s + [m[n]];
    forall k | k in m - (todo - {n}) ensures (m - (todo - {n}))[k] in r {
      if k != n {
        assert (m - todo)[k] in s;
      } else {
        assert r[|s|] == m[n];
      }
    }
  }

  lemma {:induction false} SortedListing(s: seq<Tx>, t: seq<Tx>, m: NonceMap)
    requires WellKeyed(m) && Lists(s, m) && multiset(t) == multiset(s) && SortedBy(t, TxNonceKey) && |t| == |s|
    ensures Lists(t, m) && Ascending(t)
  {
    forall i | 0 <= i < |t| ensures t[i] in s {
      assert t[i] in multiset(t);
    }
    forall n | n in m ensures m[n] in t {
      assert m[n] in multiset(s);
    }
    ListsOnce(s, m);
    forall i, j | 0 <= i < j < |t| ensures t[i].nonce < t[j].nonce {
      assert Leq(TxNonceKey(t[i]), TxNonceKey(t[j]));
      if t[i].nonce == t[j].nonce {
        Twice(t, i, j);
        Once(s, t[i]);
        assert false;
      }
    }
  }

  /** Ready's answer on the plain map: the run from the least nonce, if that is not above start. */
  ghost function ReadyRun(m: NonceMap, start: nat): NonceMap
  {
    if exists a: nat :: IsMin(m, a) && a <= start then
      var a: nat :| IsMin(m, a) && a <= start;
      RunFrom(m, a)
    else map[]
  }

  lemma {:induction false} NoneReady(m: NonceMap, start: nat)
    requires m == map[] || exists a: nat :: IsMin(m, a) && a > start
    ensures ReadyRun(m, start) == map[] && Lists([], map[]) && Ascending([])
  {
  }

  lemma {:induction false} MinUnique(m: NonceMap, a: nat, start: nat)
    requires IsMin(m, a) && a <= start
    ensures ReadyRun(m, start) == RunFrom(m, a)
  {
  }

  lemma {:induction false} NextMissing(m: NonceMap, items: NonceMap, a: nat, next: nat)
    requires IsMin(m, a) && items == m - (m.Keys - items.Keys)
    requires forall n :: a <= n < next <==> n in m && n !in items
    requires items != map[] ==> exists b: nat :: IsMin(items, b) && b != next
    ensures next !in items
  {
    if items != map[] {
      var b: nat :| IsMin(items, b) && b != next;
      assert next in items ==> a <= b < next;
    }
  }

  /** Fewer nonces than k: the k lowest are all of them. */
  lemma {:induction false} LowestAll(m: NonceMap, k: nat)
    requires |m| <= k
    ensures Lowest(m, k) == m && AboveLowest(m, k) == map[] && Lists([], map[]) && Descending([])
  {
    forall n | n in m ensures Rank(m, n) < k {
      assert NoncesBelow(m, n) <= m.Keys - {n};
      SubsetSize(NoncesBelow(m, n), m.Keys - {n});
    }
  }

  lemma {:induction false} SubsetSize(a: set<nat>, b: set<nat>)
    requires a <= b
    ensures |a| <= |b|
  {
    if a != {} {
      var x :| x in a;
      SubsetSize(a - {x}, b - {x});
    }
  }

  /** The nonces from position size of the sorted index on have been dropped, highest first. */
  ghost predicate Dropped(m: NonceMap, items: NonceMap, index: seq<nat>, drops: seq<Tx>, size: nat)
  {
    && size <= |index|
    && |drops| == |index| - size
    && (forall i :: 0 <= i < |index| ==> index[i] in m)
    && (forall i :: 0 <= i < |drops| ==> drops[i] == m[index[|index| - 1 - i]])
    && items == m - (m.Keys - items.Keys)
    && (forall i :: 0 <= i < |index| ==> (index[i] in items <==> i < size))
  }

  lemma {:induction false} DroppedNone(m: NonceMap, index: seq<nat>)
    requires multiset(index) == multiset(m.Keys)
    ensures Dropped(m, m, index, [], |index|)
  {
    forall i | 0 <= i < |index| ensures index[i] in m {
      assert index[i] in multiset(index);
    }
  }

  lemma {:induction false} DropStep(m: NonceMap, items: NonceMap, index: seq<nat>, drops: seq<Tx>, size: nat)
    requires multiset(index) == multiset(m.Keys) && 0 < size <= |index|
    requires Dropped(m, items, index, drops, size)
    ensures index[size - 1] in items
    ensures Dropped(m, items - {index[size - 1]}, index, drops + [items[index[size - 1]]], size - 1)
  {
    Distinct(index, m);
  }

  lemma {:induction false} DroppedAll(m: NonceMap, items: NonceMap, index: seq<nat>, drops: seq<Tx>, k: nat)
    requires WellKeyed(m) && multiset(index) == multiset(m.Keys) && SortedBy(index, NonceKey) && k <= |index|
    requires Dropped(m, items, index, drops, k)
    ensures items == Lowest(m, k) && multiset(index[..k]) == multiset(items.Keys)
    ensures Lists(drops, AboveLowest(m, k)) && Descending(drops)
  {
    hide Dropped, Lists, Descending;
    Distinct(index, m);
    KeptAreLowest(m, items, index, drops, k);
    PrefixKeys(m, items, index, k);
    DropsListed(m, items, index, drops, k);
  }

  lemma {:induction false} KeptAreLowest(m: NonceMap, items: NonceMap, index: seq<nat>, drops: seq<Tx>, k: nat)
    requires multiset(index) == multiset(m.Keys) && SortedBy(index, NonceKey) && k <= |index|
    requires Dropped(m, items, index, drops, k)
    ensures items == Lowest(m, k) && m - items.Keys == AboveLowest(m, k) && items.Keys <= m.Keys
    ensures forall i :: 0 <= i < |index| ==> (index[i] in items <==> i < k)
  {
    hide Rank;
    forall n | n in m ensures n in items <==> Rank(m, n) < k {
      assert n in multiset(index);
      var i :| 0 <= i < |index| && index[i] == n;
      RankOfSorted(index, m, i);
    }
  }

  lemma {:induction false} DropsListed(m: NonceMap, items: NonceMap, index: seq<nat>, drops: seq<Tx>, k: nat)
    requires WellKeyed(m) && multiset(index) == multiset(m.Keys) && SortedBy(index, NonceKey) && NoDuplicates(index) && k <= |index|
    requires Dropped(m, items, index, drops, k)
    ensures Lists(drops, m - items.Keys) && Descending(drops)
  {
    forall i, j | 0 <= i < j < |index| ensures index[i] < index[j] {
      assert Leq(NonceKey(index[i]), NonceKey(index[j]));
    }
    forall n | n in m - items.Keys ensures m[n] in drops {
      assert n in multiset(index);
      var i :| 0 <= i < |index| && index[i] == n;
      assert drops[|index| - 1 - i] == m[n];
    }
  }

  lemma {:induction false} PrefixKeys(m: NonceMap, items: NonceMap, index: seq<nat>, k: nat)
    requires multiset(index) == multiset(m.Keys) && NoDuplicates(index) && k <= |index| && items.Keys <= m.Keys
    requires forall i :: 0 <= i < |index| ==> (index[i] in items <==> i < k)
    ensures multiset(index[..k]) == multiset(items.Keys)
  {
    assert NoDuplicates(index[..k]);
    forall n: nat ensures multiset(index[..k])[n] == multiset(items.Keys)[n] {
      Once(index[..k], n);
      if n in items {
        assert n in multiset(index);
        var i :| 0 <= i < |index| && index[i] == n;
        assert index[..k][i] == n;
      }
    }
  }

  lemma {:induction false} TrimCache(c: seq<Tx>, m: NonceMap, k: nat, drops: seq<Tx>)
    requires WellKeyed(m) && Lists(c, m) && Ascending(c) && Lists(drops, AboveLowest(m, k))
    ensures |drops| <= |c|
    ensures Lists(c[..|c| - |drops|], Lowest(m, k)) && Ascending(c[..|c| - |drops|])
  {
    hide Lists, Rank;
    var cut := if k <= |c| then k else |c|;
    RanksOfListing(c, m);
    ListsMembers(c, m);
    SliceLists(c, m, cut, Lowest(m, k), AboveLowest(m, k));
    ListsLength(drops, AboveLowest(m, k));
    ListsLength(c[cut..], AboveLowest(m, k));
  }

  lemma {:induction false} ListsMembers(s: seq<Tx>, m: NonceMap)
    requires Lists(s, m)
    ensures forall i :: 0 <= i < |s| ==> s[i].nonce in m && m[s[i].nonce] == s[i]
  {
  }

  lemma {:induction false} RanksOfListing(c: seq<Tx>, m: NonceMap)
    requires WellKeyed(m) && Lists(c, m) && Ascending(c)
    ensures forall i :: 0 <= i < |c| ==> Rank(m, c[i].nonce) == i
  {
    NoncesOf(c, m);
    forall i | 0 <= i < |c| ensures Rank(m, c[i].nonce) == i {
      RankOfSorted(Nonces(c), m, i);
    }
  }

  ghost function Nonces(c: seq<Tx>): (s: seq<nat>)
    ensures |s| == |c| && forall i :: 0 <= i < |c| ==> s[i] == c[i].nonce
  {
    seq(|c|, i requires 0 <= i < |c| => c[i].nonce)
  }

  lemma {:induction false} NoncesOf(c: seq<Tx>, m: NonceMap)
    requires WellKeyed(m) && Lists(c, m) && Ascending(c)
    ensures multiset(Nonces(c)) == multiset(m.Keys) && SortedBy(Nonces(c), NonceKey)
  {
    var idx := Nonces(c);
    assert NoDuplicates(idx);
    forall n: nat ensures multiset(idx)[n] == multiset(m.Keys)[n] {
      Once(idx, n);
      if n in m {
        assert m[n] in c;
        var i :| 0 <= i < |c| && c[i] == m[n];
        assert idx[i] == n;
      }
    }
  }
}
