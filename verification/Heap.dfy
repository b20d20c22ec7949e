/**
 Binary heaps in sequences, as container/heap keeps them. Elements are compared by a key of two
 integers, lexicographically: nonces use the first component, prices both.
 */
module Heap {

  datatype Key = Key(major: int, minor: int)

  predicate Leq(a: Key, b: Key)
  {
    a.major < b.major || (a.major == b.major && a.minor <= b.minor)
  }

  function Parent(i: int): int
  {
    (i - 1) / 2
  }

  /** The edge from i's parent to i is in order. */
  predicate Ordered<T>(h: seq<T>, key: T -> Key, i: int)
    requires 0 < i < |h|
  {
    Leq(key(h[Parent(i)]), key(h[i]))
  }

  ghost predicate IsHeap<T>(h: seq<T>, key: T -> Key)
  {
    forall i :: 0 < i < |h| ==> Ordered(h, key, i)
  }

  lemma {:induction false} RootBelow<T>(h: seq<T>, key: T -> Key, i: nat)
    requires IsHeap(h, key) && i < |h|
    ensures Leq(key(h[0]), key(h[i]))
  {
    if i > 0 {
      RootBelow(h, key, Parent(i));
      assert Ordered(h, key, i);
    }
  }

  /** The root of a heap is a least element. */
  lemma {:induction false} RootIsLeast<T>(h: seq<T>, key: T -> Key)
    requires IsHeap(h, key) && h != []
    ensures forall x :: x in h ==> Leq(key(h[0]), key(x))
  {
    forall x | x in h ensures Leq(key(h[0]), key(x)) {
      var i :| 0 <= i < |h| && h[i] == x;
      RootBelow(h, key, i);
    }
  }

  function Swap<T>(h: seq<T>, i: nat, j: nat): (r: seq<T>)
    requires i < |h| && j < |h|
    ensures |r| == |h| && multiset(r) == multiset(h)
  {
    var r := h[i := h[j]][j := h[i]];
    SwapKeeps(h, i, j);
    r
  }

  lemma {:induction false} SwapKeeps<T>(h: seq<T>, i: nat, j: nat)
    requires i < |h| && j < |h|
    ensures multiset(h[i := h[j]][j := h[i]]) == multiset(h)
  {
  }

  /** Every edge is in order except possibly the one above j, and j's children are not below j's parent. */
  ghost predicate HeapExceptAbove<T>(h: seq<T>, key: T -> Key, j: int)
  {
    && (forall i :: 0 < i < |h| && i != j ==> Ordered(h, key, i))
    && (forall i :: 0 < i < |h| && 0 < j && Parent(i) == j ==> Leq(key(h[Parent(j)]), key(h[i])))
  }

  method Up<T(==)>(h0: seq<T>, j0: nat, key: T -> Key) returns (h: seq<T>)
    requires j0 < |h0| && HeapExceptAbove(h0, key, j0)
    ensures IsHeap(h, key) && multiset(h) == multiset(h0) && |h| == |h0|
  {
    h := h0;
    var j := j0;
    while j > 0 && !Leq(key(h[Parent(j)]), key(h[j]))
      invariant 0 <= j < |h| == |h0|
      invariant multiset(h) == multiset(h0)
      invariant HeapExceptAbove(h, key, j)
      decreases j
    {
      UpStep(h, key, j);
      h := Swap(h, Parent(j), j);
      j := Parent(j);
    }
  }

  lemma {:induction false} UpStep<T>(h: seq<T>, key: T -> Key, j: nat)
    requires 0 < j < |h| && HeapExceptAbove(h, key, j) && !Ordered(h, key, j)
    ensures HeapExceptAbove(Swap(h, Parent(j), j), key, Parent(j))
  {
    var p, r := Parent(j), Swap(h, Parent(j), j);
    forall i | 0 < i < |r| && i != p ensures Ordered(r, key, i) {
      if i != j {
        assert Ordered(h, key, i);
      }
    }
    forall i | 0 < i < |r| && 0 < p && Parent(i) == p ensures Leq(key(r[Parent(p)]), key(r[i])) {
      assert Ordered(h, key, p);
      if i != j {
        assert Ordered(h, key, i);
      }
    }
  }

  /** Every edge whose upper end is at least lo is in order, except those below i and, until i has moved down
      from i0, the one above i0; and i's children are not below i's parent. */
  ghost predicate Sinking<T>(h: seq<T>, key: T -> Key, lo: int, i0: int, i: int)
  {
    && (forall k :: 0 < k < |h| && lo <= Parent(k) && Parent(k) != i && (k != i0 || i != i0) ==> Ordered(h, key, k))
    && (forall k :: 0 < k < |h| && 0 < i && lo <= Parent(i) && Parent(k) == i ==> Leq(key(h[Parent(i)]), key(h[k])))
  }

  method Down<T(==)>(h0: seq<T>, lo: nat, i0: nat, key: T -> Key) returns (h: seq<T>, moved: bool)
    requires lo <= i0 && Sinking(h0, key, lo, i0, i0)
    ensures multiset(h) == multiset(h0) && |h| == |h0|
    ensures moved ==> forall k :: 0 < k < |h| && lo <= Parent(k) ==> Ordered(h, key, k)
    ensures !moved ==> h == h0 && forall k :: 0 < k < |h| && lo <= Parent(k) && k != i0 ==> Ordered(h, key, k)
  {
    h := h0;
    var i := i0;
    while 2 * i + 1 < |h|
      invariant i0 <= i && |h| == |h0|
      invariant multiset(h) == multiset(h0)
      invariant i == i0 ==> h == h0
      invariant Sinking(h, key, lo, i0, i)
      decreases |h| - i
    {
      var j := 2 * i + 1;
      if j + 1 < |h| && !Leq(key(h[j]), key(h[j + 1])) {
        j := j + 1;
      }
      LeastChild(h, key, i, j);
      if Leq(key(h[i]), key(h[j])) {
        break;
      }
      DownStep(h, key, lo, i0, i, j);
      h := Swap(h, i, j);
      i := j;
    }
    moved := i > i0;
    NoChildBelow(h, key, lo, i0, i);
  }

  /** The lower of the children of i is below both. */
  lemma {:induction false} LeastChild<T>(h: seq<T>, key: T -> Key, i: nat, j: nat)
    requires 2 * i + 1 < |h|
    requires j == if 2 * i + 2 < |h| && !Leq(key(h[2 * i + 1]), key(h[2 * i + 2])) then 2 * i + 2 else 2 * i + 1
    ensures i < j < |h| && Parent(j) == i && forall k :: 0 < k < |h| && Parent(k) == i ==> Leq(key(h[j]), key(h[k]))
  {
    forall k | 0 < k < |h| && Parent(k) == i ensures Leq(key(h[j]), key(h[k])) {
      assert k == 2 * i + 1 || k == 2 * i + 2;
    }
  }

  /** Where i is not above any of its children, all edges are in order, but for the one above i0 if nothing moved. */
  lemma {:induction false} NoChildBelow<T>(h: seq<T>, key: T -> Key, lo: nat, i0: nat, i: nat)
    requires lo <= i0 <= i && Sinking(h, key, lo, i0, i)
    requires forall k :: 0 < k < |h| && Parent(k) == i ==> Ordered(h, key, k)
    ensures forall k :: 0 < k < |h| && lo <= Parent(k) && (k != i0 || i > i0) ==> Ordered(h, key, k)
  {
  }

  lemma {:induction false} DownStep<T>(h: seq<T>, key: T -> Key, lo: nat, i0: nat, i: nat, j: nat)
    requires lo <= i0 <= i < j < |h| && Parent(j) == i && Sinking(h, key, lo, i0, i)
    requires forall k :: 0 < k < |h| && Parent(k) == i ==> Leq(key(h[j]), key(h[k]))
    requires !Leq(key(h[i]), key(h[j]))
    ensures Sinking(Swap(h, i, j), key, lo, i0, j)
  {
    var r := Swap(h, i, j);
    forall k | 0 < k < |r| && lo <= Parent(k) && Parent(k) != j ensures Ordered(r, key, k) {
      if Parent(k) != i && k != i {
        assert Ordered(h, key, k);
      } else if k == i && i != i0 {
        assert Ordered(h, key, k);
      }
    }
    forall k | 0 < k < |r| && Parent(k) == j ensures Leq(key(r[Parent(j)]), key(r[k])) {
      assert Ordered(h, key, k);
    }
  }

  // ---------- The operations of container/heap ----------

  method Push<T(==)>(h0: seq<T>, x: T, key: T -> Key) returns (h: seq<T>)
    requires IsHeap(h0, key)
    ensures IsHeap(h, key) && multiset(h) == multiset(h0) + multiset{x} && |h| == |h0| + 1
  {
    h := h0 + [x];
    forall i | 0 < i < |h| && i != |h0| ensures Ordered(h, key, i) {
      assert Ordered(h0, key, i);
    }
    h := Up(h, |h0|, key);
  }

  method Pop<T(==)>(h0: seq<T>, key: T -> Key) returns (x: T, h: seq<T>)
    requires IsHeap(h0, key) && h0 != []
    ensures x == h0[0]
    ensures IsHeap(h, key) && multiset(h) == multiset(h0) - multiset{x} && |h| == |h0| - 1
  {
    var n := |h0| - 1;
    x := h0[0];
    h := Swap(h0, 0, n)[..n];
    SwappedOut(h0, 0);
    assert Sinking(h, key, 0, 0, 0) by {
      forall k | 0 < k < |h| && Parent(k) != 0 ensures Ordered(h, key, k) {
        assert Ordered(h0, key, k);
      }
    }
    var moved;
    h, moved := Down(h, 0, 0, key);
  }

  method Remove<T(==)>(h0: seq<T>, i: nat, key: T -> Key) returns (h: seq<T>)
    requires IsHeap(h0, key) && i < |h0|
    ensures IsHeap(h, key) && multiset(h) == multiset(h0) - multiset{h0[i]} && |h| == |h0| - 1
  {
    var n := |h0| - 1;
    h := Swap(h0, i, n)[..n];
    SwappedOut(h0, i);
    if i != n {
      RemoveSinks(h0, i, key);
      h := Settle(h, i, key);
    } else {
      forall k | 0 < k < |h| ensures Ordered(h, key, k) {
        assert Ordered(h0, key, k);
      }
    }
  }

  /** Down and, when nothing moved, up. */
  method Settle<T(==)>(h0: seq<T>, i: nat, key: T -> Key) returns (h: seq<T>)
    requires i < |h0| && Sinking(h0, key, 0, i, i)
    ensures IsHeap(h, key) && multiset(h) == multiset(h0) && |h| == |h0|
  {
    var moved;
    h, moved := Down(h0, 0, i, key);
    if !moved {
      h := Up(h, i, key);
    }
  }

  lemma {:induction false} SwappedOut<T>(h: seq<T>, i: nat)
    requires i < |h|
    ensures multiset(Swap(h, i, |h| - 1)[..|h| - 1]) == multiset(h) - multiset{h[i]}
  {
    var s := Swap(h, i, |h| - 1);
    assert s == s[..|h| - 1] + [h[i]];
  }

  lemma {:induction false} RemoveSinks<T>(h: seq<T>, i: nat, key: T -> Key)
    requires IsHeap(h, key) && i < |h| - 1
    ensures Sinking(Swap(h, i, |h| - 1)[..|h| - 1], key, 0, i, i)
  {
    var r := Swap(h, i, |h| - 1)[..|h| - 1];
    forall k | 0 < k < |r| && Parent(k) != i && k != i ensures Ordered(r, key, k) {
      assert Ordered(h, key, k);
    }
    forall k | 0 < k < |r| && 0 < i && Parent(k) == i ensures Leq(key(r[Parent(i)]), key(r[k])) {
      assert Ordered(h, key, k);
      assert Ordered(h, key, i);
    }
  }

  method Init<T(==)>(h0: seq<T>, key: T -> Key) returns (h: seq<T>)
    ensures IsHeap(h, key) && multiset(h) == multiset(h0) && |h| == |h0|
  {
    h := h0;
    var i := |h| / 2;
    while i > 0
      invariant 0 <= i <= |h| / 2 && |h| == |h0|
      invariant multiset(h) == multiset(h0)
      invariant forall k :: 0 < k < |h| && i <= Parent(k) ==> Ordered(h, key, k)
    {
      i := i - 1;
      var moved;
      h, moved := Down(h, i, i, key);
    }
  }
}
