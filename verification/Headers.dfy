/**
 Stored headers and their parent paths, the reference for every index and cache kept over them.
 */
module Headers {
  type Hash = nat

  const ZERO: Hash := 0

  datatype Header = Header(hash: Hash, number: nat, parent: Hash, difficulty: nat)

  type Store = map<Hash, Header>

  /** Every stored header but the genesis has its parent stored, one number below. */
  ghost predicate Rooted(s: Store, genesis: Hash)
  {
    && genesis in s && s[genesis].number == 0
    && ZERO !in s
    && forall h {:trigger Linked(s, genesis, h)} :: h in s ==> Linked(s, genesis, h)
  }

  ghost predicate Linked(s: Store, genesis: Hash, h: Hash)
  {
    && h in s && s[h].hash == h
    && (h != genesis ==> s[h].parent in s && s[h].number == s[s[h].parent].number + 1)
  }

  /** The ancestor of h with number n, found by walking parents. */
  ghost function Ancestor(s: Store, genesis: Hash, h: Hash, n: nat): (r: Hash)
    requires Rooted(s, genesis) && h in s && n <= s[h].number
    ensures r in s && s[r].number == n
    decreases s[h].number
  {
    if s[h].number == n then h else
    assert Linked(s, genesis, h);
    Ancestor(s, genesis, s[h].parent, n)
  }

  /** The sum of difficulties from the genesis to h. */
  ghost function PathDifficulty(s: Store, genesis: Hash, h: Hash): nat
    requires Rooted(s, genesis) && h in s
    decreases s[h].number
  {
    if h == genesis then s[h].difficulty else
    assert Linked(s, genesis, h);
    PathDifficulty(s, genesis, s[h].parent) + s[h].difficulty
  }

  lemma {:induction false} AncestorTrans(s: Store, genesis: Hash, h: Hash, m: nat, n: nat)
    requires Rooted(s, genesis) && h in s && n <= m <= s[h].number
    ensures Ancestor(s, genesis, Ancestor(s, genesis, h, m), n) == Ancestor(s, genesis, h, n)
    decreases s[h].number
  {
    if m < s[h].number {
      assert Linked(s, genesis, h);
      AncestorTrans(s, genesis, s[h].parent, m, n);
    }
  }

  ghost predicate Extends(s: Store, t: Store)
  {
    forall h :: h in s ==> h in t && t[h] == s[h]
  }

  /** New headers change no path of the old ones. */
  lemma {:induction false} AncestorExtend(s: Store, t: Store, genesis: Hash, h: Hash, n: nat)
    requires Rooted(s, genesis) && Rooted(t, genesis) && Extends(s, t) && h in s && n <= s[h].number
    ensures Ancestor(t, genesis, h, n) == Ancestor(s, genesis, h, n)
    decreases s[h].number
  {
    if n < s[h].number {
      assert Linked(s, genesis, h);
      AncestorExtend(s, t, genesis, s[h].parent, n);
    }
  }

  lemma {:induction false} PathExtend(s: Store, t: Store, genesis: Hash, h: Hash)
    requires Rooted(s, genesis) && Rooted(t, genesis) && Extends(s, t) && h in s
    ensures PathDifficulty(t, genesis, h) == PathDifficulty(s, genesis, h)
    decreases s[h].number
  {
    if h != genesis {
      assert Linked(s, genesis, h);
      PathExtend(s, t, genesis, s[h].parent);
    }
  }

  lemma {:induction false} RootedExtend(s: Store, genesis: Hash, header: Header)
    requires Rooted(s, genesis) && header.parent in s && header.number == s[header.parent].number + 1
    requires header.hash != ZERO && (header.hash in s ==> s[header.hash] == header)
    ensures Rooted(s[header.hash := header], genesis) && Extends(s, s[header.hash := header])
  {
    var t := s[header.hash := header];
    forall h | h in t ensures Linked(t, genesis, h) {
      if h in s {
        assert Linked(s, genesis, h);
      }
    }
  }

  // ---------- The canonical index ----------

  type Index = map<nat, Hash>

  /** The index is the parent path of the head, and empty above it. */
  ghost predicate IsPath(canon: Index, s: Store, genesis: Hash, head: Hash)
  {
    && Rooted(s, genesis) && head in s
    && forall n: nat :: (n in canon <==> n <= s[head].number) && (n in canon ==> canon[n] == Ancestor(s, genesis, head, n))
  }

  /** A canonical block shares its ancestors with the head. */
  lemma {:induction false} CanonicalBelow(canon: Index, s: Store, genesis: Hash, head: Hash, h: Hash, n: nat)
    requires IsPath(canon, s, genesis, head) && h in s && s[h].number in canon && canon[s[h].number] == h && n <= s[h].number
    ensures n in canon && canon[n] == Ancestor(s, genesis, h, n)
  {
    AncestorTrans(s, genesis, head, s[h].number, n);
  }

  /** The index depends on the stored headers and the head alone, not on how they came about. */
  lemma {:induction false} IndexUnique(canon: Index, other: Index, s: Store, genesis: Hash, head: Hash)
    requires IsPath(canon, s, genesis, head) && IsPath(other, s, genesis, head)
    ensures canon == other
  {
    assert forall n: nat :: n in canon <==> n in other;
  }

  lemma {:induction false} PathShape(canon: Index, s: Store, genesis: Hash, head: Hash)
    requires IsPath(canon, s, genesis, head)
    ensures Rooted(s, genesis) && head in s
    ensures forall n: nat :: n in canon <==> n <= s[head].number
    ensures forall n :: n in canon ==> canon[n] != ZERO && canon[n] in s && s[canon[n]].number == n
  {
  }

  /** A block off the index is not the genesis. */
  lemma {:induction false} NotGenesis(canon: Index, s: Store, genesis: Hash, head: Hash, h: Hash)
    requires IsPath(canon, s, genesis, head) && h in s && !(s[h].number in canon && canon[s[h].number] == h)
    ensures h != genesis && s[h].number > 0 && s[h].parent in s && s[s[h].parent].number == s[h].number - 1
  {
    assert Linked(s, genesis, h);
    OnlyGenesis(s, genesis, Ancestor(s, genesis, head, 0));
  }

  lemma {:induction false} OnlyGenesis(s: Store, genesis: Hash, h: Hash)
    requires Rooted(s, genesis) && h in s && s[h].number == 0
    ensures h == genesis
  {
    assert Linked(s, genesis, h);
  }

  lemma {:induction false} AncestorStep(s: Store, genesis: Hash, h: Hash, n: nat)
    requires Rooted(s, genesis) && h in s && 0 < n <= s[h].number
    ensures Ancestor(s, genesis, h, n - 1) == s[Ancestor(s, genesis, h, n)].parent
  {
    AncestorTrans(s, genesis, h, n, n - 1);
    var a := Ancestor(s, genesis, h, n);
    assert Linked(s, genesis, a);
  }

  lemma {:induction false} AncestorSelf(s: Store, genesis: Hash, h: Hash)
    requires Rooted(s, genesis) && h in s
    ensures Ancestor(s, genesis, h, s[h].number) == h
  {
  }

  lemma {:induction false} ParentStored(s: Store, genesis: Hash, h: Hash)
    requires Rooted(s, genesis) && h in s && h != genesis
    ensures s[h].parent in s && s[h].number == s[s[h].parent].number + 1
  {
    assert Linked(s, genesis, h);
  }
}
