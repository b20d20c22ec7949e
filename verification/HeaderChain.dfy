/**
 The header chain: headers with their total difficulties, the canonical index and the head, with
 caches in front of the database.
 */
module HeaderChain {
  import opened Common
  import opened Headers

  datatype Status = Unknown | Side | Canonical

  class HeaderChain {
    const genesis: Hash
    var headers: Store
    var tds: map<Hash, nat>
    var canon: Index
    var head: Hash
    var headerCache: Store
    var tdCache: map<Hash, nat>

    /** The index follows the head, every total difficulty is that of its path, and the caches agree with the
        database. */
    ghost predicate Stored()
      reads this
    {
      && IsPath(canon, headers, genesis, head)
      && Difficulties(tds, headers, genesis)
      && Extends(headerCache, headers)
      && forall h :: h in tdCache ==> h in tds && tdCache[h] == tds[h]
    }

    /** Moreover no stored header has a greater total difficulty than the head. */
    ghost predicate Valid()
      reads this
    {
      Stored() && forall h :: h in headers ==> tds[h] <= tds[head]
    }

    constructor (g: Header)
      requires g.number == 0 && g.hash != ZERO
      ensures Valid() && genesis == g.hash && headers == map[g.hash := g] && head == g.hash
    {
      genesis := g.hash;
      headers, tds, canon, head := map[g.hash := g], map[g.hash := g.difficulty], map[0 := g.hash], g.hash;
      headerCache, tdCache := map[], map[];
    }

    /** The caches may lose entries at any time. */
    method Evict(keys: set<Hash>)
      requires Valid()
      modifies this`headerCache, this`tdCache
      ensures Valid()
    {
      headerCache, tdCache := headerCache - keys, tdCache - keys;
    }

    /** Read through the cache, which looks at the hash only. */
    method GetHeader(hash: Hash, number: nat) returns (r: Option<Header>)
      requires Stored()
      modifies this`headerCache
      ensures Stored()
      ensures hash in headers && headers[hash].number == number ==> r == Some(headers[hash])
      ensures r.Some? ==> hash in headers && r.value == headers[hash]
    {
      if hash in headerCache {
        return Some(headerCache[hash]);
      }
      if hash !in headers || headers[hash].number != number {
        return None;
      }
      headerCache := headerCache[hash := headers[hash]];
      return Some(headers[hash]);
    }

    method GetTd(hash: Hash, number: nat) returns (r: Option<nat>)
      requires Stored()
      modifies this`tdCache
      ensures Stored()
      ensures hash in headers && headers[hash].number == number ==> r == Some(tds[hash])
      ensures r.Some? ==> hash in headers && hash in tds && r.value == tds[hash]
    {
      if hash in tdCache {
        return Some(tdCache[hash]);
      }
      if hash !in tds || headers[hash].number != number {
        return None;
      }
      tdCache := tdCache[hash := tds[hash]];
      return Some(tds[hash]);
    }

    function ReadCanonicalHash(number: nat): Hash
      reads this
    {
      if number in canon then canon[number] else ZERO
    }

    /** The index assignments above the new head are deleted. */
    method DeleteAbove(number: nat) returns (batch: Index)
      requires Stored()
      ensures forall n :: n in batch <==> n in canon && n <= number
      ensures forall n :: n in batch ==> batch[n] == canon[n]
    {
      hide IsPath, Difficulties, Rooted, Ancestor, Extends;
      PathShape(canon, headers, genesis, head);
      batch := canon;
      var i := number + 1;
      while ReadCanonicalHash(i) != ZERO
        invariant number < i
        invariant forall n :: n in batch <==> n in canon && !(number < n < i)
        invariant forall n :: n in batch ==> batch[n] == canon[n]
        decreases headers[head].number + 1 - i
      {
        batch := batch - {i};
        i := i + 1;
      }
    }

    /** The stale assignments from the new head's parent down to the fork are overwritten. */
    method RewriteBelow(parent: Hash, start: Index) returns (batch: Index)
      requires Stored() && parent in headers
      requires Rewritten(start, canon, headers, genesis, parent, headers[parent].number)
      modifies this`headerCache
      ensures Stored()
      ensures forall n :: n in batch ==> n <= headers[parent].number + 1
      ensures forall n: nat :: n <= headers[parent].number ==> n in batch && batch[n] == Ancestor(headers, genesis, parent, n)
    {
      hide IsPath, Difficulties, Rooted, Ancestor, Extends, Rewritten;
      PathShape(canon, headers, genesis, head);
      batch := start;
      var headHash, headNumber := parent, headers[parent].number;
      AncestorSelf(headers, genesis, parent);
      var headHeader := GetHeader(headHash, headNumber);
      while ReadCanonicalHash(headNumber) != headHash
        invariant Stored() && headHash in headers && headNumber == headers[headHash].number <= headers[parent].number
        invariant headHeader == Some(headers[headHash])
        invariant headHash == Ancestor(headers, genesis, parent, headNumber)
        invariant Rewritten(batch, canon, headers, genesis, parent, headNumber)
        decreases headNumber
      {
        NotGenesis(canon, headers, genesis, head, headHash);
        AncestorStep(headers, genesis, parent, headNumber);
        RewriteStep(batch, canon, headers, genesis, parent, headNumber);
        batch := batch[headNumber := headHash];
        headHash := headHeader.value.parent;
        headNumber := headHeader.value.number - 1;
        headHeader := GetHeader(headHash, headNumber);
      }
      RewriteEnds(batch, canon, headers, genesis, head, parent, headNumber);
    }

    /** Make a stored header the head, with all markers written at once. */
    method Reroute(header: Header)
      requires Stored() && header.hash in headers && headers[header.hash] == header && header.hash != genesis
      modifies this`canon, this`head, this`headerCache
      ensures Stored() && head == header.hash
    {
      hide IsPath, Difficulties, Rooted, Ancestor, Extends, Rewritten;
      PathShape(canon, headers, genesis, head);
      ParentStored(headers, genesis, header.hash);
      var batch := DeleteAbove(header.number);
      RewriteStarts(batch, canon, headers, genesis, header.parent);
      batch := RewriteBelow(header.parent, batch);
      Rerouted(batch, headers, genesis, header);
      canon := batch[header.number := header.hash];
      head := header.hash;
    }

    /** Write a header whose parent is known. The head moves to it when its total difficulty is greater than the
        head's, or equal and the coin says so. */
    method WriteHeader(header: Header, coin: bool) returns (status: Status)
      requires Valid() && header.hash != ZERO && header.number < UINT64
      requires header.parent in headers ==> header.number == headers[header.parent].number + 1
      requires header.hash in headers ==> headers[header.hash] == header
      modifies this
      ensures Valid()
      ensures status == Unknown <==> header.parent !in old(headers)
      ensures status == Unknown ==> headers == old(headers) && tds == old(tds) && canon == old(canon) && head == old(head)
      ensures status != Unknown ==>
                var td := old(tds)[header.parent] + header.difficulty;
                && headers == old(headers)[header.hash := header] && tds == old(tds)[header.hash := td]
                && (status == Canonical <==> td > old(tds)[old(head)] || (td == old(tds)[old(head)] && coin))
                && head == if status == Canonical then header.hash else old(head)
    {
      hide IsPath, Difficulties, Rooted, Ancestor, Extends, Rewritten;
      var number := header.number;
      var ptd := GetTd(header.parent, if number == 0 then UINT64 - 1 else number - 1);
      if ptd.None? {
        return Unknown;
      }
      PathShape(canon, headers, genesis, head);
      var localTd := GetTd(head, headers[head].number);
      var externTd := header.difficulty + ptd.value;
      StoreHeader(header, externTd);
      if externTd > localTd.value || (externTd == localTd.value && coin) {
        Reroute(header);
        status := Canonical;
      } else {
        status := Side;
      }
      Remember(header, externTd);
    }

    /** Write the total difficulty and the header to the database. */
    method StoreHeader(header: Header, td: nat)
      requires Stored() && header.hash != ZERO && header.parent in headers && header.number == headers[header.parent].number + 1
      requires header.hash in headers ==> headers[header.hash] == header
      requires header.parent in tds && td == tds[header.parent] + header.difficulty
      modifies this`headers, this`tds
      ensures Stored() && header.hash != genesis && headers == old(headers)[header.hash := header] && tds == old(tds)[header.hash := td]
      ensures header.hash in old(tds) ==> old(tds)[header.hash] == td
    {
      hide IsPath, Difficulties, Rooted, Extends;
      PathShape(canon, headers, genesis, head);
      StoreKeeps(canon, tds, headers, genesis, head, header);
      CacheExtend(headerCache, headers, header);
      tds, headers := tds[header.hash := td], headers[header.hash := header];
    }

    method Remember(header: Header, td: nat)
      requires Stored() && header.hash in headers && headers[header.hash] == header && header.hash in tds && tds[header.hash] == td
      modifies this`headerCache, this`tdCache
      ensures Stored()
    {
      tdCache, headerCache := tdCache[header.hash := td], headerCache[header.hash := header];
    }

    /** The ancestor a given number of blocks up. Off the index parents are walked, each step taken from the
        budget; from a canonical block on the index answers at once. An unknown hash has no ancestor but itself,
        except that the zero hash passes for canonical above the head. */
    method GetAncestor(hash: Hash, number: nat, ancestor: nat, budget: nat) returns (r: Hash, at: nat, left: nat)
      requires Stored() && (hash in headers ==> headers[hash].number == number)
      modifies this`headerCache
      ensures Stored()
      ensures ancestor > number ==> r == ZERO && at == 0 && left == budget
      ensures ancestor <= number && hash in headers ==>
                var cost := if ancestor == 1 then 0 else Least(Detour(canon, headers, genesis, head, hash), ancestor);
                if cost <= budget then r == Ancestor(headers, genesis, hash, number - ancestor) && at == number - ancestor && left == budget - cost
                else r == ZERO && at == 0 && left == 0
      ensures ancestor <= number && hash !in headers ==>
                if ancestor == 0 then r == hash && at == number && left == budget
                else if ancestor > 1 && hash == ZERO && number > headers[head].number
                then r == ReadCanonicalHash(number - ancestor) && at == number - ancestor && left == budget
                else r == ZERO && at == 0 && left == if ancestor == 1 || budget == 0 then budget else budget - 1
    {
      hide IsPath, Difficulties, Rooted, Ancestor, Detour, Extends;
      PathShape(canon, headers, genesis, head);
      if ancestor > number {
        return ZERO, 0, budget;
      }
      if hash in headers {
        AncestorSelf(headers, genesis, hash);
        if ancestor > 0 {
          AncestorStep(headers, genesis, hash, number);
        }
      }
      if ancestor == 1 {
        var header := GetHeader(hash, number);
        if header.Some? {
          return header.value.parent, number - 1, budget;
        }
        return ZERO, 0, budget;
      }
      var h: Hash, num: nat, anc: nat := hash, number, ancestor;
      left := budget;
      while anc != 0
        invariant Stored() && anc <= num <= number && num - anc == number - ancestor
        invariant hash in headers ==> h == Ancestor(headers, genesis, hash, num)
        invariant hash !in headers ==> h == hash && num == number
        invariant left == budget - (number - num)
        invariant hash in headers ==>
                    Detour(canon, headers, genesis, head, hash) == number - num + Detour(canon, headers, genesis, head, h)
        decreases anc
      {
        if hash in headers {
          DetourIs(canon, headers, genesis, head, h);
        }
        if ReadCanonicalHash(num) == h {
          if hash in headers {
            CanonicalBelow(canon, headers, genesis, head, h, num - anc);
            AncestorTrans(headers, genesis, hash, num, num - anc);
          }
          return ReadCanonicalHash(num - anc), num - anc, left;
        }
        if left == 0 {
          return ZERO, 0, 0;
        }
        if hash in headers {
          AncestorStep(headers, genesis, hash, num);
        }
        var header := GetHeader(h, num);
        left, anc := left - 1, anc - 1;
        if header.None? {
          return ZERO, 0, left;
        }
        h, num := header.value.parent, num - 1;
      }
      return h, num, left;
    }
  }

  function Least(a: nat, b: nat): nat
  {
    if a <= b then a else b
  }

  /** How many blocks from h down are off the index. */
  ghost function Detour(canon: Index, s: Store, genesis: Hash, head: Hash, h: Hash): nat
    requires IsPath(canon, s, genesis, head) && h in s
    decreases s[h].number
  {
    if s[h].number in canon && canon[s[h].number] == h then 0 else
    NotGenesis(canon, s, genesis, head, h);
    1 + Detour(canon, s, genesis, head, s[h].parent)
  }

  /** The detour counts the ancestors that are off the index: the ancestor i blocks up is canonical exactly from there on. */
  lemma {:induction false} DetourExact(canon: Index, s: Store, genesis: Hash, head: Hash, h: Hash, n: nat)
    requires IsPath(canon, s, genesis, head) && h in s && n <= s[h].number
    ensures n in canon && canon[n] == Ancestor(s, genesis, h, n) <==> s[h].number - n >= Detour(canon, s, genesis, head, h)
    decreases s[h].number
  {
    hide IsPath, Rooted;
    PathRooted(canon, s, genesis, head);
    if s[h].number in canon && canon[s[h].number] == h {
      CanonicalBelow(canon, s, genesis, head, h, n);
    } else {
      NotGenesis(canon, s, genesis, head, h);
      if n < s[h].number {
        DetourExact(canon, s, genesis, head, s[h].parent, n);
      }
    }
  }

  lemma {:induction false} PathRooted(canon: Index, s: Store, genesis: Hash, head: Hash)
    requires IsPath(canon, s, genesis, head)
    ensures Rooted(s, genesis)
  {
  }

  lemma {:induction false} DetourIs(canon: Index, s: Store, genesis: Hash, head: Hash, h: Hash)
    requires IsPath(canon, s, genesis, head) && h in s
    ensures if s[h].number in canon && canon[s[h].number] == h then Detour(canon, s, genesis, head, h) == 0
            else s[h].parent in s && Detour(canon, s, genesis, head, h) == 1 + Detour(canon, s, genesis, head, s[h].parent)
  {
    if !(s[h].number in canon && canon[s[h].number] == h) {
      NotGenesis(canon, s, genesis, head, h);
    }
  }

  ghost predicate Difficulties(tds: map<Hash, nat>, s: Store, genesis: Hash)
    requires Rooted(s, genesis)
  {
    tds.Keys == s.Keys && forall h :: h in s ==> tds[h] == PathDifficulty(s, genesis, h)
  }

  lemma {:induction false} StoreKeeps(canon: Index, tds: map<Hash, nat>, s: Store, genesis: Hash, head: Hash, header: Header)
    requires IsPath(canon, s, genesis, head) && Difficulties(tds, s, genesis)
    requires header.parent in s && header.number == s[header.parent].number + 1
    requires header.hash != ZERO && (header.hash in s ==> s[header.hash] == header)
    ensures var t := s[header.hash := header];
            && IsPath(canon, t, genesis, head)
            && Difficulties(tds[header.hash := tds[header.parent] + header.difficulty], t, genesis)
            && header.hash != genesis
            && (header.hash in tds ==> tds[header.hash] == tds[header.parent] + header.difficulty)
  {
    var t := s[header.hash := header];
    RootedExtend(s, genesis, header);
    forall n: nat | n <= s[head].number ensures Ancestor(t, genesis, head, n) == Ancestor(s, genesis, head, n) {
      AncestorExtend(s, t, genesis, head, n);
    }
    hide IsPath;
    forall h | h in s ensures PathDifficulty(t, genesis, h) == PathDifficulty(s, genesis, h) {
      PathExtend(s, t, genesis, h);
    }
    assert header.hash != genesis;
    assert Linked(t, genesis, header.hash);
  }

  /** The new index is the path of the new head. */
  lemma {:induction false} Rerouted(batch: Index, s: Store, genesis: Hash, header: Header)
    requires Rooted(s, genesis) && header.hash in s && s[header.hash] == header && header.hash != genesis && header.parent in s
    requires forall n :: n in batch ==> n <= s[header.parent].number + 1
    requires forall n: nat :: n <= s[header.parent].number ==> n in batch && batch[n] == Ancestor(s, genesis, header.parent, n)
    ensures IsPath(batch[header.number := header.hash], s, genesis, header.hash)
  {
    assert Linked(s, genesis, header.hash);
  }

  /** The assignments above height low follow the path of parent; below they are as before. */
  ghost predicate Rewritten(batch: Index, canon: Index, s: Store, genesis: Hash, parent: Hash, low: nat)
    requires Rooted(s, genesis) && parent in s
  {
    && (forall n :: n in batch ==> n <= s[parent].number + 1)
    && (forall n: nat :: low < n <= s[parent].number ==> n in batch && batch[n] == Ancestor(s, genesis, parent, n))
    && (forall n: nat :: n <= low ==> (n in batch <==> n in canon) && (n in batch ==> batch[n] == canon[n]))
  }

  lemma {:induction false} CacheExtend(cache: Store, s: Store, header: Header)
    requires Extends(cache, s) && (header.hash in s ==> s[header.hash] == header)
    ensures Extends(cache, s[header.hash := header]) && Extends(cache[header.hash := header], s[header.hash := header])
  {
  }

  lemma {:induction false} RewriteStarts(batch: Index, canon: Index, s: Store, genesis: Hash, parent: Hash)
    requires Rooted(s, genesis) && parent in s
    requires forall n :: n in batch <==> n in canon && n <= s[parent].number + 1
    requires forall n :: n in batch ==> batch[n] == canon[n]
    ensures Rewritten(batch, canon, s, genesis, parent, s[parent].number)
  {
  }

  lemma {:induction false} RewriteStep(batch: Index, canon: Index, s: Store, genesis: Hash, parent: Hash, low: nat)
    requires Rooted(s, genesis) && parent in s && 0 < low <= s[parent].number && Rewritten(batch, canon, s, genesis, parent, low)
    ensures Rewritten(batch[low := Ancestor(s, genesis, parent, low)], canon, s, genesis, parent, low - 1)
  {
    hide Ancestor, Rooted;
  }

  /** Where the path meets the index, the rest of the index is the rest of the path. */
  lemma {:induction false} RewriteEnds(batch: Index, canon: Index, s: Store, genesis: Hash, head: Hash, parent: Hash, low: nat)
    requires IsPath(canon, s, genesis, head) && parent in s && low <= s[parent].number && Rewritten(batch, canon, s, genesis, parent, low)
    requires low in canon && canon[low] == Ancestor(s, genesis, parent, low)
    ensures forall n :: n in batch ==> n <= s[parent].number + 1
    ensures forall n: nat :: n <= s[parent].number ==> n in batch && batch[n] == Ancestor(s, genesis, parent, n)
  {
    forall n: nat | n <= low ensures n in batch && batch[n] == Ancestor(s, genesis, parent, n) {
      CanonicalBelow(canon, s, genesis, head, canon[low], n);
      AncestorTrans(s, genesis, parent, low, n);
    }
  }
}
