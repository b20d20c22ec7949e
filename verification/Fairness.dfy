/**
 Truncating the pending lists fairly: no remote account keeps more transactions than a common
 level, and the level is as high as the limits allow.
 */
module Fairness {
  import opened Transactions
  import opened PoolState
  import S = SortedMap

  /** Every remote account keeps its transactions of lowest nonce, up to the level. */
  function Level(p: AccountLists, locals: set<Addr>, level: nat): AccountLists
  {
    map a | a in p :: if a in locals then p[a] else Lowest(p[a], level)
  }

  /** Some accounts have been cut one step further. */
  function PartLevel(p: AccountLists, locals: set<Addr>, level: nat, cut: set<Addr>): AccountLists
    requires level > 0
  {
    map a | a in p :: if a in locals then p[a] else Lowest(p[a], if a in cut then level - 1 else level)
  }

  /** The number of transactions in all lists. */
  ghost function Total(p: AccountLists): nat
  {
    if p == map[] then 0 else
    var a :| a in p;
    |p[a]| + Total(p - {a})
  }

  lemma {:induction false} TotalRemove(p: AccountLists, a: Addr)
    requires a in p
    ensures Total(p) == |p[a]| + Total(p - {a})
    decreases |p|
  {
    var b :| b in p && Total(p) == |p[b]| + Total(p - {b});
    if b != a {
      assert |(p - {b}).Keys| == |p.Keys| - 1 by {
        assert (p - {b}).Keys == p.Keys - {b};
      }
      TotalRemove(p - {b}, a);
      assert p - {b} - {a} == p - {a} - {b};
      assert |(p - {a}).Keys| == |p.Keys| - 1 by {
        assert (p - {a}).Keys == p.Keys - {a};
      }
      TotalRemove(p - {a}, b);
    }
  }

  lemma {:induction false} TotalUpdate(p: AccountLists, a: Addr, m: NonceMap)
    requires a in p
    ensures Total(p[a := m]) == Total(p) - |p[a]| + |m|
  {
    TotalRemove(p, a);
    TotalRemove(p[a := m], a);
    assert p[a := m] - {a} == p - {a};
  }

  // ---------- The lowest nonces of a list ----------

  lemma {:induction false} LowestPart(m: NonceMap, k: nat)
    ensures forall n :: n in Lowest(m, k) ==> n in m && Lowest(m, k)[n] == m[n]
  {
  }

  /** The lowest k nonces are k, if there are so many. */
  lemma {:induction false} LowestCount(m: NonceMap, k: nat)
    ensures |Lowest(m, k)| == if k <= |m| then k else |m|
    decreases |m|
  {
    if |m| <= k {
      S.LowestAll(m, k);
    } else {
      GreatestExists(m);
      var n: nat :| IsMax(m, n);
      var rest := m - {n};
      assert |rest| == |m| - 1 by {
        assert rest.Keys == m.Keys - {n};
      }
      DropGreatest(m, n, k);
      LowestCount(rest, k);
    }
  }

  predicate IsMax(m: NonceMap, n: nat)
  {
    n in m && forall x :: x in m ==> x <= n
  }

  lemma {:induction false} GreatestExists(m: NonceMap)
    requires m != map[]
    ensures exists n: nat :: IsMax(m, n)
    decreases |m|
  {
    var n :| n in m;
    var rest := m - {n};
    assert |rest.Keys| == |m.Keys| - 1 by {
      assert rest.Keys == m.Keys - {n};
    }
    if rest == map[] {
      assert forall x :: x in m ==> x == n || x in rest;
      assert IsMax(m, n);
    } else {
      GreatestExists(rest);
      var k: nat :| IsMax(rest, k);
      assert forall x :: x in m ==> x == n || x in rest;
      assert IsMax(m, if k < n then n else k);
    }
  }

  lemma {:induction false} DropGreatest(m: NonceMap, n: nat, k: nat)
    requires IsMax(m, n) && k < |m|
    ensures Lowest(m, k) == Lowest(m - {n}, k)
  {
    hide Rank, IsMax;
    RankOfMax(m, n);
    forall x | x in m && x != n ensures Rank(m - {n}, x) == Rank(m, x) {
      RankWithoutMax(m, n, x);
    }
  }

  lemma {:induction false} RankOfMax(m: NonceMap, n: nat)
    requires IsMax(m, n)
    ensures n in m && Rank(m, n) == |m| - 1
  {
    assert NoncesBelow(m, n) == m.Keys - {n};
  }

  lemma {:induction false} RankWithoutMax(m: NonceMap, n: nat, x: nat)
    requires IsMax(m, n) && x in m && x != n
    ensures Rank(m - {n}, x) == Rank(m, x)
  {
    assert NoncesBelow(m - {n}, x) == NoncesBelow(m, x);
  }

  /** Cutting twice is cutting to the lower level. */
  lemma {:induction false} LowestTwice(m: NonceMap, k: nat, j: nat)
    requires j <= k
    ensures Lowest(Lowest(m, k), j) == Lowest(m, j)
  {
    var low := Lowest(m, k);
    forall n | n in low ensures Rank(low, n) == Rank(m, n) {
      forall x | x in NoncesBelow(m, n) ensures x in low {
        assert NoncesBelow(m, x) <= NoncesBelow(m, n);
        S.SubsetSize(NoncesBelow(m, x), NoncesBelow(m, n));
      }
      assert NoncesBelow(low, n) == NoncesBelow(m, n);
    }
  }

  /** Cutting a list by one drops its greatest nonce. */
  lemma {:induction false} CutGreatest(m: NonceMap, n: nat)
    requires IsMax(m, n)
    ensures Lowest(m, |m| - 1) == m - {n}
  {
    assert |m - {n}| == |m| - 1 by {
      assert (m - {n}).Keys == m.Keys - {n};
    }
    DropGreatest(m, n, |m| - 1);
    S.LowestAll(m - {n}, |m| - 1);
  }

  // ---------- Rounds ----------

  lemma {:induction false} LevelHigh(p: AccountLists, locals: set<Addr>, level: nat)
    requires forall a :: a in p && a !in locals ==> |p[a]| <= level
    ensures Level(p, locals, level) == p
  {
    forall a | a in p && a !in locals ensures Lowest(p[a], level) == p[a] {
      S.LowestAll(p[a], level);
    }
  }

  /** A round cuts every account that is above the next level. */
  lemma {:induction false} RoundDone(p: AccountLists, locals: set<Addr>, level: nat, cut: set<Addr>)
    requires level > 0
    requires forall a :: a in p && a !in locals && a !in cut ==> |p[a]| < level
    ensures PartLevel(p, locals, level, cut) == Level(p, locals, level - 1)
    ensures PartLevel(p, locals, level, {}) == Level(p, locals, level)
  {
    forall a | a in p && a !in locals && a !in cut ensures Lowest(p[a], level) == Lowest(p[a], level - 1) {
      S.LowestAll(p[a], level);
      S.LowestAll(p[a], level - 1);
    }
  }

  lemma {:induction false} CutOneMore(p: AccountLists, locals: set<Addr>, level: nat, cut: set<Addr>, a: Addr)
    requires level > 0 && a in p && a !in locals && a !in cut && |p[a]| >= level
    ensures var q := PartLevel(p, locals, level, cut);
            && a in q && |q[a]| == level
            && q[a := Lowest(q[a], level - 1)] == PartLevel(p, locals, level, cut + {a})
            && Total(PartLevel(p, locals, level, cut + {a})) == Total(q) - 1
  {
    hide Total, Lowest;
    var q := PartLevel(p, locals, level, cut);
    LowestCount(p[a], level);
    LowestTwice(p[a], level, level - 1);
    LowestCount(p[a], level - 1);
    TotalUpdate(q, a, Lowest(q[a], level - 1));
    assert q[a := Lowest(q[a], level - 1)] == PartLevel(p, locals, level, cut + {a});
  }

  /** The accounts to cut: distinct remote accounts with at least level transactions. */
  ghost predicate Cuttable(p: AccountLists, locals: set<Addr>, offs: seq<Addr>, level: nat)
  {
    && (forall i, j :: 0 <= i < j < |offs| ==> offs[i] != offs[j])
    && (forall a :: a in offs ==> a in p && a !in locals && |p[a]| >= level)
  }

  /** No other remote account has more than floor transactions. */
  ghost predicate OthersWithin(p: AccountLists, locals: set<Addr>, offs: seq<Addr>, floor: nat)
  {
    forall a :: a in p && a !in locals && a !in offs ==> |p[a]| <= floor
  }

  function Members(offs: seq<Addr>): set<Addr>
  {
    set a | a in offs
  }

  lemma {:induction false} MembersStep(offs: seq<Addr>, i: nat)
    requires i < |offs| && forall j, k :: 0 <= j < k < |offs| ==> offs[j] != offs[k]
    ensures Members(offs[..i + 1]) == Members(offs[..i]) + {offs[i]} && offs[i] !in Members(offs[..i])
  {
    assert offs[..i + 1] == offs[..i] + [offs[i]];
  }

  lemma {:induction false} LevelAt(p: AccountLists, locals: set<Addr>, level: nat, a: Addr)
    requires a in p
    ensures a in Level(p, locals, level)
    ensures a !in locals ==> |Level(p, locals, level)[a]| == if level <= |p[a]| then level else |p[a]|
  {
    LowestCount(p[a], level);
  }

  lemma {:induction false} MostExists(p: AccountLists, s: set<Addr>)
    requires s != {} && s <= p.Keys
    ensures exists a :: a in s && IsMost(p, s, a)
    decreases |s|
  {
    var a :| a in s;
    var rest := s - {a};
    if rest == {} {
      assert forall b :: b in s && b != a ==> b in rest;
      assert IsMost(p, s, a);
    } else {
      MostExists(p, rest);
      var b :| b in rest && IsMost(p, rest, b);
      assert forall c :: c in s ==> c == a || c in rest;
      assert IsMost(p, s, if |p[a]| <= |p[b]| then b else a);
    }
  }

  /** The account at the head of the priority queue. */
  predicate IsMost(p: AccountLists, s: set<Addr>, a: Addr)
  {
    a in p && forall b :: b in s && b in p ==> |p[b]| <= |p[a]|
  }

  /** The remote accounts above the account limit are the offenders, at least level long, and the spammers
      still queued, at most level long. */
  ghost predicate Ranked(p: AccountLists, locals: set<Addr>, slots: nat, offs: seq<Addr>, spammers: set<Addr>, level: nat)
  {
    && level > slots
    && Cuttable(p, locals, offs, level)
    && (forall a :: a in spammers ==> a in p && a !in locals && slots < |p[a]| <= level && a !in offs)
    && (forall a :: a in p && a !in locals && |p[a]| > slots ==> a in offs || a in spammers)
  }

  function Spammers(p: AccountLists, locals: set<Addr>, slots: nat): set<Addr>
  {
    set a | a in p && a !in locals && |p[a]| > slots
  }

  lemma {:induction false} RankedStart(p: AccountLists, locals: set<Addr>, slots: nat, level: nat)
    requires level > slots && forall a :: a in p ==> |p[a]| <= level
    ensures Ranked(p, locals, slots, [], Spammers(p, locals, slots), level)
    ensures Level(p, locals, level) == p && Level(p, locals, level + 1) == p
  {
    hide Level;
    LevelHigh(p, locals, level);
    LevelHigh(p, locals, level + 1);
  }

  lemma {:induction false} RankedLevel(p: AccountLists, locals: set<Addr>, slots: nat, offs: seq<Addr>,
      spammers: set<Addr>, level: nat)
    requires Ranked(p, locals, slots, offs, spammers, level)
    ensures level > slots
  {
  }

  lemma {:induction false} TotalBounds(p: AccountLists)
    ensures forall a :: a in p ==> |p[a]| <= Total(p)
  {
    forall a | a in p ensures |p[a]| <= Total(p) {
      TotalRemove(p, a);
    }
  }

  /** The most numerous spammer is so in the original lists, too. */
  lemma {:induction false} MostOriginal(p: AccountLists, locals: set<Addr>, slots: nat, offs: seq<Addr>,
      spammers: set<Addr>, level: nat, o: Addr)
    requires Ranked(p, locals, slots, offs, spammers, level) && o in spammers
    requires IsMost(Level(p, locals, level), spammers, o)
    ensures o in p && o in Level(p, locals, level) && IsMost(p, spammers, o) && |Level(p, locals, level)[o]| == |p[o]| && slots < |p[o]| <= level
    ensures OthersWithin(p, locals, offs, |p[o]|) && Cuttable(p, locals, offs, level)
  {
    hide Lowest;
    forall b | b in spammers ensures b in Level(p, locals, level) && |Level(p, locals, level)[b]| == |p[b]| {
      LevelAt(p, locals, level, b);
    }
  }

  lemma {:induction false} MostQueued(p: AccountLists, locals: set<Addr>, slots: nat, offs: seq<Addr>,
      spammers: set<Addr>, level: nat)
    requires Ranked(p, locals, slots, offs, spammers, level) && spammers != {}
    ensures exists o :: o in spammers && IsMost(Level(p, locals, level), spammers, o)
  {
    MostExists(Level(p, locals, level), spammers);
  }

  lemma {:induction false} NextOffender(p: AccountLists, locals: set<Addr>, slots: nat, offs: seq<Addr>,
      spammers: set<Addr>, level: nat, o: Addr)
    requires Ranked(p, locals, slots, offs, spammers, level) && o in spammers && IsMost(p, spammers, o)
    ensures Ranked(p, locals, slots, offs + [o], spammers - {o}, |p[o]|)
  {
  }

  lemma {:induction false} NothingCut(p: AccountLists, locals: set<Addr>, slots: nat, spammers: set<Addr>, level: nat, floor: nat)
    requires Ranked(p, locals, slots, [], spammers, level) && slots <= floor
    requires spammers == {} || exists o :: o in spammers && IsMost(p, spammers, o) && |p[o]| <= floor
    ensures Level(p, locals, level) == p && Level(p, locals, floor) == p && Level(p, locals, floor + 1) == p
  {
    hide Level;
    LevelHigh(p, locals, level);
    LevelHigh(p, locals, floor);
    LevelHigh(p, locals, floor + 1);
  }

  lemma {:induction false} AllOffenders(p: AccountLists, locals: set<Addr>, slots: nat, offs: seq<Addr>, level: nat)
    requires Ranked(p, locals, slots, offs, {}, level)
    ensures OthersWithin(p, locals, offs, slots) && Cuttable(p, locals, offs, level)
  {
  }

  lemma {:induction false} LevelNoEmpty(p: AccountLists, locals: set<Addr>, level: nat, a: Addr)
    requires a in p && p[a] != map[] && level > 0
    ensures a in Level(p, locals, level) && Level(p, locals, level)[a] != map[]
  {
    LevelAt(p, locals, level, a);
  }

  /** What the level means. Remote accounts that lost transactions all end at the level, and no account that
      lost nothing has more. Local accounts lose nothing. The shortfall below a limit that the next level would
      exceed is less than the number of accounts cut. */
  lemma {:induction false} LevelIsFair(p: AccountLists, locals: set<Addr>, level: nat, limit: nat)
    requires Total(Level(p, locals, level + 1)) > limit
    ensures var q := Level(p, locals, level);
            && q.Keys == p.Keys
            && (forall a :: a in p && a in locals ==> q[a] == p[a])
            && (forall a :: a in p && a !in locals && q[a] != p[a] ==> |q[a]| == level < |p[a]|)
            && (forall a :: a in p && a !in locals && q[a] == p[a] ==> |q[a]| <= level)
            && limit - Total(q) < |CutAccounts(p, locals, level)|
  {
    hide Total, Lowest;
    var q := Level(p, locals, level);
    forall a | a in p && a !in locals ensures if |p[a]| <= level then q[a] == p[a] else |q[a]| == level {
      LowestCount(p[a], level);
      if |p[a]| <= level {
        S.LowestAll(p[a], level);
      }
    }
    LevelStep(p, locals, level);
  }

  function CutAccounts(p: AccountLists, locals: set<Addr>, level: nat): set<Addr>
  {
    set a | a in p && a !in locals && |p[a]| > level
  }

  lemma {:induction false} LevelWithout(p: AccountLists, locals: set<Addr>, level: nat, a: Addr)
    requires a in p
    ensures Level(p - {a}, locals, level) == Level(p, locals, level) - {a} && a in Level(p, locals, level)
    ensures CutAccounts(p - {a}, locals, level) == CutAccounts(p, locals, level) - {a}
    ensures a in CutAccounts(p, locals, level) <==> a !in locals && |p[a]| > level
  {
    hide Lowest;
  }

  lemma {:induction false} EmptyLevel(locals: set<Addr>, level: nat)
    ensures Level(map[], locals, level) == map[] && |CutAccounts(map[], locals, level)| == 0
  {
    assert CutAccounts(map[], locals, level) == {};
  }

  /** One level higher every account cut keeps one transaction more. */
  lemma {:induction false} LevelStep(p: AccountLists, locals: set<Addr>, level: nat)
    ensures Total(Level(p, locals, level + 1)) == Total(Level(p, locals, level)) + |CutAccounts(p, locals, level)|
    decreases |p|
  {
    hide Total, Level, CutAccounts;
    if p == map[] {
      EmptyLevel(locals, level);
      EmptyLevel(locals, level + 1);
    } else {
      var a :| a in p;
      assert (p - {a}).Keys == p.Keys - {a};
      LevelStep(p - {a}, locals, level);
      TotalRemove(Level(p, locals, level), a) by {
        LevelWithout(p, locals, level, a);
      }
      TotalRemove(Level(p, locals, level + 1), a) by {
        LevelWithout(p, locals, level + 1, a);
      }
      LevelWithout(p, locals, level, a);
      LevelWithout(p, locals, level + 1, a);
      LevelGain(p, locals, level, a);
    }
  }

  lemma {:induction false} LevelGain(p: AccountLists, locals: set<Addr>, level: nat, a: Addr)
    requires a in p
    ensures a in Level(p, locals, level) && a in Level(p, locals, level + 1)
    ensures |Level(p, locals, level + 1)[a]| == |Level(p, locals, level)[a]| + if a in locals || |p[a]| <= level then 0 else 1
  {
    hide Lowest;
    LowestCount(p[a], level);
    LowestCount(p[a], level + 1);
  }

  /** Lists that differ in one account have totals that differ by its lengths. */
  lemma {:induction false} TotalBut(p: AccountLists, q: AccountLists, a: Addr)
    requires p[a := map[]] == q[a := map[]]
    ensures Total(p) - |ListOf(p, a)| == Total(q) - |ListOf(q, a)|
  {
    hide Total;
    TotalBlank(p, a);
    TotalBlank(q, a);
  }

  lemma {:induction false} TotalBlank(p: AccountLists, a: Addr)
    ensures Total(p[a := map[]]) == Total(p) - |ListOf(p, a)|
  {
    hide Total;
    TotalRemove(p[a := map[]], a);
    assert p[a := map[]] - {a} == p - {a};
    if a in p {
      TotalRemove(p, a);
    } else {
      assert p - {a} == p;
    }
  }

  lemma {:induction false} WholeIsLowest(m: NonceMap)
    ensures Lowest(m, |m|) == m
  {
    S.LowestAll(m, |m|);
  }

  lemma {:induction false} GreatestListed(m: NonceMap)
    requires m != map[]
    ensures exists n: nat :: n in m && IsMax(m, n)
  {
    GreatestExists(m);
    var n: nat :| IsMax(m, n);
    assert n in m && IsMax(m, n);
  }

  method Count(p: AccountLists) returns (count: nat)
    ensures count == Total(p)
  {
    count := 0;
    var rest := p;
    while rest != map[]
      invariant count + Total(rest) == Total(p)
      decreases rest.Keys
    {
      var a :| a in rest;
      TotalRemove(rest, a);
      count := count + |rest[a]|;
      rest := rest - {a};
    }
  }

  /** The accounts of a set in some order. */
  method Listed(accounts: set<Addr>) returns (s: seq<Addr>)
    ensures multiset(s) == multiset(accounts)
  {
    s := [];
    var todo := accounts;
    while todo != {}
      invariant multiset(s) + multiset(todo) == multiset(accounts)
      decreases todo
    {
      var a :| a in todo;
      todo, s := todo - {a}, s + [a];
    }
  }

  lemma {:induction false} ListedMembers(accounts: set<Addr>, s: seq<Addr>)
    requires multiset(s) == multiset(accounts)
    ensures Members(s) == accounts
  {
    forall a ensures a in s <==> a in accounts {
      assert a in s <==> a in multiset(s);
    }
  }
}
