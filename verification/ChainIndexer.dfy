/**
 The chain indexer: sections of the canonical chain are processed one after the other while the
 chain may change at any moment. The machine below interleaves the steps of the update loop, head
 notifications and changes of the chain.
 */
module ChainIndexer {
  import opened Headers

  /** headers has every header there ever is: a header never changes. Sections below checkpoint come from a trusted
      checkpoint whose last block is checkpointHead. */
  datatype Config = Config(size: nat, confirms: nat, checkpoint: nat, checkpointHead: Hash, headers: Store)

  /** What the update loop is doing: reading the blocks of a section, up to number, or about to give up. */
  datatype Work = Quiet | Running(section: nat, oldHead: Hash, number: nat, last: Hash) | Failed

  /** The section heads and counters of the indexer, the canonical index of the chain and the update loop. base is
      the lowest section with a head. */
  datatype State = State(heads: map<nat, Hash>, stored: nat, known: nat, cascaded: nat, canon: Index, work: Work, base: nat)

  function SectionHead(heads: map<nat, Hash>, section: nat): Hash
  {
    if section in heads then heads[section] else ZERO
  }

  function ReadCanonicalHash(canon: Index, number: int): Hash
  {
    if number >= 0 && number in canon then canon[number] else ZERO
  }

  function HeadsBelow(heads: map<nat, Hash>, sections: nat): map<nat, Hash>
  {
    map i | i in heads && i < sections :: heads[i]
  }

  /** setValidSections */
  function WithSections(s: State, sections: nat): State
  {
    s.(heads := if sections < s.stored then HeadsBelow(s.heads, sections) else s.heads, stored := sections)
  }

  /** The last stored section ends in a canonical block, or is not above the checkpoint. */
  predicate LastHeadFine(c: Config, s: State)
  {
    s.stored == 0 || s.stored <= c.checkpoint || SectionHead(s.heads, s.stored - 1) == ReadCanonicalHash(s.canon, s.stored * c.size - 1)
  }

  /** verifyLastHead */
  function Verified(c: Config, s: State): State
    decreases s.stored
  {
    if LastHeadFine(c, s) then s else Verified(c, WithSections(s, s.stored - 1))
  }

  /** newHead */
  function Notified(c: Config, s: State, head: nat, reorg: bool): State
    requires c.size > 0
  {
    if reorg then
      var point := (head + 1) / c.size;
      var known := if point < c.checkpoint then 0 else point;
      var stored := if point < c.checkpoint then c.checkpoint else point;
      var s1 := s.(known := if known < s.known then known else s.known);
      var s2 := if stored < s.stored then WithSections(s1, stored) else s1;
      s2.(cascaded := if known * c.size < s.cascaded then known * c.size else s.cascaded)
    else if head < c.confirms then s else
      var complete := (head + 1 - c.confirms) / c.size;
      var sections := if complete < c.checkpoint then 0 else complete;
      if sections <= s.known then s
      else if s.known < c.checkpoint && ReadCanonicalHash(s.canon, c.checkpoint * c.size - 1) != c.checkpointHead then s
      else s.(known := sections)
  }

  // ---------- Steps ----------

  datatype Step =
    | ChainChange(canon: Index)
    | NewHead(head: nat, reorg: bool)
    | Sections
    | Begin
    | ResetFails
    | ReadBlock(found: bool, processed: bool)
    | CommitFails
    | Finish
    | Restart

  ghost predicate Enabled(c: Config, s: State, step: Step)
  {
    match step
    case ChainChange(canon) => ZERO !in canon.Values
    case NewHead(_, _) => true
    case Sections => true
    case Begin => s.work.Quiet? && s.known > s.stored
    case ResetFails => s.work.Running? && s.work.number == s.work.section * c.size
    case ReadBlock(_, _) => s.work.Running? && s.work.number < (s.work.section + 1) * c.size
    case CommitFails => s.work.Running? && s.work.number == (s.work.section + 1) * c.size
    case Restart => true
    case Finish => s.work.Failed? || (s.work.Running? && s.work.number == (s.work.section + 1) * c.size)
  }

  /** One round of processSection's loop: the canonical block of the number must exist and continue the last one. */
  function AfterRead(c: Config, canon: Index, w: Work, found: bool, processed: bool): Work
    requires w.Running?
  {
    var hash := ReadCanonicalHash(canon, w.number);
    if hash == ZERO || !found || hash !in c.headers || c.headers[hash].number != w.number then Failed
    else if c.headers[hash].parent != w.last || !processed then Failed
    else w.(number := w.number + 1, last := hash)
  }

  /** What updateLoop does once it holds the lock again. */
  function Finished(c: Config, s: State): State
    requires c.size > 0
  {
    if s.work.Running? && (s.work.section == 0 || s.work.oldHead == SectionHead(s.heads, s.work.section - 1)) then
      var section := s.work.section;
      var r := WithSections(s.(heads := s.heads[section := s.work.last]), section + 1);
      r.(work := Quiet, cascaded := (section + 1) * c.size - 1)
    else
      var r := Verified(c, s);
      r.(known := r.stored, work := Quiet)
  }

  function Begun(c: Config, s: State): State
  {
    var r := Verified(c, s);
    var oldHead := if r.stored > 0 then SectionHead(r.heads, r.stored - 1) else ZERO;
    r.(work := Running(r.stored, oldHead, r.stored * c.size, oldHead))
  }

  ghost function Apply(c: Config, s: State, step: Step): State
    requires Enabled(c, s, step) && c.size > 0
  {
    match step
    case ChainChange(canon) => s.(canon := canon)
    case NewHead(head, reorg) => Notified(c, s, head, reorg)
    case Sections => Verified(c, s)
    case Begin => Begun(c, s)
    case ResetFails => WithSections(s, 0).(work := Failed, base := 0)
    case ReadBlock(found, processed) => s.(work := AfterRead(c, s.canon, s.work, found, processed))
    case CommitFails => s.(work := Failed)
    case Finish => Finished(c, s)
    case Restart => s.(known := 0, cascaded := 0, work := Quiet)
  }

  // ---------- Parent links ----------

  /** h is exactly k parent links above low. */
  ghost predicate LinksApart(headers: Store, h: Hash, k: nat, low: Hash)
    decreases k
  {
    if k == 0 then h == low else h in headers && LinksApart(headers, headers[h].parent, k - 1, low)
  }

  // ---------- The invariant ----------

  /** Section i ends in the last block of its range, exactly one section of parent links above the section before,
      or above nothing if it is the first. */
  ghost predicate SectionLinked(c: Config, heads: map<nat, Hash>, i: nat)
  {
    && i in heads && heads[i] in c.headers && c.headers[heads[i]].number == LastOf(c, i)
    && (i > 0 ==> i - 1 in heads)
    && LinksApart(c.headers, heads[i], c.size, if i == 0 then ZERO else heads[i - 1])
  }

  function LastOf(c: Config, section: nat): int
  {
    (section + 1) * c.size - 1
  }

  predicate OnTrust(c: Config, base: nat, i: nat)
  {
    i == base && base + 1 == c.checkpoint
  }

  /** The stored sections from base on have heads, linked to one another. Only the head of the checkpoint is taken on
      trust. A checkpoint may have been put above sections stored before; their heads are below base, and free. */
  ghost predicate SectionsLinked(c: Config, s: State)
  {
    && s.base <= s.stored && (s.base > 0 ==> s.base + 1 == c.checkpoint <= s.stored)
    && (forall i: nat :: s.base <= i ==> (i in s.heads <==> i < s.stored))
    && (forall i :: i in s.heads && i >= s.base ==> s.heads[i] != ZERO)
    && (forall i: nat {:trigger SectionLinked(c, s.heads, i)} ::
          i in s.heads && i >= s.base && !OnTrust(c, s.base, i) ==> SectionLinked(c, s.heads, i))
  }

  /** The blocks read so far lead down to the head the section started from. */
  ghost predicate WorkLinked(c: Config, w: Work)
  {
    w.Running? ==>
      var Running(section, oldHead, number, last) := w;
      && section * c.size <= number <= (section + 1) * c.size
      && (section == 0 <==> oldHead == ZERO)
      && LinksApart(c.headers, last, number - section * c.size, oldHead)
      && (number > section * c.size ==> last != ZERO && last in c.headers && c.headers[last].number == number - 1)
  }

  /** As long as the head a section started from is stored, so is nothing above it. */
  ghost predicate WorkCurrent(s: State)
  {
    s.work.Running? && (s.work.section == 0 || SectionHead(s.heads, s.work.section - 1) == s.work.oldHead) ==> s.stored == s.work.section
  }

  ghost predicate Inv(c: Config, s: State)
  {
    c.size > 0 && SectionsLinked(c, s) && WorkLinked(c, s.work) && WorkCurrent(s)
  }

  // ---------- Every step keeps it ----------

  lemma {:induction false} FewerSections(c: Config, s: State, sections: nat)
    requires Inv(c, s) && sections <= s.stored && (s.base > 0 ==> c.checkpoint <= sections)
    ensures Inv(c, WithSections(s, sections))
  {
    hide LinksApart, LastOf, SectionsLinked;
    FewerLinked(c, s, sections);
    HeadGone(c, s, sections);
  }

  lemma {:induction false} FewerLinked(c: Config, s: State, sections: nat)
    requires SectionsLinked(c, s) && sections <= s.stored && (s.base > 0 ==> c.checkpoint <= sections)
    ensures SectionsLinked(c, WithSections(s, sections))
  {
    hide LinksApart, LastOf;
    var r := WithSections(s, sections);
    forall i: nat | i in r.heads && i >= r.base && !OnTrust(c, r.base, i) ensures SectionLinked(c, r.heads, i) {
      assert SectionLinked(c, s.heads, i);
    }
  }

  /** Going back below the section in work removes the head it started from. */
  lemma {:induction false} HeadGone(c: Config, s: State, sections: nat)
    requires SectionsLinked(c, s) && WorkLinked(c, s.work) && WorkCurrent(s) && sections <= s.stored
    ensures WorkCurrent(WithSections(s, sections))
  {
    hide LinksApart, SectionsLinked;
  }

  lemma {:induction false} VerifiedKeeps(c: Config, s: State)
    requires Inv(c, s)
    ensures var r := Verified(c, s);
            && Inv(c, r) && LastHeadFine(c, r) && r.stored <= s.stored
            && r == WithSections(s, r.stored)
    decreases s.stored
  {
    hide Inv, LastHeadFine, WithSections;
    if LastHeadFine(c, s) {
      SameSections(s);
    } else {
      Unfine(c, s);
      InvBase(c, s);
      FewerSections(c, s, s.stored - 1);
      SectionsTwice(s, s.stored - 1, Verified(c, s).stored);
      VerifiedKeeps(c, WithSections(s, s.stored - 1));
    }
  }

  /** What verification leaves: the most sections of which the last ends in a canonical block, but at least those of the
      checkpoint, if there are so many. */
  lemma {:induction false} VerifiedExact(c: Config, s: State, m: nat)
    requires Inv(c, s) && m <= s.stored
    ensures var n := Verified(c, s).stored;
            && n <= s.stored && (n > c.checkpoint ==> SectionHead(s.heads, n - 1) == ReadCanonicalHash(s.canon, n * c.size - 1))
            && (m > n ==> m > c.checkpoint && SectionHead(s.heads, m - 1) != ReadCanonicalHash(s.canon, m * c.size - 1))
    decreases s.stored
  {
    hide Inv;
    if LastHeadFine(c, s) {
      FineHead(c, s);
    } else {
      InvBase(c, s);
      FewerSections(c, s, s.stored - 1);
      var r := WithSections(s, s.stored - 1);
      VerifiedExact(c, r, if m < s.stored then m else s.stored - 1);
      var n := Verified(c, s).stored;
      assert n > 0 ==> SectionHead(r.heads, n - 1) == SectionHead(s.heads, n - 1);
      assert 0 < m < s.stored ==> SectionHead(r.heads, m - 1) == SectionHead(s.heads, m - 1);
    }
  }

  lemma {:induction false} FineHead(c: Config, s: State)
    requires LastHeadFine(c, s)
    ensures s.stored > c.checkpoint ==> SectionHead(s.heads, s.stored - 1) == ReadCanonicalHash(s.canon, s.stored * c.size - 1)
  {
  }

  lemma {:induction false} Unfine(c: Config, s: State)
    requires !LastHeadFine(c, s)
    ensures s.stored > c.checkpoint
  {
  }

  lemma {:induction false} SameSections(s: State)
    ensures WithSections(s, s.stored) == s
  {
  }

  lemma {:induction false} SectionsTwice(s: State, a: nat, b: nat)
    requires a <= s.stored
    ensures WithSections(s, a).stored == a
    ensures b <= a ==> WithSections(WithSections(s, a), b) == WithSections(s, b)
  {
  }

  lemma {:induction false} InvBase(c: Config, s: State)
    requires Inv(c, s)
    ensures s.base > 0 ==> s.base + 1 == c.checkpoint <= s.stored
  {
  }

  lemma {:induction false} NotifiedKeeps(c: Config, s: State, head: nat, reorg: bool)
    requires Inv(c, s)
    ensures Inv(c, Notified(c, s, head, reorg))
  {
    hide SectionsLinked, WorkLinked, WorkCurrent;
    if reorg {
      var point := (head + 1) / c.size;
      var stored := if point < c.checkpoint then c.checkpoint else point;
      var r := Notified(c, s, head, reorg);
      if stored < s.stored {
        FewerSections(c, s, stored);
        OtherFields(c, WithSections(s, stored), r);
      } else {
        OtherFields(c, s, r);
      }
    } else {
      OtherFields(c, s, Notified(c, s, head, reorg));
    }
  }

  lemma {:induction false} OtherFields(c: Config, s: State, r: State)
    requires Inv(c, s) && r == s.(known := r.known, cascaded := r.cascaded, canon := r.canon)
    ensures Inv(c, r)
  {
    hide WorkLinked, SectionLinked;
  }

  lemma {:induction false} BegunKeeps(c: Config, s: State)
    requires Inv(c, s)
    ensures Inv(c, Begun(c, s))
  {
    hide SectionsLinked, Verified;
    VerifiedKeeps(c, s);
    var v := Verified(c, s);
    if v.stored > 0 {
      LastHeadStored(c, v);
    }
    OnlyWork(c, v, Begun(c, s));
  }

  lemma {:induction false} LastHeadStored(c: Config, s: State)
    requires SectionsLinked(c, s) && s.stored > 0
    ensures s.stored - 1 in s.heads && s.heads[s.stored - 1] != ZERO
  {
    hide SectionLinked;
  }

  lemma {:induction false} OnlyWork(c: Config, s: State, r: State)
    requires SectionsLinked(c, s) && r == s.(work := r.work)
    ensures SectionsLinked(c, r)
  {
    hide SectionLinked;
  }

  lemma {:induction false} ReadKeeps(c: Config, s: State, found: bool, processed: bool)
    requires Inv(c, s) && Enabled(c, s, ReadBlock(found, processed))
    ensures Inv(c, Apply(c, s, ReadBlock(found, processed)))
  {
    hide SectionsLinked;
    var r := Apply(c, s, ReadBlock(found, processed));
    OnlyWork(c, s, r);
    if r.work.Running? {
      assert LinksApart(c.headers, r.work.last, r.work.number - r.work.section * c.size, r.work.oldHead);
    }
  }

  lemma {:induction false} FinishedKeeps(c: Config, s: State)
    requires Inv(c, s) && Enabled(c, s, Finish)
    ensures Inv(c, Finished(c, s))
  {
    hide SectionsLinked, Verified;
    if s.work.Running? && (s.work.section == 0 || s.work.oldHead == SectionHead(s.heads, s.work.section - 1)) {
      NewSection(c, s);
    } else {
      VerifiedKeeps(c, s);
      var v := Verified(c, s);
      OnlyWork(c, v, v.(work := Quiet));
      OtherFields(c, v.(work := Quiet), Finished(c, s));
    }
  }

  /** A finished section is linked to the one before. */
  lemma {:induction false} NewSection(c: Config, s: State)
    requires Inv(c, s) && s.work.Running? && s.work.number == (s.work.section + 1) * c.size && s.stored == s.work.section
    requires s.work.section == 0 || s.work.oldHead == SectionHead(s.heads, s.work.section - 1)
    ensures Inv(c, Finished(c, s))
  {
    hide SectionsLinked, LinksApart;
    SectionSpan(c, s.work.section);
    if s.stored > 0 {
      LastHeadStored(c, s);
    }
    AddLinked(c, s, s.work.last, Finished(c, s));
  }

  lemma {:induction false} AddLinked(c: Config, s: State, last: Hash, r: State)
    requires SectionsLinked(c, s) && last != ZERO && last in c.headers && c.headers[last].number == LastOf(c, s.stored)
    requires s.stored > 0 ==> s.stored - 1 in s.heads
    requires LinksApart(c.headers, last, c.size, if s.stored == 0 then ZERO else s.heads[s.stored - 1])
    requires r.heads == s.heads[s.stored := last] && r.stored == s.stored + 1 && r.base == s.base
    ensures SectionsLinked(c, r)
  {
    hide LinksApart, LastOf;
    forall i: nat | i in r.heads && i >= r.base && !OnTrust(c, r.base, i) ensures SectionLinked(c, r.heads, i) {
      if i < s.stored {
        assert SectionLinked(c, s.heads, i);
      }
    }
  }

  lemma {:induction false} SectionSpan(c: Config, section: nat)
    ensures (section + 1) * c.size - section * c.size == c.size
  {
  }

  lemma {:induction false} StepKeeps(c: Config, s: State, step: Step)
    requires Inv(c, s) && Enabled(c, s, step)
    ensures Inv(c, Apply(c, s, step))
  {
    match step
    case ChainChange(canon) => OtherFields(c, s, s.(canon := canon));
    case NewHead(head, reorg) => NotifiedKeeps(c, s, head, reorg);
    case Sections => VerifiedKeeps(c, s);
    case Begin => BegunKeeps(c, s);
    case ResetFails =>
      var none := WithSections(s, 0);
      assert none.heads == map[];
    case ReadBlock(found, processed) => ReadKeeps(c, s, found, processed);
    case CommitFails => OnlyWork(c, s, s.(work := Failed));
    case Finish => FinishedKeeps(c, s);
    case Restart => OnlyWork(c, s, s.(work := Quiet));
  }

  // ---------- Soundness ----------

  /** The canonical index is a parent path. */
  ghost predicate Coherent(c: Config, canon: Index)
  {
    forall n: nat {:trigger CanonLink(c, canon, n)} :: n in canon ==> CanonLink(c, canon, n)
  }

  ghost predicate CanonLink(c: Config, canon: Index, n: nat)
  {
    && n in canon && canon[n] in c.headers
    && (n > 0 ==> n - 1 in canon && c.headers[canon[n]].parent == canon[n - 1])
  }

  lemma {:induction false} CanonLinks(c: Config, canon: Index, n: nat, k: nat, low: Hash)
    requires Coherent(c, canon) && n in canon && k <= n && LinksApart(c.headers, canon[n], k, low)
    ensures n - k in canon && canon[n - k] == low
    decreases k
  {
    if k > 0 {
      assert CanonLink(c, canon, n);
      CanonLinks(c, canon, n - 1, k - 1, low);
    }
  }

  /** If the last stored section above the checkpoint ends in a canonical block, every stored section does. */
  lemma {:induction false} LastHeadSuffices(c: Config, s: State, i: nat)
    requires Inv(c, s) && LastHeadFine(c, s) && s.stored > c.checkpoint && Coherent(c, s.canon)
    requires s.base <= i < s.stored
    ensures i in s.heads && LastOf(c, i) in s.canon && s.canon[LastOf(c, i)] == s.heads[i]
  {
    LastHeadCarries(c, s, i);
  }

  lemma {:induction false} LastHeadCarries(c: Config, s: State, i: nat)
    requires Inv(c, s) && Coherent(c, s.canon) && s.base <= i < s.stored
    requires SectionHead(s.heads, s.stored - 1) == ReadCanonicalHash(s.canon, s.stored * c.size - 1)
    ensures i in s.heads && LastOf(c, i) in s.canon && s.canon[LastOf(c, i)] == s.heads[i]
    decreases s.stored - i
  {
    hide LinksApart, Coherent;
    if i == s.stored - 1 {
      LastHeadStored(c, s);
    } else {
      LastHeadCarries(c, s, i + 1);
      assert SectionLinked(c, s.heads, i + 1);
      SectionSpan(c, i + 1);
      Below(c, i);
      CanonLinks(c, s.canon, LastOf(c, i + 1), c.size, s.heads[i]);
    }
  }

  lemma {:induction false} Below(c: Config, i: nat)
    requires c.size > 0
    ensures 0 <= LastOf(c, i) == LastOf(c, i + 1) - c.size
  {
  }

  /** The stored sections all end in canonical blocks exactly when the last one does. verifyLastHead looks no
      further than the checkpoint, so up to there this is left open. */
  lemma {:induction false} CanonicalExact(c: Config, s: State)
    requires Inv(c, s) && Coherent(c, s.canon) && s.base < s.stored
    ensures (forall i :: s.base <= i < s.stored ==> i in s.heads && ReadCanonicalHash(s.canon, LastOf(c, i)) == s.heads[i]) <==>
            SectionHead(s.heads, s.stored - 1) == ReadCanonicalHash(s.canon, s.stored * c.size - 1)
  {
    hide LinksApart, Coherent, SectionsLinked;
    LastHeadStored(c, s);
    if SectionHead(s.heads, s.stored - 1) == ReadCanonicalHash(s.canon, s.stored * c.size - 1) {
      forall i | s.base <= i < s.stored ensures i in s.heads && ReadCanonicalHash(s.canon, LastOf(c, i)) == s.heads[i] {
        LastHeadCarries(c, s, i);
      }
    }
  }

  /** A run may start with whatever sections the database has, as long as they are linked, and an idle loop. */
  ghost predicate Starts(c: Config, s: State)
  {
    Inv(c, s) && s.work == Quiet
  }

  /** Among the states a run may start from: no sections stored, or those of a checkpoint, with or without heads of
      sections that were stored below it before. */
  lemma {:induction false} FreshStarts(c: Config, s: State)
    requires c.size > 0 && s.work == Quiet && s.stored == c.checkpoint
    requires if c.checkpoint == 0 then s.heads == map[] && s.base == 0
             else c.checkpoint - 1 in s.heads && s.heads[c.checkpoint - 1] == c.checkpointHead != ZERO
                  && s.base == c.checkpoint - 1 && forall i :: i in s.heads ==> i < c.checkpoint
    ensures Starts(c, s)
  {
    hide SectionLinked;
  }

  ghost predicate IsRun(c: Config, states: seq<State>, steps: seq<Step>)
  {
    && |states| == |steps| + 1 && Starts(c, states[0])
    && forall i {:trigger steps[i]} :: 0 <= i < |steps| ==>
         Enabled(c, states[i], steps[i]) && states[i + 1] == Apply(c, states[i], steps[i])
  }

  /** In every interleaving, consecutive section heads stay exactly one section of parent links apart. */
  lemma {:induction false} RunKeeps(c: Config, states: seq<State>, steps: seq<Step>, k: nat)
    requires IsRun(c, states, steps) && k < |states|
    ensures Inv(c, states[k])
  {
    if k > 0 {
      hide Inv, Enabled, Apply;
      RunKeeps(c, states, steps, k - 1);
      var step := steps[k - 1];
      StepKeeps(c, states[k - 1], step);
    }
  }

  /** In every interleaving: once the last head has been verified against a coherent canonical chain, every stored
      section from the checkpoint on, and the checkpoint's own if known, ends in the canonical block of its
      number. */
  lemma {:induction false} RunSound(c: Config, states: seq<State>, steps: seq<Step>, k: nat, i: nat)
    requires IsRun(c, states, steps) && k < |states| && Coherent(c, states[k].canon)
    requires var r := Verified(c, states[k]);
             r.stored > c.checkpoint && r.base <= i < r.stored
    ensures var r := Verified(c, states[k]);
            && i in r.heads && LastOf(c, i) in r.canon && r.canon == states[k].canon
            && r.heads[i] == r.canon[LastOf(c, i)] && r.base <= c.checkpoint
  {
    hide Inv, Verified, IsRun, Coherent;
    RunKeeps(c, states, steps, k);
    VerifiedKeeps(c, states[k]);
    LastHeadSuffices(c, Verified(c, states[k]), i);
    InvBase(c, Verified(c, states[k]));
  }

  // ---------- Confirmations ----------

  lemma {:induction false} Quotient(x: nat, n: nat)
    requires n > 0
    ensures x / n * n <= x < (x / n + 1) * n
  {
  }

  lemma {:induction false} AtMostQuotient(x: nat, n: nat, k: nat)
    requires n > 0
    ensures k <= x / n <==> k * n <= x
  {
    Quotient(x, n);
    if k <= x / n {
      Monotone(k, x / n, n);
    } else {
      Monotone(x / n + 1, k, n);
    }
  }

  lemma {:induction false} Monotone(a: nat, b: nat, n: nat)
    requires a <= b
    ensures a * n <= b * n
  {
  }

  /** A new head raises the number of known sections to the highest that is confirmed, or leaves it. A number of sections
      that is confirmed and not below the checkpoint is known afterwards, once the checkpoint has been found. */
  lemma {:induction false} HeadConfirms(c: Config, s: State, head: nat, k: nat)
    requires c.size > 0
    ensures var known := Notified(c, s, head, false).known;
            && known >= s.known
            && (known > s.known ==> known * c.size + c.confirms <= head + 1 < (known + 1) * c.size + c.confirms)
            && (k * c.size + c.confirms <= head + 1 && k >= c.checkpoint ==>
                  (s.known >= c.checkpoint || ReadCanonicalHash(s.canon, c.checkpoint * c.size - 1) == c.checkpointHead) ==> known >= k)
  {
    if head >= c.confirms {
      Quotient(head + 1 - c.confirms, c.size);
      AtMostQuotient(head + 1 - c.confirms, c.size, k);
    } else {
      assert k * c.size + c.confirms <= head + 1 ==> k * c.size <= 0;
      AtMostQuotient(0, c.size, k);
    }
  }

  /** A reorganisation down to head leaves nothing known or stored above it, but for the checkpoint, and gives up no
      more than that. */
  lemma {:induction false} ReorgReverts(c: Config, s: State, head: nat)
    requires c.size > 0
    ensures var r := Notified(c, s, head, true);
            && r.known <= s.known && r.known * c.size <= head + 1
            && (r.known < s.known ==> r.known == 0 || (r.known + 1) * c.size > head + 1)
            && r.stored <= s.stored && (r.stored <= c.checkpoint || r.stored * c.size <= head + 1)
            && (r.stored < s.stored ==> r.stored >= c.checkpoint && (r.stored + 1) * c.size > head + 1)
            && r.cascaded <= s.cascaded && r.cascaded <= head + 1
  {
    Quotient(head + 1, c.size);
    var point := (head + 1) / c.size;
    AtMostQuotient(head + 1, c.size, s.known);
    AtMostQuotient(head + 1, c.size, s.stored);
    AtMostQuotient(head + 1, c.size, c.checkpoint);
    AtMostQuotient(head + 1, c.size, c.checkpoint + 1);
  }

  lemma {:induction false} NoticeBounds(c: Config, s: State, head: nat, reorg: bool)
    requires Inv(c, s)
    ensures var r := Notified(c, s, head, reorg);
            && (!reorg ==> r.stored == s.stored && r.known >= s.known)
            && (r.known > s.known ==> r.known * c.size + c.confirms <= head + 1 < (r.known + 1) * c.size + c.confirms)
            && (reorg ==> r.known <= s.known && r.known * c.size <= head + 1 && (r.stored <= c.checkpoint || r.stored * c.size <= head + 1))
  {
    hide SectionsLinked, WorkLinked, WorkCurrent;
    if reorg {
      ReorgReverts(c, s, head);
    } else {
      HeadConfirms(c, s, head, 0);
    }
  }

  /** Some head was notified, without a reorganisation, that confirms the first n sections. */
  ghost predicate Confirmed(c: Config, steps: seq<Step>, i: nat, n: nat)
    requires i <= |steps|
  {
    exists j :: 0 <= j < i && steps[j].NewHead? && !steps[j].reorg && n * c.size + c.confirms <= steps[j].head + 1
  }

  lemma {:induction false} ConfirmedLess(c: Config, steps: seq<Step>, j: nat, i: nat, m: nat, n: nat)
    requires j <= i <= |steps| && m <= n && Confirmed(c, steps, j, n)
    ensures Confirmed(c, steps, i, m)
  {
    var x :| 0 <= x < j && steps[x].NewHead? && !steps[x].reorg && n * c.size + c.confirms <= steps[x].head + 1;
    Monotone(m, n, c.size);
  }

  /** What is known is confirmed, and so is what the update loop is working on or would fall back to. */
  ghost predicate AllConfirmed(c: Config, s: State, steps: seq<Step>, i: nat)
    requires i <= |steps|
  {
    && (s.known > 0 ==> Confirmed(c, steps, i, s.known))
    && (s.work != Quiet && s.stored > 0 ==> Confirmed(c, steps, i, s.stored))
    && (s.work.Running? ==> Confirmed(c, steps, i, s.work.section + 1))
  }

  /** In every interleaving from a start without known sections, all known sections are confirmed by some head that was
      notified. */
  lemma {:induction false} KnownConfirmed(c: Config, states: seq<State>, steps: seq<Step>, i: nat)
    requires IsRun(c, states, steps) && states[0].known == 0 && i < |states|
    ensures AllConfirmed(c, states[i], steps, i)
  {
    if i > 0 {
      hide Inv, Enabled, Apply, AllConfirmed;
      KnownConfirmed(c, states, steps, i - 1);
      RunKeeps(c, states, steps, i - 1);
      var step := steps[i - 1];
      StepConfirmed(c, states[i - 1], steps, i);
    }
  }

  lemma {:induction false} StepConfirmed(c: Config, s: State, steps: seq<Step>, i: nat)
    requires 0 < i <= |steps| && Inv(c, s) && Enabled(c, s, steps[i - 1]) && AllConfirmed(c, s, steps, i - 1)
    ensures AllConfirmed(c, Apply(c, s, steps[i - 1]), steps, i)
  {
    hide Inv, Confirmed, Notified, Verified, LastHeadFine;
    var step := steps[i - 1];
    InvSize(c, s);
    var r := Apply(c, s, step);
    VerifiedKeeps(c, s);
    VerifiedFields(c, s);
    StillConfirmed(c, s, steps, i);
    match step
    case NewHead(head, reorg) => NoticeConfirmed(c, s, steps, i);
    case Begin =>
      ConfirmedLess(c, steps, i - 1, i, r.stored, s.known);
      ConfirmedLess(c, steps, i - 1, i, r.stored + 1, s.known);
    case Sections =>
      if s.work != Quiet && s.stored > 0 {
        ConfirmedLess(c, steps, i - 1, i, r.stored, s.stored);
      }
    case Finish =>
      if s.stored > 0 {
        ConfirmedLess(c, steps, i - 1, i, Verified(c, s).stored, s.stored);
      }
    case _ =>
  }

  lemma {:induction false} InvSize(c: Config, s: State)
    requires Inv(c, s)
    ensures c.size > 0
  {
  }

  lemma {:induction false} VerifiedFields(c: Config, s: State)
    ensures var r := Verified(c, s); r.known == s.known && r.work == s.work
    decreases s.stored
  {
    if !LastHeadFine(c, s) {
      VerifiedFields(c, WithSections(s, s.stored - 1));
    }
  }

  lemma {:induction false} StillConfirmed(c: Config, s: State, steps: seq<Step>, i: nat)
    requires 0 < i <= |steps| && AllConfirmed(c, s, steps, i - 1)
    ensures AllConfirmed(c, s, steps, i)
  {
  }

  lemma {:induction false} NoticeConfirmed(c: Config, s: State, steps: seq<Step>, i: nat)
    requires 0 < i <= |steps| && c.size > 0 && steps[i - 1].NewHead? && AllConfirmed(c, s, steps, i - 1)
    ensures AllConfirmed(c, Notified(c, s, steps[i - 1].head, steps[i - 1].reorg), steps, i)
  {
    hide Confirmed;
    var head, reorg := steps[i - 1].head, steps[i - 1].reorg;
    var r := Notified(c, s, head, reorg);
    StillConfirmed(c, s, steps, i);
    HeadConfirms(c, s, head, 0);
    ReorgReverts(c, s, head);
    if !reorg && r.known > s.known {
      JustConfirmed(c, steps, i, r.known);
    }
    if r.known < s.known {
      ConfirmedLess(c, steps, i, i, r.known, s.known);
    }
    if r.stored < s.stored && s.work != Quiet {
      ConfirmedLess(c, steps, i, i, r.stored, s.stored);
    }
  }

  lemma {:induction false} JustConfirmed(c: Config, steps: seq<Step>, i: nat, n: nat)
    requires 0 < i <= |steps| && steps[i - 1].NewHead? && !steps[i - 1].reorg && n * c.size + c.confirms <= steps[i - 1].head + 1
    ensures Confirmed(c, steps, i, n)
  {
  }

  /** In every such run, the update loop never takes up a section whose last block lacks its confirmations. */
  lemma {:induction false} BeginConfirmed(c: Config, states: seq<State>, steps: seq<Step>, i: nat)
    requires IsRun(c, states, steps) && states[0].known == 0 && i < |steps| && steps[i] == Begin
    ensures states[i + 1].work.Running? && Confirmed(c, steps, i, states[i + 1].work.section + 1)
  {
    hide Inv, Confirmed, Verified;
    KnownConfirmed(c, states, steps, i);
    RunKeeps(c, states, steps, i);
    VerifiedKeeps(c, states[i]);
    var step := steps[i];
    ConfirmedLess(c, steps, i, i, states[i + 1].work.section + 1, states[i].known);
  }

  // ---------- Sections below a checkpoint ----------

  /** Sections of two blocks, a checkpoint above block 3, and another block 1. */
  const FORKED := Config(2, 0, 2, 4, map[1 := Header(1, 0, ZERO, 1), 2 := Header(2, 1, 1, 1), 3 := Header(3, 2, 2, 1),
                                         4 := Header(4, 3, 3, 1), 5 := Header(5, 4, 4, 1), 6 := Header(6, 5, 5, 1), 7 := Header(7, 1, 1, 1)])
  const FIRST: Index := map[0 := 1, 1 := 2, 2 := 3, 3 := 4, 4 := 5, 5 := 6]
  const SECOND: Index := map[0 := 1, 1 := 7]

  /** A run with its last state. */
  ghost predicate RunTo(c: Config, states: seq<State>, steps: seq<Step>, s: State)
  {
    IsRun(c, states, steps) && states[|steps|] == s
  }

  lemma {:induction false} ThenStep(c: Config, states: seq<State>, steps: seq<Step>, s: State, step: Step, r: State)
    requires RunTo(c, states, steps, s) && Enabled(c, s, step) && c.size > 0 && r == Apply(c, s, step)
    ensures RunTo(c, states + [r], steps + [step], r)
  {
    hide Enabled, Apply, Starts;
    var all, more := states + [r], steps + [step];
    forall i | 0 <= i < |more| ensures Enabled(c, all[i], more[i]) && all[i + 1] == Apply(c, all[i], more[i]) {
      if i < |steps| {
        assert steps[i] == more[i];
      }
    }
  }

  /** From a checkpoint: the reset of a section fails, so the sections are given up and processing starts anew at the
      first one. */
  lemma {:induction false} StartsAnew() returns (states: seq<State>, steps: seq<Step>)
    ensures RunTo(FORKED, states, steps, State(map[], 0, 3, 0, FIRST, Running(0, ZERO, 0, ZERO), 0))
  {
    hide RunTo, Starts;
    var s0 := State(map[1 := 4], 2, 0, 0, FIRST, Quiet, 1);
    FreshStarts(FORKED, s0);
    states, steps := [s0], [];
    OneState(FORKED, s0);
    var s1 := s0.(known := 3);
    ThenStep(FORKED, states, steps, s0, NewHead(5, false), s1);
    states, steps := states + [s1], steps + [NewHead(5, false)];
    var s2 := s1.(work := Running(2, 4, 4, 4));
    ThenStep(FORKED, states, steps, s1, Begin, s2);
    states, steps := states + [s2], steps + [Begin];
    var s3 := State(map[], 0, 3, 0, FIRST, Failed, 0);
    assert HeadsBelow(s2.heads, 0) == map[];
    ThenStep(FORKED, states, steps, s2, ResetFails, s3);
    states, steps := states + [s3], steps + [ResetFails];
    var s4 := State(map[], 0, 0, 0, FIRST, Quiet, 0);
    ThenStep(FORKED, states, steps, s3, Finish, s4);
    states, steps := states + [s4], steps + [Finish];
    var s5 := s4.(known := 3);
    ThenStep(FORKED, states, steps, s4, NewHead(5, false), s5);
    states, steps := states + [s5], steps + [NewHead(5, false)];
    var s6 := s5.(work := Running(0, ZERO, 0, ZERO));
    ThenStep(FORKED, states, steps, s5, Begin, s6);
    states, steps := states + [s6], steps + [Begin];
  }

  lemma {:induction false} OneState(c: Config, s: State)
    requires Starts(c, s)
    ensures RunTo(c, [s], [], s)
  {
  }

  /** A run after which the first section is stored with a block that is not canonical, the chain is coherent, and neither
      the notice of the reorganisation nor the verification has given the section up. */
  lemma {:induction false} UncheckedExample() returns (states: seq<State>, steps: seq<Step>)
    ensures Coherent(FORKED, SECOND)
    ensures var last := State(map[0 := 2], 1, 0, 0, SECOND, Quiet, 0);
            && RunTo(FORKED, states, steps, last) && Verified(FORKED, last) == last && LastOf(FORKED, 0) in SECOND
            && last.heads[0] != SECOND[LastOf(FORKED, 0)]
  {
    hide RunTo, Starts;
    states, steps := StartsAnew();
    var s0 := State(map[], 0, 3, 0, FIRST, Running(0, ZERO, 0, ZERO), 0);
    var s1 := s0.(work := Running(0, ZERO, 1, 1));
    ThenStep(FORKED, states, steps, s0, ReadBlock(true, true), s1);
    states, steps := states + [s1], steps + [ReadBlock(true, true)];
    var s2 := s0.(work := Running(0, ZERO, 2, 2));
    ThenStep(FORKED, states, steps, s1, ReadBlock(true, true), s2);
    states, steps := states + [s2], steps + [ReadBlock(true, true)];
    var s3 := State(map[0 := 2], 1, 3, 1, FIRST, Quiet, 0);
    ThenStep(FORKED, states, steps, s2, Finish, s3);
    states, steps := states + [s3], steps + [Finish];
    var s4 := s3.(canon := SECOND);
    ThenStep(FORKED, states, steps, s3, ChainChange(SECOND), s4);
    states, steps := states + [s4], steps + [ChainChange(SECOND)];
    var s5 := State(map[0 := 2], 1, 0, 0, SECOND, Quiet, 0);
    ThenStep(FORKED, states, steps, s4, NewHead(0, true), s5);
    states, steps := states + [s5], steps + [NewHead(0, true)];
    ThenStep(FORKED, states, steps, s5, Sections, s5);
    states, steps := states + [s5], steps + [Sections];
    assert CanonLink(FORKED, SECOND, 0) && CanonLink(FORKED, SECOND, 1);
  }

  // ---------- The indexer ----------

  class Indexer {
    const c: Config
    var heads: map<nat, Hash>
    var stored: nat
    var known: nat
    var cascaded: nat

    /** The section count and heads come from the database; what is known has to be learned anew. */
    constructor (c: Config, heads: map<nat, Hash>, stored: nat)
      ensures this.c == c && this.heads == heads && this.stored == stored && known == 0 && cascaded == 0
    {
      this.c, this.heads, this.stored, known, cascaded := c, heads, stored, 0, 0;
    }

    ghost function View(canon: Index, work: Work, base: nat): State
      reads this
    {
      State(heads, stored, known, cascaded, canon, work, base)
    }

    method SetValidSections(sections: nat, ghost s: State)
      requires s == View(s.canon, s.work, s.base) && forall i :: i in heads ==> i < stored
      modifies this`heads, this`stored
      ensures View(s.canon, s.work, s.base) == WithSections(s, sections)
    {
      while stored > sections
        invariant sections <= stored <= s.stored || stored == s.stored
        invariant forall i :: i in heads <==> i in s.heads && i < stored
        invariant forall i :: i in heads ==> heads[i] == s.heads[i]
        decreases stored
      {
        stored := stored - 1;
        heads := heads - {stored};
      }
      stored := sections;
    }

    method VerifyLastHead(canon: Index, ghost s: State)
      requires s == View(canon, s.work, s.base) && Inv(c, s)
      modifies this`heads, this`stored
      ensures View(canon, s.work, s.base) == Verified(c, s)
    {
      hide Inv;
      ghost var r := s;
      while stored > 0 && stored > c.checkpoint
        invariant r == View(canon, s.work, s.base) && Inv(c, r) && Verified(c, r) == Verified(c, s)
        decreases stored
      {
        if SectionHead(heads, stored - 1) == ReadCanonicalHash(canon, stored * c.size - 1) {
          return;
        }
        InvBase(c, r);
        InvBounds(c, r);
        FewerSections(c, r, stored - 1);
        SetValidSections(stored - 1, r);
        r := WithSections(r, r.stored - 1);
      }
    }

    method NewHead(head: nat, reorg: bool, canon: Index, ghost s: State)
      requires s == View(canon, s.work, s.base) && Inv(c, s)
      modifies this`heads, this`stored, this`known, this`cascaded
      ensures View(canon, s.work, s.base) == Notified(c, s, head, reorg)
      ensures !reorg ==> stored == old(stored) && known >= old(known)
      ensures known > old(known) ==> known * c.size + c.confirms <= head + 1 < (known + 1) * c.size + c.confirms
      ensures reorg ==> known <= old(known) && known * c.size <= head + 1 && (stored <= c.checkpoint || stored * c.size <= head + 1)
    {
      hide Inv, Notified;
      Notice(head, reorg, canon, s);
      NoticeBounds(c, s, head, reorg);
    }

    /** The statements of newHead. */
    method Notice(head: nat, reorg: bool, canon: Index, ghost s: State)
      requires s == View(canon, s.work, s.base) && Inv(c, s)
      modifies this`heads, this`stored, this`known, this`cascaded
      ensures View(canon, s.work, s.base) == Notified(c, s, head, reorg)
    {
      InvBounds(c, s);
      hide SectionsLinked, WorkLinked, WorkCurrent;
      if reorg {
        var point := (head + 1) / c.size;
        var stored' := point;
        if point < c.checkpoint {
          point := 0;
        }
        if stored' < c.checkpoint {
          stored' := c.checkpoint;
        }
        if point < known {
          known := point;
        }
        if stored' < stored {
          SetValidSections(stored', View(canon, s.work, s.base));
        }
        if point * c.size < cascaded {
          cascaded := point * c.size;
        }
        return;
      }
      if head >= c.confirms {
        var sections := (head + 1 - c.confirms) / c.size;
        if sections < c.checkpoint {
          sections := 0;
        }
        if sections > known {
          if known < c.checkpoint && ReadCanonicalHash(canon, c.checkpoint * c.size - 1) != c.checkpointHead {
            return;
          }
          known := sections;
        }
      }
    }

    /** Read a section block by block. canons gives the canonical index at the time of each read, which may be
        another one every time; still the head returned is exactly one section of parent links above lastHead. */
    method ProcessSection(section: nat, lastHead: Hash, canons: seq<Index>, found: seq<bool>, processed: seq<bool>)
      returns (ok: bool, newHead: Hash)
      requires c.size > 0 && |canons| == |found| == |processed| == c.size
      ensures ok <==> forall k :: 0 <= k < c.size ==> Continues(c, section, lastHead, canons, found, processed, k)
      ensures ok ==> LinksApart(c.headers, newHead, c.size, lastHead) && newHead in c.headers && c.headers[newHead].number == LastOf(c, section)
      ensures ok ==> newHead == ReadCanonicalHash(canons[c.size - 1], LastOf(c, section))
    {
      newHead := lastHead;
      for k := 0 to c.size
        invariant forall j :: 0 <= j < k ==> Continues(c, section, lastHead, canons, found, processed, j)
        invariant LinksApart(c.headers, newHead, k, lastHead)
        invariant k > 0 ==> newHead in c.headers && c.headers[newHead].number == section * c.size + k - 1
        invariant k > 0 ==> newHead == ReadCanonicalHash(canons[k - 1], section * c.size + k - 1)
      {
        var number := section * c.size + k;
        assert k == 0 ==> newHead == lastHead;
        assert Continues(c, section, lastHead, canons, found, processed, k) <==>
               var hash := ReadCanonicalHash(canons[k], number);
               && hash != ZERO && found[k] && processed[k] && hash in c.headers
               && c.headers[hash].number == number && c.headers[hash].parent == newHead;
        var hash := ReadCanonicalHash(canons[k], number);
        if hash == ZERO {
          return false, ZERO;
        }
        if !found[k] || hash !in c.headers || c.headers[hash].number != number {
          return false, ZERO;
        }
        if c.headers[hash].parent != newHead {
          return false, ZERO;
        }
        if !processed[k] {
          return false, ZERO;
        }
        newHead := hash;
      }
      SectionSpan(c, section);
      ok := true;
    }
  }

  /** The k-th read finds a block of the right number, on top of the one read before, and the backend takes it. */
  ghost predicate Continues(c: Config, section: nat, lastHead: Hash, canons: seq<Index>, found: seq<bool>,
    processed: seq<bool>, k: nat)
    requires |canons| == |found| == |processed| == c.size && k < c.size
  {
    var number := section * c.size + k;
    var hash := ReadCanonicalHash(canons[k], number);
    && hash != ZERO && found[k] && processed[k]
    && hash in c.headers && c.headers[hash].number == number
    && c.headers[hash].parent == if k == 0 then lastHead else ReadCanonicalHash(canons[k - 1], number - 1)
  }

  lemma {:induction false} InvBounds(c: Config, s: State)
    requires Inv(c, s)
    ensures c.size > 0 && forall i :: i in s.heads ==> i < s.stored
  {
    hide SectionLinked;
  }
}
