/**
 The event feed as a state machine. Send holds the send lock and works on the prefix of sendCases
 that is not served yet; subscriptions come and go at any moment in between.
 */
module Feed {
  import opened Common

  type Chan = nat

  /** The receive case through which an unsubscription interrupts Send. */
  const REMOVE_SUB: Chan := 0

  // ---------- caseList ----------

  function Find(cs: seq<Chan>, ch: Chan): (r: int)
    ensures -1 <= r < |cs| && (r >= 0 ==> cs[r] == ch) && (r == -1 <==> ch !in cs)
    ensures forall i :: 0 <= i < r ==> cs[i] != ch
  {
    if cs == [] then -1
    else if cs[0] == ch then 0
    else var r := Find(cs[1..], ch);
      if r == -1 then -1 else r + 1
  }

  function Deleted(cs: seq<Chan>, index: nat): (r: seq<Chan>)
    requires index < |cs|
  {
    cs[..index] + cs[index + 1..]
  }

  /** The case at index changes places with the last of the first n. */
  function Deactivated(cs: seq<Chan>, n: nat, index: nat): (r: seq<Chan>)
    requires index < n <= |cs|
  {
    cs[index := cs[n - 1]][n - 1 := cs[index]]
  }

  method FindCase(cs: array<Chan>, n: nat, ch: Chan) returns (index: int)
    requires n <= cs.Length
    ensures index == Find(cs[..n], ch)
  {
    for i := 0 to n
      invariant ch !in cs[..i]
    {
      if cs[i] == ch {
        FindFirst(cs[..n], ch, i);
        return i;
      }
    }
    return -1;
  }

  lemma {:induction false} FindFirst(cs: seq<Chan>, ch: Chan, i: nat)
    requires i < |cs| && cs[i] == ch && forall j :: 0 <= j < i ==> cs[j] != ch
    ensures Find(cs, ch) == i
  {
  }

  /** Delete in place: everything after the index moves one to the left. */
  method DeleteCase(cs: array<Chan>, n: nat, index: nat)
    requires index < n <= cs.Length
    modifies cs
    ensures cs[..n - 1] == Deleted(old(cs[..n]), index) && cs[n..] == old(cs[n..])
  {
    for i := index to n - 1
      invariant forall j :: 0 <= j < index || i <= j < cs.Length ==> cs[j] == old(cs[j])
      invariant forall j :: index <= j < i ==> cs[j] == old(cs[j + 1])
    {
      cs[i] := cs[i + 1];
    }
  }

  method DeactivateCase(cs: array<Chan>, n: nat, index: nat) returns (last: nat)
    requires index < n <= cs.Length
    modifies cs
    ensures cs[..] == Deactivated(old(cs[..]), n, index) && last == n - 1
  {
    last := n - 1;
    cs[index], cs[last] := cs[last], cs[index];
  }

  // ---------- The machine ----------

  /** Where Send is. Between steps it tries the unserved cases one after the other, then selects on them. */
  datatype Phase = Idle | Trying(active: nat, i: nat) | Selecting(active: nat)

  /** removing has the channels whose unsubscription waits for Send or the lock. The last three record the send in progress
      or last done: the channels subscribed when it took the lock, those removed since, and the deliveries. */
  datatype State = State(sendCases: seq<Chan>, inbox: seq<Chan>, removing: set<Chan>, phase: Phase, nsent: nat,
                         start: set<Chan>, gone: set<Chan>, got: multiset<Chan>)

  const INIT := State([REMOVE_SUB], [], {}, Idle, 0, {}, {}, multiset{})

  datatype Step =
    | Subscribe(ch: Chan)
    | RemoveFromInbox(ch: Chan)
    | RequestRemove(ch: Chan)
    | RemoveIdle(ch: Chan)
    | StartSend
    | TrySend(ok: bool)
    | EndTry
    | SelectSend(k: nat)
    | SelectRemove(ch: Chan)

  ghost predicate Enabled(s: State, step: Step)
  {
    match step
    case Subscribe(ch) => ch != REMOVE_SUB && ch !in s.sendCases && ch !in s.inbox
    case RemoveFromInbox(ch) => ch in s.inbox
    case RequestRemove(ch) => ch != REMOVE_SUB && ch !in s.inbox && ch in s.sendCases && ch !in s.removing
    case RemoveIdle(ch) => s.phase.Idle? && ch in s.removing
    case StartSend => s.phase.Idle?
    case TrySend(ok) => s.phase.Trying? && s.phase.i < s.phase.active
    case EndTry => s.phase.Trying? && s.phase.i >= s.phase.active
    case SelectSend(k) => s.phase.Selecting? && 1 <= k < s.phase.active
    case SelectRemove(ch) => s.phase.Selecting? && ch in s.removing
  }

  /** Deliver to the case at index k and move it out of the active prefix. */
  ghost function Deliver(s: State, active: nat, k: nat, phase: Phase): State
    requires k < active <= |s.sendCases|
  {
    s.(sendCases := Deactivated(s.sendCases, active, k), nsent := s.nsent + 1,
       got := s.got + multiset{s.sendCases[k]}, phase := phase)
  }

  ghost function Apply(s: State, step: Step): State
    requires Inv(s) && Enabled(s, step)
  {
    match step
    case Subscribe(ch) => s.(inbox := s.inbox + [ch])
    case RemoveFromInbox(ch) => s.(inbox := Deleted(s.inbox, Find(s.inbox, ch)))
    case RequestRemove(ch) => s.(removing := s.removing + {ch})
    case RemoveIdle(ch) => s.(sendCases := Deleted(s.sendCases, Find(s.sendCases, ch)), removing := s.removing - {ch})
    case StartSend =>
      var all := s.sendCases + s.inbox;
      s.(sendCases := all, inbox := [], phase := Trying(|all|, 1), nsent := 0,
         start := Channels(all), gone := {}, got := multiset{})
    case TrySend(ok) =>
      var Trying(active, i) := s.phase;
      if ok then Deliver(s, active, i, Trying(active - 1, i)) else s.(phase := Trying(active, i + 1))
    case EndTry => s.(phase := if s.phase.active == 1 then Idle else Selecting(s.phase.active))
    case SelectSend(k) => Deliver(s, s.phase.active, k, Trying(s.phase.active - 1, 1))
    case SelectRemove(ch) =>
      var index := Find(s.sendCases, ch);
      var active := if index < s.phase.active then s.phase.active - 1 else s.phase.active;
      s.(sendCases := Deleted(s.sendCases, index), removing := s.removing - {ch}, gone := s.gone + {ch}, phase := Trying(active, 1))
  }

  ghost function Channels(cs: seq<Chan>): set<Chan>
  {
    set c | c in cs && c != REMOVE_SUB
  }

  // ---------- The invariant ----------

  ghost predicate Distinct(cs: seq<Chan>)
  {
    forall i, j :: 0 <= i < j < |cs| ==> cs[i] != cs[j]
  }

  /** removeSub stays at index zero, and every channel is filed once. */
  ghost predicate Lists(s: State)
  {
    && |s.sendCases| >= 1 && s.sendCases[0] == REMOVE_SUB
    && Distinct(s.sendCases) && Distinct(s.inbox)
    && (forall c :: c in s.inbox ==> c !in s.sendCases && c != REMOVE_SUB)
    && (forall c :: c in s.removing ==> c in s.sendCases && c != REMOVE_SUB)
  }

  /** The active cases are the unserved prefix of sendCases, and the others have been served once. */
  ghost predicate Served(s: State, active: nat)
  {
    && 1 <= active <= |s.sendCases|
    && (forall k :: 1 <= k < active ==> s.got[s.sendCases[k]] == 0)
    && (forall k :: active <= k < |s.sendCases| ==> s.got[s.sendCases[k]] == 1)
    && (forall c :: c in s.start <==> c in s.gone || (c in s.sendCases && c != REMOVE_SUB))
    && (forall c :: c in s.gone ==> c !in s.sendCases)
    && Counted(s)
  }

  /** Deliveries go to channels subscribed at the start, at most one each, and nsent counts them. */
  ghost predicate Counted(s: State)
  {
    (forall c :: s.got[c] <= 1 && (s.got[c] > 0 ==> c in s.start)) && s.nsent == |s.got|
  }

  ghost predicate Inv(s: State)
  {
    && Lists(s)
    && match s.phase
       case Idle => true
       case Trying(active, i) => Served(s, active) && 1 <= i <= active
       case Selecting(active) => Served(s, active)
  }

  // ---------- Every step keeps it ----------

  lemma {:induction false} DeletedMember(cs: seq<Chan>, index: nat)
    requires index < |cs| && Distinct(cs)
    ensures Distinct(Deleted(cs, index)) && |Deleted(cs, index)| == |cs| - 1
    ensures forall c :: c in Deleted(cs, index) <==> c in cs && c != cs[index]
  {
    var r := Deleted(cs, index);
    forall k | 0 <= k < |r| ensures r[k] == cs[if k < index then k else k + 1] {
    }
    forall c | c in cs && c != cs[index] ensures c in r {
      var k :| 0 <= k < |cs| && cs[k] == c;
      assert r[if k < index then k else k - 1] == c;
    }
  }

  lemma {:induction false} DeactivatedMember(cs: seq<Chan>, n: nat, index: nat)
    requires index < n <= |cs| && Distinct(cs)
    ensures Distinct(Deactivated(cs, n, index))
    ensures forall c :: c in Deactivated(cs, n, index) <==> c in cs
  {
    var r := Deactivated(cs, n, index);
    forall c | c in cs ensures c in r {
      var k :| 0 <= k < |cs| && cs[k] == c;
      assert r[if k == index then n - 1 else if k == n - 1 then index else k] == c;
    }
  }

  lemma {:induction false} DeliverKeeps(s: State, active: nat, k: nat, phase: Phase)
    requires Lists(s) && Served(s, active) && 1 <= k < active
    ensures Lists(Deliver(s, active, k, phase)) && Served(Deliver(s, active, k, phase), active - 1)
  {
    hide Distinct;
    var r := Deliver(s, active, k, phase);
    DeactivatedMember(s.sendCases, active, k);
    forall j | 0 <= j < |s.sendCases| && j != k ensures s.sendCases[j] != s.sendCases[k] {
      DistinctAt(s.sendCases, j, k);
    }
  }

  lemma {:induction false} DistinctAt(cs: seq<Chan>, i: nat, j: nat)
    requires Distinct(cs) && i < |cs| && j < |cs| && i != j
    ensures cs[i] != cs[j]
  {
  }

  lemma {:induction false} DeletedAt(cs: seq<Chan>, index: nat, k: nat)
    requires index < |cs| && k < |cs| - 1
    ensures Deleted(cs, index)[k] == cs[if k < index then k else k + 1]
  {
  }

  /** Deleting a case deletes it from the active prefix if it was there. */
  lemma {:induction false} RemoveServed(s: State, active: nat, index: nat, r: State)
    requires Served(s, active) && Distinct(s.sendCases) && 1 <= index < |s.sendCases|
    requires s.sendCases[index] != REMOVE_SUB
    requires r.sendCases == Deleted(s.sendCases, index) && r.gone == s.gone + {s.sendCases[index]}
    requires r.got == s.got && r.start == s.start && r.nsent == s.nsent
    ensures Served(r, if index < active then active - 1 else active)
  {
    hide Distinct, Deleted;
    DeletedMember(s.sendCases, index);
    forall k | 0 <= k < |r.sendCases| ensures r.sendCases[k] == s.sendCases[if k < index then k else k + 1] {
      DeletedAt(s.sendCases, index, k);
    }
  }

  lemma {:induction false} RemoveLists(s: State, ch: Chan, r: State)
    requires Lists(s) && ch in s.removing && ch in s.sendCases
    requires r.sendCases == Deleted(s.sendCases, Find(s.sendCases, ch)) && r.inbox == s.inbox && r.removing == s.removing - {ch}
    ensures Lists(r)
  {
    hide Distinct;
    DeletedMember(s.sendCases, Find(s.sendCases, ch));
  }

  lemma {:induction false} SelectRemoveKeeps(s: State, ch: Chan)
    requires Inv(s) && Enabled(s, SelectRemove(ch))
    ensures Inv(Apply(s, SelectRemove(ch)))
  {
    hide Distinct, Served, Deleted;
    var r := Apply(s, SelectRemove(ch));
    RemoveLists(s, ch, r);
    RemoveServed(s, s.phase.active, Find(s.sendCases, ch), r);
    ServedSize(r, r.phase.active);
  }

  lemma {:induction false} ServedSize(s: State, active: nat)
    requires Served(s, active)
    ensures 1 <= active <= |s.sendCases|
  {
  }

  lemma {:induction false} IdleKeeps(s: State, ch: Chan)
    requires Inv(s) && Enabled(s, RemoveIdle(ch))
    ensures Inv(Apply(s, RemoveIdle(ch)))
  {
    hide Distinct, Deleted;
    RemoveLists(s, ch, Apply(s, RemoveIdle(ch)));
  }

  lemma {:induction false} InboxKeeps(s: State, step: Step)
    requires Inv(s) && Enabled(s, step) && (step.Subscribe? || step.RemoveFromInbox? || step.RequestRemove?)
    ensures Inv(Apply(s, step))
  {
    if step.RemoveFromInbox? {
      hide Distinct;
      DeletedMember(s.inbox, Find(s.inbox, step.ch));
    }
    var r := Apply(s, step);
    assert r.phase != Idle && Served(s, s.phase.active) ==> Served(r, r.phase.active);
  }

  lemma {:induction false} TryKeeps(s: State, step: Step)
    requires Inv(s) && Enabled(s, step) && (step.TrySend? || step.EndTry? || step.SelectSend?)
    ensures Inv(Apply(s, step))
  {
    hide Lists, Served, Deactivated;
    if step.TrySend? && step.ok {
      ServedSize(s, s.phase.active);
      DeliverKeeps(s, s.phase.active, s.phase.i, Trying(s.phase.active - 1, s.phase.i));
    } else if step.SelectSend? {
      ServedSize(s, s.phase.active);
      DeliverKeeps(s, s.phase.active, step.k, Trying(s.phase.active - 1, 1));
    } else {
      SamePhaseKeeps(s, Apply(s, step), s.phase.active);
    }
  }

  lemma {:induction false} SamePhaseKeeps(s: State, r: State, active: nat)
    requires Lists(s) && Served(s, active) && r == s.(phase := r.phase)
    ensures Lists(r) && Served(r, active)
  {
  }

  lemma {:induction false} StartKeeps(s: State)
    requires Inv(s) && Enabled(s, StartSend)
    ensures Inv(Apply(s, StartSend))
  {
    var all := s.sendCases + s.inbox;
    forall i, j | 0 <= i < j < |all| ensures all[i] != all[j] {
      if i < |s.sendCases| <= j {
        assert s.inbox[j - |s.sendCases|] in s.inbox && s.sendCases[i] in s.sendCases;
      }
    }
  }

  lemma {:induction false} StepKeeps(s: State, step: Step)
    requires Inv(s) && Enabled(s, step)
    ensures Inv(Apply(s, step))
  {
    hide Inv, Apply, Enabled;
    match step
    case Subscribe(_) => InboxKeeps(s, step);
    case RemoveFromInbox(_) => InboxKeeps(s, step);
    case RequestRemove(_) => InboxKeeps(s, step);
    case RemoveIdle(ch) => IdleKeeps(s, ch);
    case StartSend => StartKeeps(s);
    case TrySend(_) => TryKeeps(s, step);
    case EndTry => TryKeeps(s, step);
    case SelectSend(_) => TryKeeps(s, step);
    case SelectRemove(ch) => SelectRemoveKeeps(s, ch);
  }

  // ---------- Runs ----------

  ghost predicate Next(s: State, step: Step, t: State)
  {
    Enabled(s, step) && (Inv(s) ==> t == Apply(s, step))
  }

  /** Any interleaving of steps, from an empty feed. */
  ghost predicate IsRun(states: seq<State>, steps: seq<Step>)
  {
    && |states| == |steps| + 1 && states[0] == INIT
    && forall i {:trigger steps[i]} :: 0 <= i < |steps| ==> Next(states[i], steps[i], states[i + 1])
  }

  lemma {:induction false} RunKeeps(states: seq<State>, steps: seq<Step>, i: nat)
    requires IsRun(states, steps) && i < |states|
    ensures Inv(states[i])
  {
    if i > 0 {
      hide Inv, Enabled, Apply;
      RunKeeps(states, steps, i - 1);
      assert Next(states[i - 1], steps[i - 1], states[i]);
      StepKeeps(states[i - 1], steps[i - 1]);
    }
  }

  /** The channel that gets the value in a step. */
  ghost function Receiver(s: State, step: Step): Option<Chan>
  {
    if step == TrySend(true) && s.phase.Trying? && s.phase.i < |s.sendCases| then Some(s.sendCases[s.phase.i])
    else if step.SelectSend? && step.k < |s.sendCases| then Some(s.sendCases[step.k])
    else None
  }

  /** How often channel c gets the value in the steps from j up to i. */
  ghost function Received(states: seq<State>, steps: seq<Step>, j: nat, i: nat, c: Chan): nat
    requires j <= i <= |steps| <= |states|
    decreases i
  {
    if i == j then 0
    else Received(states, steps, j, i - 1, c) + if Receiver(states[i - 1], steps[i - 1]) == Some(c) then 1 else 0
  }

  /** How many deliveries there are in the steps from j up to i. */
  ghost function Deliveries(states: seq<State>, steps: seq<Step>, j: nat, i: nat): nat
    requires j <= i <= |steps| <= |states|
    decreases i
  {
    if i == j then 0
    else Deliveries(states, steps, j, i - 1) + if Receiver(states[i - 1], steps[i - 1]).Some? then 1 else 0
  }

  /** What one step of a send in progress adds to its record. */
  lemma {:induction false} StepRecords(s: State, step: Step)
    requires Inv(s) && Enabled(s, step) && !s.phase.Idle?
    ensures var t, r := Apply(s, step), Receiver(s, step);
            && t.start == s.start
            && t.got == (if r.Some? then s.got + multiset{r.value} else s.got)
            && t.nsent == s.nsent + (if r.Some? then 1 else 0)
            && t.gone == (if step.SelectRemove? then s.gone + {step.ch} else s.gone)
  {
  }

  lemma {:induction false} StartRecords(s: State)
    requires Inv(s) && Enabled(s, StartSend)
    ensures var t := Apply(s, StartSend);
            t.start == Channels(s.sendCases + s.inbox) && t.got == multiset{} && t.nsent == 0 && t.gone == {}
  {
    hide Inv, Channels;
  }

  /** A send that took the lock in step j is in progress throughout, up to state i. */
  ghost predicate SendingSince(states: seq<State>, steps: seq<Step>, j: nat, i: nat)
  {
    && j < i <= |steps| < |states| && steps[j] == StartSend
    && forall k :: j < k <= i ==> !states[k].phase.Idle?
  }

  ghost predicate RemovedBetween(steps: seq<Step>, j: nat, i: nat, c: Chan)
  {
    exists k :: j < k < i && k < |steps| && steps[k] == SelectRemove(c)
  }

  lemma {:induction false} SendHistory(states: seq<State>, steps: seq<Step>, j: nat, i: nat, c: Chan)
    requires IsRun(states, steps) && SendingSince(states, steps, j, i)
    ensures var s := states[i];
            && s.start == Channels(states[j].sendCases + states[j].inbox)
            && s.got[c] == Received(states, steps, j + 1, i, c)
            && s.nsent == Deliveries(states, steps, j + 1, i)
            && (c in s.gone <==> RemovedBetween(steps, j, i, c))
    decreases i
  {
    hide Inv, Enabled, Channels, Apply;
    RunKeeps(states, steps, i - 1);
    assert Next(states[i - 1], steps[i - 1], states[i]);
    if i == j + 1 {
      StartRecords(states[j]);
    } else {
      SendHistory(states, steps, j, i - 1, c);
      StepRecords(states[i - 1], steps[i - 1]);
      RemovedStep(steps, j, i, c);
    }
  }

  lemma {:induction false} RemovedStep(steps: seq<Step>, j: nat, i: nat, c: Chan)
    requires j + 1 < i <= |steps|
    ensures RemovedBetween(steps, j, i, c) <==> RemovedBetween(steps, j, i - 1, c) || steps[i - 1] == SelectRemove(c)
  {
  }

  // ---------- Subscriptions ----------

  ghost predicate Unsubscribes(step: Step, c: Chan)
  {
    step == RemoveFromInbox(c) || step == RemoveIdle(c) || step == SelectRemove(c)
  }

  /** Before step j the channel was subscribed, and not removed since. */
  ghost predicate Subscribed(steps: seq<Step>, j: nat, c: Chan)
    requires j <= |steps|
  {
    exists i :: 0 <= i < j && steps[i] == Subscribe(c) && forall k :: i < k < j ==> !Unsubscribes(steps[k], c)
  }

  /** Before step j the removal of the channel was requested, and it was not removed since. */
  ghost predicate Leaving(steps: seq<Step>, j: nat, c: Chan)
    requires j <= |steps|
  {
    exists i :: 0 <= i < j && steps[i] == RequestRemove(c) && forall k :: i < k < j ==> !Unsubscribes(steps[k], c)
  }

  lemma {:induction false} SubscribedStep(steps: seq<Step>, j: nat, c: Chan)
    requires 0 < j <= |steps|
    ensures Subscribed(steps, j, c) <==>
              steps[j - 1] == Subscribe(c) || (Subscribed(steps, j - 1, c) && !Unsubscribes(steps[j - 1], c))
    ensures Leaving(steps, j, c) <==>
              steps[j - 1] == RequestRemove(c) || (Leaving(steps, j - 1, c) && !Unsubscribes(steps[j - 1], c))
  {
    if Subscribed(steps, j - 1, c) && !Unsubscribes(steps[j - 1], c) {
      var i :| 0 <= i < j - 1 && steps[i] == Subscribe(c) && forall k :: i < k < j - 1 ==> !Unsubscribes(steps[k], c);
      assert steps[i] == Subscribe(c) && forall k :: i < k < j ==> !Unsubscribes(steps[k], c);
    }
    if Leaving(steps, j - 1, c) && !Unsubscribes(steps[j - 1], c) {
      var i :| 0 <= i < j - 1 && steps[i] == RequestRemove(c) && forall k :: i < k < j - 1 ==> !Unsubscribes(steps[k], c);
      assert steps[i] == RequestRemove(c) && forall k :: i < k < j ==> !Unsubscribes(steps[k], c);
    }
  }

  /** What one step does to the channels on file and to those waiting for their removal. */
  lemma {:induction false} StepFiles(s: State, step: Step, c: Chan)
    requires Inv(s) && Enabled(s, step) && c != REMOVE_SUB
    ensures var t := Apply(s, step);
            && (Filed(t, c) <==> step == Subscribe(c) || (Filed(s, c) && !Unsubscribes(step, c)))
            && (c in t.removing <==> step == RequestRemove(c) || (c in s.removing && !Unsubscribes(step, c)))
  {
    hide Served, Deleted, Deactivated, Distinct;
    match step
    case RemoveFromInbox(ch) => DeletedMember(s.inbox, Find(s.inbox, ch));
    case RemoveIdle(ch) => DeletedMember(s.sendCases, Find(s.sendCases, ch));
    case SelectRemove(ch) => DeletedMember(s.sendCases, Find(s.sendCases, ch));
    case TrySend(ok) =>
      ServedSize(s, s.phase.active);
      if ok {
        DeactivatedMember(s.sendCases, s.phase.active, s.phase.i);
      }
    case SelectSend(k) =>
      ServedSize(s, s.phase.active);
      DeactivatedMember(s.sendCases, s.phase.active, k);
    case _ =>
  }

  ghost predicate Filed(s: State, c: Chan)
  {
    c in s.sendCases || c in s.inbox
  }

  /** In every state of every run the feed has on file exactly the channels that were subscribed and not removed since,
      and waits to remove exactly those whose removal was requested and has not happened since. */
  lemma {:induction false} SubscribedExact(states: seq<State>, steps: seq<Step>, j: nat, c: Chan)
    requires IsRun(states, steps) && j < |states| && c != REMOVE_SUB
    ensures Filed(states[j], c) <==> Subscribed(steps, j, c)
    ensures c in states[j].removing <==> Leaving(steps, j, c)
  {
    hide Inv, Enabled, Apply, Filed, Subscribed, Leaving;
    if j == 0 {
      NoneSubscribed(steps, c);
    } else {
      SubscribedExact(states, steps, j - 1, c);
      RunKeeps(states, steps, j - 1);
      assert Next(states[j - 1], steps[j - 1], states[j]);
      StepFiles(states[j - 1], steps[j - 1], c);
      SubscribedStep(steps, j, c);
    }
  }

  lemma {:induction false} NoneSubscribed(steps: seq<Step>, c: Chan)
    requires c != REMOVE_SUB
    ensures !Filed(INIT, c) && !Subscribed(steps, 0, c) && c !in INIT.removing && !Leaving(steps, 0, c)
  {
  }

  /** The reserved case is no channel, so nothing subscribes it. */
  lemma {:induction false} NeverReserved(states: seq<State>, steps: seq<Step>, j: nat)
    requires IsRun(states, steps) && j < |states|
    ensures !Subscribed(steps, j, REMOVE_SUB)
  {
    forall i | 0 <= i < j ensures steps[i] != Subscribe(REMOVE_SUB) {
      assert Next(states[i], steps[i], states[i + 1]);
    }
  }

  /** When Send returns, every channel that was subscribed before it took the lock, and not removed since, has got the
      value exactly once, unless it was removed meanwhile; then it has got it at most once. No other channel got it,
      and the result is the number of deliveries. */
  lemma {:induction false} ExactlyOnce(states: seq<State>, steps: seq<Step>, j: nat, i: nat, c: Chan)
    requires IsRun(states, steps) && SendingSince(states, steps, j, i)
    requires i < |steps| && steps[i] == EndTry && states[i].phase.Trying? && states[i].phase.active == 1
    ensures var received := Received(states, steps, j + 1, i, c);
            && received <= 1
            && (!Subscribed(steps, j, c) ==> received == 0)
            && (Subscribed(steps, j, c) && !RemovedBetween(steps, j, i, c) ==> received == 1)
            && states[i].nsent == Deliveries(states, steps, j + 1, i)
            && states[i + 1].phase == Idle && states[i + 1].nsent == states[i].nsent
  {
    hide Subscribed, Leaving;
    NeverReserved(states, steps, j);
    if c != REMOVE_SUB {
      SubscribedExact(states, steps, j, c);
    }
    SentOnce(states, steps, j, i, c);
  }

  lemma {:induction false} SentOnce(states: seq<State>, steps: seq<Step>, j: nat, i: nat, c: Chan)
    requires IsRun(states, steps) && SendingSince(states, steps, j, i)
    requires i < |steps| && steps[i] == EndTry && states[i].phase.Trying? && states[i].phase.active == 1
    ensures var filed := c in Channels(states[j].sendCases + states[j].inbox);
            var received := Received(states, steps, j + 1, i, c);
            && received <= 1
            && (!filed ==> received == 0)
            && (filed && !RemovedBetween(steps, j, i, c) ==> received == 1)
            && states[i].nsent == Deliveries(states, steps, j + 1, i)
            && states[i + 1].phase == Idle && states[i + 1].nsent == states[i].nsent
  {
    RunKeeps(states, steps, i);
    SendHistory(states, steps, j, i, c);
    assert Next(states[i], steps[i], states[i + 1]);
    hide IsRun, SendingSince, RemovedBetween, Received, Deliveries, Distinct;
    var s := states[i];
    assert Served(s, 1);
    if c in s.sendCases && c != REMOVE_SUB {
      var k :| 0 <= k < |s.sendCases| && s.sendCases[k] == c;
    }
  }

  /** Every try uses up one of the cases still to be tried, and only when none is left are tries over: Send returns if
      all were served, and waits for the others otherwise. A delivery or a removal starts the tries anew. */
  lemma {:induction false} TriesEnd(s: State, step: Step)
    requires Inv(s) && Enabled(s, step) && !s.phase.Idle?
    ensures var t := Apply(s, step);
            && (step.TrySend? ==> t.phase.Trying? && t.phase.active - t.phase.i == s.phase.active - s.phase.i - 1
                                  && t.phase.active == if step.ok then s.phase.active - 1 else s.phase.active)
            && (step.EndTry? ==> s.phase.i == s.phase.active && t.phase == if s.phase.active == 1 then Idle else Selecting(s.phase.active))
            && (step.SelectSend? ==> t.phase == Trying(s.phase.active - 1, 1))
            && (step.SelectRemove? ==> t.phase.Trying? && t.phase.i == 1)
  {
    hide Served, Lists, Deleted, Deactivated;
  }

  /** At any moment of a send, the channels still to be served are the active prefix behind removeSub. */
  lemma {:induction false} UnservedPrefix(states: seq<State>, steps: seq<Step>, j: nat, i: nat, k: nat)
    requires IsRun(states, steps) && SendingSince(states, steps, j, i)
    requires 1 <= k < |states[i].sendCases|
    ensures states[i].sendCases[0] == REMOVE_SUB
    ensures Received(states, steps, j + 1, i, states[i].sendCases[k]) == if k < states[i].phase.active then 0 else 1
  {
    RunKeeps(states, steps, i);
    SendHistory(states, steps, j, i, states[i].sendCases[k]);
  }
}
