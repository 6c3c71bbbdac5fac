/**
 setDevices as it really runs: many workers serve reports for one user, each one
 a sequence of Redis commands, interleaved with clock ticks and with removals that
 take no lock. Every Redis command is one atomic step. The lock is the key
 "device:set_lock:<user>", taken with NX and an expiry of 8 seconds and deleted
 without checking who holds it.
 */
module DeviceLock {
  import opened Options
  import opened DeviceFields
  import opened DeviceAdmission

  /** Seconds after which Redis drops the lock by itself. */
  const LOCK_SECONDS := 8

  /** Where a worker is inside setDevices; fields are the local variables it holds. */
  datatype Phase =
    | Waiting                                               // before SET NX EX
    | Locked                                                // lock taken
    | Timed(ts: int)                                        // $timestamp read
    | Listed(ts: int, data: Devices)                        // allowed hash fetched
    | Captured(ts: int, preferred: seq<string>)             // live winners filtered out of it
    | Removing(ts: int, preferred: seq<string>, todo: set<Entry>)
    | RemovingReported(ts: int, preferred: seq<string>, todo: set<Entry>)
    | Reported(ts: int, preferred: seq<string>)             // report written
    | ListedReported(ts: int, preferred: seq<string>, data: Devices)
    | Decided(ts: int, preferred: seq<string>, admitted: seq<string>)
    | Written                                               // allowed hash written
    | Done

  /** A worker serving one report; deadline is when its lock expires. */
  datatype Worker = Worker(node: int, ips: seq<string>, phase: Phase, deadline: int)

  datatype World = World(clock: int, allowed: Devices, reported: Devices, lock: Option<int>, workers: map<int, Worker>)

  /** One command, or one local step, of setDevices. */
  datatype Command =
    | Acquire
    | ReadTime
    | FetchAllowed
    | Capture(order: seq<string>)
    | ListOwn
    | DeleteOwn(entry: Entry)
    | ListOwnReported
    | DeleteOwnReported(entry: Entry)
    | WriteReported
    | FetchReported
    | Decide
    | WriteAllowed
    | Release
    | Abort    // an exception anywhere in the section: finally releases the lock

  datatype Action =
    | Arrive(w: int, node: int, ips: seq<string>)
    | Act(w: int, command: Command)
    | Tick(now: int)
    | Unlocked(entry: Entry)           // a removal without the lock, from the allowed hash
    | UnlockedReported(entry: Entry)   // and from the reported hash

  predicate LockFree(w: World)
  {
    w.lock.None? || w.clock >= w.lock.value
  }

  function OwnEntries(h: Devices, node: int): set<Entry>
  {
    set e | e in h && e.node == node
  }

  /** The phase a command starts from. */
  predicate Ready(x: Worker, clock: int, c: Command)
  {
    match c
    case Acquire => x.phase.Waiting?
    case ReadTime => x.phase.Locked?
    case FetchAllowed => x.phase.Timed?
    case Capture(order) => x.phase.Listed? && IsListing(order, LiveIps(x.phase.data, clock))
    case ListOwn => x.phase.Captured?
    case DeleteOwn(entry) => x.phase.Removing? && entry in x.phase.todo
    case ListOwnReported => x.phase.Removing? && x.phase.todo == {}
    case DeleteOwnReported(entry) => x.phase.RemovingReported? && entry in x.phase.todo
    case WriteReported => x.phase.RemovingReported? && x.phase.todo == {}
    case FetchReported => x.phase.Reported?
    case Decide => x.phase.ListedReported?
    case WriteAllowed => x.phase.Decided?
    case Release => x.phase.Written?
    case Abort => InSection(x)
  }

  predicate Enabled(w: World, a: Action)
  {
    match a
    case Arrive(x, _, ips) => x !in w.workers && NoDuplicates(ips)
    case Act(x, c) => x in w.workers && Ready(w.workers[x], w.clock, c)
    case Tick(now) => now >= w.clock
    case Unlocked(_) => true
    case UnlockedReported(_) => true
  }

  /** The next phase of the acting worker. */
  function NextPhase(w: World, x: Worker, c: Command, limit: int): Phase
    requires Ready(x, w.clock, c)
  {
    match c
    case Acquire => if LockFree(w) then Locked else Done
    case ReadTime => Timed(w.clock)
    case FetchAllowed => Listed(x.phase.ts, w.allowed)
    case Capture(order) => Captured(x.phase.ts, order)
    case ListOwn => Removing(x.phase.ts, x.phase.preferred, OwnEntries(w.allowed, x.node))
    case DeleteOwn(entry) => Removing(x.phase.ts, x.phase.preferred, x.phase.todo - {entry})
    case ListOwnReported => RemovingReported(x.phase.ts, x.phase.preferred, OwnEntries(w.reported, x.node))
    case DeleteOwnReported(entry) => RemovingReported(x.phase.ts, x.phase.preferred, x.phase.todo - {entry})
    case WriteReported => Reported(x.phase.ts, x.phase.preferred)
    case FetchReported => ListedReported(x.phase.ts, x.phase.preferred, w.reported)
    case Decide =>
      Decided(x.phase.ts, x.phase.preferred,
              Admit(x.ips, x.phase.preferred, LiveIps(x.phase.data, w.clock), limit))
    case WriteAllowed => Written
    case Release => Done
    case Abort => Done
  }

  function AllowedNext(w: World, x: Worker, c: Command): Devices
    requires Ready(x, w.clock, c)
  {
    match c
    case DeleteOwn(entry) => w.allowed - {entry}
    case WriteAllowed => Stamp(w.allowed, x.node, x.phase.admitted, x.phase.ts)
    case _ => w.allowed
  }

  function ReportedNext(w: World, x: Worker, c: Command): Devices
    requires Ready(x, w.clock, c)
  {
    match c
    case DeleteOwnReported(entry) => w.reported - {entry}
    case WriteReported => Stamp(w.reported, x.node, x.ips, x.phase.ts)
    case _ => w.reported
  }

  /** A free lock is taken for 8 seconds; releasing deletes the key, whoever holds it. */
  function LockNext(w: World, c: Command): Option<int>
  {
    if c.Acquire? && LockFree(w) then Some(w.clock + LOCK_SECONDS)
    else if c.Release? || c.Abort? then None
    else w.lock
  }

  function Do(w: World, a: Action, limit: int): World
    requires Enabled(w, a)
  {
    match a
    case Arrive(i, node, ips) => w.(workers := w.workers[i := Worker(node, ips, Waiting, w.clock)])
    case Act(i, c) =>
      var x := w.workers[i];
      var deadline := if c.Acquire? && LockFree(w) then w.clock + LOCK_SECONDS else x.deadline;
      World(w.clock, AllowedNext(w, x, c), ReportedNext(w, x, c), LockNext(w, c),
            w.workers[i := Worker(x.node, x.ips, NextPhase(w, x, c, limit), deadline)])
    case Tick(now) => w.(clock := now)
    case Unlocked(entry) => w.(allowed := w.allowed - {entry})
    case UnlockedReported(entry) => w.(reported := w.reported - {entry})
  }

  /** Inside the critical section. */
  predicate InSection(x: Worker)
  {
    !x.phase.Waiting? && !x.phase.Done?
  }

  /** No lock has expired under a worker that still relies on it. */
  predicate InTime(w: World)
  {
    forall i :: i in w.workers && InSection(w.workers[i]) ==> w.clock < w.workers[i].deadline
  }

  function Run(w: World, actions: seq<Action>, limit: int): World
    requires Possible(w, actions, limit)
    decreases |actions|
  {
    if actions == [] then w else Run(Do(w, actions[0], limit), actions[1..], limit)
  }

  predicate Possible(w: World, actions: seq<Action>, limit: int)
    decreases |actions|
  {
    actions == [] || (Enabled(w, actions[0]) && Possible(Do(w, actions[0], limit), actions[1..], limit))
  }

  /** No lock expires inside a section anywhere along the run. */
  predicate AlwaysInTime(w: World, actions: seq<Action>, limit: int)
    requires Possible(w, actions, limit)
    decreases |actions|
  {
    InTime(w) && (actions != [] ==> AlwaysInTime(Do(w, actions[0], limit), actions[1..], limit))
  }

  // ---------- the invariant ----------

  predicate Within(h: Devices, data: Devices)
  {
    forall e :: e in h ==> e in data && data[e] == h[e]
  }

  /** What a worker in the section knows about the allowed hash. */
  predicate Knows(phase: Phase, allowed: Devices, clock: int, limit: int)
  {
    match phase
    case Listed(_, data) => Within(allowed, data) && |LiveIps(data, clock)| <= limit
    case Captured(_, preferred) => Fits(preferred, allowed, clock, limit)
    case Removing(_, preferred, _) => Fits(preferred, allowed, clock, limit)
    case RemovingReported(_, preferred, _) => Fits(preferred, allowed, clock, limit)
    case Reported(_, preferred) => Fits(preferred, allowed, clock, limit)
    case ListedReported(_, preferred, _) => Fits(preferred, allowed, clock, limit)
    case Decided(_, preferred, admitted) =>
      Fits(preferred, allowed, clock, limit) && |ToSet(preferred) + ToSet(admitted)| <= limit
    case _ => true
  }

  predicate Fits(preferred: seq<string>, allowed: Devices, clock: int, limit: int)
  {
    NoDuplicates(preferred) && |preferred| <= limit && LiveIps(allowed, clock) <= ToSet(preferred)
  }

  predicate Exclusive(w: World)
  {
    && (forall i :: i in w.workers && InSection(w.workers[i]) ==> w.lock == Some(w.workers[i].deadline))
    && (forall i, j :: i in w.workers && j in w.workers && InSection(w.workers[i]) && InSection(w.workers[j]) ==>
          i == j)
  }

  predicate Informed(w: World, limit: int)
  {
    forall i :: i in w.workers ==> Knows(w.workers[i].phase, w.allowed, w.clock, limit)
  }

  predicate Safe(w: World, limit: int)
  {
    |LiveIps(w.allowed, w.clock)| <= limit && Exclusive(w) && Informed(w, limit)
  }

  /** Knowledge survives removals and ticks. */
  lemma KnowsLess(phase: Phase, h: Devices, h': Devices, clock: int, clock': int, limit: int)
    requires Knows(phase, h, clock, limit) && Within(h', h) && clock <= clock'
    ensures Knows(phase, h', clock', limit)
  {
    LiveShrinks(h, h', clock, clock');
    if phase.Listed? {
      LiveShrinks(phase.data, phase.data, clock, clock');
      SubsetSize(LiveIps(phase.data, clock'), LiveIps(phase.data, clock));
    }
  }

  /** Mutual exclusion, as long as the lock has not expired under its holder. */
  lemma ExclusiveKept(w: World, a: Action, limit: int)
    requires Enabled(w, a) && Exclusive(w) && InTime(w)
    ensures Exclusive(Do(w, a, limit))
  {
    assert LockFree(w) ==> forall i :: i in w.workers ==> !InSection(w.workers[i]);
  }

  /** The acting worker's knowledge after its own step. */
  lemma ActorKnows(w: World, i: int, c: Command, limit: int)
    requires Enabled(w, Act(i, c)) && Safe(w, limit) && limit > 0
    ensures Knows(NextPhase(w, w.workers[i], c, limit), AllowedNext(w, w.workers[i], c), w.clock, limit)
  {
    var x := w.workers[i];
    assert Knows(x.phase, w.allowed, w.clock, limit);
    match c {
      case Capture(order) =>
        ListingSize(order);
        LiveShrinks(x.phase.data, w.allowed, w.clock, w.clock);
      case DeleteOwn(entry) =>
        LiveShrinks(w.allowed, w.allowed - {entry}, w.clock, w.clock);
      case Decide =>
        AdmitBound(x.ips, x.phase.preferred, LiveIps(x.phase.data, w.clock), limit);
      case _ =>
    }
  }

  /** Writing the admitted addresses keeps the bound, because the winners were captured under the lock. */
  lemma WriteBounded(w: World, i: int, limit: int)
    requires Enabled(w, Act(i, WriteAllowed)) && Safe(w, limit)
    ensures |LiveIps(AllowedNext(w, w.workers[i], WriteAllowed), w.clock)| <= limit
  {
    var x := w.workers[i];
    assert Knows(x.phase, w.allowed, w.clock, limit);
    StampAddsOnly(w.allowed, x.node, x.phase.admitted, x.phase.ts, w.clock);
    SubsetSize(LiveIps(AllowedNext(w, x, WriteAllowed), w.clock), ToSet(x.phase.preferred) + ToSet(x.phase.admitted));
  }

  lemma StampAddsOnly(h: Devices, node: int, ips: seq<string>, ts: int, now: int)
    ensures LiveIps(Stamp(h, node, ips, ts), now) <= LiveIps(h, now) + ToSet(ips)
  {
    var s := Stamp(h, node, ips, ts);
    forall ip | ip in LiveIps(s, now)
      ensures ip in LiveIps(h, now) + ToSet(ips)
    {
      var e :| e in s && IsLive(s, e, now) && e.ip == ip;
      if e !in EntriesOf(node, ips) {
        assert IsLive(h, e, now);
      }
    }
  }

  predicate WritesAllowed(a: Action)
  {
    a.Act? && a.command.WriteAllowed?
  }

  /** A step that writes nothing to the allowed hash only shrinks it. */
  lemma NonWriting(w: World, a: Action, limit: int)
    requires Enabled(w, a) && !WritesAllowed(a)
    ensures Within(Do(w, a, limit).allowed, w.allowed) && w.clock <= Do(w, a, limit).clock
  {
  }

  lemma OthersKnow(w: World, a: Action, i: int, limit: int)
    requires Enabled(w, a) && Safe(w, limit) && limit > 0
    requires i in Do(w, a, limit).workers && !(a.Act? && i == a.w)
    ensures Knows(Do(w, a, limit).workers[i].phase, Do(w, a, limit).allowed, Do(w, a, limit).clock, limit)
  {
    if i in w.workers {
      assert Knows(w.workers[i].phase, w.allowed, w.clock, limit);
      if WritesAllowed(a) {
        assert InSection(w.workers[a.w]);
        assert !InSection(w.workers[i]);
      } else {
        NonWriting(w, a, limit);
        var w' := Do(w, a, limit);
        KnowsLess(w.workers[i].phase, w.allowed, w'.allowed, w.clock, w'.clock, limit);
      }
    }
  }

  lemma SafeStep(w: World, a: Action, limit: int)
    requires limit > 0 && Enabled(w, a) && Safe(w, limit) && InTime(w)
    ensures Safe(Do(w, a, limit), limit)
  {
    var w' := Do(w, a, limit);
    ExclusiveKept(w, a, limit);
    if WritesAllowed(a) {
      WriteBounded(w, a.w, limit);
    } else {
      NonWriting(w, a, limit);
      LiveShrinks(w.allowed, w'.allowed, w.clock, w'.clock);
      SubsetSize(LiveIps(w'.allowed, w'.clock), LiveIps(w.allowed, w.clock));
    }
    forall i | i in w'.workers
      ensures Knows(w'.workers[i].phase, w'.allowed, w'.clock, limit)
    {
      if a.Act? && i == a.w {
        ActorKnows(w, i, a.command, limit);
      } else {
        OthersKnow(w, a, i, limit);
      }
    }
  }

  /**
   The device limit is global: however the Redis commands of any number of
   concurrent reports interleave with unlocked removals and clock ticks, no state
   has more than the limit of live addresses, as long as no lock expires inside
   its section.
   */
  lemma {:induction false} LimitHoldsUnderInterleaving(w: World, actions: seq<Action>, limit: int)
    requires limit > 0 && Safe(w, limit)
    requires Possible(w, actions, limit) && AlwaysInTime(w, actions, limit)
    ensures Safe(Run(w, actions, limit), limit)
    ensures |LiveIps(Run(w, actions, limit).allowed, Run(w, actions, limit).clock)| <= limit
    decreases |actions|
  {
    if actions != [] {
      SafeStep(w, actions[0], limit);
      LimitHoldsUnderInterleaving(Do(w, actions[0], limit), actions[1..], limit);
    }
  }

  /** The empty store is a safe starting point. */
  lemma EmptyIsSafe(clock: int, limit: int)
    requires limit >= 0
    ensures Safe(World(clock, map[], map[], None, map[]), limit)
  {
    assert LiveIps(map[], clock) == {};
  }

  // ---------- who may take the lock ----------

  /** Whenever the lock key exists, some worker is in its section: finished and aborted sections leave no key behind. */
  predicate LockHasWorker(w: World)
  {
    w.lock.Some? ==> exists i :: i in w.workers && InSection(w.workers[i])
  }

  lemma LockHasWorkerStep(w: World, a: Action, limit: int)
    requires Enabled(w, a) && LockHasWorker(w)
    ensures LockHasWorker(Do(w, a, limit))
  {
    var w' := Do(w, a, limit);
    if w'.lock.Some? {
      if a.Act? && a.command.Acquire? && LockFree(w) {
        assert InSection(w'.workers[a.w]);
      } else {
        var i :| i in w.workers && InSection(w.workers[i]);
        assert i in w'.workers && InSection(w'.workers[i]);
      }
    }
  }

  /**
   So in every run a report is skipped only while another worker is in its section, and
   with the section empty the lock is free.
   */
  lemma {:induction false} LockHasWorkerAlways(w: World, actions: seq<Action>, limit: int)
    requires Possible(w, actions, limit) && LockHasWorker(w)
    ensures LockHasWorker(Run(w, actions, limit))
    ensures (forall i :: i in Run(w, actions, limit).workers ==> !InSection(Run(w, actions, limit).workers[i]))
        ==> LockFree(Run(w, actions, limit))
    decreases |actions|
  {
    if actions != [] {
      LockHasWorkerStep(w, actions[0], limit);
      LockHasWorkerAlways(Do(w, actions[0], limit), actions[1..], limit);
    }
  }

  /** What an attempt at the lock leads to: the section, or the end without a trace. */
  lemma AttemptAtLock(w: World, i: int, limit: int)
    requires Enabled(w, Act(i, Acquire))
    ensures var w' := Do(w, Act(i, Acquire), limit);
            && w'.allowed == w.allowed && w'.reported == w.reported && w'.clock == w.clock
            && (if LockFree(w) then w'.workers[i].phase == Locked && w'.lock == Some(w.clock + 8)
                else w'.workers[i].phase == Done && w'.lock == w.lock)
  {
  }

  // ---------- an uninterrupted section is one atomic report ----------

  /** A step of worker i that goes on without an exception, listing the winners in the given order. */
  predicate OwnStep(a: Action, i: int, order: seq<string>)
  {
    a.Act? && a.w == i && !a.command.Abort? && (a.command.Capture? ==> a.command.order == order)
  }

  /** h is h0 with only the node's entries outside todo removed. */
  predicate PartlyRemoved(h: Devices, h0: Devices, node: int, todo: set<Entry>)
  {
    && Within(h, h0)
    && (forall e :: e in h0 && (e.node != node || e in todo) ==> e in h)
    && (forall e :: e in h ==> e.node != node || e in todo)
    && (forall e :: e in todo ==> e.node == node)
  }

  /** How far the section of one undisturbed worker has come, from its phase. */
  predicate Progress(x: Worker, w: World, w0: World, order: seq<string>, limit: int)
  {
    var now, node := w0.clock, x.node;
    var stored := ReportedAfter(w0.reported, node, x.ips, now);
    match x.phase
    case Waiting => w.allowed == w0.allowed && w.reported == w0.reported
    case Locked => w.allowed == w0.allowed && w.reported == w0.reported
    case Timed(ts) => ts == now && w.allowed == w0.allowed && w.reported == w0.reported
    case Listed(ts, data) => ts == now && w.allowed == data == w0.allowed && w.reported == w0.reported
    case Captured(ts, preferred) =>
      ts == now && preferred == order && w.allowed == w0.allowed && w.reported == w0.reported
    case Removing(ts, preferred, todo) =>
      ts == now && preferred == order && PartlyRemoved(w.allowed, w0.allowed, node, todo) && w.reported == w0.reported
    case RemovingReported(ts, preferred, todo) =>
      ts == now && preferred == order && w.allowed == WithoutNode(w0.allowed, node)
      && PartlyRemoved(w.reported, w0.reported, node, todo)
    case Reported(ts, preferred) =>
      ts == now && preferred == order && w.allowed == WithoutNode(w0.allowed, node) && w.reported == stored
    case ListedReported(ts, preferred, data) =>
      ts == now && preferred == order && w.allowed == WithoutNode(w0.allowed, node) && w.reported == stored == data
    case Decided(ts, preferred, admitted) =>
      ts == now && w.allowed == WithoutNode(w0.allowed, node) && w.reported == stored
      && admitted == Admit(x.ips, order, LiveIps(stored, now), limit)
    case Written => Finished(x, w, w0, order, limit)
    case Done => Finished(x, w, w0, order, limit)
  }

  /** The outcome of the atomic report. */
  predicate Finished(x: Worker, w: World, w0: World, order: seq<string>, limit: int)
  {
    w.allowed == AllowedAfter(w0.allowed, w0.reported, x.node, x.ips, order, w0.clock, limit)
    && w.reported == ReportedAfter(w0.reported, x.node, x.ips, w0.clock)
  }

  lemma RemovedAll(h: Devices, h0: Devices, node: int)
    requires PartlyRemoved(h, h0, node, {})
    ensures h == WithoutNode(h0, node)
  {
  }

  /** The commands of the two deleting loops, and the listing before the first. */
  predicate Deletes(c: Command)
  {
    c.ListOwn? || c.DeleteOwn? || c.DeleteOwnReported?
  }

  lemma ProgressStep(w: World, w0: World, i: int, c: Command, order: seq<string>, limit: int)
    requires Enabled(w, Act(i, c)) && w.clock == w0.clock && !c.Abort? && (c.Capture? ==> c.order == order)
    requires c.Acquire? ==> LockFree(w)
    requires Progress(w.workers[i], w, w0, order, limit)
    ensures var w' := Do(w, Act(i, c), limit);
            w'.clock == w0.clock && Progress(w'.workers[i], w', w0, order, limit)
            && w'.workers[i].node == w.workers[i].node && w'.workers[i].ips == w.workers[i].ips
  {
    if Deletes(c) {
      DeleteStep(w, w0, i, c, order, limit);
    } else {
      match c {
        case ListOwnReported => RemovedAll(w.allowed, w0.allowed, w.workers[i].node);
        case WriteReported => RemovedAll(w.reported, w0.reported, w.workers[i].node);
        case _ =>
      }
    }
  }

  lemma DeleteStep(w: World, w0: World, i: int, c: Command, order: seq<string>, limit: int)
    requires Enabled(w, Act(i, c)) && w.clock == w0.clock && Deletes(c)
    requires Progress(w.workers[i], w, w0, order, limit)
    ensures var w' := Do(w, Act(i, c), limit);
            w'.clock == w0.clock && Progress(w'.workers[i], w', w0, order, limit)
            && w'.workers[i].node == w.workers[i].node && w'.workers[i].ips == w.workers[i].ips
  {
  }

  /**
   Refinement: a section whose commands run without interruption, until the lock is
   released, has exactly the effect of one atomic setDevices.
   */
  lemma {:induction false} SectionIsAtomic(w: World, w0: World, actions: seq<Action>, i: int,
                                           order: seq<string>, limit: int)
    requires Possible(w, actions, limit) && i in w.workers && w.clock == w0.clock
    requires forall k :: 0 <= k < |actions| ==> OwnStep(actions[k], i, order)
    requires w.workers[i].phase.Waiting? ==> LockFree(w)
    requires Progress(w.workers[i], w, w0, order, limit)
    ensures var w' := Run(w, actions, limit);
            i in w'.workers && (w'.workers[i].phase.Done? ==> Finished(w.workers[i], w', w0, order, limit))
    decreases |actions|
  {
    if actions != [] {
      assert OwnStep(actions[0], i, order);
      ProgressStep(w, w0, i, actions[0].command, order, limit);
      var w1 := Do(w, actions[0], limit);
      assert forall k :: 0 <= k < |actions[1..]| ==> actions[1..][k] == actions[k + 1];
      SectionIsAtomic(w1, w0, actions[1..], i, order, limit);
    }
  }

  // ---------- why the lock must outlive the section ----------

  /** w' is the outcome of some run from w. */
  ghost predicate Reaches(w: World, w': World, limit: int)
  {
    exists actions :: Possible(w, actions, limit) && Run(w, actions, limit) == w'
  }

  lemma {:induction false} RunOneMore(w: World, actions: seq<Action>, a: Action, limit: int)
    requires Possible(w, actions, limit) && Enabled(Run(w, actions, limit), a)
    ensures Possible(w, actions + [a], limit)
    ensures Run(w, actions + [a], limit) == Do(Run(w, actions, limit), a, limit)
    decreases |actions|
  {
    if actions == [] {
      assert [] + [a] == [a] && [a][1..] == [];
    } else {
      assert (actions + [a])[1..] == actions[1..] + [a];
      RunOneMore(Do(w, actions[0], limit), actions[1..], a, limit);
    }
  }

  /** Extends a run by one step. */
  lemma Extend(w0: World, w: World, a: Action, limit: int) returns (w': World)
    requires Reaches(w0, w, limit) && Enabled(w, a)
    ensures Reaches(w0, w', limit) && w' == Do(w, a, limit)
  {
    var actions :| Possible(w0, actions, limit) && Run(w0, actions, limit) == w;
    RunOneMore(w0, actions, a, limit);
    w' := Do(w, a, limit);
  }

  /** A worker may always arrive and, when the lock is free, take it. */
  lemma CanLock(w0: World, w: World, i: int, node: int, ips: seq<string>, limit: int) returns (w': World)
    requires Reaches(w0, w, limit) && i !in w.workers && NoDuplicates(ips) && LockFree(w)
    ensures Reaches(w0, w', limit)
    ensures w' == w.(lock := Some(w.clock + LOCK_SECONDS),
                     workers := w.workers[i := Worker(node, ips, Locked, w.clock + LOCK_SECONDS)])
  {
    var w1 := Extend(w0, w, Arrive(i, node, ips), limit);
    w' := Extend(w0, w1, Act(i, Acquire), limit);
  }

  /** A locked worker can capture the winners. */
  lemma CanCapture(w0: World, w: World, i: int, order: seq<string>, limit: int) returns (w': World)
    requires Reaches(w0, w, limit) && i in w.workers && w.workers[i].phase == Locked
    requires IsListing(order, LiveIps(w.allowed, w.clock))
    ensures Reaches(w0, w', limit)
    ensures w' == w.(workers := w.workers[i := w.workers[i].(phase := Captured(w.clock, order))])
  {
    var w1 := Extend(w0, w, Act(i, ReadTime), limit);
    var w2 := Extend(w0, w1, Act(i, FetchAllowed), limit);
    w' := Extend(w0, w2, Act(i, Capture(order)), limit);
  }

  /** A worker whose node has no entries yet can write its report. */
  lemma CanReport(w0: World, w: World, i: int, limit: int) returns (w': World)
    requires Reaches(w0, w, limit) && i in w.workers && w.workers[i].phase.Captured?
    requires OwnEntries(w.allowed, w.workers[i].node) == {} == OwnEntries(w.reported, w.workers[i].node)
    ensures Reaches(w0, w', limit)
    ensures var x := w.workers[i];
            w' == w.(reported := Stamp(w.reported, x.node, x.ips, x.phase.ts),
                     workers := w.workers[i := x.(phase := Reported(x.phase.ts, x.phase.preferred))])
  {
    var w1 := Extend(w0, w, Act(i, ListOwn), limit);
    var w2 := Extend(w0, w1, Act(i, ListOwnReported), limit);
    w' := Extend(w0, w2, Act(i, WriteReported), limit);
  }

  /** And then write what the admission rule leaves of it. */
  lemma CanWrite(w0: World, w: World, i: int, limit: int) returns (w': World)
    requires Reaches(w0, w, limit) && i in w.workers && w.workers[i].phase.Reported?
    ensures Reaches(w0, w', limit)
    ensures var x := w.workers[i];
            w' == w.(allowed := Stamp(w.allowed, x.node,
                                      Admit(x.ips, x.phase.preferred, LiveIps(w.reported, w.clock), limit), x.phase.ts),
                     workers := w.workers[i := x.(phase := Written)])
  {
    var w1 := Extend(w0, w, Act(i, FetchReported), limit);
    var w2 := Extend(w0, w1, Act(i, Decide), limit);
    w' := Extend(w0, w2, Act(i, WriteAllowed), limit);
  }

  /** With no winners and limit 1, a single live address is admitted. */
  lemma AdmitFirst(ip: string, alive: set<string>)
    requires ip in alive
    ensures Admit([ip], [], alive, 1) == [ip]
  {
    assert [ip][..0] == [];
    assert Fill([], [ip], alive, 1) == [ip];
    assert ip in ToSet([ip]);
    assert KeepOnly([], ToSet([ip])) == [];
  }

  /** A worker that captured no winners adds its address, whoever else was admitted since. */
  lemma AddsItsAddress(w0: World, w: World, i: int, ip: string) returns (w': World)
    requires Reaches(w0, w, 1) && i in w.workers
    requires w.workers[i].phase.Captured? && w.workers[i].phase.preferred == [] && w.workers[i].ips == [ip]
    requires w.workers[i].phase.ts <= w.clock <= w.workers[i].phase.ts + TTL
    requires OwnEntries(w.allowed, w.workers[i].node) == {} == OwnEntries(w.reported, w.workers[i].node)
    ensures Reaches(w0, w', 1) && w'.clock == w.clock && w'.lock == w.lock
    ensures w'.allowed == w.allowed[Entry(w.workers[i].node, ip) := w.workers[i].phase.ts]
    ensures w'.reported == w.reported[Entry(w.workers[i].node, ip) := w.workers[i].phase.ts]
    ensures w'.workers == w.workers[i := w.workers[i].(phase := Written)]
  {
    var x := w.workers[i];
    var w1 := CanReport(w0, w, i, 1);
    StampOne(w.reported, x.node, ip, x.phase.ts);
    assert IsLive(w1.reported, Entry(x.node, ip), w.clock);
    AdmitFirst(ip, LiveIps(w1.reported, w.clock));
    w' := CanWrite(w0, w1, i, 1);
    StampOne(w.allowed, x.node, ip, x.phase.ts);
  }

  lemma StampOne(h: Devices, node: int, ip: string, ts: int)
    ensures Stamp(h, node, [ip], ts) == h[Entry(node, ip) := ts]
  {
    assert EntriesOf(node, [ip]) == {Entry(node, ip)};
  }

  const START := World(0, map[], map[], None, map[])

  /** Worker 1 of node 1 has captured its winners, none, and its lock has just expired. */
  const STALLED := World(8, map[], map[], Some(8), map[1 := Worker(1, ["A"], Captured(0, []), 8)])

  lemma ReachStalled()
    ensures Reaches(START, STALLED, 1)
  {
    assert Run(START, [], 1) == START;
    assert LiveIps(map[], 0) == {} == ToSet([]);
    var w1 := CanLock(START, START, 1, 1, ["A"], 1);
    var w2 := CanCapture(START, w1, 1, [], 1);
    var w3 := Extend(START, w2, Tick(8), 1);
  }

  lemma ReachOvertaken() returns (w: World)
    ensures Reaches(START, w, 1) && w.clock == 8
    ensures w.allowed == w.reported == map[Entry(2, "B") := 8]
    ensures 1 in w.workers && w.workers[1] == STALLED.workers[1]
  {
    ReachStalled();
    assert LiveIps(map[], 8) == {} == ToSet([]);
    var w1 := CanLock(START, STALLED, 2, 2, ["B"], 1);
    var w2 := CanCapture(START, w1, 2, [], 1);
    w := AddsItsAddress(START, w2, 2, "B");
  }

  lemma TwoLive(now: int)
    requires 8 <= now <= 300
    ensures |LiveIps(map[Entry(2, "B") := 8, Entry(1, "A") := 0], now)| == 2
  {
    var h := map[Entry(2, "B") := 8, Entry(1, "A") := 0];
    assert IsLive(h, Entry(1, "A"), now) && IsLive(h, Entry(2, "B"), now);
    assert LiveIps(h, now) == {"A", "B"};
  }

  /**
   Without that assumption the bound fails: worker 1 captures the (empty) winners
   and stalls for 8 seconds, worker 2 of another node writes its report, worker 1
   goes on. Limit 1, two live addresses.
   */
  lemma ExpiredLockBreaksLimit() returns (w: World)
    ensures Reaches(World(0, map[], map[], None, map[]), w, 1)
    ensures |LiveIps(w.allowed, w.clock)| == 2
  {
    var w1 := ReachOvertaken();
    w := AddsItsAddress(START, w1, 1, "A");
    TwoLive(8);
    assert w.allowed == map[Entry(2, "B") := 8, Entry(1, "A") := 0];
  }
}
