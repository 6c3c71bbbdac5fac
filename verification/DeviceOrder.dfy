/**
 Concurrent reports take effect in the order in which their workers hold the lock: as
 long as sections are not disturbed, a run of interleaved Redis commands ends in the
 stores of a serial run, and what holds of serial runs carries over.
 */
module DeviceOrder {
  import opened Options
  import opened DeviceFields
  import opened DeviceAdmission
  import opened DeviceLock
  import Serial = DeviceRuns

  /** In the section with the report not yet complete. */
  predicate Busy(x: Worker)
  {
    InSection(x) && !x.phase.Written?
  }

  predicate Idle(w: World)
  {
    forall i :: i in w.workers ==> !Busy(w.workers[i])
  }

  /**
   Actions that do not disturb a section: any command of any worker, failed attempts at
   the lock and arrivals at any time; ticks only between sections. Removals without the
   lock and exceptions are left out.
   */
  predicate Undisturbed(w: World, a: Action)
  {
    match a
    case Arrive(_, _, _) => true
    case Act(_, c) => !c.Abort?
    case Tick(_) => forall i :: i in w.workers ==> !InSection(w.workers[i])
    case _ => false
  }

  predicate UndisturbedRun(w: World, actions: seq<Action>, limit: int)
    requires Possible(w, actions, limit)
    decreases |actions|
  {
    actions == [] || (Undisturbed(w, actions[0]) && UndisturbedRun(Do(w, actions[0], limit), actions[1..], limit))
  }

  /** The report an action completes: the lock holder writes the allowed hash. */
  function Completed(w: World, a: Action): seq<Serial.Event>
    requires Enabled(w, a)
  {
    if a.Act? && a.command.WriteAllowed? then
      var x := w.workers[a.w];
      [Serial.Report(x.node, x.ips, x.phase.preferred, w.clock)]
    else []
  }

  /** The reports of a run in lock order. */
  function Reports(w: World, actions: seq<Action>, limit: int): seq<Serial.Event>
    requires Possible(w, actions, limit)
    decreases |actions|
  {
    if actions == [] then [] else Completed(w, actions[0]) + Reports(Do(w, actions[0], limit), actions[1..], limit)
  }

  // ---------- the serial stores behind a concurrent state ----------

  /** The world at the beginning of the present section. */
  function Base(st: Serial.Store, clock: int): World
  {
    World(clock, st.allowed, st.reported, None, map[])
  }

  /** The winners a phase carries along. */
  predicate HasOrder(phase: Phase)
  {
    phase.Captured? || phase.Removing? || phase.RemovingReported? || phase.Reported? || phase.ListedReported?
    || phase.Decided?
  }

  function OrderOf(phase: Phase): seq<string>
  {
    if HasOrder(phase) then phase.preferred else []
  }

  predicate OnTheWay(x: Worker, w: World, st: Serial.Store, limit: int)
  {
    && Progress(x, w, Base(st, w.clock), OrderOf(x.phase), limit)
    && (HasOrder(x.phase) ==> IsListing(OrderOf(x.phase), LiveIps(st.allowed, w.clock)))
  }

  /** st holds the stores after all completed reports. */
  predicate InSync(w: World, st: Serial.Store, limit: int)
  {
    && st.clock <= w.clock && Exclusive(w)
    && (forall i :: i in w.workers ==> NoDuplicates(w.workers[i].ips))
    && (forall i :: i in w.workers && Busy(w.workers[i]) ==> OnTheWay(w.workers[i], w, st, limit))
    && (Idle(w) ==> w.allowed == st.allowed && w.reported == st.reported)
  }

  lemma SerialOne(st: Serial.Store, e: Serial.Event, limit: int)
    ensures Serial.Run(st, [e], limit) == Serial.Step(st, e, limit)
    ensures Serial.PossibleRun(st, [e], limit) <==> Serial.Possible(st, e)
  {
    assert [e][1..] == [];
  }

  lemma {:induction false} SerialConcat(st: Serial.Store, a: seq<Serial.Event>, b: seq<Serial.Event>, limit: int)
    ensures Serial.Run(st, a + b, limit) == Serial.Run(Serial.Run(st, a, limit), b, limit)
    ensures Serial.PossibleRun(st, a, limit) && Serial.PossibleRun(Serial.Run(st, a, limit), b, limit)
        ==> Serial.PossibleRun(st, a + b, limit)
    decreases |a|
  {
    if a == [] {
      assert a + b == b;
    } else {
      assert (a + b)[0] == a[0] && (a + b)[1..] == a[1..] + b;
      SerialConcat(Serial.Step(st, a[0], limit), a[1..], b, limit);
    }
  }

  // ---------- one action ----------

  /** A worker that takes the free lock finds the stores in sync. */
  lemma AcquireSync(w: World, st: Serial.Store, i: int, limit: int)
    requires InSync(w, st, limit) && InTime(w) && Enabled(w, Act(i, Acquire))
    ensures InSync(Do(w, Act(i, Acquire), limit), st, limit)
  {
    ExclusiveKept(w, Act(i, Acquire), limit);
    var w' := Do(w, Act(i, Acquire), limit);
    if LockFree(w) {
      forall j | j in w.workers
        ensures !InSection(w.workers[j])
      {
      }
      assert Idle(w);
    } else {
      assert Idle(w') ==> Idle(w) by {
        assert forall j :: j in w.workers && j != i ==> w'.workers[j] == w.workers[j];
      }
      OthersOnTheWay(w, w', st, i, limit);
    }
  }

  /** Workers that did not act are where they were, as long as the stores and the clock are the same. */
  lemma OthersOnTheWay(w: World, w': World, st: Serial.Store, i: int, limit: int)
    requires w'.allowed == w.allowed && w'.reported == w.reported && w'.clock == w.clock
    requires forall j :: j in w'.workers && j != i ==> j in w.workers && w'.workers[j] == w.workers[j]
    requires forall j :: j in w.workers && Busy(w.workers[j]) ==> OnTheWay(w.workers[j], w, st, limit)
    ensures forall j :: j in w'.workers && j != i && Busy(w'.workers[j]) ==> OnTheWay(w'.workers[j], w', st, limit)
  {
    forall j | j in w'.workers && j != i && Busy(w'.workers[j])
      ensures OnTheWay(w'.workers[j], w', st, limit)
    {
      assert OnTheWay(w.workers[j], w, st, limit);
      SameProgress(w.workers[j], w, w', st, limit);
    }
  }

  lemma SameProgress(x: Worker, w: World, w': World, st: Serial.Store, limit: int)
    requires w'.allowed == w.allowed && w'.reported == w.reported && w'.clock == w.clock
    requires OnTheWay(x, w, st, limit)
    ensures OnTheWay(x, w', st, limit)
  {
  }

  /** Only one worker is in the section, so the others need no attention. */
  lemma OnlyOne(w: World, i: int)
    requires Exclusive(w) && i in w.workers && InSection(w.workers[i])
    ensures forall j :: j in w.workers && j != i ==> !InSection(w.workers[j])
  {
  }

  /** Until the winners are captured, progress does not depend on their order. */
  lemma AnyOrder(x: Worker, w: World, w0: World, was: seq<string>, order: seq<string>, limit: int)
    requires Busy(x) && Progress(x, w, w0, was, limit) && (HasOrder(x.phase) ==> order == was)
    ensures Progress(x, w, w0, order, limit)
  {
  }

  /** A command inside the section, short of the final write. */
  lemma InsideSync(w: World, st: Serial.Store, i: int, c: Command, limit: int)
    requires InSync(w, st, limit) && InTime(w) && Enabled(w, Act(i, c))
    requires !c.Acquire? && !c.WriteAllowed? && !c.Release? && !c.Abort?
    ensures InSync(Do(w, Act(i, c), limit), st, limit)
  {
    ExclusiveKept(w, Act(i, c), limit);
    OnlyOne(w, i);
    InsideOnTheWay(w, st, i, c, limit);
    var w' := Do(w, Act(i, c), limit);
    assert forall j :: j in w'.workers && j != i ==> w'.workers[j] == w.workers[j];
    assert Busy(w'.workers[i]);
  }

  lemma InsideOnTheWay(w: World, st: Serial.Store, i: int, c: Command, limit: int)
    requires Enabled(w, Act(i, c)) && OnTheWay(w.workers[i], w, st, limit)
    requires !c.Acquire? && !c.WriteAllowed? && !c.Release? && !c.Abort?
    ensures OnTheWay(Do(w, Act(i, c), limit).workers[i], Do(w, Act(i, c), limit), st, limit)
  {
    var x, w', w0 := w.workers[i], Do(w, Act(i, c), limit), Base(st, w.clock);
    var order := if c.Capture? then c.order else OrderOf(x.phase);
    AnyOrder(x, w, w0, OrderOf(x.phase), order, limit);
    ProgressStep(w, w0, i, c, order, limit);
    var x' := w'.workers[i];
    AnyOrder(x', w', w0, order, OrderOf(x'.phase), limit);
  }

  /** The final write completes the report: serially it is one step, and the stores are those after it. */
  lemma WriteSync(w: World, st: Serial.Store, i: int, limit: int)
    requires InSync(w, st, limit) && InTime(w) && Enabled(w, Act(i, WriteAllowed))
    ensures var e := Completed(w, Act(i, WriteAllowed))[0];
            Serial.Possible(st, e) && InSync(Do(w, Act(i, WriteAllowed), limit), Serial.Step(st, e, limit), limit)
  {
    ExclusiveKept(w, Act(i, WriteAllowed), limit);
    OnlyOne(w, i);
    var x, w' := w.workers[i], Do(w, Act(i, WriteAllowed), limit);
    assert OnTheWay(x, w, st, limit);
    ProgressStep(w, Base(st, w.clock), i, WriteAllowed, x.phase.preferred, limit);
    assert Finished(x, w', Base(st, w.clock), x.phase.preferred, limit);
    assert forall j :: j in w'.workers && j != i ==> w'.workers[j] == w.workers[j];
    assert forall j :: j in w'.workers ==> !Busy(w'.workers[j]);
  }

  lemma ReleaseSync(w: World, st: Serial.Store, i: int, limit: int)
    requires InSync(w, st, limit) && InTime(w) && Enabled(w, Act(i, Release))
    ensures InSync(Do(w, Act(i, Release), limit), st, limit)
  {
    ExclusiveKept(w, Act(i, Release), limit);
    OnlyOne(w, i);
    var w' := Do(w, Act(i, Release), limit);
    assert forall j :: j in w'.workers && j != i ==> w'.workers[j] == w.workers[j];
    assert Idle(w);
  }

  lemma ArriveSync(w: World, st: Serial.Store, a: Action, limit: int)
    requires InSync(w, st, limit) && InTime(w) && Enabled(w, a) && a.Arrive?
    ensures InSync(Do(w, a, limit), st, limit)
  {
    ExclusiveKept(w, a, limit);
    var w' := Do(w, a, limit);
    assert !Busy(w'.workers[a.w]);
    assert forall j :: j in w.workers ==> j != a.w && w'.workers[j] == w.workers[j];
    OthersOnTheWay(w, w', st, a.w, limit);
    if Idle(w') {
      forall j | j in w.workers
        ensures !Busy(w.workers[j])
      {
        assert w'.workers[j] == w.workers[j];
      }
    }
  }

  lemma TickSync(w: World, st: Serial.Store, now: int, limit: int)
    requires InSync(w, st, limit) && InTime(w) && Enabled(w, Tick(now)) && Undisturbed(w, Tick(now))
    ensures InSync(Do(w, Tick(now), limit), st, limit)
  {
    ExclusiveKept(w, Tick(now), limit);
    assert Idle(w);
  }

  /** Every undisturbed action keeps the stores in sync, with a serial report where one is completed. */
  lemma StepSync(w: World, st: Serial.Store, a: Action, limit: int)
    requires InSync(w, st, limit) && InTime(w) && Enabled(w, a) && Undisturbed(w, a)
    ensures Serial.PossibleRun(st, Completed(w, a), limit)
    ensures InSync(Do(w, a, limit), Serial.Run(st, Completed(w, a), limit), limit)
  {
    match a {
      case Arrive(_, _, _) => ArriveSync(w, st, a, limit);
      case Tick(now) => TickSync(w, st, now, limit);
      case Act(i, c) =>
        if c.Acquire? {
          AcquireSync(w, st, i, limit);
        } else if c.WriteAllowed? {
          WriteSync(w, st, i, limit);
          SerialOne(st, Completed(w, a)[0], limit);
        } else if c.Release? {
          ReleaseSync(w, st, i, limit);
        } else {
          InsideSync(w, st, i, c, limit);
        }
    }
  }

  // ---------- whole runs ----------

  /**
   An undisturbed run of concurrent workers, whose locks hold, is the serial run of its
   reports in lock order: whenever nobody is busy, the stores are those of the serial run.
   */
  lemma {:induction false} RunsInLockOrder(w: World, st: Serial.Store, actions: seq<Action>, limit: int)
    requires InSync(w, st, limit) && Possible(w, actions, limit)
    requires AlwaysInTime(w, actions, limit) && UndisturbedRun(w, actions, limit)
    ensures Serial.PossibleRun(st, Reports(w, actions, limit), limit)
    ensures InSync(Run(w, actions, limit), Serial.Run(st, Reports(w, actions, limit), limit), limit)
    decreases |actions|
  {
    if actions != [] {
      var done, rest := Completed(w, actions[0]), Reports(Do(w, actions[0], limit), actions[1..], limit);
      StepSync(w, st, actions[0], limit);
      RunsInLockOrder(Do(w, actions[0], limit), Serial.Run(st, done, limit), actions[1..], limit);
      SerialConcat(st, done, rest, limit);
    }
  }

  /** A world without workers is in sync with its own stores. */
  lemma FreshSync(clock: int, allowed: Devices, reported: Devices, limit: int)
    ensures InSync(World(clock, allowed, reported, None, map[]), Serial.Store(allowed, reported, clock), limit)
  {
  }

  /**
   First come, first served among concurrent workers: an allowed device that its node's
   completed reports keep naming in time is still allowed once nobody is busy.
   */
  lemma ConcurrentFirstComeFirstServed(w: World, st: Serial.Store, actions: seq<Action>, limit: int, d: Entry)
    requires InSync(w, st, limit) && Possible(w, actions, limit)
    requires AlwaysInTime(w, actions, limit) && UndisturbedRun(w, actions, limit)
    requires Serial.Bounded(st, limit) && d in st.allowed && st.clock - st.allowed[d] <= TTL
    requires Serial.KeepsReporting(d, Reports(w, actions, limit), st.allowed[d])
    requires Idle(Run(w, actions, limit))
    ensures IsLive(Run(w, actions, limit).allowed, d, Serial.Run(st, Reports(w, actions, limit), limit).clock)
  {
    RunsInLockOrder(w, st, actions, limit);
    Serial.FirstComeFirstServed(st, Reports(w, actions, limit), limit, d);
  }

  /** No slot stays idle among concurrent workers either, once the last two completed reports are the same. */
  lemma ConcurrentRepeatedReportFills(w: World, st: Serial.Store, actions: seq<Action>, limit: int)
    requires InSync(w, st, limit) && Possible(w, actions, limit)
    requires AlwaysInTime(w, actions, limit) && UndisturbedRun(w, actions, limit)
    requires limit > 0 && Serial.Bounded(st, limit) && Idle(Run(w, actions, limit))
    requires var es := Reports(w, actions, limit);
             var n := |es| - 2;
             n >= 0 && es[n].Report? && es[n + 1].Report? && es[n].node == es[n + 1].node && es[n].ips == es[n + 1].ips
    ensures var es := Reports(w, actions, limit);
            var n := |es| - 2;
            var before, e := Serial.Run(st, es[..n], limit), es[n + 1];
            |LiveIps(Run(w, actions, limit).allowed, e.now)|
              == Min(limit, |Serial.Others(before, e.node, e.now) + ToSet(e.ips)|)
  {
    var es := Reports(w, actions, limit);
    RunsInLockOrder(w, st, actions, limit);
    LastTwo(st, es, limit);
    var n := |es| - 2;
    Serial.RepeatedReportFills(Serial.Run(st, es[..n], limit), es[n], es[n + 1], limit);
  }

  lemma LastTwo(st: Serial.Store, es: seq<Serial.Event>, limit: int)
    requires |es| >= 2 && Serial.PossibleRun(st, es, limit) && Serial.Bounded(st, limit)
    ensures var n := |es| - 2;
            var before := Serial.Run(st, es[..n], limit);
            && Serial.Bounded(before, limit)
            && Serial.Possible(before, es[n]) && Serial.Possible(Serial.Step(before, es[n], limit), es[n + 1])
            && Serial.Run(before, [es[n], es[n + 1]], limit) == Serial.Run(st, es, limit)
  {
    var n := |es| - 2;
    var before := Serial.Run(st, es[..n], limit);
    assert es == es[..n] + [es[n], es[n + 1]];
    SerialSplit(st, es[..n], [es[n], es[n + 1]], limit);
    assert [es[n], es[n + 1]][1..] == [es[n + 1]];
    SerialOne(Serial.Step(before, es[n], limit), es[n + 1], limit);
    Serial.RunBounded(st, es[..n], limit);
  }

  lemma {:induction false} SerialSplit(st: Serial.Store, a: seq<Serial.Event>, b: seq<Serial.Event>, limit: int)
    requires Serial.PossibleRun(st, a + b, limit)
    ensures Serial.PossibleRun(st, a, limit) && Serial.PossibleRun(Serial.Run(st, a, limit), b, limit)
    ensures Serial.Run(st, a + b, limit) == Serial.Run(Serial.Run(st, a, limit), b, limit)
    decreases |a|
  {
    if a == [] {
      assert a + b == b;
    } else {
      assert (a + b)[0] == a[0] && (a + b)[1..] == a[1..] + b;
      SerialSplit(Serial.Step(st, a[0], limit), a[1..], b, limit);
    }
  }
}
