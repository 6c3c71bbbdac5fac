/**
 The machine-mode mailbox of a node: websocket events are coalesced, latest wins,
 until the service drains them as one snapshot. Go's nil slices and empty slices
 are told apart, because the code branches on the difference.
 */
module Mailbox {
  import opened Options
  import opened Users

  /** A node configuration, known by its identity only. */
  type Config = int

  type DeviceLists = map<int, seq<string>>

  /** A control-plane event as it arrives; None is Go's nil. */
  datatype Event =
    | SyncConfig(config: Option<Config>)
    | SyncUsers(users: Option<seq<UserSpec>>)
    | SyncDevices(devices: Option<DeviceLists>)
    | UserDelta(action: string, delta: seq<UserSpec>)

  /** The same event up to the order of users. */
  datatype MapEvent =
    | ConfigEvent(config: Option<Config>)
    | UsersEvent(users: Option<UserMap>)
    | DevicesEvent(devices: Option<DeviceLists>)
    | DeltaEvent(action: string, delta: UserMap)

  function MapUsers(users: Option<seq<UserSpec>>): Option<UserMap>
  {
    if users.None? then None else Some(ById(users.value))
  }

  function Abstract(e: Event): MapEvent
  {
    match e
    case SyncConfig(c) => ConfigEvent(c)
    case SyncUsers(u) => UsersEvent(MapUsers(u))
    case SyncDevices(d) => DevicesEvent(d)
    case UserDelta(action, delta) => DeltaEvent(action, ById(delta))
  }

  /** The mailbox, up to the order of users; users == Some(map[]) is an empty slice, None is nil. */
  datatype Mail = Mail(ready: bool, hasFull: bool, users: Option<UserMap>, dirtyUsers: bool,
                       config: Option<Config>, dirtyConfig: bool,
                       devices: Option<DeviceLists>, dirtyDevices: bool, needsReconcile: bool)

  /** The snapshot handed to the service. */
  datatype Drained = Drained(config: Option<Config>, hasUsers: bool, users: Option<UserMap>,
                             devices: Option<DeviceLists>, needsReconcile: bool)

  const NEW := Mail(false, false, None, false, None, false, None, false, false)
  const NOTHING := Drained(None, false, None, None, false)

  function UsersOf(users: Option<UserMap>): UserMap
  {
    if users.None? then map[] else users.value
  }

  /** applyUserDelta; None means the action is unknown. Removing the last user leaves nil. */
  function ApplyDelta(users: Option<UserMap>, action: string, delta: UserMap): Option<Option<UserMap>>
  {
    if action == "add" then Some(Some(UsersOf(users) + delta))
    else if action == "remove" then
      var left := UsersOf(users) - delta.Keys;
      Some(if left == map[] then None else Some(left))
    else None
  }

  function Apply(m: Mail, e: MapEvent): Mail
  {
    match e
    case ConfigEvent(Some(c)) => m.(config := Some(c), dirtyConfig := true)
    case UsersEvent(Some(u)) => m.(users := Some(u), dirtyUsers := true, hasFull := true)
    case DevicesEvent(Some(d)) => m.(devices := Some(d), dirtyDevices := true)
    case DeltaEvent(action, delta) =>
      if delta == map[] then m
      else
        var applied := ApplyDelta(m.users, action, delta);
        if !m.hasFull || applied.None? then m.(needsReconcile := true)
        else m.(users := applied.value, dirtyUsers := true)
    case _ => m
  }

  /** Whether Apply signals a change. */
  predicate Changes(e: MapEvent)
  {
    match e
    case ConfigEvent(c) => c.Some?
    case UsersEvent(u) => u.Some?
    case DevicesEvent(d) => d.Some?
    case DeltaEvent(_, delta) => delta != map[]
  }

  function Seed(m: Mail, users: Option<UserMap>, config: Option<Config>): Mail
  {
    var m1 := if users.Some? && !m.hasFull then m.(users := users, hasFull := true) else m;
    if config.Some? && m.config.None? then m1.(config := config) else m1
  }

  function DrainOutput(m: Mail): Drained
  {
    if !m.ready then NOTHING
    else Drained(if m.dirtyConfig then m.config else None,
                 m.dirtyUsers, if m.dirtyUsers then m.users else None,
                 if m.dirtyDevices then m.devices else None,
                 m.needsReconcile)
  }

  function AfterDrain(m: Mail): Mail
  {
    if !m.ready then m
    else m.(dirtyConfig := m.dirtyConfig && m.config.None?, dirtyUsers := false,
            dirtyDevices := m.dirtyDevices && m.devices.None?, needsReconcile := false)
  }

  // ---------- the mailbox itself ----------

  lemma EmptyById(users: seq<UserSpec>)
    ensures ById(users) == map[] <==> users == []
  {
    if users != [] {
      assert users[|users| - 1].id in ById(users);
    }
  }

  /** The current slice behind a possibly nil pointer. */
  function ListOf(users: Option<seq<UserSpec>>): seq<UserSpec>
  {
    if users.None? then [] else users.value
  }

  /** Position of the last user with the ID, as the index map of applyUserDelta records it. */
  ghost predicate IsIndex(index: map<int, int>, users: seq<UserSpec>)
  {
    && (forall i :: i in index ==> 0 <= index[i] < |users| && users[index[i]].id == i)
    && (forall k :: 0 <= k < |users| ==> users[k].id in index && k <= index[users[k].id])
  }

  lemma {:induction false} ReplaceLast(users: seq<UserSpec>, k: nat, u: UserSpec)
    requires k < |users| && users[k].id == u.id
    requires forall j :: k < j < |users| ==> users[j].id != u.id
    ensures ById(users[k := u]) == ById(users)[u.id := u]
  {
    var n := |users| - 1;
    if k < n {
      var front := users[..n];
      ReplaceLast(front, k, u);
      assert users[k := u][..n] == front[k := u];
    } else {
      assert users[k := u][..n] == users[..n];
    }
  }

  lemma IndexReplace(index: map<int, int>, users: seq<UserSpec>, u: UserSpec)
    requires IsIndex(index, users) && u.id in index
    ensures IsIndex(index, users[index[u.id] := u])
    ensures ById(users[index[u.id] := u]) == ById(users)[u.id := u]
    ensures UniqueIds(users) ==> UniqueIds(users[index[u.id] := u])
  {
    ReplaceLast(users, index[u.id], u);
  }

  lemma IndexAppend(index: map<int, int>, users: seq<UserSpec>, u: UserSpec)
    requires IsIndex(index, users)
    ensures IsIndex(index[u.id := |users|], users + [u])
    ensures u.id !in index && UniqueIds(users) ==> UniqueIds(users + [u])
  {
    if u.id !in index && UniqueIds(users) {
      UniqueSnoc(users, u);
    }
  }

  method BuildIndex(users: seq<UserSpec>) returns (index: map<int, int>)
    ensures IsIndex(index, users)
  {
    index := map[];
    for i := 0 to |users|
      invariant IsIndex(index, users[..i])
    {
      assert users[..i + 1] == users[..i] + [users[i]];
      IndexAppend(index, users[..i], users[i]);
      index := index[users[i].id := i];
    }
    assert users[..|users|] == users;
  }

  /** The "add" branch: overwrite users already present, append the others. */
  method AddDelta(users: seq<UserSpec>, delta: seq<UserSpec>) returns (current: seq<UserSpec>)
    ensures ById(current) == ById(users) + ById(delta)
    ensures UniqueIds(users) ==> UniqueIds(current)
  {
    current := users;
    var index := BuildIndex(users);
    for i := 0 to |delta|
      invariant IsIndex(index, current)
      invariant ById(current) == ById(users) + ById(delta[..i])
      invariant UniqueIds(users) ==> UniqueIds(current)
    {
      var u := delta[i];
      assert delta[..i + 1] == delta[..i] + [u];
      ByIdSnoc(delta[..i], u);
      if u.id in index {
        IndexReplace(index, current, u);
        current := current[index[u.id] := u];
      } else {
        IndexAppend(index, current, u);
        ByIdSnoc(current, u);
        index := index[u.id := |current|];
        current := current + [u];
      }
      OverlayInsert(ById(users), ById(delta[..i]), u);
    }
    assert delta[..|delta|] == delta;
  }

  /** applyUserDelta on the buffered slice. */
  method ApplyUserDelta(users: Option<seq<UserSpec>>, action: string, delta: seq<UserSpec>)
    returns (ok: bool, current: Option<seq<UserSpec>>)
    requires delta != []
    ensures ok <==> ApplyDelta(MapUsers(users), action, ById(delta)).Some?
    ensures ok ==> ApplyDelta(MapUsers(users), action, ById(delta)) == Some(MapUsers(current))
    ensures !ok ==> current == users
    ensures UniqueIds(ListOf(users)) ==> UniqueIds(ListOf(current))
  {
    current := users;
    if action == "add" {
      var added := AddDelta(ListOf(users), delta);
      return true, Some(added);
    } else if action == "remove" {
      var filtered := SubtractUsers(ListOf(users), delta);
      ByIdFacts(delta);
      WithoutById(ListOf(users), Ids(delta));
      EmptyById(filtered);
      if UniqueIds(ListOf(users)) {
        WithoutUnique(ListOf(users), Ids(delta));
      }
      return true, if filtered == [] then None else Some(filtered);
    } else {
      return false, users;
    }
  }

  class NodeMailbox {
    var ready: bool
    var hasFullUserState: bool
    var users: Option<seq<UserSpec>>
    var dirtyUsers: bool
    var config: Option<Config>
    var dirtyConfig: bool
    var devices: Option<DeviceLists>
    var dirtyDevices: bool
    var needsReconcile: bool
    var token: bool   // the one-slot notification channel holds a token

    ghost function View(): Mail
      reads this
    {
      Mail(ready, hasFullUserState, MapUsers(users), dirtyUsers, config, dirtyConfig, devices, dirtyDevices,
           needsReconcile)
    }

    constructor ()
      ensures View() == NEW && !token
    {
      ready, hasFullUserState, users, dirtyUsers := false, false, None, false;
      config, dirtyConfig, devices, dirtyDevices := None, false, None, false;
      needsReconcile, token := false, false;
    }

    method MarkReady()
      modifies this
      ensures View() == old(View()).(ready := true) && token && users == old(users)
    {
      ready := true;
      token := true;
    }

    method SeedBaseline(baseline: Option<seq<UserSpec>>, spec: Option<Config>)
      modifies this
      ensures View() == Seed(old(View()), MapUsers(baseline), spec) && token == old(token)
    {
      if baseline.Some? && !hasFullUserState {
        users := baseline;
        hasFullUserState := true;
      }
      if spec.Some? && config.None? {
        config := spec;
      }
    }

    method Receive(e: Event)
      modifies this
      ensures View() == Apply(old(View()), Abstract(e))
      ensures token == (old(token) || Changes(Abstract(e)))
    {
      var changed := false;
      match e {
        case SyncConfig(c) =>
          if c.Some? {
            config, dirtyConfig, changed := c, true, true;
          }
        case SyncUsers(u) =>
          if u.Some? {
            users, dirtyUsers, hasFullUserState, changed := u, true, true, true;
          }
        case SyncDevices(d) =>
          if d.Some? {
            devices, dirtyDevices, changed := d, true, true;
          }
        case UserDelta(action, delta) =>
          EmptyById(delta);
          if |delta| > 0 {
            if !hasFullUserState {
              needsReconcile, changed := true, true;
            } else {
              var ok, current := ApplyUserDelta(users, action, delta);
              users := current;
              if !ok {
                needsReconcile, changed := true, true;
              } else {
                dirtyUsers, changed := true, true;
              }
            }
          }
      }
      if changed {
        token := true;
      }
    }

    method DrainIfReady() returns (r: Drained, list: Option<seq<UserSpec>>)
      modifies this
      ensures View() == AfterDrain(old(View())) && r == DrainOutput(old(View()))
      ensures r.users == MapUsers(list) && (r.hasUsers ==> list == old(users))
      ensures token == old(token) && users == old(users)
    {
      r, list := NOTHING, None;
      if !ready {
        return;
      }
      r := r.(needsReconcile := needsReconcile);
      if dirtyConfig && config.Some? {
        r := r.(config := config);
        dirtyConfig := false;
      }
      if dirtyUsers {
        list := users;
        r := r.(users := MapUsers(users), hasUsers := true);
        dirtyUsers := false;
      }
      if dirtyDevices && devices.Some? {
        r := r.(devices := devices);
        dirtyDevices := false;
      }
      needsReconcile := false;
    }
  }

  // ---------- runs ----------

  datatype Op =
    | Baseline(users: Option<UserMap>, config: Option<Config>)
    | Arrival(event: MapEvent)
    | Ready
    | Drain

  function Step(m: Mail, op: Op): Mail
  {
    match op
    case Baseline(u, c) => Seed(m, u, c)
    case Arrival(e) => Apply(m, e)
    case Ready => m.(ready := true)
    case Drain => AfterDrain(m)
  }

  /** The mailbox after a sequence of operations on a new one. */
  function After(ops: seq<Op>): Mail
  {
    if ops == [] then NEW else Step(After(ops[..|ops| - 1]), ops[|ops| - 1])
  }

  /** What an observer of the same operations knows about the users. */
  datatype Knowledge = Unknown | Known(users: UserMap)

  function Learn(k: Knowledge, op: Op): Knowledge
  {
    match op
    case Baseline(Some(u), _) => if k.Unknown? then Known(u) else k
    case Arrival(UsersEvent(Some(u))) => Known(u)
    case Arrival(DeltaEvent(action, delta)) =>
      if k.Unknown? then k
      else if action == "add" then Known(k.users + delta)
      else if action == "remove" then Known(k.users - delta.Keys)
      else k
    case _ => k
  }

  function Fold(ops: seq<Op>): Knowledge
  {
    if ops == [] then Unknown else Learn(Fold(ops[..|ops| - 1]), ops[|ops| - 1])
  }

  /** A delta that nobody can apply: no full list is known yet, or the action is unknown. */
  predicate Unappliable(k: Knowledge, op: Op)
  {
    op.Arrival? && op.event.DeltaEvent? && op.event.delta != map[]
    && (k.Unknown? || (op.event.action != "add" && op.event.action != "remove"))
  }

  /** The buffer and the observer agree. */
  predicate Agrees(m: Mail, k: Knowledge)
  {
    (m.hasFull <==> k.Known?) && (k.Known? ==> UsersOf(m.users) == k.users)
  }

  lemma StepAgrees(m: Mail, k: Knowledge, op: Op)
    requires Agrees(m, k)
    ensures Agrees(Step(m, op), Learn(k, op))
  {
    if op.Arrival? && op.event.DeltaEvent? {
      DeltaAgrees(m, k, op.event.action, op.event.delta);
    }
  }

  lemma DeltaAgrees(m: Mail, k: Knowledge, action: string, delta: UserMap)
    requires Agrees(m, k)
    ensures Agrees(Apply(m, DeltaEvent(action, delta)), Learn(k, Arrival(DeltaEvent(action, delta))))
  {
    assert delta == map[] ==> delta.Keys == {};
  }

  /** Once a full list is known, the buffer is the fold of all user events since. */
  lemma {:induction false} BufferIsFold(ops: seq<Op>)
    ensures Agrees(After(ops), Fold(ops))
  {
    if ops != [] {
      BufferIsFold(ops[..|ops| - 1]);
      StepAgrees(After(ops[..|ops| - 1]), Fold(ops[..|ops| - 1]), ops[|ops| - 1]);
    }
  }

  /** A drain at position j that reaches the service. */
  predicate DrainsAt(ops: seq<Op>, j: nat)
    requires j < |ops|
  {
    ops[j].Drain? && After(ops[..j]).ready
  }

  /** A delta was lost at i and no drain since has told the service. */
  predicate LostAt(ops: seq<Op>, i: nat)
    requires i < |ops|
  {
    Unappliable(Fold(ops[..i]), ops[i]) && forall j :: i < j < |ops| ==> !DrainsAt(ops, j)
  }

  lemma LostSnoc(ops: seq<Op>, i: nat)
    requires i < |ops| - 1
    ensures LostAt(ops, i) <==> LostAt(ops[..|ops| - 1], i) && !DrainsAt(ops, |ops| - 1)
  {
    var front := ops[..|ops| - 1];
    assert front[..i] == ops[..i];
    forall j | 0 <= j < |front|
      ensures DrainsAt(front, j) <==> DrainsAt(ops, j)
    {
      assert front[..j] == ops[..j];
    }
  }

  ghost predicate SomeLost(ops: seq<Op>)
  {
    exists i :: 0 <= i < |ops| && LostAt(ops, i)
  }

  lemma SomeLostSnoc(ops: seq<Op>)
    requires ops != []
    ensures var front, n := ops[..|ops| - 1], |ops| - 1;
            SomeLost(ops) <==> Unappliable(Fold(front), ops[n]) || (SomeLost(front) && !DrainsAt(ops, n))
  {
    var front, n := ops[..|ops| - 1], |ops| - 1;
    forall i | 0 <= i < n
      ensures LostAt(ops, i) <==> LostAt(front, i) && !DrainsAt(ops, n)
    {
      LostSnoc(ops, i);
    }
    assert LostAt(ops, n) <==> Unappliable(Fold(front), ops[n]);
    if SomeLost(front) && !DrainsAt(ops, n) {
      var i :| 0 <= i < |front| && LostAt(front, i);
      assert LostAt(ops, i);
    }
  }

  /** One operation on the flag: raised by a lost delta, lowered by an effective drain. */
  lemma FlagStep(m: Mail, k: Knowledge, op: Op)
    requires Agrees(m, k)
    ensures Step(m, op).needsReconcile <==> Unappliable(k, op) || (m.needsReconcile && !(op.Drain? && m.ready))
  {
  }

  /** The reconcile flag is up exactly when some lost delta has not been reported yet. */
  lemma {:induction false} ReconcileIffLost(ops: seq<Op>)
    ensures After(ops).needsReconcile <==> SomeLost(ops)
  {
    if ops != [] {
      ReconcileIffLost(ops[..|ops| - 1]);
      BufferIsFold(ops[..|ops| - 1]);
      SomeLostSnoc(ops);
      FlagStep(After(ops[..|ops| - 1]), Fold(ops[..|ops| - 1]), ops[|ops| - 1]);
    }
  }

  /**
   No silent loss: every delta that could not be applied is reported by a drain after
   it, or the flag is still up for the next one; and a drain that asks for a
   reconciliation has a lost delta before it.
   */
  lemma NoSilentLoss(ops: seq<Op>, i: nat)
    requires i < |ops| && Unappliable(Fold(ops[..i]), ops[i])
    ensures After(ops).needsReconcile
         || exists j :: i < j < |ops| && ops[j].Drain? && DrainOutput(After(ops[..j])).needsReconcile
  {
    if j :| i < j < |ops| && DrainsAt(ops, j) {
      FirstDrain(ops, i, j);
    } else {
      ReconcileIffLost(ops);
      assert LostAt(ops, i);
    }
  }

  /** The first effective drain after a lost delta reports it. */
  lemma {:induction false} FirstDrain(ops: seq<Op>, i: nat, j: nat)
    requires i < j < |ops| && Unappliable(Fold(ops[..i]), ops[i]) && DrainsAt(ops, j)
    ensures exists k :: i < k < |ops| && ops[k].Drain? && DrainOutput(After(ops[..k])).needsReconcile
    decreases j
  {
    if k :| i < k < j && DrainsAt(ops, k) {
      FirstDrain(ops, i, k);
    } else {
      var before := ops[..j];
      assert before[..i] == ops[..i];
      forall k | i < k < |before|
        ensures !DrainsAt(before, k)
      {
        assert before[..k] == ops[..k];
        assert !DrainsAt(ops, k);
      }
      assert LostAt(before, i);
      ReconcileIffLost(before);
    }
  }

  lemma NoFalseAlarm(ops: seq<Op>)
    requires DrainOutput(After(ops)).needsReconcile
    ensures exists i :: 0 <= i < |ops| && Unappliable(Fold(ops[..i]), ops[i])
  {
    ReconcileIffLost(ops);
    var i :| 0 <= i < |ops| && LostAt(ops, i);
  }

  // ---------- the nil list ----------

  /** Some operation set the buffer, and the last to do so was a removal that left no user. */
  predicate EmptiedByRemoval(ops: seq<Op>)
  {
    ops != []
    && var front, last := ops[..|ops| - 1], ops[|ops| - 1];
    if SetsUsers(Fold(front), last) then
      last.Arrival? && last.event.DeltaEvent? && last.event.action == "remove" && Fold(ops) == Known(map[])
    else EmptiedByRemoval(front)
  }

  predicate SetsUsers(k: Knowledge, op: Op)
  {
    match op
    case Baseline(u, _) => u.Some? && k.Unknown?
    case Arrival(UsersEvent(u)) => u.Some?
    case Arrival(DeltaEvent(action, delta)) => delta != map[] && k.Known? && action in {"add", "remove"}
    case _ => false
  }

  lemma StepNil(m: Mail, k: Knowledge, op: Op)
    requires Agrees(m, k)
    ensures Step(m, op).users.None? <==>
              if SetsUsers(k, op) then
                op.Arrival? && op.event.DeltaEvent? && op.event.action == "remove" && Learn(k, op) == Known(map[])
              else m.users.None?
  {
    if op.Arrival? && op.event.DeltaEvent? {
      assert op.event.delta == map[] ==> op.event.delta.Keys == {};
    }
  }

  /**
   A drain may hand over a nil user list, which the service ignores. That happens
   exactly when removals emptied the buffer: an empty full list is not nil.
   */
  lemma {:induction false} NilBuffer(ops: seq<Op>)
    requires After(ops).hasFull
    ensures After(ops).users.None? <==> EmptiedByRemoval(ops)
  {
    var front, last := ops[..|ops| - 1], ops[|ops| - 1];
    BufferIsFold(front);
    StepNil(After(front), Fold(front), last);
    if After(front).hasFull {
      NilBuffer(front);
    }
  }

  // ---------- what a drain hands over ----------

  function ReadyIn(ops: seq<Op>): bool
  {
    ops != [] && (ops[|ops| - 1].Ready? || ReadyIn(ops[..|ops| - 1]))
  }

  /** The last configuration that arrived after the last drain to reach the service. */
  function ConfigSince(ops: seq<Op>): Option<Config>
  {
    if ops == [] then None
    else
      var front := ops[..|ops| - 1];
      match ops[|ops| - 1]
      case Arrival(ConfigEvent(Some(c))) => Some(c)
      case Drain => if ReadyIn(front) then None else ConfigSince(front)
      case _ => ConfigSince(front)
  }

  function DevicesSince(ops: seq<Op>): Option<DeviceLists>
  {
    if ops == [] then None
    else
      var front := ops[..|ops| - 1];
      match ops[|ops| - 1]
      case Arrival(DevicesEvent(Some(d))) => Some(d)
      case Drain => if ReadyIn(front) then None else DevicesSince(front)
      case _ => DevicesSince(front)
  }

  /** Whether an event has set the buffered users after that drain. */
  predicate UsersSince(ops: seq<Op>)
  {
    ops != []
    && var front, last := ops[..|ops| - 1], ops[|ops| - 1];
    if last.Arrival? && SetsUsers(Fold(front), last) then true
    else UsersSince(front) && !(last.Drain? && ReadyIn(front))
  }

  /** The last configuration that arrived, or the baseline before the first. */
  function KnownConfig(ops: seq<Op>): Option<Config>
  {
    if ops == [] then None
    else
      var before := KnownConfig(ops[..|ops| - 1]);
      match ops[|ops| - 1]
      case Arrival(ConfigEvent(Some(c))) => Some(c)
      case Baseline(_, c) => if before.None? then c else before
      case _ => before
  }

  /** The dirty parts of a mailbox in terms of what an observer saw. */
  predicate Holds(m: Mail, ready: bool, config: Option<Config>, known: Option<Config>, devices: Option<DeviceLists>,
                  users: bool)
  {
    && m.ready == ready && m.dirtyUsers == users && m.config == known
    && (m.dirtyConfig <==> config.Some?) && (m.dirtyConfig ==> m.config == config)
    && (m.dirtyDevices <==> devices.Some?) && (m.dirtyDevices ==> m.devices == devices)
  }

  lemma StepUsersDirty(m: Mail, k: Knowledge, op: Op)
    requires Agrees(m, k)
    ensures Step(m, op).dirtyUsers
       <==> (op.Arrival? && SetsUsers(k, op)) || (m.dirtyUsers && !(op.Drain? && m.ready))
  {
  }

  lemma {:induction false} WhatWaits(ops: seq<Op>)
    ensures Holds(After(ops), ReadyIn(ops), ConfigSince(ops), KnownConfig(ops), DevicesSince(ops), UsersSince(ops))
  {
    if ops != [] {
      var front, last := ops[..|ops| - 1], ops[|ops| - 1];
      WhatWaits(front);
      BufferIsFold(front);
      StepUsersDirty(After(front), Fold(front), last);
      StepReady(After(front), last);
      StepConfig(After(front), last);
      StepDevices(After(front), last);
    }
  }

  lemma StepReady(m: Mail, op: Op)
    ensures Step(m, op).ready == (m.ready || op.Ready?)
  {
  }

  lemma StepConfig(m: Mail, op: Op)
    ensures var m' := Step(m, op);
            match op
            case Arrival(ConfigEvent(Some(c))) => m'.dirtyConfig && m'.config == Some(c)
            case Baseline(_, c) =>
              m'.dirtyConfig == m.dirtyConfig && m'.config == (if m.config.None? then c else m.config)
            case Drain =>
              m'.config == m.config && (m'.dirtyConfig <==> m.dirtyConfig && (!m.ready || m.config.None?))
            case _ => m'.dirtyConfig == m.dirtyConfig && m'.config == m.config
  {
  }

  lemma StepDevices(m: Mail, op: Op)
    ensures var m' := Step(m, op);
            match op
            case Arrival(DevicesEvent(Some(d))) => m'.dirtyDevices && m'.devices == Some(d)
            case Drain =>
              m'.devices == m.devices && (m'.dirtyDevices <==> m.dirtyDevices && (!m.ready || m.devices.None?))
            case _ => m'.dirtyDevices == m.dirtyDevices && m'.devices == m.devices
  {
  }

  /**
   What a drain hands over, in terms of the operations alone: the last configuration and
   the last device lists since the last drain that reached the service, the fold of all
   user events if one of them came since, and whether a delta was lost since. Before the
   mailbox is ready it hands over nothing.
   */
  lemma DrainDelivers(ops: seq<Op>)
    ensures var out := DrainOutput(After(ops));
            if !ReadyIn(ops) then out == NOTHING
            else
              && out.config == ConfigSince(ops) && out.devices == DevicesSince(ops)
              && out.hasUsers == UsersSince(ops) && (out.needsReconcile <==> SomeLost(ops))
              && (UsersSince(ops) ==> Fold(ops) == Known(UsersOf(out.users)))
              && (UsersSince(ops) && Fold(ops) != Known(map[]) ==> out.users.Some?)
  {
    WhatWaits(ops);
    BufferIsFold(ops);
    ReconcileIffLost(ops);
    UsersAreKnown(ops);
  }

  lemma {:induction false} UsersAreKnown(ops: seq<Op>)
    ensures UsersSince(ops) ==> Fold(ops).Known?
  {
    if ops != [] {
      UsersAreKnown(ops[..|ops| - 1]);
    }
  }
}
