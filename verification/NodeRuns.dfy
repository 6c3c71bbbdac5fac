/**
 Agreement over whole runs of the node service: the limiter and the stored hash
 describe the loaded users whatever happens, and so does the kernel, in exactly the
 cases that InStep names.
 */
module NodeRuns {
  import opened Options
  import opened Users
  import opened UserHash
  import opened Mailbox
  import opened NodeModel

  /** A running kernel knows exactly the loaded users. */
  predicate KernelAgrees(s: Node)
  {
    s.running ==> s.kernel == Uuids(s.users)
  }

  /** The stored hash is that of the loaded users, up to users that had expired when it was stored. */
  predicate HashAgrees(s: Node, clock: int)
  {
    match s.hashed
    case None => s.users == map[]
    case Some(h) => Keyed(h) && s.users == ActiveMap(h, s.hashedAt) && s.hashedAt <= clock
  }

  /** Everything but the kernel's users. */
  predicate LoadedAgrees(s: Node, clock: int)
  {
    Keyed(s.users) && s.limiter == s.users && HashAgrees(s, clock) && (s.running ==> s.config.Some?)
  }

  predicate Agreement(s: Node, clock: int)
  {
    LoadedAgrees(s, clock) && KernelAgrees(s)
  }

  /** The users of the delta that are not expired. */
  function Fresh(delta: UserMap, now: int): UserMap
  {
    ActiveMap(delta, now)
  }

  function Expired(m: UserMap, now: int): set<int>
  {
    set i | i in m && m[i].IsExpiredAt(now)
  }

  /** No loaded user outside the delta has expired without being swept. */
  predicate Swept(s: Node, ids: set<int>, now: int)
  {
    Expired(s.users, now) <= ids
  }

  // ---------- the exact conditions ----------

  /** A full replacement goes wrong only if an outdated instance survives a failed restart. */
  predicate UpdateInStep(s: Node, now: int, o: Outcome)
  {
    EnsureRunning(s, o).running && !o.updateOk && !o.restartOk && o.keepsOld ==> NoneExpired(s.users, now)
  }

  /**
   An added delta: if AddUsers succeeds, expired users must have been swept and no changed
   user may have survived its RemoveUsers, whose error is ignored; if only the fallback
   succeeds, no expired user may sit behind the filtered list; if both fail, the users
   dropped from the kernel must be those that the restore drops.
   */
  predicate AddInStep(s: Node, delta: UserMap, now: int, o: Outcome)
  {
    var d := Fresh(delta, now);
    d != map[] && EnsureRunning(s, o).running ==>
      if o.addOk then Swept(s, d.Keys, now) && Changed(s.users, d) !! o.dropFails
      else if o.updateOk then (Expired(s.users, now) - d.Keys) !! o.leftovers
      else Changed(s.users, d) - o.dropFails == Expired(s.users, now)
  }

  predicate RemoveInStep(s: Node, ids: set<int>, now: int, o: Outcome)
  {
    ids != {} && s.running ==>
      if o.removeOk then Swept(s, ids, now)
      else if o.updateOk then (Expired(s.users, now) - ids) !! o.leftovers
      else NoneExpired(s.users, now)
  }

  /** A polled list that waits for a reload: the reload must not leave an outdated instance with other users. */
  predicate ReloadInStep(s: Node, m: UserMap, o: Outcome)
  {
    s.running && m != map[] && !o.reloadOk && !o.restartOk && o.keepsOld ==> Uuids(m) == Uuids(s.users)
  }

  ghost predicate PullInStep(s: Node, r: PullResult, now: int, o: Outcome)
  {
    var users := KeepUsers(s, r);
    users.Some? && Some(DigestOf(users.value)) != HashOf(s) ==>
      if r.certChanged || KeepConfig(s, r).Some? then ReloadInStep(s, ActiveMap(users.value, now), o)
      else UpdateInStep(s, now, o)
  }

  /** The condition under which an event keeps the kernel in step. */
  ghost predicate InStep(s: Node, h: Happening)
  {
    match h.input
    case PushUsers(Some(u)) =>
      Some(DigestOf(ActiveMap(u, h.now))) != HashOf(s) ==> UpdateInStep(s, h.now, h.outcome)
    case PushAdd(delta) => AddInStep(s, delta, h.now, h.outcome)
    case PushRemove(ids) => RemoveInStep(s, ids, h.now, h.outcome)
    case Sweep => s.running ==> UpdateInStep(s, h.now, h.outcome)
    case Pulled(r) => PullInStep(s, r, h.now, h.outcome)
    case _ => true
  }

  /** What can happen: time goes on, users sit under their IDs, the setup precedes the kernel. */
  predicate WellFormed(s: Node, clock: int, h: Happening)
  {
    h.now >= clock &&
    match h.input
    case Setup(_, users, _) => Keyed(users) && !s.running
    case PushUsers(users) => users.Some? ==> Keyed(users.value)
    case PushAdd(delta) => Keyed(delta)
    case Pulled(r) => r.users.Some? ==> Keyed(r.users.value)
    case _ => true
  }

  // ---------- maps ----------

  lemma ActiveTwice(m: UserMap, t: int, now: int)
    requires t <= now
    ensures ActiveMap(ActiveMap(m, t), now) == ActiveMap(m, now)
  {
    forall i | i in m && !m[i].IsExpiredAt(now)
      ensures !m[i].IsExpiredAt(t)
    {
    }
  }

  lemma NoneExpiredActive(m: UserMap, now: int)
    ensures NoneExpired(ActiveMap(m, now), now)
    ensures ActiveMap(m, now) == m <==> NoneExpired(m, now)
  {
    var a := ActiveMap(m, now);
    if NoneExpired(m, now) {
      assert forall i :: i in m ==> i in a;
      assert a == m;
    }
    if a == m {
      assert forall i :: i in m ==> i in a;
    }
  }

  lemma UuidsActive(m: UserMap, now: int)
    ensures Uuids(m) == Uuids(ActiveMap(m, now)) <==> NoneExpired(m, now)
  {
    NoneExpiredActive(m, now);
    if !NoneExpired(m, now) {
      var i :| i in m && m[i].IsExpiredAt(now);
      assert i in Uuids(m) && i !in Uuids(ActiveMap(m, now));
    }
  }

  lemma NothingLeftBehind(m: UserMap, now: int, leftovers: set<int>)
    requires NoneExpired(m, now)
    ensures Backing(m, now, leftovers) == m == ActiveMap(m, now)
  {
    assert forall i :: i in m ==> i in Backing(m, now, leftovers) && i in ActiveMap(m, now);
  }

  lemma BackingAgreesIff(m: UserMap, now: int, leftovers: set<int>)
    ensures Uuids(Backing(m, now, leftovers)) == Uuids(ActiveMap(m, now)) <==> Expired(m, now) !! leftovers
  {
    var l, r := Backing(m, now, leftovers), ActiveMap(m, now);
    if Expired(m, now) !! leftovers {
      forall i
        ensures (i in l <==> i in r) && (i in l ==> l[i] == r[i])
      {
        assert i in m && m[i].IsExpiredAt(now) ==> i in Expired(m, now);
      }
      assert l == r;
    } else {
      CommonElement(Expired(m, now), leftovers);
      var i :| i in Expired(m, now) && i in leftovers;
      assert i in Uuids(l) && i !in Uuids(r);
    }
  }

  lemma ExpiredOverlay(m: UserMap, d: UserMap, now: int)
    requires NoneExpired(d, now)
    ensures Expired(m + d, now) == Expired(m, now) - d.Keys
  {
    forall i
      ensures i in Expired(m + d, now) <==> i in Expired(m, now) - d.Keys
    {
      assert i in d ==> !d[i].IsExpiredAt(now);
    }
  }

  lemma NothingOutside(a: set<int>, b: set<int>)
    ensures a - b == {} <==> a <= b
  {
    EmptySet(a - b);
    if a - b == {} {
      forall x | x in a
        ensures x in b
      {
        assert x !in a - b;
      }
    }
  }

  lemma NobodyExpired(m: UserMap, now: int)
    ensures NoneExpired(m, now) <==> Expired(m, now) == {}
  {
    EmptySet(Expired(m, now));
    if !NoneExpired(m, now) {
      var i :| i in m && m[i].IsExpiredAt(now);
      assert i in Expired(m, now);
    }
  }

  lemma ExpiredRest(m: UserMap, ids: set<int>, now: int)
    ensures Expired(m - ids, now) == Expired(m, now) - ids
  {
  }

  // ---------- the loaded side ----------

  lemma PrepareLoads(s: Node, m: UserMap, now: int)
    requires Keyed(m)
    ensures var s' := Prepare(s, m, now);
            Keyed(s'.users) && s'.limiter == s'.users && HashAgrees(s', now)
  {
    ActiveTwice(m, now, now);
  }

  lemma RestoreLoads(s: Node, before: Node, clock: int, now: int)
    requires Keyed(before.users) && HashAgrees(before, clock) && clock <= now
    ensures var s' := Restore(s, before, now);
            Keyed(s'.users) && s'.limiter == s'.users && HashAgrees(s', now)
  {
    if before.hashed.Some? {
      ActiveTwice(before.hashed.value, before.hashedAt, now);
    }
  }

  lemma EnsureRunningLoads(s: Node, clock: int, o: Outcome)
    requires LoadedAgrees(s, clock)
    ensures var s1 := EnsureRunning(s, o);
            LoadedAgrees(s1, clock) && s1.users == s.users && s1.hashed == s.hashed && s1.hashedAt == s.hashedAt
            && (s1.running && KernelAgrees(s) ==> s1.kernel == Uuids(s.users))
  {
  }

  lemma UpdateLoads(s: Node, m: UserMap, clock: int, now: int, o: Outcome)
    requires LoadedAgrees(s, clock) && Keyed(m) && clock <= now
    ensures LoadedAgrees(ApplyUserUpdate(s, m, now, o), now)
  {
    var active := ActiveMap(m, now);
    var s1 := EnsureRunning(s, o);
    EnsureRunningLoads(s, clock, o);
    PrepareLoads(s1, active, now);
    if s1.running && !o.updateOk && !o.restartOk {
      RestoreLoads(Start(Prepare(s1, active, now), active, false, o.keepsOld), s1, clock, now);
    }
  }

  lemma ChangesLoads(s: Node, clock: int, o: Outcome)
    requires LoadedAgrees(s, clock)
    ensures LoadedAgrees(ApplyChanges(s, o), clock)
  {
  }

  lemma AddLoads(s: Node, delta: UserMap, clock: int, now: int, o: Outcome)
    requires LoadedAgrees(s, clock) && Keyed(delta) && clock <= now
    ensures LoadedAgrees(ApplyAdd(s, delta, now, o), now)
  {
    var d, s1 := Fresh(delta, now), EnsureRunning(s, o);
    EnsureRunningLoads(s, clock, o);
    PrepareLoads(Dropped(s1, d, o), s1.users + d, now);
    RestoreLoads(Prepare(Dropped(s1, d, o), s1.users + d, now), s1, clock, now);
  }

  lemma RemoveLoads(s: Node, ids: set<int>, clock: int, now: int, o: Outcome)
    requires LoadedAgrees(s, clock) && clock <= now
    ensures LoadedAgrees(ApplyRemove(s, ids, now, o), now)
  {
    PrepareLoads(s, s.users - ids, now);
    RestoreLoads(Prepare(s, s.users - ids, now), s, clock, now);
  }

  lemma PullLoads(s: Node, r: PullResult, clock: int, now: int, o: Outcome)
    requires LoadedAgrees(s, clock) && clock <= now && (r.users.Some? ==> Keyed(r.users.value))
    ensures LoadedAgrees(OnPull(s, r, now, o), now)
  {
    var users, config := KeepUsers(s, r), KeepConfig(s, r);
    var configChanged := r.certChanged || config.Some?;
    var s1 := if config.Some? then s.(config := config) else s;
    if users.Some? {
      PrepareLoads(s1, users.value, now);
      UpdateLoads(s1, users.value, clock, now, o);
    }
    var s2 := PullUsers(s1, users, configChanged, now, o);
    if configChanged {
      ChangesLoads(s2, now, o);
    }
  }

  /** Every event keeps the loaded users, the limiter and the hash together, whatever kernel calls fail. */
  lemma StepLoads(s: Node, clock: int, h: Happening)
    requires LoadedAgrees(s, clock) && WellFormed(s, clock, h)
    ensures LoadedAgrees(Handle(s, h), h.now)
  {
    match h.input {
      case Setup(config, users, _) => PrepareLoads(s.(config := config), users, h.now);
      case PushConfig(config, valid) =>
        if config.Some? {
          ChangesLoads(s.(config := config), clock, h.outcome);
        }
      case PushUsers(users) =>
        if users.Some? {
          UpdateLoads(s, ActiveMap(users.value, h.now), clock, h.now, h.outcome);
        }
      case PushAdd(delta) => AddLoads(s, delta, clock, h.now, h.outcome);
      case PushRemove(ids) => RemoveLoads(s, ids, clock, h.now, h.outcome);
      case PushUnknown =>
      case Sweep =>
        UpdateLoads(s, ActiveMap(s.users, h.now), clock, h.now, h.outcome);
        PrepareLoads(s, ActiveMap(s.users, h.now), h.now);
      case Pulled(r) => PullLoads(s, r, clock, h.now, h.outcome);
    }
  }

  // ---------- the kernel ----------

  /** A full replacement keeps the kernel in step if and only if UpdateInStep says so. */
  lemma UpdateAgreesIff(s: Node, m: UserMap, clock: int, now: int, o: Outcome)
    requires Agreement(s, clock)
    ensures KernelAgrees(ApplyUserUpdate(s, m, now, o)) <==> UpdateInStep(s, now, o)
  {
    var active := ActiveMap(m, now);
    ActiveTwice(m, now, now);
    EnsureRunningLoads(s, clock, o);
    UuidsActive(s.users, now);
  }

  lemma ChangesAgrees(s: Node, o: Outcome)
    requires KernelAgrees(s)
    ensures KernelAgrees(ApplyChanges(s, o))
  {
  }

  /** The kernel after a successful add, against the users loaded. */
  lemma AddedKernelIff(users: UserMap, d: UserMap, now: int, o: Outcome)
    requires NoneExpired(d, now)
    ensures Uuids(d) + (Uuids(users) - (Changed(users, d) - o.dropFails)) == Uuids(ActiveMap(users + d, now))
       <==> Expired(users, now) <= d.Keys && Changed(users, d) !! o.dropFails
  {
    if Expired(users, now) <= d.Keys && Changed(users, d) !! o.dropFails {
      AddedKernel(users, d, now, o);
    }
    var l, r := Uuids(d) + (Uuids(users) - (Changed(users, d) - o.dropFails)), Uuids(ActiveMap(users + d, now));
    if i :| i in Expired(users, now) && i !in d {
      assert i in l && i !in r;
    } else if !(Changed(users, d) !! o.dropFails) {
      CommonElement(Changed(users, d), o.dropFails);
      var i :| i in Changed(users, d) && i in o.dropFails;
      assert l[i] == users[i].uuid && r[i] == d[i].uuid;
    }
  }

  lemma AddedKernel(users: UserMap, d: UserMap, now: int, o: Outcome)
    requires NoneExpired(d, now)
    requires Expired(users, now) <= d.Keys && Changed(users, d) !! o.dropFails
    ensures Uuids(d) + (Uuids(users) - (Changed(users, d) - o.dropFails)) == Uuids(ActiveMap(users + d, now))
  {
    var l, r := Uuids(d) + (Uuids(users) - (Changed(users, d) - o.dropFails)), Uuids(ActiveMap(users + d, now));
    forall i
      ensures (i in l <==> i in r) && (i in l ==> l[i] == r[i])
    {
      assert i in users && users[i].IsExpiredAt(now) ==> i in Expired(users, now);
      assert i in Changed(users, d) ==> i !in o.dropFails;
    }
  }

  lemma DroppedIsExpiredIff(users: UserMap, dropped: set<int>, now: int)
    requires dropped <= users.Keys
    ensures Uuids(users) - dropped == Uuids(ActiveMap(users, now)) <==> dropped == Expired(users, now)
  {
    var l, r := Uuids(users) - dropped, Uuids(ActiveMap(users, now));
    assert l.Keys == users.Keys - dropped && r.Keys == users.Keys - Expired(users, now);
    if l == r {
      assert forall i :: i in users ==> (i in dropped <==> i !in l.Keys);
      assert forall i :: i in users ==> (i in Expired(users, now) <==> i !in r.Keys);
    }
  }

  lemma AddRunningIff(s: Node, d: UserMap, now: int, o: Outcome)
    requires s.running && s.kernel == Uuids(s.users) && NoneExpired(d, now)
    ensures KernelAgrees(AddRunning(s, d, now, o)) <==>
              if o.addOk then Expired(s.users, now) <= d.Keys && Changed(s.users, d) !! o.dropFails
              else if o.updateOk then (Expired(s.users, now) - d.Keys) !! o.leftovers
              else Changed(s.users, d) - o.dropFails == Expired(s.users, now)
  {
    if o.addOk {
      AddedKernelIff(s.users, d, now, o);
    } else if o.updateOk {
      BackingAgreesIff(s.users + d, now, o.leftovers);
      ExpiredOverlay(s.users, d, now);
    } else {
      DroppedIsExpiredIff(s.users, Changed(s.users, d) - o.dropFails, now);
    }
  }

  /** An added delta keeps the kernel in step if and only if AddInStep says so: success, fallback or double failure. */
  lemma AddAgreesIff(s: Node, clock: int, delta: UserMap, now: int, o: Outcome)
    requires Agreement(s, clock)
    ensures KernelAgrees(ApplyAdd(s, delta, now, o)) <==> AddInStep(s, delta, now, o)
  {
    var d, s1 := Fresh(delta, now), EnsureRunning(s, o);
    EnsureRunningLoads(s, clock, o);
    NoneExpiredActive(delta, now);
    if d != map[] && s1.running {
      AddRunningIff(s1, d, now, o);
    }
  }

  /** The same for a removed delta. */
  lemma RemoveAgreesIff(s: Node, clock: int, ids: set<int>, now: int, o: Outcome)
    requires Agreement(s, clock)
    ensures KernelAgrees(ApplyRemove(s, ids, now, o)) <==> RemoveInStep(s, ids, now, o)
  {
    if ids != {} && s.running {
      ExpiredRest(s.users, ids, now);
      if o.removeOk {
        assert Uuids(s.users) - ids == Uuids(s.users - ids);
        UuidsActive(s.users - ids, now);
        NobodyExpired(s.users - ids, now);
        NothingOutside(Expired(s.users, now), ids);
      } else if o.updateOk {
        BackingAgreesIff(s.users - ids, now, o.leftovers);
      } else {
        UuidsActive(s.users, now);
      }
    }
  }

  lemma ReloadAgreesIff(s: Node, m: UserMap, now: int, o: Outcome)
    requires KernelAgrees(s) && (s.running ==> s.config.Some?)
    ensures KernelAgrees(ApplyChanges(Prepare(s, m, now), o)) <==> ReloadInStep(s, ActiveMap(m, now), o)
  {
  }

  lemma PullAgreesIff(s: Node, r: PullResult, clock: int, now: int, o: Outcome)
    requires Agreement(s, clock)
    ensures KernelAgrees(OnPull(s, r, now, o)) <==> PullInStep(s, r, now, o)
  {
    var users, config := KeepUsers(s, r), KeepConfig(s, r);
    var configChanged := r.certChanged || config.Some?;
    var s1 := if config.Some? then s.(config := config) else s;
    if users.Some? && Some(DigestOf(users.value)) != HashOf(s) {
      if configChanged {
        ReloadAgreesIff(s1, users.value, now, o);
      } else {
        UpdateAgreesIff(s, users.value, clock, now, o);
      }
    } else if configChanged {
      ChangesAgrees(s1, o);
    }
  }

  lemma SweepAgreesIff(s: Node, clock: int, now: int, o: Outcome)
    requires Agreement(s, clock)
    ensures KernelAgrees(OnSweep(s, now, o)) <==> (s.running ==> UpdateInStep(s, now, o))
  {
    NoneExpiredActive(s.users, now);
    if s.running {
      UpdateAgreesIff(s, ActiveMap(s.users, now), clock, now, o);
    }
  }

  /** For every event and failing calls in any combination: agreement stays if and only if the event is in step. */
  lemma StepAgreesIff(s: Node, clock: int, h: Happening)
    requires Agreement(s, clock) && WellFormed(s, clock, h)
    ensures Agreement(Handle(s, h), h.now) <==> InStep(s, h)
  {
    StepLoads(s, clock, h);
    match h.input {
      case Setup(config, users, _) => ActiveTwice(users, h.now, h.now);
      case PushConfig(config, _) =>
        if config.Some? {
          ChangesAgrees(s.(config := config), h.outcome);
        }
      case PushUsers(users) =>
        if users.Some? {
          UpdateAgreesIff(s, ActiveMap(users.value, h.now), clock, h.now, h.outcome);
        }
      case PushAdd(delta) => AddAgreesIff(s, clock, delta, h.now, h.outcome);
      case PushRemove(ids) => RemoveAgreesIff(s, clock, ids, h.now, h.outcome);
      case PushUnknown =>
      case Sweep => SweepAgreesIff(s, clock, h.now, h.outcome);
      case Pulled(r) => PullAgreesIff(s, r, clock, h.now, h.outcome);
    }
  }

  // ---------- runs ----------

  ghost function Run(s: Node, hs: seq<Happening>): Node
    decreases |hs|
  {
    if hs == [] then s else Run(Handle(s, hs[0]), hs[1..])
  }

  ghost predicate WellFormedRun(s: Node, clock: int, hs: seq<Happening>)
    decreases |hs|
  {
    hs == [] || (WellFormed(s, clock, hs[0]) && WellFormedRun(Handle(s, hs[0]), hs[0].now, hs[1..]))
  }

  ghost predicate RunInStep(s: Node, hs: seq<Happening>)
    decreases |hs|
  {
    hs == [] || (InStep(s, hs[0]) && RunInStep(Handle(s, hs[0]), hs[1..]))
  }

  /** Agreement in every state of a run. */
  ghost predicate AlwaysAgrees(s: Node, clock: int, hs: seq<Happening>)
    decreases |hs|
  {
    Agreement(s, clock) && (hs != [] ==> AlwaysAgrees(Handle(s, hs[0]), hs[0].now, hs[1..]))
  }

  function EndOf(clock: int, hs: seq<Happening>): int
  {
    if hs == [] then clock else hs[|hs| - 1].now
  }

  /** After every run, whatever fails, the limiter and the stored hash describe the loaded users. */
  lemma {:induction false} LoadedHolds(s: Node, clock: int, hs: seq<Happening>)
    requires LoadedAgrees(s, clock) && WellFormedRun(s, clock, hs)
    ensures LoadedAgrees(Run(s, hs), EndOf(clock, hs))
    decreases |hs|
  {
    if hs != [] {
      StepLoads(s, clock, hs[0]);
      LoadedHolds(Handle(s, hs[0]), hs[0].now, hs[1..]);
    }
  }

  /**
   Through setup, snapshots, deltas, polls, reloads, sweeps, fallbacks and restarts: the
   kernel, the limiter and the stored hash describe the loaded users in every state of
   a run, if and only if every event of the run is in step.
   */
  lemma {:induction false} AgreementHoldsIff(s: Node, clock: int, hs: seq<Happening>)
    requires Agreement(s, clock) && WellFormedRun(s, clock, hs)
    ensures AlwaysAgrees(s, clock, hs) <==> RunInStep(s, hs)
    ensures RunInStep(s, hs) ==> Agreement(Run(s, hs), EndOf(clock, hs))
    decreases |hs|
  {
    if hs != [] {
      StepAgreesIff(s, clock, hs[0]);
      var s' := Handle(s, hs[0]);
      if InStep(s, hs[0]) {
        AgreementHoldsIff(s', hs[0].now, hs[1..]);
      } else {
        assert !AlwaysAgrees(s', hs[0].now, hs[1..]);
      }
    }
  }

  /** So it is for every run of a fresh node, its setup included. */
  lemma AgreementFromStart(clock: int, hs: seq<Happening>)
    requires WellFormedRun(BLANK, clock, hs)
    ensures AlwaysAgrees(BLANK, clock, hs) <==> RunInStep(BLANK, hs)
    ensures LoadedAgrees(Run(BLANK, hs), EndOf(clock, hs))
  {
    AgreementHoldsIff(BLANK, clock, hs);
    LoadedHolds(BLANK, clock, hs);
  }

  /** Every kernel call succeeds, and no loaded user is past its expiry when a delta arrives. */
  predicate Smooth(s: Node, h: Happening)
  {
    && h.outcome.updateOk && h.outcome.reloadOk && h.outcome.addOk && h.outcome.removeOk && h.outcome.dropFails == {}
    && (h.input.PushAdd? || h.input.PushRemove? ==> NoneExpired(s.users, h.now))
  }

  ghost predicate SmoothRun(s: Node, hs: seq<Happening>)
    decreases |hs|
  {
    hs == [] || (Smooth(s, hs[0]) && SmoothRun(Handle(s, hs[0]), hs[1..]))
  }

  lemma SmoothIsInStep(s: Node, h: Happening)
    requires Smooth(s, h)
    ensures InStep(s, h)
  {
    if h.input.PushAdd? || h.input.PushRemove? {
      NobodyExpired(s.users, h.now);
    }
  }

  /** In a smooth run everything describes exactly the loaded users, in every state. */
  lemma {:induction false} SmoothRunsAgree(s: Node, clock: int, hs: seq<Happening>)
    requires Agreement(s, clock) && WellFormedRun(s, clock, hs) && SmoothRun(s, hs)
    ensures AlwaysAgrees(s, clock, hs)
    decreases |hs|
  {
    if hs != [] {
      SmoothIsInStep(s, hs[0]);
      StepAgreesIff(s, clock, hs[0]);
      SmoothRunsAgree(Handle(s, hs[0]), hs[0].now, hs[1..]);
    }
  }

  /**
   Skipping a snapshot on an equal hash is safe: the kernel, the limiter and the
   loaded users are already what the snapshot asks for, as long as digests of the
   maps in question do not collide.
   */
  lemma SkipIsSafe(s: Node, clock: int, m: UserMap, now: int, g: iset<UserMap>)
    requires Agreement(s, clock) && clock <= now && Keyed(m)
    requires CollisionFree(g) && ActiveMap(m, now) in g && (s.hashed.Some? ==> s.hashed.value in g)
    requires Some(DigestOf(ActiveMap(m, now))) == HashOf(s)
    ensures s.users == s.limiter == ActiveMap(m, now)
    ensures s.running ==> s.kernel == Uuids(ActiveMap(m, now))
  {
    var h := s.hashed.value;
    assert ActiveMap(m, now) == h;
    NoneExpiredActive(m, now);
    assert NoneExpired(h, s.hashedAt);
    NoneExpiredActive(h, s.hashedAt);
  }

  // ---------- expiry ----------

  /** After a sweep no loaded user is expired, on every success and failure path, and no other user is lost. */
  lemma SweepIsComplete(s: Node, now: int, o: Outcome)
    ensures OnSweep(s, now, o).users == ActiveMap(s.users, now)
    ensures NoneExpired(OnSweep(s, now, o).users, now)
    ensures s.limiter == s.users ==> NoneExpired(OnSweep(s, now, o).limiter, now)
  {
    ActiveTwice(s.users, now, now);
    NoneExpiredActive(s.users, now);
    ActiveTwice(ActiveMap(s.users, now), now, now);
  }

  // ---------- what goes wrong out of step ----------

  /**
   One ignored error is enough: user 7 changes its UUID, RemoveUsers fails, AddUsers skips
   the known ID. Every other call succeeds, and the kernel keeps the old UUID.
   */
  lemma IgnoredErrorKeepsOldUuid(s: Node, clock: int, now: int, o: Outcome)
    requires Agreement(s, clock) && s.running && o.addOk && o.dropFails == {7}
    requires s.users == map[7 := UserSpec(7, "old", [], 0, 0, 0)]
    ensures var s' := ApplyAdd(s, map[7 := UserSpec(7, "new", [], 0, 0, 0)], now, o);
            s'.users[7].uuid == "new" && s'.kernel == map[7 := "old"]
  {
    var was, next := UserSpec(7, "old", [], 0, 0, 0), UserSpec(7, "new", [], 0, 0, 0);
    var delta := map[7 := next];
    assert ActiveMap(delta, now) == delta;
    assert s.users + delta == delta;
    assert Changed(s.users, delta) - o.dropFails == {};
    assert Uuids(delta) + Uuids(s.users) == map[7 := "old"];
  }

  /**
   When a list starts a stopped kernel: only if users were loaded before and a
   configuration is known, the start with those earlier users succeeds, and what follows
   does not stop it again. So a first user list never starts it.
   */
  lemma ListStartsIff(s: Node, m: UserMap, now: int, o: Outcome)
    requires !s.running
    ensures var s' := ApplyUserUpdate(s, m, now, o);
            s'.running <==> s.users != map[] && s.config.Some? && o.startOk && (o.updateOk || o.restartOk || o.keepsOld)
  {
  }

  /** The first list is stored all the same. */
  lemma FirstListDoesNotStart(s: Node, m: UserMap, now: int, o: Outcome)
    requires !s.running && (s.users == map[] || s.config.None?)
    ensures var s' := ApplyUserUpdate(s, m, now, o);
            !s'.running && s'.users == s'.limiter == ActiveMap(m, now)
  {
    ListStartsIff(s, m, now, o);
    ActiveTwice(m, now, now);
  }
}
