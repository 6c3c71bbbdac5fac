/**
 What the service does to the identities in the kernel, aliases included. NodeModel
 forgets aliases; here the kernel is kept with them beside it, event by event, and
 projects to the kernel there.
 */
module NodeIdentities {
  import opened Options
  import opened Users
  import opened UserHash
  import opened UserDiff
  import opened NodeModel
  import opened NodeRuns

  type Identified = map<int, Identity>

  function Projection(k: Identified): map<int, string>
  {
    map i | i in k :: k[i].uuid
  }

  // ---------- the kernel with its aliases ----------

  function Started(k: Identified, m: UserMap, ok: bool, keepsOld: bool): Identified
  {
    if ok then Identities(m) else if keepsOld then k else map[]
  }

  function Ensured(s: Node, k: Identified, o: Outcome): Identified
  {
    if s.running || s.users == map[] || s.config.None? then k else Started(k, s.users, o.startOk, o.keepsOld)
  }

  function Updated(s: Node, k: Identified, m: UserMap, now: int, o: Outcome): Identified
  {
    var active, k1 := ActiveMap(m, now), Ensured(s, k, o);
    if !EnsureRunning(s, o).running then k1
    else if o.updateOk then Identities(active)
    else Started(k1, active, o.restartOk, o.keepsOld)
  }

  /** AddUsers with success: changed users have been dropped, known IDs are skipped. */
  function Added(k: Identified, users: UserMap, d: UserMap, o: Outcome): Identified
  {
    Identities(d) + (k - (Changed(users, d) - o.dropFails))
  }

  function AfterAdd(s: Node, k: Identified, delta: UserMap, now: int, o: Outcome): Identified
  {
    var d, k1 := Fresh(delta, now), Ensured(s, k, o);
    if d == map[] then k
    else if !EnsureRunning(s, o).running then k1
    else if o.addOk then Added(k1, s.users, d, o)
    else if o.updateOk then Identities(Backing(s.users + d, now, o.leftovers))
    else k1 - (Changed(s.users, d) - o.dropFails)
  }

  function AfterRemove(s: Node, k: Identified, ids: set<int>, now: int, o: Outcome): Identified
  {
    if ids == {} || !s.running then k
    else if o.removeOk then k - ids
    else if o.updateOk then Identities(Backing(s.users - ids, now, o.leftovers))
    else k
  }

  function AfterChanges(s: Node, k: Identified, o: Outcome): Identified
  {
    if s.users == map[] then map[]
    else if s.config.None? then k
    else if s.running then
      if o.reloadOk then Identities(s.users) else Started(k, s.users, o.restartOk, o.keepsOld)
    else Started(k, s.users, o.startOk, o.keepsOld)
  }

  ghost function AfterPull(s: Node, k: Identified, r: PullResult, now: int, o: Outcome): Identified
  {
    var users, config := KeepUsers(s, r), KeepConfig(s, r);
    var configChanged := r.certChanged || config.Some?;
    var s1 := if config.Some? then s.(config := config) else s;
    var k2 := if users.None? || Some(DigestOf(users.value)) == HashOf(s) || configChanged then k
              else Updated(s1, k, users.value, now, o);
    if configChanged then AfterChanges(PullUsers(s1, users, configChanged, now, o), k2, o) else k2
  }

  /** The kernel's identities after an event, for the service state before it. */
  ghost function HandleIdentities(s: Node, k: Identified, h: Happening): Identified
  {
    match h.input
    case Setup(config, first, valid) =>
      if config.None? || !valid || ActiveMap(first, h.now) == map[] then k
      else Started(k, ActiveMap(first, h.now), h.outcome.startOk, h.outcome.keepsOld)
    case PushConfig(config, valid) =>
      if config.None? || config == s.config || !valid then k
      else AfterChanges(s.(config := config), k, h.outcome)
    case PushUsers(users) =>
      if users.None? || Some(DigestOf(ActiveMap(users.value, h.now))) == HashOf(s) then k
      else Updated(s, k, ActiveMap(users.value, h.now), h.now, h.outcome)
    case PushAdd(delta) => AfterAdd(s, k, delta, h.now, h.outcome)
    case PushRemove(ids) => AfterRemove(s, k, ids, h.now, h.outcome)
    case PushUnknown => k
    case Sweep =>
      if ActiveMap(s.users, h.now) == s.users || !s.running then k
      else Updated(s, k, ActiveMap(s.users, h.now), h.now, h.outcome)
    case Pulled(r) => AfterPull(s, k, r, h.now, h.outcome)
  }

  // ---------- forgetting aliases ----------

  lemma ProjectIdentities(m: UserMap)
    ensures Projection(Identities(m)) == Uuids(m)
  {
    var l, r := Projection(Identities(m)), Uuids(m);
    forall i
      ensures (i in l <==> i in r) && (i in l ==> l[i] == r[i])
    {
    }
  }

  lemma ProjectLess(k: Identified, ids: set<int>)
    ensures Projection(k - ids) == Projection(k) - ids
  {
    var l, r := Projection(k - ids), Projection(k) - ids;
    forall i
      ensures (i in l <==> i in r) && (i in l ==> l[i] == r[i])
    {
      assert i in Projection(k) <==> i in k;
    }
  }

  lemma ProjectOver(d: UserMap, k: Identified)
    ensures Projection(Identities(d) + k) == Uuids(d) + Projection(k)
  {
    var l, r := Projection(Identities(d) + k), Uuids(d) + Projection(k);
    forall i
      ensures (i in l <==> i in r) && (i in l ==> l[i] == r[i])
    {
    }
  }

  lemma StartedProjects(s: Node, k: Identified, m: UserMap, ok: bool, keepsOld: bool)
    requires Projection(k) == s.kernel
    ensures Projection(Started(k, m, ok, keepsOld)) == Start(s, m, ok, keepsOld).kernel
  {
    ProjectIdentities(m);
    assert Projection(map[]) == map[];
  }

  lemma EnsuredProjects(s: Node, k: Identified, o: Outcome)
    requires Projection(k) == s.kernel
    ensures Projection(Ensured(s, k, o)) == EnsureRunning(s, o).kernel
  {
    StartedProjects(s, k, s.users, o.startOk, o.keepsOld);
  }

  lemma UpdatedProjects(s: Node, k: Identified, m: UserMap, now: int, o: Outcome)
    requires Projection(k) == s.kernel
    ensures Projection(Updated(s, k, m, now, o)) == ApplyUserUpdate(s, m, now, o).kernel
  {
    var active := ActiveMap(m, now);
    var s1 := EnsureRunning(s, o);
    EnsuredProjects(s, k, o);
    ProjectIdentities(active);
    StartedProjects(Prepare(s1, active, now), Ensured(s, k, o), active, o.restartOk, o.keepsOld);
  }

  lemma AddProjects(s: Node, k: Identified, delta: UserMap, now: int, o: Outcome)
    requires Projection(k) == s.kernel
    ensures Projection(AfterAdd(s, k, delta, now, o)) == ApplyAdd(s, delta, now, o).kernel
  {
    var d, k1 := Fresh(delta, now), Ensured(s, k, o);
    var drop := Changed(s.users, d) - o.dropFails;
    EnsuredProjects(s, k, o);
    ProjectLess(k1, drop);
    ProjectOver(d, k1 - drop);
    ProjectIdentities(Backing(s.users + d, now, o.leftovers));
  }

  lemma RemoveProjects(s: Node, k: Identified, ids: set<int>, now: int, o: Outcome)
    requires Projection(k) == s.kernel
    ensures Projection(AfterRemove(s, k, ids, now, o)) == ApplyRemove(s, ids, now, o).kernel
  {
    ProjectLess(k, ids);
    ProjectIdentities(Backing(s.users - ids, now, o.leftovers));
  }

  lemma ChangesProject(s: Node, k: Identified, o: Outcome)
    requires Projection(k) == s.kernel
    ensures Projection(AfterChanges(s, k, o)) == ApplyChanges(s, o).kernel
  {
    ProjectIdentities(s.users);
    StartedProjects(s, k, s.users, o.restartOk, o.keepsOld);
    StartedProjects(s, k, s.users, o.startOk, o.keepsOld);
    assert Projection(map[]) == map[];
  }

  lemma PullProjects(s: Node, k: Identified, r: PullResult, now: int, o: Outcome)
    requires Projection(k) == s.kernel
    ensures Projection(AfterPull(s, k, r, now, o)) == OnPull(s, r, now, o).kernel
  {
    var users, config := KeepUsers(s, r), KeepConfig(s, r);
    var configChanged := r.certChanged || config.Some?;
    var s1 := if config.Some? then s.(config := config) else s;
    if users.Some? {
      UpdatedProjects(s1, k, users.value, now, o);
    }
    if configChanged {
      ChangesProject(PullUsers(s1, users, configChanged, now, o), k, o);
    }
  }

  /** Forgetting aliases commutes with every event. */
  lemma HandleProjects(s: Node, k: Identified, h: Happening)
    requires Projection(k) == s.kernel
    ensures Projection(HandleIdentities(s, k, h)) == Handle(s, h).kernel
  {
    var now, o := h.now, h.outcome;
    match h.input {
      case Setup(config, first, _) =>
        ActiveTwice(first, now, now);
        StartedProjects(Prepare(s.(config := config), first, now), k, ActiveMap(first, now), o.startOk, o.keepsOld);
      case PushConfig(config, _) => ChangesProject(s.(config := config), k, o);
      case PushUsers(users) =>
        if users.Some? {
          UpdatedProjects(s, k, ActiveMap(users.value, now), now, o);
        }
      case PushAdd(delta) => AddProjects(s, k, delta, now, o);
      case PushRemove(ids) => RemoveProjects(s, k, ids, now, o);
      case PushUnknown =>
      case Sweep => UpdatedProjects(s, k, ActiveMap(s.users, now), now, o);
      case Pulled(r) => PullProjects(s, k, r, now, o);
    }
  }

  // ---------- agreement, aliases included ----------

  /** A running kernel knows exactly the identities of the loaded users. */
  predicate IdentitiesAgree(s: Node, k: Identified)
  {
    s.running ==> k == Identities(s.users)
  }

  /** Users of the delta that keep their UUID while their aliases change. */
  function Realiased(users: UserMap, d: UserMap): set<int>
  {
    set i | i in d && i in users && users[i].uuid == d[i].uuid && Render(users[i].aliases) != Render(d[i].aliases)
  }

  /** On top of AddInStep: a known user must not change aliases alone, for such a change never reaches the kernel. */
  predicate AddInStepId(s: Node, delta: UserMap, now: int, o: Outcome)
  {
    var d := Fresh(delta, now);
    && AddInStep(s, delta, now, o)
    && (d != map[] && EnsureRunning(s, o).running && o.addOk ==> Realiased(s.users, d) == {})
  }

  predicate ReloadInStepId(s: Node, m: UserMap, o: Outcome)
  {
    s.running && m != map[] && !o.reloadOk && !o.restartOk && o.keepsOld ==> Identities(m) == Identities(s.users)
  }

  ghost predicate PullInStepId(s: Node, r: PullResult, now: int, o: Outcome)
  {
    var users := KeepUsers(s, r);
    users.Some? && Some(DigestOf(users.value)) != HashOf(s) ==>
      if r.certChanged || KeepConfig(s, r).Some? then ReloadInStepId(s, ActiveMap(users.value, now), o)
      else UpdateInStep(s, now, o)
  }

  /** The condition under which an event keeps the kernel's identities in step. */
  ghost predicate InStepId(s: Node, h: Happening)
  {
    match h.input
    case PushAdd(delta) => AddInStepId(s, delta, h.now, h.outcome)
    case Pulled(r) => PullInStepId(s, r, h.now, h.outcome)
    case _ => InStep(s, h)
  }

  predicate SubMap(a: UserMap, m: UserMap)
  {
    forall i :: i in a ==> i in m && a[i] == m[i]
  }

  /** Parts of one user map have the same identities exactly when they have the same UUIDs. */
  lemma SameIdentitiesIff(a: UserMap, b: UserMap, m: UserMap)
    requires SubMap(a, m) && SubMap(b, m)
    ensures Identities(a) == Identities(b) <==> Uuids(a) == Uuids(b)
  {
    ProjectIdentities(a);
    ProjectIdentities(b);
    if Uuids(a) == Uuids(b) {
      forall i
        ensures (i in a <==> i in b) && (i in a ==> a[i] == b[i])
      {
        assert i in Uuids(a) <==> i in a;
        assert i in Uuids(b) <==> i in b;
      }
      assert a == b;
    }
  }

  lemma UpdateIdentitiesIff(s: Node, k: Identified, m: UserMap, clock: int, now: int, o: Outcome)
    requires LoadedAgrees(s, clock) && IdentitiesAgree(s, k)
    ensures IdentitiesAgree(ApplyUserUpdate(s, m, now, o), Updated(s, k, m, now, o)) <==> UpdateInStep(s, now, o)
  {
    ActiveTwice(m, now, now);
    UuidsActive(s.users, now);
    SameIdentitiesIff(s.users, ActiveMap(s.users, now), s.users);
  }

  lemma IdentitiesLess(m: UserMap, ids: set<int>)
    ensures Identities(m) - ids == Identities(m - ids)
  {
  }

  lemma DroppedIdentitiesIff(users: UserMap, dropped: set<int>, now: int)
    requires dropped <= users.Keys
    ensures Identities(users) - dropped == Identities(ActiveMap(users, now)) <==> dropped == Expired(users, now)
  {
    DroppedIsExpiredIff(users, dropped, now);
    IdentitiesLess(users, dropped);
    UuidsLess(users, dropped);
    SameIdentitiesIff(users - dropped, ActiveMap(users, now), users);
  }

  lemma UuidsLess(m: UserMap, ids: set<int>)
    ensures Uuids(m) - ids == Uuids(m - ids)
  {
  }

  lemma BackingIdentitiesIff(m: UserMap, now: int, leftovers: set<int>)
    ensures Identities(Backing(m, now, leftovers)) == Identities(ActiveMap(m, now)) <==> Expired(m, now) !! leftovers
  {
    BackingAgreesIff(m, now, leftovers);
    SameIdentitiesIff(Backing(m, now, leftovers), ActiveMap(m, now), m);
  }

  lemma EnsuredAgrees(s: Node, k: Identified, o: Outcome)
    requires IdentitiesAgree(s, k)
    ensures EnsureRunning(s, o).running ==> Ensured(s, k, o) == Identities(s.users)
    ensures EnsureRunning(s, o).users == s.users
  {
  }

  /**
   An "add" keeps the kernel's identities in step if and only if it keeps its UUIDs in
   step and, when AddUsers succeeds, no known user changes aliases alone: the dropping
   loop looks at UUIDs only.
   */
  lemma AddIdentitiesIff(s: Node, k: Identified, clock: int, delta: UserMap, now: int, o: Outcome)
    requires LoadedAgrees(s, clock) && IdentitiesAgree(s, k)
    ensures IdentitiesAgree(ApplyAdd(s, delta, now, o), AfterAdd(s, k, delta, now, o))
       <==> AddInStepId(s, delta, now, o)
  {
    var d := Fresh(delta, now);
    NoneExpiredActive(delta, now);
    EnsuredAgrees(s, k, o);
    if d != map[] && EnsureRunning(s, o).running {
      if o.addOk {
        AddedIdentitiesIff(s.users, d, now, o);
      } else if o.updateOk {
        BackingIdentitiesIff(s.users + d, now, o.leftovers);
        ExpiredOverlay(s.users, d, now);
      } else {
        DroppedIdentitiesIff(s.users, Changed(s.users, d) - o.dropFails, now);
      }
    }
  }

  lemma AddedIdentitiesIff(users: UserMap, d: UserMap, now: int, o: Outcome)
    requires NoneExpired(d, now)
    ensures Added(Identities(users), users, d, o) == Identities(ActiveMap(users + d, now))
       <==> Expired(users, now) <= d.Keys && Changed(users, d) !! o.dropFails && Realiased(users, d) == {}
  {
    if Expired(users, now) <= d.Keys && Changed(users, d) !! o.dropFails && Realiased(users, d) == {} {
      InStepIdentities(users, d, now, o);
    } else {
      OutOfStepIdentities(users, d, now, o);
    }
  }

  lemma InStepIdentities(users: UserMap, d: UserMap, now: int, o: Outcome)
    requires NoneExpired(d, now) && Realiased(users, d) == {}
    requires Expired(users, now) <= d.Keys && Changed(users, d) !! o.dropFails
    ensures Added(Identities(users), users, d, o) == Identities(ActiveMap(users + d, now))
  {
    var l, r := Added(Identities(users), users, d, o), Identities(ActiveMap(users + d, now));
    forall i
      ensures (i in l <==> i in r) && (i in l ==> l[i] == r[i])
    {
      assert i in users && users[i].IsExpiredAt(now) ==> i in Expired(users, now);
      assert i in Changed(users, d) ==> i !in o.dropFails;
      assert i !in Realiased(users, d);
    }
  }

  lemma OutOfStepIdentities(users: UserMap, d: UserMap, now: int, o: Outcome)
    requires NoneExpired(d, now)
    requires !(Expired(users, now) <= d.Keys && Changed(users, d) !! o.dropFails && Realiased(users, d) == {})
    ensures Added(Identities(users), users, d, o) != Identities(ActiveMap(users + d, now))
  {
    var l, r := Added(Identities(users), users, d, o), Identities(ActiveMap(users + d, now));
    if !(Expired(users, now) <= d.Keys) {
      NothingOutside(Expired(users, now), d.Keys);
      HasElement(Expired(users, now) - d.Keys);
      var i :| i in Expired(users, now) - d.Keys;
      assert i in l && i !in r;
    } else if !(Changed(users, d) !! o.dropFails) {
      CommonElement(Changed(users, d), o.dropFails);
      var i :| i in Changed(users, d) && i in o.dropFails;
      assert l[i].uuid == users[i].uuid && r[i].uuid == d[i].uuid;
    } else {
      HasElement(Realiased(users, d));
      var i :| i in Realiased(users, d);
      assert i !in Changed(users, d);
      assert l[i].aliases == Render(users[i].aliases) && r[i].aliases == Render(d[i].aliases);
    }
  }

  lemma RemoveIdentitiesIff(s: Node, k: Identified, clock: int, ids: set<int>, now: int, o: Outcome)
    requires LoadedAgrees(s, clock) && IdentitiesAgree(s, k)
    ensures IdentitiesAgree(ApplyRemove(s, ids, now, o), AfterRemove(s, k, ids, now, o))
       <==> RemoveInStep(s, ids, now, o)
  {
    if ids != {} && s.running {
      ExpiredRest(s.users, ids, now);
      if o.removeOk {
        IdentitiesLess(s.users, ids);
        UuidsActive(s.users - ids, now);
        SameIdentitiesIff(s.users - ids, ActiveMap(s.users - ids, now), s.users - ids);
        NobodyExpired(s.users - ids, now);
        NothingOutside(Expired(s.users, now), ids);
      } else if o.updateOk {
        BackingIdentitiesIff(s.users - ids, now, o.leftovers);
      } else {
        UuidsActive(s.users, now);
        SameIdentitiesIff(s.users, ActiveMap(s.users, now), s.users);
      }
    }
  }

  lemma ChangesIdentities(s: Node, k: Identified, o: Outcome)
    requires IdentitiesAgree(s, k)
    ensures IdentitiesAgree(ApplyChanges(s, o), AfterChanges(s, k, o))
  {
  }

  lemma ReloadIdentitiesIff(s: Node, k: Identified, m: UserMap, now: int, o: Outcome)
    requires IdentitiesAgree(s, k) && (s.running ==> s.config.Some?)
    ensures IdentitiesAgree(ApplyChanges(Prepare(s, m, now), o), AfterChanges(Prepare(s, m, now), k, o))
       <==> ReloadInStepId(s, ActiveMap(m, now), o)
  {
  }

  lemma PullIdentitiesIff(s: Node, k: Identified, r: PullResult, clock: int, now: int, o: Outcome)
    requires LoadedAgrees(s, clock) && IdentitiesAgree(s, k)
    ensures IdentitiesAgree(OnPull(s, r, now, o), AfterPull(s, k, r, now, o)) <==> PullInStepId(s, r, now, o)
  {
    var users, config := KeepUsers(s, r), KeepConfig(s, r);
    var configChanged := r.certChanged || config.Some?;
    var s1 := if config.Some? then s.(config := config) else s;
    if users.Some? && Some(DigestOf(users.value)) != HashOf(s) {
      if configChanged {
        ReloadIdentitiesIff(s1, k, users.value, now, o);
      } else {
        UpdateIdentitiesIff(s, k, users.value, clock, now, o);
      }
    } else if configChanged {
      ChangesIdentities(s1, k, o);
    }
  }

  lemma SweepIdentitiesIff(s: Node, k: Identified, clock: int, h: Happening)
    requires LoadedAgrees(s, clock) && IdentitiesAgree(s, k) && h.input.Sweep?
    ensures IdentitiesAgree(Handle(s, h), HandleIdentities(s, k, h)) <==> InStepId(s, h)
  {
    NoneExpiredActive(s.users, h.now);
    if s.running {
      UpdateIdentitiesIff(s, k, ActiveMap(s.users, h.now), clock, h.now, h.outcome);
    }
  }

  /** For every event: the kernel's identities stay in step if and only if the event is in step, aliases included. */
  lemma StepIdentitiesIff(s: Node, k: Identified, clock: int, h: Happening)
    requires LoadedAgrees(s, clock) && IdentitiesAgree(s, k) && WellFormed(s, clock, h)
    ensures IdentitiesAgree(Handle(s, h), HandleIdentities(s, k, h)) <==> InStepId(s, h)
  {
    match h.input {
      case Setup(config, first, _) => ActiveTwice(first, h.now, h.now);
      case PushConfig(config, _) =>
        if config.Some? {
          ChangesIdentities(s.(config := config), k, h.outcome);
        }
      case PushUsers(users) =>
        if users.Some? {
          UpdateIdentitiesIff(s, k, ActiveMap(users.value, h.now), clock, h.now, h.outcome);
        }
      case PushAdd(delta) => AddIdentitiesIff(s, k, clock, delta, h.now, h.outcome);
      case PushRemove(ids) => RemoveIdentitiesIff(s, k, clock, ids, h.now, h.outcome);
      case PushUnknown =>
      case Sweep => SweepIdentitiesIff(s, k, clock, h);
      case Pulled(r) => PullIdentitiesIff(s, k, r, clock, h.now, h.outcome);
    }
  }

  // ---------- runs ----------

  ghost predicate RunInStepId(s: Node, hs: seq<Happening>)
    decreases |hs|
  {
    hs == [] || (InStepId(s, hs[0]) && RunInStepId(Handle(s, hs[0]), hs[1..]))
  }

  /** Identities in step in every state of a run. */
  ghost predicate AlwaysIdentified(s: Node, k: Identified, hs: seq<Happening>)
    decreases |hs|
  {
    IdentitiesAgree(s, k)
    && (hs != [] ==> AlwaysIdentified(Handle(s, hs[0]), HandleIdentities(s, k, hs[0]), hs[1..]))
  }

  ghost function RunIdentities(s: Node, k: Identified, hs: seq<Happening>): Identified
    decreases |hs|
  {
    if hs == [] then k else RunIdentities(Handle(s, hs[0]), HandleIdentities(s, k, hs[0]), hs[1..])
  }

  /**
   Over whole runs, aliases included: the kernel authenticates exactly the loaded users in
   every state if and only if every event of the run is in step.
   */
  lemma {:induction false} IdentitiesHoldIff(s: Node, k: Identified, clock: int, hs: seq<Happening>)
    requires LoadedAgrees(s, clock) && IdentitiesAgree(s, k) && WellFormedRun(s, clock, hs)
    ensures AlwaysIdentified(s, k, hs) <==> RunInStepId(s, hs)
    ensures RunInStepId(s, hs) ==> IdentitiesAgree(Run(s, hs), RunIdentities(s, k, hs))
    decreases |hs|
  {
    if hs != [] {
      var s', k' := Handle(s, hs[0]), HandleIdentities(s, k, hs[0]);
      StepLoads(s, clock, hs[0]);
      StepIdentitiesIff(s, k, clock, hs[0]);
      if InStepId(s, hs[0]) {
        IdentitiesHoldIff(s', k', hs[0].now, hs[1..]);
      } else {
        assert !AlwaysIdentified(s', k', hs[1..]);
      }
    }
  }

  /** Forgetting aliases gives the kernel of the service model throughout. */
  lemma {:induction false} RunProjects(s: Node, k: Identified, hs: seq<Happening>)
    requires Projection(k) == s.kernel
    ensures Projection(RunIdentities(s, k, hs)) == Run(s, hs).kernel
    decreases |hs|
  {
    if hs != [] {
      HandleProjects(s, k, hs[0]);
      RunProjects(Handle(s, hs[0]), HandleIdentities(s, k, hs[0]), hs[1..]);
    }
  }
}
