/**
 What a service has after every event, whatever kernel calls fail: whether its kernel
 runs, with which configuration, and which users and configuration are current.
 */
module NodeLife {
  import opened Options
  import opened Users
  import opened UserHash
  import opened Mailbox
  import opened NodeModel
  import opened NodeRuns

  // ---------- whether the kernel runs ----------

  /** ensureRunning succeeds. */
  predicate ComesUp(s: Node, o: Outcome)
  {
    s.running || (s.users != map[] && s.config.Some? && o.startOk)
  }

  /** A full replacement leaves some instance running. */
  predicate SurvivesUpdate(o: Outcome)
  {
    o.updateOk || o.restartOk || o.keepsOld
  }

  /**
   After a changed configuration: a stopped kernel starts as soon as there are users and a
   configuration, a running one goes on unless users are missing or nothing works.
   */
  predicate RunsAfterChanges(s: Node, o: Outcome)
  {
    s.users != map[]
    && if s.running then s.config.None? || o.reloadOk || o.restartOk || o.keepsOld else s.config.Some? && o.startOk
  }

  lemma ChangesRunIff(s: Node, o: Outcome)
    ensures ApplyChanges(s, o).running <==> RunsAfterChanges(s, o)
  {
  }

  lemma UpdateRunsIff(s: Node, m: UserMap, now: int, o: Outcome)
    ensures ApplyUserUpdate(s, m, now, o).running <==> ComesUp(s, o) && SurvivesUpdate(o)
  {
  }

  /** A polled list that differs from the current one. */
  ghost predicate PollDiffers(s: Node, r: PullResult)
  {
    KeepUsers(s, r).Some? && Some(DigestOf(KeepUsers(s, r).value)) != HashOf(s)
  }

  predicate PollReloads(s: Node, r: PullResult)
  {
    r.certChanged || KeepConfig(s, r).Some?
  }

  ghost predicate RunsAfterPull(s: Node, r: PullResult, now: int, o: Outcome)
  {
    if PollReloads(s, r) then
      RunsAfterChanges(s.(config := ConfigAfter(s.config, Pulled(r)),
                          users := if PollDiffers(s, r) then ActiveMap(r.users.value, now) else s.users), o)
    else if PollDiffers(s, r) then ComesUp(s, o) && SurvivesUpdate(o)
    else s.running
  }

  /** Whether the kernel runs after an event. */
  ghost predicate RunsAfter(s: Node, h: Happening)
  {
    var now, o := h.now, h.outcome;
    match h.input
    case Setup(config, first, valid) =>
      if config.Some? && valid && ActiveMap(first, now) != map[] then o.startOk || (o.keepsOld && s.running)
      else s.running
    case PushConfig(config, valid) =>
      if config.Some? && config != s.config && valid then RunsAfterChanges(s.(config := config), o) else s.running
    case PushUsers(users) =>
      if users.Some? && Some(DigestOf(ActiveMap(users.value, now))) != HashOf(s) then ComesUp(s, o) && SurvivesUpdate(o)
      else s.running
    case PushAdd(delta) => if Fresh(delta, now) != map[] then ComesUp(s, o) else s.running
    case Sweep => s.running && (NoneExpired(s.users, now) || SurvivesUpdate(o))
    case Pulled(r) => RunsAfterPull(s, r, now, o)
    case _ => s.running
  }

  lemma PullRunsIff(s: Node, r: PullResult, now: int, o: Outcome)
    ensures OnPull(s, r, now, o).running <==> RunsAfterPull(s, r, now, o)
  {
    var users, config := KeepUsers(s, r), KeepConfig(s, r);
    var s1 := if config.Some? then s.(config := config) else s;
    var s2 := PullUsers(s1, users, PollReloads(s, r), now, o);
    if PollReloads(s, r) {
      ChangesRunIff(s2, o);
    } else if users.Some? {
      UpdateRunsIff(s, users.value, now, o);
    }
  }

  /** For every event and all failing calls: the kernel runs afterwards if and only if RunsAfter says so. */
  lemma RunningIff(s: Node, h: Happening)
    ensures Handle(s, h).running <==> RunsAfter(s, h)
  {
    var now, o := h.now, h.outcome;
    match h.input {
      case Setup(_, first, _) => ActiveTwice(first, now, now);
      case PushConfig(config, _) => ChangesRunIff(s.(config := config), o);
      case PushUsers(users) =>
        if users.Some? {
          UpdateRunsIff(s, ActiveMap(users.value, now), now, o);
        }
      case PushAdd(_) =>
      case PushRemove(_) =>
      case PushUnknown =>
      case Sweep =>
        NoneExpiredActive(s.users, now);
        UpdateRunsIff(s, ActiveMap(s.users, now), now, o);
      case Pulled(r) => PullRunsIff(s, r, now, o);
    }
  }

  /** A stopped kernel holds nothing, in every state a fresh node reaches. */
  predicate EmptyWhenStopped(s: Node)
  {
    !s.running ==> s.kernel == map[] && s.applied == None
  }

  lemma PullEmptyWhenStopped(s: Node, r: PullResult, now: int, o: Outcome)
    requires EmptyWhenStopped(s)
    ensures EmptyWhenStopped(OnPull(s, r, now, o))
  {
    var users, config := KeepUsers(s, r), KeepConfig(s, r);
    var s1 := if config.Some? then s.(config := config) else s;
    if users.Some? {
      UpdateEmptyWhenStopped(s1, users.value, now, o);
    }
    ChangesEmptyWhenStopped(PullUsers(s1, users, PollReloads(s, r), now, o), o);
  }

  lemma UpdateEmptyWhenStopped(s: Node, m: UserMap, now: int, o: Outcome)
    requires EmptyWhenStopped(s)
    ensures EmptyWhenStopped(ApplyUserUpdate(s, m, now, o))
  {
  }

  lemma ChangesEmptyWhenStopped(s: Node, o: Outcome)
    requires EmptyWhenStopped(s)
    ensures EmptyWhenStopped(ApplyChanges(s, o))
  {
  }

  lemma StepEmptyWhenStopped(s: Node, h: Happening)
    requires EmptyWhenStopped(s)
    ensures EmptyWhenStopped(Handle(s, h))
  {
    var now, o := h.now, h.outcome;
    match h.input {
      case PushConfig(config, _) => ChangesEmptyWhenStopped(s.(config := config), o);
      case PushUsers(users) =>
        if users.Some? {
          UpdateEmptyWhenStopped(s, ActiveMap(users.value, now), now, o);
        }
      case Sweep => UpdateEmptyWhenStopped(s, ActiveMap(s.users, now), now, o);
      case Pulled(r) => PullEmptyWhenStopped(s, r, now, o);
      case _ =>
    }
  }

  lemma {:induction false} StoppedIsEmpty(s: Node, hs: seq<Happening>)
    requires EmptyWhenStopped(s)
    ensures EmptyWhenStopped(Run(s, hs))
    decreases |hs|
  {
    if hs != [] {
      StepEmptyWhenStopped(s, hs[0]);
      StoppedIsEmpty(Handle(s, hs[0]), hs[1..]);
    }
  }

  /** A node that gets its users before its configuration ends up running with both. */
  lemma ListThenConfigRuns(m: UserMap, c: Config, first: Happening, second: Happening)
    requires first.input == PushUsers(Some(m)) && second.input == PushConfig(Some(c), true)
    requires ActiveMap(m, first.now) != map[] && second.outcome.startOk
    ensures var s := Run(BLANK, [first, second]);
            s.running && s.kernel == Uuids(ActiveMap(m, first.now)) && s.applied == Some(c)
            && s.users == s.limiter == ActiveMap(m, first.now)
  {
    ActiveTwice(m, first.now, first.now);
    var s1 := Handle(BLANK, first);
    assert !s1.running && s1.users == ActiveMap(m, first.now) && s1.config == None;
    assert [first, second][1..] == [second] && [second][1..] == [];
    assert Run(BLANK, [first, second]) == Run(s1, [second]) == Handle(s1, second);
  }

  // ---------- the current configuration ----------

  /**
   The configuration after an input, from the one before alone: the last valid one that was
   set up, pushed, or polled against the configuration in force (or none) at its beginning.
   */
  function ConfigAfter(c: Option<Config>, input: Input): Option<Config>
  {
    match input
    case Setup(Some(x), _, true) => Some(x)
    case PushConfig(Some(x), true) => Some(x)
    case Pulled(r) =>
      if r.config.Some? && r.valid && (r.configBaseline.None? || r.configBaseline == c) then r.config else c
    case _ => c
  }

  function ConfigFold(c: Option<Config>, hs: seq<Happening>): Option<Config>
    decreases |hs|
  {
    if hs == [] then c else ConfigFold(ConfigAfter(c, hs[0].input), hs[1..])
  }

  lemma PullConfig(s: Node, r: PullResult, now: int, o: Outcome)
    ensures OnPull(s, r, now, o).config == ConfigAfter(s.config, Pulled(r))
  {
    var users, config := KeepUsers(s, r), KeepConfig(s, r);
    var s1 := if config.Some? then s.(config := config) else s;
    if users.Some? {
      UpdateConfig(s1, users.value, now, o);
    }
    ChangesUsers(PullUsers(s1, users, PollReloads(s, r), now, o), o);
  }

  lemma UpdateConfig(s: Node, m: UserMap, now: int, o: Outcome)
    ensures ApplyUserUpdate(s, m, now, o).config == s.config
  {
  }

  lemma StepConfigFold(s: Node, h: Happening)
    ensures Handle(s, h).config == ConfigAfter(s.config, h.input)
  {
    match h.input {
      case Pulled(r) => PullConfig(s, r, h.now, h.outcome);
      case _ =>
    }
  }

  /** After every run the configuration is the last accepted one, whatever the kernel does with it. */
  lemma {:induction false} ConfigIsLast(s: Node, hs: seq<Happening>)
    ensures Run(s, hs).config == ConfigFold(s.config, hs)
    decreases |hs|
  {
    if hs != [] {
      StepConfigFold(s, hs[0]);
      ConfigIsLast(Handle(s, hs[0]), hs[1..]);
    }
  }

  // ---------- the configuration the kernel runs with ----------

  /** A running kernel runs with the current configuration. */
  predicate ConfigAgrees(s: Node)
  {
    s.running ==> s.applied == s.config
  }

  /** Something leaves the kernel at its old configuration: reload and restart fail, and the old instance survives. */
  predicate Stuck(o: Outcome)
  {
    !o.reloadOk && !o.restartOk && o.keepsOld
  }

  ghost predicate ConfigInStep(s: Node, h: Happening)
  {
    match h.input
    case PushConfig(Some(c), true) => Some(c) != s.config && s.running && s.users != map[] ==> !Stuck(h.outcome)
    case Pulled(r) =>
      KeepConfig(s, r).Some? && r.config != s.config && s.running
      && (if PollDiffers(s, r) then ActiveMap(r.users.value, h.now) else s.users) != map[]
      ==> !Stuck(h.outcome)
    case _ => true
  }

  lemma ChangesConfigIff(s: Node, o: Outcome)
    requires s.config.Some?
    ensures ConfigAgrees(ApplyChanges(s, o)) <==>
              (s.running && s.users != map[] && Stuck(o) ==> s.applied == s.config)
  {
  }

  lemma UpdateKeepsConfig(s: Node, m: UserMap, now: int, o: Outcome)
    requires ConfigAgrees(s)
    ensures ConfigAgrees(ApplyUserUpdate(s, m, now, o))
  {
  }

  lemma PullConfigIff(s: Node, r: PullResult, now: int, o: Outcome)
    requires ConfigAgrees(s) && (s.running ==> s.config.Some?)
    ensures ConfigAgrees(OnPull(s, r, now, o)) <==>
              (KeepConfig(s, r).Some? && r.config != s.config && s.running
               && (if PollDiffers(s, r) then ActiveMap(r.users.value, now) else s.users) != map[]
               ==> !Stuck(o))
  {
    var users, config := KeepUsers(s, r), KeepConfig(s, r);
    var s1 := if config.Some? then s.(config := config) else s;
    if !PollReloads(s, r) && users.Some? {
      UpdateKeepsConfig(s, users.value, now, o);
    }
    var s2 := PullUsers(s1, users, PollReloads(s, r), now, o);
    if PollReloads(s, r) && s2.config.Some? {
      ChangesConfigIff(s2, o);
    }
  }

  /** A running kernel keeps running with the current configuration if and only if the event is in step. */
  lemma StepConfigIff(s: Node, clock: int, h: Happening)
    requires ConfigAgrees(s) && LoadedAgrees(s, clock) && WellFormed(s, clock, h)
    ensures ConfigAgrees(Handle(s, h)) <==> ConfigInStep(s, h)
  {
    var now, o := h.now, h.outcome;
    match h.input {
      case Setup(_, _, _) =>
      case PushConfig(config, _) =>
        if config.Some? {
          ChangesConfigIff(s.(config := config), o);
        }
      case PushUsers(users) =>
        if users.Some? {
          UpdateKeepsConfig(s, ActiveMap(users.value, now), now, o);
        }
      case PushAdd(_) =>
      case PushRemove(_) =>
      case PushUnknown =>
      case Sweep => UpdateKeepsConfig(s, ActiveMap(s.users, now), now, o);
      case Pulled(r) => PullConfigIff(s, r, now, o);
    }
  }

  ghost predicate AlwaysConfigured(s: Node, hs: seq<Happening>)
    decreases |hs|
  {
    ConfigAgrees(s) && (hs != [] ==> AlwaysConfigured(Handle(s, hs[0]), hs[1..]))
  }

  ghost predicate RunConfigInStep(s: Node, hs: seq<Happening>)
    decreases |hs|
  {
    hs == [] || (ConfigInStep(s, hs[0]) && RunConfigInStep(Handle(s, hs[0]), hs[1..]))
  }

  /** The same in every state of a run. */
  lemma {:induction false} ConfigHoldsIff(s: Node, clock: int, hs: seq<Happening>)
    requires ConfigAgrees(s) && LoadedAgrees(s, clock) && WellFormedRun(s, clock, hs)
    ensures AlwaysConfigured(s, hs) <==> RunConfigInStep(s, hs)
    decreases |hs|
  {
    if hs != [] {
      StepLoads(s, clock, hs[0]);
      StepConfigIff(s, clock, hs[0]);
      if ConfigInStep(s, hs[0]) {
        ConfigHoldsIff(Handle(s, hs[0]), hs[0].now, hs[1..]);
      }
    }
  }

  // ---------- the current users ----------

  /** The users the service goes for, or back to when the kernel accepts neither the change nor its fallback. */
  ghost function UsersAfter(s: Node, h: Happening): UserMap
  {
    var now, o := h.now, h.outcome;
    match h.input
    case Setup(config, first, valid) => if config.Some? && valid then ActiveMap(first, now) else s.users
    case PushUsers(users) =>
      if users.None? || Some(DigestOf(ActiveMap(users.value, now))) == HashOf(s) then s.users
      else ActiveMap(if ComesUp(s, o) && !o.updateOk && !o.restartOk then s.users else users.value, now)
    case PushAdd(delta) =>
      if Fresh(delta, now) == map[] || !ComesUp(s, o) then s.users
      else ActiveMap(if o.addOk || o.updateOk then s.users + Fresh(delta, now) else s.users, now)
    case PushRemove(ids) =>
      if ids == {} || !s.running then s.users
      else ActiveMap(if o.removeOk || o.updateOk then s.users - ids else s.users, now)
    case Sweep => ActiveMap(s.users, now)
    case Pulled(r) =>
      if !PollDiffers(s, r) then s.users
      else if !PollReloads(s, r) && ComesUp(s, o) && !o.updateOk && !o.restartOk then ActiveMap(s.users, now)
      else ActiveMap(r.users.value, now)
    case _ => s.users
  }

  lemma UpdateUsersAfter(s: Node, m: UserMap, now: int, o: Outcome)
    ensures ApplyUserUpdate(s, m, now, o).users
         == ActiveMap(if ComesUp(s, o) && !o.updateOk && !o.restartOk then s.users else m, now)
  {
    ActiveTwice(m, now, now);
  }

  lemma ChangesUsers(s: Node, o: Outcome)
    ensures ApplyChanges(s, o).users == s.users && ApplyChanges(s, o).config == s.config
  {
  }

  lemma PullUsersAfter(s: Node, r: PullResult, h: Happening)
    requires h.input == Pulled(r)
    ensures OnPull(s, r, h.now, h.outcome).users == UsersAfter(s, h)
  {
    var users, config := KeepUsers(s, r), KeepConfig(s, r);
    var s1 := if config.Some? then s.(config := config) else s;
    if users.Some? {
      UpdateUsersAfter(s1, users.value, h.now, h.outcome);
    }
    ChangesUsers(PullUsers(s1, users, PollReloads(s, r), h.now, h.outcome), h.outcome);
  }

  /** For every event and every combination of failing calls: exactly these users are loaded afterwards. */
  lemma LoadedExactly(s: Node, h: Happening)
    ensures Handle(s, h).users == UsersAfter(s, h)
  {
    var now, o := h.now, h.outcome;
    match h.input {
      case Setup(_, _, _) =>
      case PushConfig(config, _) => ChangesUsers(s.(config := config), o);
      case PushUsers(users) =>
        if users.Some? {
          UpdateUsersAfter(s, ActiveMap(users.value, now), now, o);
          ActiveTwice(users.value, now, now);
        }
      case PushAdd(_) =>
      case PushRemove(_) =>
      case PushUnknown =>
      case Sweep => SweepIsComplete(s, now, o);
      case Pulled(r) => PullUsersAfter(s, r, h);
    }
  }

  // ---------- the hash in force ----------

  /** The event loads a list and keeps it: the kernel is stopped, or accepts the list one way or another. */
  ghost predicate Reloads(s: Node, h: Happening)
  {
    var now, o := h.now, h.outcome;
    match h.input
    case Setup(config, _, valid) => config.Some? && valid
    case PushUsers(users) =>
      users.Some? && Some(DigestOf(ActiveMap(users.value, now))) != HashOf(s)
      && (ComesUp(s, o) ==> o.updateOk || o.restartOk)
    case PushAdd(delta) => Fresh(delta, now) != map[] && ComesUp(s, o) && (o.addOk || o.updateOk)
    case PushRemove(ids) => ids != {} && s.running && (o.removeOk || o.updateOk)
    case Sweep => !NoneExpired(s.users, now) && (s.running ==> o.updateOk || o.restartOk)
    case Pulled(r) => PollDiffers(s, r) && (PollReloads(s, r) || (ComesUp(s, o) ==> o.updateOk || o.restartOk))
    case _ => false
  }

  lemma UpdateHashed(s: Node, m: UserMap, now: int, o: Outcome)
    ensures var s' := ApplyUserUpdate(s, m, now, o);
            s'.hashed == if ComesUp(s, o) && !o.updateOk && !o.restartOk then s.hashed else Some(s'.users)
  {
    ActiveTwice(m, now, now);
  }

  lemma ChangesHashed(s: Node, o: Outcome)
    ensures ApplyChanges(s, o).hashed == s.hashed && ApplyChanges(s, o).users == s.users
  {
  }

  lemma PullHashed(s: Node, r: PullResult, h: Happening)
    requires h.input == Pulled(r)
    ensures var s' := OnPull(s, r, h.now, h.outcome);
            s'.hashed == if Reloads(s, h) then Some(s'.users) else s.hashed
  {
    var users, config := KeepUsers(s, r), KeepConfig(s, r);
    var s1 := if config.Some? then s.(config := config) else s;
    if users.Some? {
      UpdateHashed(s1, users.value, h.now, h.outcome);
    }
    ChangesHashed(PullUsers(s1, users, PollReloads(s, r), h.now, h.outcome), h.outcome);
  }

  /** The hash in force is that of exactly the loaded users after every list kept, and the one before otherwise. */
  lemma HashedExactly(s: Node, h: Happening)
    ensures var s' := Handle(s, h);
            s'.hashed == if Reloads(s, h) then Some(s'.users) else s.hashed
  {
    var now, o := h.now, h.outcome;
    match h.input {
      case PushConfig(config, _) => ChangesHashed(s.(config := config), o);
      case PushUsers(users) =>
        if users.Some? {
          UpdateHashed(s, ActiveMap(users.value, now), now, o);
        }
      case Sweep =>
        NoneExpiredActive(s.users, now);
        ActiveTwice(s.users, now, now);
        UpdateHashed(s, ActiveMap(s.users, now), now, o);
      case Pulled(r) => PullHashed(s, r, h);
      case _ =>
    }
  }

  /** A list whose unexpired users are the loaded ones is ignored while the hash in force is theirs. */
  lemma RepeatedListIsIgnored(s: Node, u: UserMap, now: int, o: Outcome)
    requires s.hashed == Some(s.users) && ActiveMap(u, now) == s.users
    ensures OnUsers(s, Some(u), now, o) == s
    ensures OnPull(s, PullResult(None, None, Some(s.users), None, false, true), now, o) == s
  {
  }

  /** The hash describes exactly the loaded users, not only up to expired ones. */
  predicate HashExact(s: Node)
  {
    s.hashed == Some(s.users) || (s.hashed == None && s.users == map[])
  }

  lemma SmoothHash(s: Node, h: Happening)
    requires HashExact(s) && Smooth(s, h)
    ensures HashExact(Handle(s, h))
  {
    HashedExactly(s, h);
    LoadedExactly(s, h);
    NoneExpiredActive(s.users, h.now);
  }

  /** So in a run whose kernel calls succeed the hash in force is exact in every state. */
  lemma {:induction false} SmoothRunsHashExactly(s: Node, hs: seq<Happening>)
    requires HashExact(s) && SmoothRun(s, hs)
    ensures HashExact(Run(s, hs))
    decreases |hs|
  {
    if hs != [] {
      SmoothHash(s, hs[0]);
      SmoothRunsHashExactly(Handle(s, hs[0]), hs[1..]);
    }
  }
}
