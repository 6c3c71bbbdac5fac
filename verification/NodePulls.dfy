/**
 REST polling runs in a goroutine while the service keeps handling websocket events.
 A pull remembers the hashes it saw when it began; its result waits in a channel of
 capacity one until the service takes it.
 */
module NodePulls {
  import opened Options
  import opened Users
  import opened UserHash
  import opened Mailbox
  import opened NodeModel
  import opened NodeLife

  /** A running pull goroutine and the baselines it captured. */
  datatype Job = Job(id: nat, configHash: Option<Config>, userHash: Option<Digest>, certChanged: bool)

  datatype Delivery = Delivery(id: nat, result: PullResult)

  /** What was in force when a pull began. */
  datatype Baselines = Baselines(config: Option<Config>, users: Option<Digest>)

  /** started records, for every pull, what was in force when it began. */
  datatype World = World(node: Node, pullActive: bool, fetching: seq<Job>, delivered: seq<Delivery>,
                         started: map<nat, Baselines>)

  datatype Move =
    | Other(happening: Happening)                           // any event but a pull result
    | Begin(id: nat, skipped: bool, certChanged: bool)      // pullViaAPIAsync
    | Fail(k: nat)                                          // the poll failed
    | Finish(k: nat, config: Option<Config>, users: Option<UserMap>, valid: bool, at: int)
    | Consume(now: int, outcome: Outcome)                   // applyPullResult

  predicate Enabled(w: World, a: Move)
  {
    match a
    case Other(h) => !h.input.Pulled?
    case Begin(id, _, _) => id !in w.started
    case Fail(k) => k < |w.fetching|
    case Finish(k, _, _, _, _) => k < |w.fetching| && w.delivered == []
    case Consume(_, _) => w.delivered != []
  }

  /** The result a goroutine puts together from the snapshot and its baselines. */
  function ResultOf(job: Job, config: Option<Config>, users: Option<UserMap>, valid: bool, at: int): PullResult
  {
    PullResult(if config == job.configHash && !job.certChanged then None else config, job.configHash,
               if users.None? then None else Some(ActiveMap(users.value, at)), job.userHash,
               job.certChanged, valid)
  }

  ghost function Next(w: World, a: Move): World
    requires Enabled(w, a)
  {
    match a
    case Other(h) => w.(node := Handle(w.node, h))
    case Begin(id, skipped, certChanged) =>
      if w.pullActive || skipped then w
      else w.(pullActive := true,
              fetching := w.fetching + [Job(id, w.node.config, HashOf(w.node), certChanged)],
              started := w.started[id := Baselines(w.node.config, HashOf(w.node))])
    case Fail(k) => w.(fetching := w.fetching[..k] + w.fetching[k + 1..], pullActive := false)
    case Finish(k, config, users, valid, at) =>
      var job := w.fetching[k];
      w.(fetching := w.fetching[..k] + w.fetching[k + 1..], pullActive := false,
         delivered := [Delivery(job.id, ResultOf(job, config, users, valid, at))])
    case Consume(now, outcome) =>
      w.(node := OnPull(w.node, w.delivered[0].result, now, outcome), delivered := w.delivered[1..])
  }

  ghost predicate Possible(w: World, moves: seq<Move>)
    decreases |moves|
  {
    moves == [] || (Enabled(w, moves[0]) && Possible(Next(w, moves[0]), moves[1..]))
  }

  ghost function Run(w: World, moves: seq<Move>): World
    requires Possible(w, moves)
    decreases |moves|
  {
    if moves == [] then w else Run(Next(w, moves[0]), moves[1..])
  }

  /** One goroutine at most, and every baseline is the hash recorded when its pull began. */
  ghost predicate Orderly(w: World)
  {
    && |w.fetching| == (if w.pullActive then 1 else 0)
    && |w.delivered| <= 1
    && (forall k :: 0 <= k < |w.fetching| ==>
          w.fetching[k].id in w.started
          && w.started[w.fetching[k].id] == Baselines(w.fetching[k].configHash, w.fetching[k].userHash))
    && (forall k :: 0 <= k < |w.delivered| ==>
          w.delivered[k].id in w.started
          && w.started[w.delivered[k].id]
             == Baselines(w.delivered[k].result.configBaseline, w.delivered[k].result.userBaseline))
  }

  lemma StepOrderly(w: World, a: Move)
    requires Enabled(w, a) && Orderly(w)
    ensures Orderly(Next(w, a))
  {
  }

  /** At most one pull goroutine is active, in every interleaving. */
  lemma {:induction false} PullsStayOrderly(w: World, moves: seq<Move>)
    requires Possible(w, moves) && Orderly(w)
    ensures Orderly(Run(w, moves)) && |Run(w, moves).fetching| <= 1
    decreases |moves|
  {
    if moves != [] {
      StepOrderly(w, moves[0]);
      PullsStayOrderly(Next(w, moves[0]), moves[1..]);
    }
  }

  lemma ChangesKeepUsers(s: Node, o: Outcome)
    ensures var s' := ApplyChanges(s, o);
            s'.users == s.users && s'.limiter == s.limiter && s'.hashed == s.hashed
  {
  }

  /** A result without users, or with stale ones, changes no user state. */
  lemma StaleUsersIgnored(s: Node, r: PullResult, now: int, o: Outcome)
    requires KeepUsers(s, r).None?
    ensures var s' := OnPull(s, r, now, o);
            s'.users == s.users && s'.limiter == s.limiter && s'.hashed == s.hashed
  {
    var config := KeepConfig(s, r);
    ChangesKeepUsers(if config.Some? then s.(config := config) else s, o);
  }

  const FIRST := World(BLANK, false, [], [], map[])

  /**
   A polled list never overwrites a differing update that arrived while it was being
   fetched: over all interleavings, if some list was known when the pull began and the
   hash in force at the end is another one, the loaded users, the limiter and the
   stored hash stay as they are.
   */
  lemma MidPullUpdateSurvives(moves: seq<Move>, now: int, outcome: Outcome)
    requires Possible(FIRST, moves) && Run(FIRST, moves).delivered != []
    ensures var w := Run(FIRST, moves);
            var w' := Next(w, Consume(now, outcome));
            var d := w.delivered[0];
            d.id in w.started
            && (w.started[d.id].users.Some? && w.started[d.id].users != HashOf(w.node) ==>
                  w'.node.users == w.node.users && w'.node.limiter == w.node.limiter
                  && HashOf(w'.node) == HashOf(w.node))
  {
    PullsStayOrderly(FIRST, moves);
    var w := Run(FIRST, moves);
    var d := w.delivered[0];
    if KeepUsers(w.node, d.result).None? {
      StaleUsersIgnored(w.node, d.result, now, outcome);
    }
  }

  /** Nor does a polled configuration overwrite one that came while it was being fetched. */
  lemma MidPullConfigSurvives(moves: seq<Move>, now: int, outcome: Outcome)
    requires Possible(FIRST, moves) && Run(FIRST, moves).delivered != []
    ensures var w := Run(FIRST, moves);
            var d := w.delivered[0];
            d.id in w.started
            && (w.started[d.id].config.Some? && w.started[d.id].config != w.node.config ==>
                  Next(w, Consume(now, outcome)).node.config == w.node.config)
  {
    PullsStayOrderly(FIRST, moves);
    var w := Run(FIRST, moves);
    PullConfig(w.node, w.delivered[0].result, now, outcome);
  }

  /** A pull that may begin does, and what it fetches is delivered with what was in force then. */
  lemma PullDelivers(w: World, id: nat, certChanged: bool, config: Option<Config>, users: Option<UserMap>,
                     valid: bool, at: int)
    requires Orderly(w) && !w.pullActive && id !in w.started && w.delivered == []
    ensures var begun := Next(w, Begin(id, false, certChanged));
            var job := Job(id, w.node.config, HashOf(w.node), certChanged);
            && begun.pullActive && begun.fetching == [job] && begun.node == w.node
            && Next(begun, Finish(0, config, users, valid, at)).delivered
                 == [Delivery(id, ResultOf(job, config, users, valid, at))]
            && !Next(begun, Finish(0, config, users, valid, at)).pullActive
            && !Next(begun, Fail(0)).pullActive && Next(begun, Fail(0)).delivered == []
  {
  }

  /** What the goroutine makes of a poll: unexpired users, and no configuration if it is the one it began with. */
  lemma FetchedResult(job: Job, config: Option<Config>, users: Option<UserMap>, valid: bool, at: int)
    ensures var r := ResultOf(job, config, users, valid, at);
            && (r.users.Some? <==> users.Some?) && (users.Some? ==> NoneExpired(r.users.value, at))
            && (users.Some? ==> forall i :: i in r.users.value <==> i in users.value && !users.value[i].IsExpiredAt(at))
            && (r.config == config || (r.config == None && config == job.configHash && !job.certChanged))
  {
  }

  /** A poll that finds the configuration and the users of its beginning, still in force, changes nothing at all. */
  lemma QuietPoll(node: Node, id: nat, users: Option<UserMap>, valid: bool, at: int, now: int, outcome: Outcome)
    requires users.Some? ==> Some(DigestOf(ActiveMap(users.value, at))) == HashOf(node)
    ensures var job := Job(id, node.config, HashOf(node), false);
            OnPull(node, ResultOf(job, node.config, users, valid, at), now, outcome) == node
  {
  }

  /** A new valid configuration found by a poll that nothing has overtaken becomes the current one. */
  lemma PolledConfigIsTaken(node: Node, job: Job, config: Option<Config>, users: Option<UserMap>, at: int,
                            now: int, outcome: Outcome)
    requires job.configHash == node.config && config.Some?
    ensures OnPull(node, ResultOf(job, config, users, true, at), now, outcome).config == config
  {
    PullConfig(node, ResultOf(job, config, users, true, at), now, outcome);
  }

  /** Loading a differing list fails only if the kernel runs and neither UpdateUsers nor the restart succeeds. */
  predicate Refused(s: Node, configChanged: bool, o: Outcome)
  {
    !configChanged && EnsureRunning(s, o).running && !o.updateOk && !o.restartOk
  }

  lemma FreshUsersLoaded(s: Node, m: UserMap, configChanged: bool, now: int, o: Outcome)
    requires Some(DigestOf(m)) != HashOf(s)
    ensures PullUsers(s, Some(m), configChanged, now, o).users
         == ActiveMap(if Refused(s, configChanged, o) then s.users else m, now)
  {
    assert ActiveMap(ActiveMap(m, now), now) == ActiveMap(m, now);
  }

  /**
   Otherwise the polled list is taken: in particular, when no list was known at the
   beginning of the pull, it replaces whatever has arrived meanwhile. Only if the kernel
   refuses it, the users before stay, apart from those expired by now.
   */
  lemma CurrentBaselineIsTaken(w: World, now: int, outcome: Outcome)
    requires Orderly(w) && w.delivered != []
    requires var d := w.delivered[0];
             d.id in w.started && (w.started[d.id].users.None? || w.started[d.id].users == HashOf(w.node))
             && d.result.users.Some? && Some(DigestOf(d.result.users.value)) != HashOf(w.node)
    ensures var r := w.delivered[0].result;
            var refused := Refused(w.node, r.certChanged || KeepConfig(w.node, r).Some?, outcome);
            Next(w, Consume(now, outcome)).node.users
              == ActiveMap(if refused then w.node.users else r.users.value, now)
  {
    var s, r := w.node, w.delivered[0].result;
    var config := KeepConfig(s, r);
    var s1 := if config.Some? then s.(config := config) else s;
    var configChanged := r.certChanged || config.Some?;
    FreshUsersLoaded(s1, r.users.value, configChanged, now, outcome);
    ChangesKeepUsers(PullUsers(s1, r.users, configChanged, now, outcome), outcome);
  }
}
