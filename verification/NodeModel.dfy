/**
 What the node service does to its user state, its limiter and its kernel, event by
 event, on maps keyed by user ID. The kernel is modelled by its interface contract: a
 running flag and a map from ID to UUID. Which kernel calls fail is part of the
 event. Each handler reads the clock once.
 */
module NodeModel {
  import opened Options
  import opened Users
  import opened UserHash
  import opened Mailbox

  /**
   The service state. users is lastUsers; hashed is the user map whose digest is in
   lastUserHash (None for the empty string), stored at time hashedAt. applied is the
   configuration the kernel runs with.
   */
  datatype Node = Node(config: Option<Config>, users: UserMap, hashed: Option<UserMap>, hashedAt: int,
                       limiter: UserMap, running: bool, kernel: map<int, string>, applied: Option<Config>)

  /**
   Which kernel calls succeed. keepsOld: a failed Start leaves the old instance alone
   instead of stopping it. dropFails: IDs whose single RemoveUsers call fails.
   leftovers: expired IDs that still sit behind the in-place filtered list.
   */
  datatype Outcome = Outcome(startOk: bool, restartOk: bool, keepsOld: bool, reloadOk: bool,
                             updateOk: bool, addOk: bool, removeOk: bool, dropFails: set<int>, leftovers: set<int>)

  /** What a finished pull delivers; baselines are the hashes read when it began. */
  datatype PullResult = PullResult(config: Option<Config>, configBaseline: Option<Config>,
                                   users: Option<UserMap>, userBaseline: Option<Digest>,
                                   certChanged: bool, valid: bool)

  datatype Input =
    | Setup(config: Option<Config>, first: UserMap, valid: bool)
    | PushConfig(config: Option<Config>, valid: bool)
    | PushUsers(users: Option<UserMap>)
    | PushAdd(delta: UserMap)
    | PushRemove(ids: set<int>)
    | PushUnknown
    | Sweep
    | Pulled(result: PullResult)

  datatype Happening = Happening(input: Input, now: int, outcome: Outcome)

  const BLANK := Node(None, map[], None, 0, map[], false, map[], None)

  /** lastUserHash; None is the empty string. */
  ghost function HashOf(s: Node): Option<Digest>
  {
    if s.hashed.None? then None else Some(DigestOf(s.hashed.value))
  }

  // ---------- the pieces ----------

  /** prepareUserState: loads the unexpired users into the limiter, lastUsers and the hash. */
  function Prepare(s: Node, m: UserMap, now: int): Node
  {
    var active := ActiveMap(m, now);
    s.(users := active, limiter := active, hashed := Some(active), hashedAt := now)
  }

  /** restoreUserState: goes back to earlier users and their earlier hash. */
  function Restore(s: Node, before: Node, now: int): Node
  {
    var active := ActiveMap(before.users, now);
    s.(users := active, limiter := active, hashed := before.hashed, hashedAt := now)
  }

  function Start(s: Node, m: UserMap, ok: bool, keepsOld: bool): Node
  {
    if ok then s.(running := true, kernel := Uuids(m), applied := s.config)
    else if keepsOld then s
    else Stop(s)
  }

  function Stop(s: Node): Node
  {
    s.(running := false, kernel := map[], applied := None)
  }

  /** ensureRunning: starts a stopped kernel when there are users and a configuration. */
  function EnsureRunning(s: Node, o: Outcome): Node
  {
    if s.running || s.users == map[] || s.config.None? then s
    else Start(s, s.users, o.startOk, o.keepsOld)
  }

  function ApplyUserUpdate(s: Node, m: UserMap, now: int, o: Outcome): Node
  {
    var active := ActiveMap(m, now);
    var s1 := EnsureRunning(s, o);
    var s2 := Prepare(s1, active, now);
    if !s1.running then s2
    else if o.updateOk then s2.(kernel := Uuids(active))
    else
      var s3 := Start(s2, active, o.restartOk, o.keepsOld);
      if o.restartOk then s3 else Restore(s3, s1, now)
  }

  /** Loaded users whose UUID the delta changes; the kernel must drop them first. */
  function Changed(users: UserMap, delta: UserMap): set<int>
  {
    set i | i in delta && i in users && users[i].uuid != delta[i].uuid
  }

  /** The list a fallback UpdateUsers sees: it was filtered in place, leftovers included. */
  function Backing(m: UserMap, now: int, leftovers: set<int>): UserMap
  {
    map i | i in m && (!m[i].IsExpiredAt(now) || i in leftovers) :: m[i]
  }

  function ApplyAdd(s: Node, delta: UserMap, now: int, o: Outcome): Node
  {
    var arriving := ActiveMap(delta, now);
    var s1 := EnsureRunning(s, o);
    if arriving == map[] then s else if !s1.running then s1 else AddRunning(s1, arriving, now, o)
  }

  function Dropped(s: Node, delta: UserMap, o: Outcome): Node
  {
    s.(kernel := s.kernel - (Changed(s.users, delta) - o.dropFails))
  }

  /** The "add" branch on a running kernel: drop changed users, load the merged list, add the delta. */
  function AddRunning(s: Node, delta: UserMap, now: int, o: Outcome): Node
  {
    var merged := s.users + delta;
    var s1 := Prepare(Dropped(s, delta, o), merged, now);
    if o.addOk then s1.(kernel := Uuids(delta) + s1.kernel)
    else if o.updateOk then s1.(kernel := Uuids(Backing(merged, now, o.leftovers)))
    else Restore(s1, s, now)
  }

  function ApplyRemove(s: Node, ids: set<int>, now: int, o: Outcome): Node
  {
    if ids == {} || !s.running then s else RemoveRunning(s, ids, now, o)
  }

  function RemoveRunning(s: Node, ids: set<int>, now: int, o: Outcome): Node
  {
    var rest := s.users - ids;
    var s1 := Prepare(s, rest, now);
    if o.removeOk then s1.(kernel := s.kernel - ids)
    else if o.updateOk then s1.(kernel := Uuids(Backing(rest, now, o.leftovers)))
    else Restore(s1, s, now)
  }

  /** applyChanges(configChanged = true). */
  function ApplyChanges(s: Node, o: Outcome): Node
  {
    if s.config.None? || s.users == map[] then
      if s.users == map[] then Stop(s) else s
    else if s.running then
      if o.reloadOk then s.(kernel := Uuids(s.users), applied := s.config)
      else Start(s, s.users, o.restartOk, o.keepsOld)
    else Start(s, s.users, o.startOk, o.keepsOld)
  }

  /** initialSetup: the first snapshot starts the kernel unless it has no users. */
  function OnSetup(s: Node, config: Option<Config>, m: UserMap, valid: bool, now: int, o: Outcome): Node
  {
    if config.None? || !valid then s
    else
      var s1 := Prepare(s.(config := config), m, now);
      if s1.users == map[] then s1 else Start(s1, s1.users, o.startOk, o.keepsOld)
  }

  function OnConfig(s: Node, config: Option<Config>, valid: bool, o: Outcome): Node
  {
    if config.None? || config == s.config || !valid then s
    else ApplyChanges(s.(config := config), o)
  }

  ghost function OnUsers(s: Node, users: Option<UserMap>, now: int, o: Outcome): Node
  {
    if users.None? then s
    else
      var active := ActiveMap(users.value, now);
      if Some(DigestOf(active)) == HashOf(s) then s else ApplyUserUpdate(s, active, now, o)
  }

  function OnSweep(s: Node, now: int, o: Outcome): Node
  {
    var active := ActiveMap(s.users, now);
    if active == s.users then s
    else if s.running then ApplyUserUpdate(s, active, now, o)
    else Prepare(s, active, now)
  }

  /** Whether a polled part is kept: a stale baseline discards it, an empty one never does. */
  function KeepConfig(s: Node, r: PullResult): Option<Config>
  {
    if r.config.Some? && r.configBaseline.Some? && r.configBaseline != s.config then None
    else if r.valid then r.config else None
  }

  ghost function KeepUsers(s: Node, r: PullResult): Option<UserMap>
  {
    if r.users.Some? && r.userBaseline.Some? && r.userBaseline != HashOf(s) then None else r.users
  }

  ghost function OnPull(s: Node, r: PullResult, now: int, o: Outcome): Node
  {
    var users := KeepUsers(s, r);
    var config := KeepConfig(s, r);
    var configChanged := r.certChanged || config.Some?;
    var s1 := if config.Some? then s.(config := config) else s;
    var s2 := PullUsers(s1, users, configChanged, now, o);
    if configChanged then ApplyChanges(s2, o) else s2
  }

  /** Users of a pull: a differing list is applied at once, or left to the reload that follows. */
  ghost function PullUsers(s: Node, users: Option<UserMap>, configChanged: bool, now: int, o: Outcome): Node
  {
    if users.None? || Some(DigestOf(users.value)) == HashOf(s) then s
    else if configChanged then Prepare(s, users.value, now)
    else ApplyUserUpdate(s, users.value, now, o)
  }

  ghost function Handle(s: Node, h: Happening): Node
  {
    match h.input
    case Setup(config, first, valid) => OnSetup(s, config, first, valid, h.now, h.outcome)
    case PushConfig(config, valid) => OnConfig(s, config, valid, h.outcome)
    case PushUsers(users) => OnUsers(s, users, h.now, h.outcome)
    case PushAdd(delta) => ApplyAdd(s, delta, h.now, h.outcome)
    case PushRemove(ids) => ApplyRemove(s, ids, h.now, h.outcome)
    case PushUnknown => s
    case Sweep => OnSweep(s, h.now, h.outcome)
    case Pulled(result) => OnPull(s, result, h.now, h.outcome)
  }
}
