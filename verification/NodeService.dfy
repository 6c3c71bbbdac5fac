/**
 The node service as it is written: fields updated in place, a kernel and a limiter it
 drives, an expiry timer. Each method is proved to take the abstract view of the
 service to the state the model in NodeModel prescribes.
 */
module NodeService {
  import opened Options
  import opened Users
  import opened UserHash
  import opened Mailbox
  import opened Limits
  import opened NodeModel
  import opened NodeRuns

  /** The kernel's user-management contract. ok says whether the call succeeds; a failed call changes nothing. */
  class Kernel {
    var running: bool
    var users: map<int, string>
    var config: Option<Config>   // the configuration it runs with

    constructor ()
      ensures !running && users == map[] && config == None
    {
      running, users, config := false, map[], None;
    }

    /** Start stops a running instance first; keepsOld describes kernels that swap only on success. */
    method Start(nodeConfig: Option<Config>, list: seq<UserSpec>, ok: bool, keepsOld: bool)
      modifies this
      ensures ok ==> running && users == Uuids(ById(list)) && config == nodeConfig
      ensures !ok && keepsOld ==> running == old(running) && users == old(users) && config == old(config)
      ensures !ok && !keepsOld ==> !running && users == map[] && config == None
    {
      if ok {
        running, users, config := true, Uuids(ById(list)), nodeConfig;
      } else if !keepsOld {
        running, users, config := false, map[], None;
      }
    }

    method Stop()
      modifies this
      ensures !running && users == map[] && config == None
    {
      running, users, config := false, map[], None;
    }

    /** Reload takes over a configuration together with the whole user set. */
    method Reload(nodeConfig: Option<Config>, list: seq<UserSpec>, ok: bool)
      modifies this`users, this`config
      ensures users == (if ok then Uuids(ById(list)) else old(users))
      ensures config == (if ok then nodeConfig else old(config))
    {
      if ok {
        users, config := Uuids(ById(list)), nodeConfig;
      }
    }

    /** UpdateUsers replaces the whole user set. */
    method UpdateUsers(list: seq<UserSpec>, ok: bool)
      modifies this`users
      ensures users == if ok then Uuids(ById(list)) else old(users)
    {
      if ok {
        users := Uuids(ById(list));
      }
    }

    method AddUsers(list: seq<UserSpec>, ok: bool)
      modifies this`users
      ensures users == if ok then KernelAdd(old(users), list) else old(users)
    {
      if ok {
        users := KernelAdd(users, list);
      }
    }

    method RemoveUsers(ids: set<int>, ok: bool)
      modifies this`users
      ensures users == if ok then old(users) - ids else old(users)
    {
      if ok {
        users := users - ids;
      }
    }
  }

  // ---------- expiry ----------

  /** The timer is armed for the earliest expiry among the users, if there is one. */
  ghost predicate ArmedFor(users: seq<UserSpec>, timer: Option<int>)
  {
    && (timer.None? <==> forall u :: u in users ==> u.expiredAt <= 0)
    && (timer.Some? ==>
          (exists u :: u in users && u.expiredAt > 0 && timer.value == u.expiredAt * SECOND)
          && forall u :: u in users && u.expiredAt > 0 ==> timer.value <= u.expiredAt * SECOND)
  }

  /** nextExpiryAt: now if some user has expired already, else the earliest expiry. */
  method NextExpiryAt(users: seq<UserSpec>, now: int) returns (next: Option<int>)
    ensures (exists u :: u in users && u.IsExpiredAt(now)) ==> next == Some(now)
    ensures (forall u :: u in users ==> !u.IsExpiredAt(now)) ==> ArmedFor(users, next)
  {
    next := None;
    for i := 0 to |users|
      invariant forall u :: u in users[..i] ==> !u.IsExpiredAt(now)
      invariant ArmedFor(users[..i], next)
    {
      var u := users[i];
      assert users[..i + 1] == users[..i] + [u];
      if u.expiredAt <= 0 {
        continue;
      }
      var expiry := u.expiredAt * SECOND;
      if now >= expiry {
        assert u in users && u.IsExpiredAt(now);
        return Some(now);
      }
      if next.None? || expiry < next.value {
        next := Some(expiry);
      }
    }
    assert users[..|users|] == users;
  }

  lemma UniqueMember(users: seq<UserSpec>, u: UserSpec)
    requires UniqueIds(users) && u in users
    ensures u.id in ById(users) && ById(users)[u.id] == u
  {
    var k :| 0 <= k < |users| && users[k] == u;
    ByIdUnique(users, k);
  }

  /** A list of users taken from another one, repeats allowed, maps IDs the same way. */
  lemma SubListById(part: seq<UserSpec>, users: seq<UserSpec>)
    requires UniqueIds(users) && forall u :: u in part ==> u in users
    ensures ById(part).Keys == Ids(part)
    ensures forall i :: i in ById(part) ==> i in ById(users) && ById(part)[i] == ById(users)[i]
  {
    ByIdFacts(part);
    forall i | i in ById(part)
      ensures i in ById(users) && ById(part)[i] == ById(users)[i]
    {
      UniqueMember(users, ById(part)[i]);
    }
  }

  /** The caller's slice after prepareUserState has filtered it in place. */
  method FilteredBacking(users: seq<UserSpec>, now: int) returns (backing: seq<UserSpec>, ghost left: set<int>)
    requires UniqueIds(users)
    ensures backing == InPlace(users, now)
    ensures ById(backing) == Backing(ById(users), now, left)
  {
    ActiveShorter(users, now);
    backing := InPlace(users, now);
    left := Ids(users[|Active(users, now)|..]);
    InPlaceById(users, now, left);
  }

  lemma InPlaceById(users: seq<UserSpec>, now: int, left: set<int>)
    requires UniqueIds(users) && |Active(users, now)| <= |users|
    requires left == Ids(users[|Active(users, now)|..])
    ensures ById(InPlace(users, now)) == Backing(ById(users), now, left)
  {
    ActiveMembers(users, now);
    ActiveById(users, now);
    var active, tail := Active(users, now), users[|Active(users, now)|..];
    ByIdFacts(active);
    SubListById(tail, users);
    SubListById(active + tail, users);
    BackingKeys(ById(users), now, left);
    AppendIds(active, tail);
    SameMap(ById(active + tail), Backing(ById(users), now, left), ById(users));
  }

  lemma AppendIds(a: seq<UserSpec>, b: seq<UserSpec>)
    ensures Ids(a + b) == Ids(a) + Ids(b)
  {
  }

  lemma BackingKeys(m: UserMap, now: int, left: set<int>)
    requires left <= m.Keys
    ensures Backing(m, now, left).Keys == ActiveMap(m, now).Keys + left
  {
  }

  lemma SameMap(a: UserMap, b: UserMap, m: UserMap)
    requires a.Keys == b.Keys
    requires forall i :: i in a ==> i in m && a[i] == m[i]
    requires forall i :: i in b ==> i in m && b[i] == m[i]
    ensures a == b
  {
    forall i
      ensures i in a <==> i in b
      ensures i in a ==> a[i] == b[i]
    {
      assert i in a.Keys <==> i in b.Keys;
    }
  }

  /** Lists with unique IDs have the members of their maps. */
  lemma SweptMembers(after: seq<UserSpec>, before: seq<UserSpec>, now: int)
    requires UniqueIds(after) && ById(after) == ActiveMap(ById(before), now)
    ensures forall u :: u in after ==> u in before && !u.IsExpiredAt(now)
  {
    ByIdFacts(before);
    forall u | u in after
      ensures u in before && !u.IsExpiredAt(now)
    {
      UniqueMember(after, u);
      assert ById(before)[u.id] == u;
    }
  }

  lemma ActiveFacts(users: seq<UserSpec>, now: int)
    requires UniqueIds(users)
    ensures var active := Active(users, now);
            UniqueIds(active) && ById(active) == ActiveMap(ById(users), now)
            && forall u :: u in active ==> !u.IsExpiredAt(now)
  {
    ActiveById(users, now);
    ActiveUnique(users, now);
    ActiveMembers(users, now);
  }

  class Service {
    const kernel: Kernel
    const limiter: Limiter
    var lastConfig: Option<Config>
    var lastUsers: seq<UserSpec>
    var lastUserHash: Option<Digest>
    var expireTimer: Option<int>

    ghost var hashed: Option<UserMap>   // the users whose digest is in lastUserHash
    ghost var hashedAt: int             // and when it was stored

    /** Unique IDs, a hash of the recorded users, and a timer armed for the earliest loaded expiry. */
    ghost predicate Valid()
      reads this
    {
      && UniqueIds(lastUsers)
      && lastUserHash == (if hashed.None? then None else Some(DigestOf(hashed.value)))
      && ArmedFor(lastUsers, expireTimer)
    }

    ghost function View(): Node
      reads this, kernel, limiter
    {
      Node(lastConfig, ById(lastUsers), hashed, hashedAt, limiter.users, kernel.running, kernel.users,
           kernel.config)
    }

    constructor (k: Kernel, l: Limiter)
      requires !k.running && k.users == map[] && k.config == None && l.users == map[]
      ensures Valid() && View() == BLANK && kernel == k && limiter == l
    {
      kernel, limiter := k, l;
      lastConfig, lastUsers, lastUserHash, expireTimer := None, [], None, None;
      hashed, hashedAt := None, 0;
    }

    /** Loads unexpired users into limiter, list and timer, and stores the hash that goes with them. */
    method Load(active: seq<UserSpec>, hash: Option<Digest>, ghost of: Option<UserMap>, now: int)
      requires UniqueIds(active) && forall u :: u in active ==> !u.IsExpiredAt(now)
      requires hash == (if of.None? then None else Some(DigestOf(of.value)))
      modifies this, limiter
      ensures Valid() && lastUsers == active
      ensures View() == old(View()).(users := ById(active), limiter := ById(active), hashed := of, hashedAt := now)
    {
      var _ := limiter.UpdateUsers(active);
      lastUsers := active;
      lastUserHash := hash;
      hashed, hashedAt := of, now;
      expireTimer := NextExpiryAt(lastUsers, now);
    }

    static method HashUsers(users: seq<UserSpec>) returns (hash: Option<Digest>)
      requires UniqueIds(users)
      ensures hash == Some(DigestOf(ById(users)))
    {
      var digest, _ := ComputeUserHash(users);
      hash := Some(digest);
    }

    /** prepareUserState: returns the previous users and hash for a possible restore. */
    method PrepareUserState(users: seq<UserSpec>, now: int) returns (prevUsers: seq<UserSpec>, prevHash: Option<Digest>)
      requires Valid() && UniqueIds(users)
      modifies this, limiter
      ensures Valid() && View() == Prepare(old(View()), ById(users), now)
      ensures prevUsers == old(lastUsers) && prevHash == old(lastUserHash)
    {
      var active := Active(users, now);
      ActiveFacts(users, now);
      prevUsers, prevHash := lastUsers, lastUserHash;
      var hash := HashUsers(active);
      Load(active, hash, Some(ById(active)), now);
    }

    /** restoreUserState: back to users and hash saved before. */
    method RestoreUserState(users: seq<UserSpec>, hash: Option<Digest>, now: int, ghost before: Node)
      requires Valid() && UniqueIds(users)
      requires before.users == ById(users) && hash == HashOf(before)
      modifies this, limiter
      ensures Valid() && View() == Restore(old(View()), before, now)
    {
      var active := Active(users, now);
      ActiveFacts(users, now);
      Load(active, hash, before.hashed, now);
    }

    /** initialSetup, from the first snapshot on; ok is false when the service gives up. */
    method InitialSetup(config: Option<Config>, users: seq<UserSpec>, valid: bool, now: int, o: Outcome)
      returns (ok: bool)
      requires Valid() && UniqueIds(users)
      modifies this, kernel, limiter
      ensures Valid() && View() == OnSetup(old(View()), config, ById(users), valid, now, o)
      ensures ok && config.Some? && lastUsers != [] ==> kernel.running && kernel.users == Uuids(ById(lastUsers))
    {
      if config.None? || !valid {
        return config.None?;
      }
      lastConfig := config;
      var _, _ := PrepareUserState(users, now);
      EmptyById(lastUsers);
      ok := true;
      if |lastUsers| != 0 {
        kernel.Start(lastConfig, lastUsers, o.startOk, o.keepsOld);
        ok := o.startOk;
      }
    }

    method EnsureRunning(o: Outcome) returns (running: bool)
      requires Valid()
      modifies kernel
      ensures Valid() && View() == NodeModel.EnsureRunning(old(View()), o) && running == kernel.running
    {
      EmptyById(lastUsers);
      if kernel.running {
        return true;
      }
      if |lastUsers| > 0 && lastConfig.Some? {
        kernel.Start(lastConfig, lastUsers, o.startOk, o.keepsOld);
        return o.startOk;
      }
      return false;
    }

    /** applyUserUpdate: a full replacement, with restart and restore as fallbacks. */
    method ApplyUserUpdate(users: seq<UserSpec>, now: int, o: Outcome)
      requires Valid() && UniqueIds(users)
      modifies this, kernel, limiter
      ensures Valid() && View() == NodeModel.ApplyUserUpdate(old(View()), ById(users), now, o)
    {
      var active := Active(users, now);
      ActiveById(users, now);
      ActiveUnique(users, now);
      var running := EnsureRunning(o);
      ghost var s1 := View();
      if !running {
        var _, _ := PrepareUserState(active, now);
        return;
      }
      var prevUsers, prevHash := PrepareUserState(active, now);
      kernel.UpdateUsers(active, o.updateOk);
      if !o.updateOk {
        kernel.Start(lastConfig, active, o.restartOk, o.keepsOld);
        if !o.restartOk {
          RestoreUserState(prevUsers, prevHash, now, s1);
        }
      }
    }

    /** The search for a loaded user whose UUID the delta user changes. */
    static method FindChanged(users: seq<UserSpec>, u: UserSpec) returns (k: nat)
      ensures k <= |users|
      ensures forall j :: 0 <= j < k ==> !(users[j].id == u.id && users[j].uuid != u.uuid)
      ensures k < |users| ==> users[k].id == u.id && users[k].uuid != u.uuid
    {
      k := 0;
      while k < |users| && !(users[k].id == u.id && users[k].uuid != u.uuid)
        invariant k <= |users|
        invariant forall j :: 0 <= j < k ==> !(users[j].id == u.id && users[j].uuid != u.uuid)
      {
        k := k + 1;
      }
    }

    /** RemoveUsers for the loaded user found, if any. */
    method DropOne(k: nat, o: Outcome)
      requires k <= |lastUsers|
      modifies kernel`users
      ensures kernel.users == old(kernel.users) - ((if k < |lastUsers| then {lastUsers[k].id} else {}) - o.dropFails)
    {
      if k < |lastUsers| {
        var id := lastUsers[k].id;
        kernel.RemoveUsers({id}, id !in o.dropFails);
        assert id in o.dropFails ==> {id} - o.dropFails == {};
        assert id !in o.dropFails ==> {id} - o.dropFails == {id};
      }
    }

    /** The loop that drops loaded users whose UUID the delta changes. */
    method DropChanged(delta: seq<UserSpec>, o: Outcome)
      requires Valid() && UniqueIds(delta)
      modifies kernel`users
      ensures Valid() && View() == Dropped(old(View()), ById(delta), o)
    {
      assert delta[..0] == [];
      for i := 0 to |delta|
        invariant kernel.users == old(kernel.users) - (Changed(ById(lastUsers), ById(delta[..i])) - o.dropFails)
      {
        var k := FindChanged(lastUsers, delta[i]);
        DropOne(k, o);
        ChangedOneMore(lastUsers, delta, i, k);
        RemovedTwice(old(kernel.users), Changed(ById(lastUsers), ById(delta[..i])),
                     if k < |lastUsers| then {lastUsers[k].id} else {}, o.dropFails);
      }
      assert delta[..|delta|] == delta;
    }

    /** The "add" branch of applyUserDelta. left: the IDs behind the in-place filtered list. */
    method ApplyAdd(deltaUsers: seq<UserSpec>, now: int, o: Outcome) returns (ghost left: set<int>)
      requires Valid() && UniqueIds(deltaUsers)
      modifies this, kernel, limiter
      ensures Valid()
      ensures View() == NodeModel.ApplyAdd(old(View()), ById(deltaUsers), now, o.(leftovers := left))
    {
      left := {};
      var delta := Active(deltaUsers, now);
      ActiveById(deltaUsers, now);
      ActiveUnique(deltaUsers, now);
      EmptyById(delta);
      if |delta| == 0 {
        return;
      }
      var merged := MergeUsers(lastUsers, delta);
      ghost var before := View();
      var running := EnsureRunning(o);
      if running {
        left := AddToRunning(merged, delta, now, o);
      }
      AddUnfolds(before, ById(deltaUsers), now, o, left);
    }

    method AddToRunning(merged: seq<UserSpec>, delta: seq<UserSpec>, now: int, o: Outcome)
      returns (ghost left: set<int>)
      requires Valid() && UniqueIds(merged) && UniqueIds(delta)
      requires ById(merged) == ById(lastUsers) + ById(delta)
      modifies this, kernel, limiter
      ensures Valid()
      ensures View() == AddRunning(old(View()), ById(delta), now, o.(leftovers := left))
    {
      ghost var before := View();
      DropChanged(delta, o);
      assert HashOf(Dropped(before, ById(delta), o)) == HashOf(before);
      var prevUsers, prevHash := PrepareUserState(merged, now);
      var backing;
      backing, left := FilteredBacking(merged, now);
      AddOrFallback(delta, backing, prevUsers, prevHash, now, o, before);
    }

    /** AddUsers of the delta, with its fallback. */
    method AddOrFallback(delta: seq<UserSpec>, list: seq<UserSpec>, prevUsers: seq<UserSpec>, prevHash: Option<Digest>,
                         now: int, o: Outcome, ghost before: Node)
      requires Valid() && UniqueIds(delta) && UniqueIds(prevUsers)
      requires before.users == ById(prevUsers) && prevHash == HashOf(before)
      modifies this, kernel, limiter
      ensures Valid()
      ensures View() == if o.addOk then old(View()).(kernel := Uuids(ById(delta)) + old(kernel.users))
                        else if o.updateOk then old(View()).(kernel := Uuids(ById(list)))
                        else Restore(old(View()), before, now)
    {
      KernelAddUnique(kernel.users, delta);
      kernel.AddUsers(delta, o.addOk);
      if !o.addOk {
        Fallback(list, prevUsers, prevHash, now, o, before);
      }
    }

    /** UpdateUsers as the fallback of a failed delta; if it fails too, the old state is restored. */
    method Fallback(list: seq<UserSpec>, prevUsers: seq<UserSpec>, prevHash: Option<Digest>, now: int, o: Outcome,
                    ghost before: Node)
      requires Valid() && UniqueIds(prevUsers)
      requires before.users == ById(prevUsers) && prevHash == HashOf(before)
      modifies this, kernel, limiter
      ensures Valid()
      ensures View() == if o.updateOk then old(View()).(kernel := Uuids(ById(list)))
                        else Restore(old(View()), before, now)
    {
      kernel.UpdateUsers(list, o.updateOk);
      if !o.updateOk {
        RestoreUserState(prevUsers, prevHash, now, before);
      }
    }

    /** The "remove" branch of applyUserDelta. */
    method ApplyRemove(deltaUsers: seq<UserSpec>, now: int, o: Outcome) returns (ghost left: set<int>)
      requires Valid()
      modifies this, kernel, limiter
      ensures Valid()
      ensures View() == NodeModel.ApplyRemove(old(View()), Ids(deltaUsers), now, o.(leftovers := left))
    {
      left := {};
      if |deltaUsers| == 0 {
        assert Ids(deltaUsers) == {};
        return;
      }
      assert deltaUsers[0].id in Ids(deltaUsers);
      var filtered := SubtractUsers(lastUsers, deltaUsers);
      WithoutById(lastUsers, Ids(deltaUsers));
      WithoutUnique(lastUsers, Ids(deltaUsers));
      if kernel.running {
        left := RemoveFromRunning(filtered, Ids(deltaUsers), now, o);
      }
    }

    method RemoveFromRunning(filtered: seq<UserSpec>, ids: set<int>, now: int, o: Outcome)
      returns (ghost left: set<int>)
      requires Valid() && UniqueIds(filtered) && ById(filtered) == ById(lastUsers) - ids
      modifies this, kernel, limiter
      ensures Valid()
      ensures View() == RemoveRunning(old(View()), ids, now, o.(leftovers := left))
    {
      ghost var before := View();
      var prevUsers, prevHash := PrepareUserState(filtered, now);
      var backing;
      backing, left := FilteredBacking(filtered, now);
      kernel.RemoveUsers(ids, o.removeOk);
      if !o.removeOk {
        Fallback(backing, prevUsers, prevHash, now, o, before);
      }
    }

    /** applyChanges for a changed configuration. */
    method ApplyChanges(o: Outcome)
      requires Valid()
      modifies kernel
      ensures Valid() && View() == NodeModel.ApplyChanges(old(View()), o)
    {
      EmptyById(lastUsers);
      if lastConfig.None? || |lastUsers| == 0 {
        if |lastUsers| == 0 {
          kernel.Stop();
        }
        return;
      }
      if kernel.running {
        kernel.Reload(lastConfig, lastUsers, o.reloadOk);
        if !o.reloadOk {
          kernel.Start(lastConfig, lastUsers, o.restartOk, o.keepsOld);
        }
      } else {
        kernel.Start(lastConfig, lastUsers, o.startOk, o.keepsOld);
      }
    }

    /** handleWSEvent for sync.config. */
    method OnConfig(config: Option<Config>, valid: bool, o: Outcome)
      requires Valid()
      modifies this, kernel
      ensures Valid() && View() == NodeModel.OnConfig(old(View()), config, valid, o)
    {
      if config.None? || config == lastConfig || !valid {
        return;
      }
      lastConfig := config;
      ApplyChanges(o);
    }

    /** handleWSEvent for sync.users: nil is ignored, and so is a list with the hash in force. */
    method OnUsers(users: Option<seq<UserSpec>>, now: int, o: Outcome)
      requires Valid() && (users.Some? ==> UniqueIds(users.value))
      modifies this, kernel, limiter
      ensures Valid() && View() == NodeModel.OnUsers(old(View()), MapUsers(users), now, o)
    {
      if users.None? {
        return;
      }
      var active := Active(users.value, now);
      ActiveById(users.value, now);
      ActiveUnique(users.value, now);
      var digest, _ := ComputeUserHash(active);
      if Some(digest) == lastUserHash {
        return;
      }
      ApplyUserUpdate(active, now, o);
    }

    /** drainMachineMailbox: configuration first, then users; reconcile asks for a REST pull. */
    method DrainMachineMailbox(box: NodeMailbox, valid: bool, now: int, forConfig: Outcome, forUsers: Outcome)
      returns (reconcile: bool)
      requires Valid() && UniqueIds(ListOf(box.users))
      modifies this, kernel, limiter, box
      ensures Valid() && box.View() == AfterDrain(old(box.View()))
      ensures reconcile == DrainOutput(old(box.View())).needsReconcile
      ensures var out := DrainOutput(old(box.View()));
              var s := if out.config.None? then old(View())
                       else NodeModel.OnConfig(old(View()), out.config, valid, forConfig);
              View() == if out.hasUsers then NodeModel.OnUsers(s, out.users, now, forUsers) else s
    {
      var out, list := box.DrainIfReady();
      if out.config.Some? {
        OnConfig(out.config, valid, forConfig);
      }
      if out.hasUsers {
        OnUsers(list, now, forUsers);
      }
      reconcile := out.needsReconcile;
    }

    /** expireUsers: afterwards nobody loaded is expired, and the timer is armed for the next expiry. */
    method ExpireUsers(now: int, o: Outcome)
      requires Valid()
      modifies this, kernel, limiter
      ensures Valid() && View() == OnSweep(old(View()), now, o)
      ensures forall u :: u in lastUsers ==> u in old(lastUsers) && !u.IsExpiredAt(now)
    {
      var active := Active(lastUsers, now);
      ActiveById(lastUsers, now);
      ActiveUnique(lastUsers, now);
      ActiveMembers(lastUsers, now);
      ActiveShorter(lastUsers, now);
      if |active| == |lastUsers| {
        return;
      }
      ExpiredShows(lastUsers, now);
      SweepIsComplete(View(), now, o);
      if kernel.running {
        ApplyUserUpdate(active, now, o);
      } else {
        var _, _ := PrepareUserState(active, now);
      }
      SweptMembers(lastUsers, old(lastUsers), now);
    }

    /** The users of a poll: applied at once, or left to the reload that follows. */
    method PullUsers(users: Option<seq<UserSpec>>, configChanged: bool, now: int, o: Outcome)
      requires Valid() && (users.Some? ==> UniqueIds(users.value))
      modifies this, kernel, limiter
      ensures Valid() && View() == NodeModel.PullUsers(old(View()), MapUsers(users), configChanged, now, o)
    {
      if users.None? {
        return;
      }
      var digest, _ := ComputeUserHash(users.value);
      if Some(digest) != lastUserHash {
        if !configChanged {
          ApplyUserUpdate(users.value, now, o);
        } else {
          var _, _ := PrepareUserState(users.value, now);
        }
      }
    }

    /** A polled list whose baseline is no longer current is dropped; what is kept is what KeepUsers allows. */
    method DropStaleUsers(users: Option<seq<UserSpec>>, baseline: Option<Digest>, ghost r: PullResult)
      returns (kept: Option<seq<UserSpec>>)
      requires Valid() && r.users == MapUsers(users) && r.userBaseline == baseline
      ensures MapUsers(kept) == KeepUsers(View(), r)
      ensures kept.Some? ==> kept == users
    {
      kept := users;
      if users.Some? && baseline.Some? && baseline != lastUserHash {
        kept := None;
      }
    }

    /** A polled configuration becomes the current one unless it is stale or invalid. */
    method TakeConfig(config: Option<Config>, baseline: Option<Config>, valid: bool) returns (kept: Option<Config>)
      modifies this`lastConfig
      ensures kept == if (config.Some? && baseline.Some? && baseline != old(lastConfig)) || !valid then None else config
      ensures lastConfig == if kept.Some? then kept else old(lastConfig)
    {
      kept := config;
      if config.Some? && baseline.Some? && baseline != lastConfig {
        kept := None;
      }
      if kept.Some? {
        if !valid {
          kept := None;
        } else {
          lastConfig := kept;
        }
      }
    }

    /** applyPullResult: stale parts of the result are dropped before anything is applied. */
    method ApplyPullResult(config: Option<Config>, configBaseline: Option<Config>, users: Option<seq<UserSpec>>,
                           userBaseline: Option<Digest>, certChanged: bool, valid: bool, now: int, o: Outcome)
      requires Valid() && (users.Some? ==> UniqueIds(users.value))
      modifies this, kernel, limiter
      ensures Valid()
      ensures var r := PullResult(config, configBaseline, MapUsers(users), userBaseline, certChanged, valid);
              View() == OnPull(old(View()), r, now, o)
    {
      ghost var r := PullResult(config, configBaseline, MapUsers(users), userBaseline, certChanged, valid);
      var newUsers := DropStaleUsers(users, userBaseline, r);
      var newConfig := TakeConfig(config, configBaseline, valid);
      var configChanged := certChanged || newConfig.Some?;
      PullUsers(newUsers, configChanged, now, o);
      if configChanged {
        ApplyChanges(o);
      }
    }
  }

  lemma RemovedTwice(m: map<int, string>, a: set<int>, b: set<int>, kept: set<int>)
    ensures (m - (a - kept)) - (b - kept) == m - ((a + b) - kept)
  {
    assert (a + b) - kept == (a - kept) + (b - kept);
  }

  /** One more delta user handled by the dropping loop, whose search stopped at position k. */
  lemma ChangedOneMore(users: seq<UserSpec>, delta: seq<UserSpec>, i: nat, k: nat)
    requires UniqueIds(users) && UniqueIds(delta) && i < |delta| && k <= |users|
    requires forall j :: 0 <= j < k ==> !(users[j].id == delta[i].id && users[j].uuid != delta[i].uuid)
    requires k < |users| ==> users[k].id == delta[i].id && users[k].uuid != delta[i].uuid
    ensures Changed(ById(users), ById(delta[..i + 1]))
         == Changed(ById(users), ById(delta[..i])) + (if k < |users| then {users[k].id} else {})
  {
    NextIsNew(delta, i);
    FindsChanged(users, delta[i], k);
    ChangedInsert(ById(users), ById(delta[..i]), delta[i]);
    if k < |users| {
      ByIdUnique(users, k);
    }
  }

  lemma NextIsNew(delta: seq<UserSpec>, i: nat)
    requires UniqueIds(delta) && i < |delta|
    ensures delta[i].id !in ById(delta[..i])
    ensures ById(delta[..i + 1]) == ById(delta[..i])[delta[i].id := delta[i]]
  {
    assert delta[..i + 1] == delta[..i] + [delta[i]];
    ByIdSnoc(delta[..i], delta[i]);
    ByIdFacts(delta[..i]);
    assert delta[i].id !in Ids(delta[..i]);
  }

  lemma FindsChanged(users: seq<UserSpec>, u: UserSpec, k: nat)
    requires UniqueIds(users) && k <= |users|
    requires forall j :: 0 <= j < k ==> !(users[j].id == u.id && users[j].uuid != u.uuid)
    requires k < |users| ==> users[k].id == u.id && users[k].uuid != u.uuid
    ensures k < |users| <==> u.id in ById(users) && ById(users)[u.id].uuid != u.uuid
  {
    ByIdFacts(users);
    if k < |users| {
      ByIdUnique(users, k);
    }
  }

  lemma ChangedInsert(m: UserMap, d: UserMap, u: UserSpec)
    requires u.id !in d
    ensures Changed(m, d[u.id := u])
         == Changed(m, d) + (if u.id in m && m[u.id].uuid != u.uuid then {u.id} else {})
  {
  }

  /** The leftovers matter only once the kernel runs. */
  lemma AddUnfolds(s: Node, delta: UserMap, now: int, o: Outcome, left: set<int>)
    requires ActiveMap(delta, now) != map[]
    ensures var s1 := NodeModel.EnsureRunning(s, o);
            NodeModel.ApplyAdd(s, delta, now, o.(leftovers := left))
            == if s1.running then AddRunning(s1, ActiveMap(delta, now), now, o.(leftovers := left)) else s1
  {
  }

  /** When the filter drops somebody, the user map changes too. */
  lemma ExpiredShows(users: seq<UserSpec>, now: int)
    requires UniqueIds(users) && |Active(users, now)| != |users|
    ensures ActiveMap(ById(users), now) != ById(users)
  {
    ActiveShorter(users, now);
    var u :| u in users && u.IsExpiredAt(now);
    UniqueMember(users, u);
    assert u.id in ById(users) && u.id !in ActiveMap(ById(users), now);
  }
}
