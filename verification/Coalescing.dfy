/**
 Machine mode against direct delivery: the same user events, once handed to the
 service one by one, once coalesced in the mailbox and drained at arbitrary moments.
 */
module Coalescing {
  import opened Options
  import opened Users
  import opened UserHash
  import Box = Mailbox
  import opened NodeModel
  import opened NodeRuns

  /** A user event, or a moment at which the service drains; o says which kernel calls succeed. */
  datatype Op =
    | Arrives(event: Box.MapEvent, now: int, outcome: Outcome)
    | Drains(now: int, outcome: Outcome)

  /** The service handling one event directly. */
  ghost function Direct(s: Node, e: Box.MapEvent, now: int, o: Outcome): Node
  {
    match e
    case UsersEvent(users) => OnUsers(s, users, now, o)
    case DeltaEvent(action, delta) =>
      if action == "add" then ApplyAdd(s, delta, now, o)
      else if action == "remove" then ApplyRemove(s, delta.Keys, now, o)
      else s
    case _ => s
  }

  ghost function DirectRun(s: Node, ops: seq<Op>): Node
  {
    if ops == [] then s
    else
      var before, op := DirectRun(s, ops[..|ops| - 1]), ops[|ops| - 1];
      if op.Arrives? then Direct(before, op.event, op.now, op.outcome) else before
  }

  /** A service behind its mailbox. */
  datatype Boxed = Boxed(mail: Box.Mail, node: Node)

  /** drainMachineMailbox, for the user part of the snapshot. */
  ghost function DrainInto(b: Boxed, now: int, o: Outcome): Boxed
  {
    var out := Box.DrainOutput(b.mail);
    Boxed(Box.AfterDrain(b.mail), if out.hasUsers then OnUsers(b.node, out.users, now, o) else b.node)
  }

  ghost function BoxedRun(b: Boxed, ops: seq<Op>): Boxed
  {
    if ops == [] then b
    else
      var before, op := BoxedRun(b, ops[..|ops| - 1]), ops[|ops| - 1];
      if op.Arrives? then before.(mail := Box.Apply(before.mail, op.event)) else DrainInto(before, op.now, op.outcome)
  }

  /** The users all events so far amount to. */
  function FoldOne(users: UserMap, e: Box.MapEvent): UserMap
  {
    match e
    case UsersEvent(Some(u)) => u
    case DeltaEvent(action, delta) =>
      if action == "add" then users + delta else if action == "remove" then users - delta.Keys else users
    case _ => users
  }

  function FoldAll(users: UserMap, ops: seq<Op>): UserMap
  {
    if ops == [] then users
    else
      var before, op := FoldAll(users, ops[..|ops| - 1]), ops[|ops| - 1];
      if op.Arrives? then FoldOne(before, op.event) else before
  }

  /** An event that changes what the mailbox buffers. */
  predicate SetsUsers(e: Box.MapEvent)
  {
    match e
    case UsersEvent(users) => users.Some?
    case DeltaEvent(action, delta) => delta != map[] && action in {"add", "remove"}
    case _ => false
  }

  /** Whether the buffer ends up nil: the last event that set it is a removal that left nobody. */
  predicate NilAfter(nil: bool, m: UserMap, ops: seq<Op>)
  {
    if ops == [] then nil
    else
      var front, op := ops[..|ops| - 1], ops[|ops| - 1];
      if op.Arrives? && SetsUsers(op.event)
      then op.event.DeltaEvent? && op.event.action == "remove" && FoldAll(m, ops) == map[]
      else NilAfter(nil, m, front)
  }

  /** The users loaded by the last drain that did not meet a nil buffer. */
  function LoadedAfter(nil: bool, m: UserMap, ops: seq<Op>): UserMap
  {
    if ops == [] then m
    else
      var front, op := ops[..|ops| - 1], ops[|ops| - 1];
      if op.Drains? && !NilAfter(nil, m, front) then FoldAll(m, front) else LoadedAfter(nil, m, front)
  }

  /** Users that do not expire before the end of the stream. */
  predicate Lasting(m: UserMap, end: int)
  {
    Keyed(m) && NoneExpired(m, end)
  }

  /** The users after every part of the stream are among those whose digests do not collide. */
  ghost predicate FoldsIn(m: UserMap, ops: seq<Op>, g: iset<UserMap>)
  {
    CollisionFree(g) && forall k :: 0 <= k <= |ops| ==> FoldAll(m, ops[..k]) in g
  }

  lemma FoldsInFront(m: UserMap, ops: seq<Op>, g: iset<UserMap>)
    requires ops != [] && FoldsIn(m, ops, g)
    ensures FoldsIn(m, ops[..|ops| - 1], g)
    ensures FoldAll(m, ops) in g && FoldAll(m, ops[..|ops| - 1]) in g
  {
    var front := ops[..|ops| - 1];
    forall k | 0 <= k <= |front|
      ensures FoldAll(m, front[..k]) in g
    {
      assert front[..k] == ops[..k];
    }
    assert ops[..|ops|] == ops;
  }

  /** Every kernel call succeeds, itself or through its fallback. */
  predicate Works(o: Outcome)
  {
    (o.updateOk || (o.restartOk && o.addOk && o.removeOk)) && o.dropFails == {}
  }

  predicate UserEventOk(e: Box.MapEvent, end: int)
  {
    match e
    case UsersEvent(users) => users.Some? ==> Lasting(users.value, end)
    case DeltaEvent(action, delta) => action in {"add", "remove"} && Lasting(delta, end)
    case _ => false
  }

  predicate OpOk(op: Op, end: int)
  {
    op.now <= end && Works(op.outcome) && (op.Arrives? ==> UserEventOk(op.event, end))
  }

  predicate StreamOk(ops: seq<Op>, end: int)
  {
    forall k :: 0 <= k < |ops| ==> OpOk(ops[k], end)
  }

  /** A running service whose loaded users, hash and kernel are exactly m. */
  predicate Steady(s: Node, m: UserMap)
  {
    s.running && s.config.Some? && s.users == m && s.hashed == Some(m) && s.kernel == Uuids(m)
  }

  // ---------- one event ----------

  lemma StillLasting(m: UserMap, end: int, now: int)
    requires Lasting(m, end) && now <= end
    ensures NoneExpired(m, now) && ActiveMap(m, now) == m
  {
    forall i | i in m
      ensures !m[i].IsExpiredAt(now)
    {
      assert !m[i].IsExpiredAt(end);
    }
    NoneExpiredActive(m, now);
  }

  lemma FoldLasting(m: UserMap, e: Box.MapEvent, end: int)
    requires Lasting(m, end) && UserEventOk(e, end)
    ensures Lasting(FoldOne(m, e), end)
  {
  }

  lemma SnapshotSteady(s: Node, m: UserMap, u: UserMap, g: iset<UserMap>, end: int, now: int, o: Outcome)
    requires Steady(s, m) && Lasting(u, end) && now <= end && Works(o)
    requires CollisionFree(g) && m in g && u in g
    ensures Steady(OnUsers(s, Some(u), now, o), u)
  {
    StillLasting(u, end, now);
    if Some(DigestOf(u)) == HashOf(s) {
      assert u == m;
    }
  }

  lemma AddSteady(s: Node, m: UserMap, d: UserMap, end: int, now: int, o: Outcome)
    requires Steady(s, m) && Lasting(m, end) && Lasting(d, end) && now <= end && Works(o)
    ensures Steady(ApplyAdd(s, d, now, o), m + d)
  {
    StillLasting(m, end, now);
    StillLasting(d, end, now);
    if d != map[] {
      assert Expired(m, now) == {};
      assert Changed(m, d) - o.dropFails == Changed(m, d);
      AddedKernel(m, d, now, o);
      assert NoneExpired(m + d, now);
      NothingLeftBehind(m + d, now, o.leftovers);
    } else {
      assert m + d == m;
    }
  }

  lemma RemoveSteady(s: Node, m: UserMap, ids: set<int>, end: int, now: int, o: Outcome)
    requires Steady(s, m) && Lasting(m, end) && now <= end && Works(o)
    ensures Steady(ApplyRemove(s, ids, now, o), m - ids)
  {
    StillLasting(m, end, now);
    NothingLeftBehind(m - ids, now, o.leftovers);
    assert Uuids(m) - ids == Uuids(m - ids);
    if ids == {} {
      assert m - ids == m;
    }
  }

  lemma DirectSteady(s: Node, m: UserMap, e: Box.MapEvent, g: iset<UserMap>, end: int, now: int, o: Outcome)
    requires Steady(s, m) && Lasting(m, end) && UserEventOk(e, end) && now <= end && Works(o)
    requires CollisionFree(g) && m in g && FoldOne(m, e) in g
    ensures Steady(Direct(s, e, now, o), FoldOne(m, e))
  {
    match e {
      case UsersEvent(users) =>
        if users.Some? {
          SnapshotSteady(s, m, users.value, g, end, now, o);
        }
      case DeltaEvent(action, delta) =>
        if action == "add" {
          AddSteady(s, m, delta, end, now, o);
        } else {
          RemoveSteady(s, m, delta.Keys, end, now, o);
        }
      case _ =>
    }
  }

  // ---------- both paths ----------

  lemma {:induction false} DirectIsFold(s: Node, m: UserMap, ops: seq<Op>, g: iset<UserMap>, end: int)
    requires Steady(s, m) && Lasting(m, end) && StreamOk(ops, end) && FoldsIn(m, ops, g)
    ensures Steady(DirectRun(s, ops), FoldAll(m, ops)) && Lasting(FoldAll(m, ops), end)
  {
    if ops != [] {
      var front, op := ops[..|ops| - 1], ops[|ops| - 1];
      FoldsInFront(m, ops, g);
      DirectIsFold(s, m, front, g, end);
      if op.Arrives? {
        DirectSteady(DirectRun(s, front), FoldAll(m, front), op.event, g, end, op.now, op.outcome);
        FoldLasting(FoldAll(m, front), op.event, end);
      }
    }
  }

  /** The mailbox holds the fold; when it is clean and not nil, the service has the fold too. */
  predicate Caught(b: Boxed, m: UserMap, loaded: UserMap)
  {
    && b.mail.ready && b.mail.hasFull && Box.UsersOf(b.mail.users) == m
    && Steady(b.node, loaded)
    && (!b.mail.dirtyUsers && b.mail.users.Some? ==> loaded == m)
  }

  lemma MailFolds(mail: Box.Mail, m: UserMap, e: Box.MapEvent, end: int)
    requires mail.hasFull && Box.UsersOf(mail.users) == m && UserEventOk(e, end)
    ensures var mail' := Box.Apply(mail, e);
            mail'.ready == mail.ready && mail'.hasFull && Box.UsersOf(mail'.users) == FoldOne(m, e)
            && (mail.dirtyUsers ==> mail'.dirtyUsers)
            && (!mail'.dirtyUsers ==> FoldOne(m, e) == m && mail'.users == mail.users)
            && (mail'.users.None? <==>
                  if SetsUsers(e) then e.DeltaEvent? && e.action == "remove" && FoldOne(m, e) == map[]
                  else mail.users.None?)
  {
    if e.DeltaEvent? && e.delta == map[] {
      assert e.delta.Keys == {};
      assert m + e.delta == m && m - e.delta.Keys == m;
    }
  }

  lemma DrainCaught(b: Boxed, m: UserMap, loaded: UserMap, g: iset<UserMap>, end: int, now: int, o: Outcome)
    requires Caught(b, m, loaded) && Lasting(m, end) && now <= end && Works(o)
    requires CollisionFree(g) && m in g && loaded in g
    ensures var next := if b.mail.dirtyUsers && b.mail.users.Some? then m else loaded;
            Caught(DrainInto(b, now, o), m, next) && !DrainInto(b, now, o).mail.dirtyUsers
            && DrainInto(b, now, o).mail.users == b.mail.users
  {
    if b.mail.dirtyUsers && b.mail.users.Some? {
      SnapshotSteady(b.node, loaded, m, g, end, now, o);
    }
  }

  lemma {:induction false} BoxedIsFold(b: Boxed, m: UserMap, ops: seq<Op>, g: iset<UserMap>, end: int)
    requires Caught(b, m, m) && Lasting(m, end) && StreamOk(ops, end) && FoldsIn(m, ops, g)
    ensures var nil := b.mail.users.None?;
            Caught(BoxedRun(b, ops), FoldAll(m, ops), LoadedAfter(nil, m, ops)) && LoadedAfter(nil, m, ops) in g
            && (BoxedRun(b, ops).mail.users.None? <==> NilAfter(nil, m, ops))
    ensures Lasting(FoldAll(m, ops), end)
  {
    if ops == [] {
      assert ops[..0] == [];
    } else {
      var front, op := ops[..|ops| - 1], ops[|ops| - 1];
      FoldsInFront(m, ops, g);
      BoxedIsFold(b, m, front, g, end);
      var before, loaded := BoxedRun(b, front), LoadedAfter(b.mail.users.None?, m, front);
      if op.Arrives? {
        MailFolds(before.mail, FoldAll(m, front), op.event, end);
        FoldLasting(FoldAll(m, front), op.event, end);
      } else {
        DrainCaught(before, FoldAll(m, front), loaded, g, end, op.now, op.outcome);
      }
    }
  }

  /**
   Coalescing is invisible: for every stream of snapshots and deltas and every drain
   schedule, once the mailbox is drained the kernel holds the same ID-to-UUID map as if
   each event had been handled directly, with one exception that the stream itself shows:
   it ends with a removal of everybody, and something had been loaded before. Digests
   must not collide on the user maps the stream passes through.
   */
  lemma CoalescingIsInvisible(b: Boxed, m: UserMap, ops: seq<Op>, g: iset<UserMap>, end: int)
    requires Caught(b, m, m) && Lasting(m, end) && StreamOk(ops, end) && FoldsIn(m, ops, g)
    requires ops != [] && ops[|ops| - 1].Drains?
    ensures DirectRun(b.node, ops).kernel == Uuids(FoldAll(m, ops))
    ensures var nil := b.mail.users.None?;
            (BoxedRun(b, ops).node.kernel == DirectRun(b.node, ops).kernel)
            <==> (!NilAfter(nil, m, ops) || LoadedAfter(nil, m, ops) == map[])
  {
    DirectIsFold(b.node, m, ops, g, end);
    BoxedIsFold(b, m, ops, g, end);
    DrainedLast(b, ops);
    SameUuidsIff(BoxedRun(b, ops), FoldAll(m, ops), LoadedAfter(b.mail.users.None?, m, ops));
  }

  lemma DrainedLast(b: Boxed, ops: seq<Op>)
    requires ops != [] && ops[|ops| - 1].Drains? && BoxedRun(b, ops).mail.ready
    ensures !BoxedRun(b, ops).mail.dirtyUsers
  {
  }

  lemma SameUuidsIff(b: Boxed, m: UserMap, loaded: UserMap)
    requires Caught(b, m, loaded) && !b.mail.dirtyUsers
    ensures b.node.kernel == Uuids(m) <==> b.mail.users.Some? || b.node.users == map[]
  {
    if b.mail.users.None? {
      assert m == map[] && Uuids(m) == map[];
      if loaded != map[] {
        HasElement(loaded.Keys);
        var i :| i in loaded.Keys;
        assert i in Uuids(loaded);
      }
    }
  }

  /** In particular, whenever the stream leaves some user: nil drains on the way do no harm. */
  lemma CoalescingKeepsUsers(b: Boxed, m: UserMap, ops: seq<Op>, g: iset<UserMap>, end: int)
    requires Caught(b, m, m) && Lasting(m, end) && StreamOk(ops, end) && FoldsIn(m, ops, g)
    requires ops != [] && ops[|ops| - 1].Drains? && FoldAll(m, ops) != map[]
    ensures BoxedRun(b, ops).node.kernel == DirectRun(b.node, ops).kernel
    ensures BoxedRun(b, ops).node.users == DirectRun(b.node, ops).users == FoldAll(m, ops)
  {
    DirectIsFold(b.node, m, ops, g, end);
    BoxedIsFold(b, m, ops, g, end);
    DrainedLast(b, ops);
  }

  // ---------- where the two differ ----------

  /** A nil buffer is drained and then ignored: the service does not hear of the removal. */
  lemma NilDrainIsIgnored(b: Boxed, now: int, o: Outcome)
    requires b.mail.users.None?
    ensures DrainInto(b, now, o).node == b.node
  {
  }

  /** One drain brings the service up to the mailbox in every case but this: a nil buffer while users are loaded. */
  lemma DrainCatchesUpIff(b: Boxed, m: UserMap, loaded: UserMap, g: iset<UserMap>, end: int, now: int, o: Outcome)
    requires Caught(b, m, loaded) && Lasting(m, end) && now <= end && Works(o)
    requires CollisionFree(g) && m in g && loaded in g
    ensures DrainInto(b, now, o).node.kernel == Uuids(m) <==> b.mail.users.Some? || loaded == map[]
  {
    DrainCaught(b, m, loaded, g, end, now, o);
    SameUuidsIff(DrainInto(b, now, o), m, if b.mail.dirtyUsers && b.mail.users.Some? then m else loaded);
  }

  /**
   Removing the last users through the mailbox is lost: the direct path empties the
   kernel, the coalesced path keeps every one of them.
   */
  lemma LastRemovalIsLost(b: Boxed, m: UserMap, d: UserMap, end: int, now: int, o: Outcome)
    requires Caught(b, m, m) && Lasting(m, end) && now <= end && Works(o)
    requires m != map[] && m.Keys <= d.Keys
    ensures var e := Box.DeltaEvent("remove", d);
            Direct(b.node, e, now, o).kernel == map[]
            && DrainInto(b.(mail := Box.Apply(b.mail, e)), now, o).node.kernel == Uuids(m) != map[]
  {
    RemoveSteady(b.node, m, d.Keys, end, now, o);
    assert m - d.Keys == map[];
    assert Uuids(m - d.Keys) == map[];
    assert d != map[] by {
      HasElement(m.Keys);
    }
    HasElement(m.Keys);
    var i :| i in m.Keys;
    assert i in Uuids(m);
    NilDrainIsIgnored(b.(mail := Box.Apply(b.mail, Box.DeltaEvent("remove", d))), now, o);
  }

  /** A poll that carries users only, begun when the present hash was in force. */
  ghost function PollOf(s: Node, polled: UserMap): PullResult
  {
    PullResult(None, None, Some(polled), HashOf(s), false, true)
  }

  lemma PollSteady(s: Node, m: UserMap, polled: UserMap, g: iset<UserMap>, end: int, now: int, o: Outcome)
    requires Steady(s, m) && Lasting(polled, end) && now <= end && Works(o)
    requires CollisionFree(g) && m in g && polled in g
    ensures Steady(OnPull(s, PollOf(s, polled), now, o), polled)
  {
    StillLasting(polled, end, now);
    SnapshotSteady(s, m, polled, g, end, now, o);
  }

  /**
   Polls never reach the mailbox: the service polls a new list, and loads it; the next
   delta brings the mailbox's older list back.
   */
  lemma PolledListIsForgotten(b: Boxed, buffered: UserMap, polled: UserMap, d: UserMap, g: iset<UserMap>, end: int,
                              now: int, o: Outcome)
    requires Caught(b, buffered, buffered) && d != map[] && now <= end && Works(o)
    requires Lasting(buffered, end) && Lasting(polled, end) && Lasting(d, end)
    requires CollisionFree(g) && buffered in g && polled in g && buffered + d in g
    ensures var node := OnPull(b.node, PollOf(b.node, polled), now, o);
            var after := DrainInto(Boxed(Box.Apply(b.mail, Box.DeltaEvent("add", d)), node), now, o).node;
            node.users == polled && after.users == buffered + d && after.kernel == Uuids(buffered + d)
  {
    PollSteady(b.node, buffered, polled, g, end, now, o);
    AddBuffered(b.mail, buffered, d);
    SnapshotSteady(OnPull(b.node, PollOf(b.node, polled), now, o), polled, buffered + d, g, end, now, o);
  }

  /** An added delta waits in the mailbox on top of the buffered list. */
  lemma AddBuffered(mail: Box.Mail, buffered: UserMap, d: UserMap)
    requires mail.ready && mail.hasFull && Box.UsersOf(mail.users) == buffered && d != map[]
    ensures var m := Box.Apply(mail, Box.DeltaEvent("add", d));
            m.ready && Box.DrainOutput(m).hasUsers && Box.DrainOutput(m).users == Some(buffered + d)
  {
  }
}
