/**
 Whole runs of the accounting: users carry traffic, kernels and users restart their
 counters, readings are taken, pushes succeed or fail. A push that reports an error
 counts as undelivered.
 */
module TrafficRuns {
  import opened Options
  import opened Users
  import opened Tracker

  /** carried is what really went through; counters is what the kernel shows. */
  datatype World = World(carried: Traffic, counters: Traffic, lastSeen: Traffic, pending: Traffic,
                         inFlight: Option<Traffic>, delivered: Traffic)

  datatype Event =
    | Carry(uid: int, bytes: Bytes)
    | Reset(uids: set<int>)        // counters start again from zero
    | Reading(uids: set<int>)      // trackAndEnforce, over the users the kernel reports
    | PushBegins                   // pushReportAsync flushes; only one push runs at a time
    | PushSucceeds
    | PushFails                    // the goroutine restores the traffic

  const EMPTY := World(map[], map[], map[], map[], None, map[])

  predicate Possible(e: Event)
  {
    e.Carry? ==> e.bytes.NonNegative()
  }

  function Step(w: World, e: Event): World
  {
    match e
    case Carry(uid, bytes) =>
      w.(carried := w.carried[uid := Get(w.carried, uid).Plus(bytes)],
         counters := w.counters[uid := Get(w.counters, uid).Plus(bytes)])
    case Reset(uids) => w.(counters := w.counters - uids)
    case Reading(uids) =>
      var cum := Only(w.counters, uids);
      w.(lastSeen := w.lastSeen + cum, pending := PendingAfter(w.lastSeen, w.pending, cum, cum.Keys))
    case PushBegins => if w.inFlight.Some? then w else w.(inFlight := Some(w.pending), pending := map[])
    case PushSucceeds =>
      if w.inFlight.None? then w else w.(delivered := Merge(w.delivered, w.inFlight.value), inFlight := None)
    case PushFails =>
      if w.inFlight.None? then w else w.(pending := Merge(w.pending, w.inFlight.value), inFlight := None)
  }

  function Run(w: World, es: seq<Event>): World
    decreases |es|
  {
    if es == [] then w else Run(Step(w, es[0]), es[1..])
  }

  // ---------- one user's share of the world ----------

  /** known: the kernel shows a counter for the user; busy: a push is in flight. */
  datatype Share = Share(carried: Bytes, known: bool, counter: Bytes, lastSeen: Bytes,
                         pending: Bytes, busy: bool, inFlight: Bytes, delivered: Bytes)
  {
    /** Everything accounted for the user: delivered, in flight or pending. */
    function Accounted(): Bytes {
      Bytes(delivered.up + inFlight.up + pending.up, delivered.down + inFlight.down + pending.down)
    }
  }

  function Of(w: World, uid: int): Share
  {
    Share(Get(w.carried, uid), uid in w.counters, Get(w.counters, uid), Get(w.lastSeen, uid), Get(w.pending, uid),
          w.inFlight.Some?, if w.inFlight.Some? then Get(w.inFlight.value, uid) else ZERO, Get(w.delivered, uid))
  }

  /** What an event does to one user's share. */
  function ShareStep(s: Share, e: Event, uid: int): Share
  {
    match e
    case Carry(u, bytes) =>
      if u == uid then s.(carried := s.carried.Plus(bytes), counter := s.counter.Plus(bytes), known := true) else s
    case Reset(uids) => if uid in uids then s.(known := false, counter := ZERO) else s
    case Reading(uids) =>
      if uid in uids && s.known
      then s.(lastSeen := s.counter, pending := s.pending.Plus(DeltaOf(s.lastSeen, s.counter)))
      else s
    case PushBegins => if s.busy then s else s.(busy := true, inFlight := s.pending, pending := ZERO)
    case PushSucceeds =>
      if s.busy then s.(busy := false, delivered := s.delivered.Plus(s.inFlight), inFlight := ZERO) else s
    case PushFails =>
      if s.busy then s.(busy := false, pending := s.pending.Plus(s.inFlight), inFlight := ZERO) else s
  }

  lemma GetMerge(a: Traffic, b: Traffic, uid: int)
    ensures Get(Merge(a, b), uid) == Get(a, uid).Plus(Get(b, uid))
  {
  }

  lemma GetPending(lastSeen: Traffic, pending: Traffic, cum: Traffic, uid: int)
    requires Get(lastSeen, uid).NonNegative() && Get(cum, uid).NonNegative()
    ensures Get(PendingAfter(lastSeen, pending, cum, cum.Keys), uid)
         == if uid in cum then Get(pending, uid).Plus(DeltaOf(Get(lastSeen, uid), cum[uid])) else Get(pending, uid)
  {
    assert uid in Movers(lastSeen, cum, cum.Keys) <==> uid in cum && Moved(Get(lastSeen, uid), cum[uid]);
  }

  lemma GetSeen(lastSeen: Traffic, cum: Traffic, uid: int)
    ensures Get(lastSeen + cum, uid) == if uid in cum then cum[uid] else Get(lastSeen, uid)
  {
  }

  lemma GetOnly(m: Traffic, uids: set<int>, uid: int)
    ensures uid in Only(m, uids) <==> uid in m && uid in uids
    ensures uid in Only(m, uids) ==> Only(m, uids)[uid] == m[uid]
  {
  }

  lemma GetReset(m: Traffic, uids: set<int>, uid: int)
    ensures uid in m - uids <==> uid in m && uid !in uids
    ensures Get(m - uids, uid) == if uid in uids then ZERO else Get(m, uid)
  {
  }

  lemma ReadingOf(w: World, uids: set<int>, uid: int)
    requires Get(w.lastSeen, uid).NonNegative() && Get(w.counters, uid).NonNegative()
    ensures Of(Step(w, Reading(uids)), uid) == ShareStep(Of(w, uid), Reading(uids), uid)
  {
    var cum := Only(w.counters, uids);
    GetOnly(w.counters, uids, uid);
    GetSeen(w.lastSeen, cum, uid);
    GetPending(w.lastSeen, w.pending, cum, uid);
  }

  lemma PushEndsOf(w: World, e: Event, uid: int)
    requires (e.PushSucceeds? || e.PushFails?) && w.inFlight.Some?
    ensures Of(Step(w, e), uid) == ShareStep(Of(w, uid), e, uid)
  {
    var flying := w.inFlight.value;
    if e.PushSucceeds? {
      GetMerge(w.delivered, flying, uid);
      assert Step(w, e) == w.(delivered := Merge(w.delivered, flying), inFlight := None);
    } else {
      GetMerge(w.pending, flying, uid);
      assert Step(w, e) == w.(pending := Merge(w.pending, flying), inFlight := None);
    }
  }

  lemma PushBeginsOf(w: World, uid: int)
    ensures Of(Step(w, PushBegins), uid) == ShareStep(Of(w, uid), PushBegins, uid)
  {
  }

  /** The maps work user by user: no event mixes two users' traffic. */
  lemma StepOf(w: World, e: Event, uid: int)
    requires Get(w.lastSeen, uid).NonNegative() && Get(w.counters, uid).NonNegative()
    ensures Of(Step(w, e), uid) == ShareStep(Of(w, uid), e, uid)
  {
    match e {
      case Carry(_, _) =>
      case Reset(uids) => GetReset(w.counters, uids, uid);
      case Reading(uids) => ReadingOf(w, uids, uid);
      case PushBegins => PushBeginsOf(w, uid);
      case _ => if w.inFlight.Some? { PushEndsOf(w, e, uid); }
    }
  }

  // ---------- never too much ----------

  predicate AtMost(a: Bytes, b: Bytes)
  {
    a.up <= b.up && a.down <= b.down
  }

  /** Accounted traffic, and what the next reading would add, never exceed what was carried. */
  predicate Sound(s: Share)
  {
    && s.counter.NonNegative() && s.lastSeen.NonNegative() && s.Accounted().NonNegative()
    && AtMost(s.Accounted().Plus(DeltaOf(s.lastSeen, s.counter)), s.carried)
  }

  lemma ShareStepSound(s: Share, e: Event, uid: int)
    requires Possible(e) && Sound(s) && (!s.busy ==> s.inFlight == ZERO)
    ensures Sound(ShareStep(s, e, uid))
  {
  }

  /**
   Traffic is never over-counted: for every user and direction, what has been delivered,
   is in flight or is pending never exceeds what was really carried, under arbitrary
   counter resets and failed pushes.
   */
  lemma {:induction false} NeverOverCounted(w: World, es: seq<Event>, uid: int)
    requires Sound(Of(w, uid)) && forall e :: e in es ==> Possible(e)
    ensures Sound(Of(Run(w, es), uid))
    ensures AtMost(Of(Run(w, es), uid).Accounted(), Get(Run(w, es).carried, uid))
    decreases |es|
  {
    if es != [] {
      StepOf(w, es[0], uid);
      ShareStepSound(Of(w, uid), es[0], uid);
      NeverOverCounted(Step(w, es[0]), es[1..], uid);
    }
  }

  // ---------- exactly as much, without resets ----------

  /** The counter is what was carried, and all of it that has been read is accounted. */
  predicate Exact(s: Share)
  {
    && s.counter == s.carried
    && s.delivered.up + s.inFlight.up == s.lastSeen.up - s.pending.up
    && s.delivered.down + s.inFlight.down == s.lastSeen.down - s.pending.down
    && s.lastSeen.NonNegative() && AtMost(s.lastSeen, s.counter)
  }

  lemma ShareStepExact(s: Share, e: Event, uid: int)
    requires Possible(e) && !(e.Reset? && uid in e.uids) && Exact(s) && (!s.busy ==> s.inFlight == ZERO)
    ensures Exact(ShareStep(s, e, uid))
  {
  }

  /**
   While a user's counter is never reset, the accounted traffic equals the counter last
   read, however many pushes failed in between.
   */
  lemma {:induction false} ExactWithoutResets(w: World, es: seq<Event>, uid: int)
    requires Exact(Of(w, uid)) && forall e :: e in es ==> Possible(e) && !(e.Reset? && uid in e.uids)
    ensures Exact(Of(Run(w, es), uid))
    ensures Of(Run(w, es), uid).Accounted() == Get(Run(w, es).lastSeen, uid)
    decreases |es|
  {
    if es != [] {
      StepOf(w, es[0], uid);
      ShareStepExact(Of(w, uid), es[0], uid);
      ExactWithoutResets(Step(w, es[0]), es[1..], uid);
    }
  }

  // ---------- everything arrives ----------

  /** After a reading nothing is left unread for the users it covers. */
  lemma ReadingCatchesUp(s: Share, uids: set<int>, uid: int)
    requires s.known && uid in uids
    ensures var s' := ShareStep(s, Reading(uids), uid);
            s'.lastSeen == s'.counter && DeltaOf(s'.lastSeen, s'.counter) == Bytes(0, 0)
            && s'.carried == s.carried && s'.delivered == s.delivered
  {
  }

  /** A push takes all that is pending; success delivers it, failure puts it back. */
  lemma PushTakesAll(s: Share, uid: int)
    requires !s.busy
    ensures var flying := ShareStep(s, PushBegins, uid);
            && flying.busy && flying.inFlight == s.pending && flying.pending == Bytes(0, 0)
            && ShareStep(flying, PushSucceeds, uid).delivered == s.delivered.Plus(s.pending)
            && ShareStep(flying, PushSucceeds, uid).pending == Bytes(0, 0)
            && ShareStep(flying, PushFails, uid).pending == Bytes(0, 0).Plus(s.pending)
            && ShareStep(flying, PushFails, uid).delivered == s.delivered
  {
  }

  /** Without resets, one reading and one successful push deliver every byte carried so far. */
  lemma EverythingArrives(w: World, uids: set<int>, uid: int)
    requires Exact(Of(w, uid)) && uid in w.counters && uid in uids && w.inFlight.None?
    ensures var read := Step(w, Reading(uids));
            Get(Step(Step(read, PushBegins), PushSucceeds).delivered, uid) == Get(w.carried, uid)
  {
    var read := Step(w, Reading(uids));
    var flying := Step(read, PushBegins);
    StepOf(w, Reading(uids), uid);
    ShareStepExact(Of(w, uid), Reading(uids), uid);
    StepOf(read, PushBegins, uid);
    ShareStepExact(Of(read, uid), PushBegins, uid);
    StepOf(flying, PushSucceeds, uid);
    Arrived(Of(w, uid), uids, uid);
  }

  lemma Arrived(s: Share, uids: set<int>, uid: int)
    requires Exact(s) && s.known && uid in uids && !s.busy && s.inFlight == ZERO
    ensures var read := ShareStep(s, Reading(uids), uid);
            ShareStep(ShareStep(read, PushBegins, uid), PushSucceeds, uid).delivered == s.carried
  {
    ShareStepExact(s, Reading(uids), uid);
  }

  // ---------- what a reset loses ----------

  /** Carried, but neither accounted nor to be accounted by the next reading. */
  function Lost(s: Share): Bytes
  {
    var unread := DeltaOf(s.lastSeen, s.counter);
    Bytes(s.carried.up - s.Accounted().up - unread.up, s.carried.down - s.Accounted().down - unread.down)
  }

  /** Carrying from below the value last read to beyond it hides that many bytes: the reset goes unnoticed. */
  function Hidden(lastSeen: int, before: int, after: int): int
  {
    if before < lastSeen <= after then lastSeen else 0
  }

  /** What one event loses: a reset loses what was not read yet, traffic after it what it hides. */
  function EventLoss(s: Share, e: Event, uid: int): Bytes
  {
    match e
    case Carry(u, bytes) =>
      if u == uid
      then Bytes(Hidden(s.lastSeen.up, s.counter.up, s.counter.up + bytes.up),
                 Hidden(s.lastSeen.down, s.counter.down, s.counter.down + bytes.down))
      else ZERO
    case Reset(uids) => if uid in uids then DeltaOf(s.lastSeen, s.counter) else ZERO
    case _ => ZERO
  }

  function RunLoss(w: World, es: seq<Event>, uid: int): Bytes
    decreases |es|
  {
    if es == [] then ZERO else EventLoss(Of(w, uid), es[0], uid).Plus(RunLoss(Step(w, es[0]), es[1..], uid))
  }

  lemma LossPerEvent(s: Share, e: Event, uid: int)
    requires Possible(e) && Sound(s) && (!s.busy ==> s.inFlight == ZERO)
    ensures Lost(ShareStep(s, e, uid)) == Lost(s).Plus(EventLoss(s, e, uid))
  {
  }

  /** Carried traffic is accounted, still unread, or lost. */
  predicate Balanced(s: Share, lost: Bytes)
  {
    s.carried == s.Accounted().Plus(DeltaOf(s.lastSeen, s.counter)).Plus(lost)
  }

  lemma BalancedByLoss(s: Share)
    ensures Balanced(s, Lost(s))
  {
  }

  lemma PlusAssoc(a: Bytes, b: Bytes, c: Bytes)
    ensures a.Plus(b).Plus(c) == a.Plus(b.Plus(c))
  {
  }

  lemma {:induction false} LossAddsUp(w: World, es: seq<Event>, uid: int)
    requires Sound(Of(w, uid)) && forall e :: e in es ==> Possible(e)
    ensures Lost(Of(Run(w, es), uid)) == Lost(Of(w, uid)).Plus(RunLoss(w, es, uid))
    decreases |es|
  {
    if es != [] {
      StepOf(w, es[0], uid);
      ShareStepSound(Of(w, uid), es[0], uid);
      LossPerEvent(Of(w, uid), es[0], uid);
      LossAddsUp(Step(w, es[0]), es[1..], uid);
      PlusAssoc(Lost(Of(w, uid)), EventLoss(Of(w, uid), es[0], uid), RunLoss(Step(w, es[0]), es[1..], uid));
    }
  }

  /**
   The books balance after every run: carried traffic is accounted, or still unread, or
   was lost to resets as RunLoss says, and in no other way.
   */
  lemma BooksBalance(w: World, es: seq<Event>, uid: int)
    requires Sound(Of(w, uid)) && forall e :: e in es ==> Possible(e)
    ensures Balanced(Of(Run(w, es), uid), Lost(Of(w, uid)).Plus(RunLoss(w, es, uid)))
  {
    LossAddsUp(w, es, uid);
    BalancedByLoss(Of(Run(w, es), uid));
  }

  predicate IsZero(b: Bytes)
  {
    b.up == 0 && b.down == 0
  }

  /** The share of a user of whom nothing is known yet. */
  predicate Untouched(s: Share)
  {
    IsZero(s.carried) && IsZero(s.counter) && IsZero(s.lastSeen) && IsZero(s.pending) && IsZero(s.inFlight)
    && IsZero(s.delivered)
  }

  lemma EmptyShare(uid: int)
    ensures Untouched(Of(EMPTY, uid))
  {
  }

  lemma UntouchedHolds(s: Share)
    requires Untouched(s)
    ensures Sound(s) && Exact(s) && IsZero(Lost(s))
  {
  }

  lemma ZeroPlus(z: Bytes, b: Bytes)
    requires IsZero(z)
    ensures z.Plus(b) == b
  {
  }

  /**
   A fresh node, whatever happens: nothing is counted twice, and every byte carried is
   accounted, unread or lost to a reset; without resets the account is the last reading.
   */
  lemma FromStart(es: seq<Event>, uid: int)
    requires forall e :: e in es ==> Possible(e)
    ensures var s := Of(Run(EMPTY, es), uid);
            && AtMost(s.Accounted(), s.carried)
            && Balanced(s, RunLoss(EMPTY, es, uid))
            && ((forall e :: e in es ==> !(e.Reset? && uid in e.uids)) ==> s.Accounted() == s.lastSeen)
  {
    EmptyShare(uid);
    UntouchedHolds(Of(EMPTY, uid));
    NeverOverCounted(EMPTY, es, uid);
    BooksBalance(EMPTY, es, uid);
    ZeroPlus(Lost(Of(EMPTY, uid)), RunLoss(EMPTY, es, uid));
    if forall e :: e in es ==> !(e.Reset? && uid in e.uids) {
      ExactWithoutResets(EMPTY, es, uid);
    }
  }
}
