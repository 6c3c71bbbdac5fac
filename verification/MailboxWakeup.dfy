/**
 The hand-off between the goroutines that fill a mailbox and the service that drains
 it. Apply and MarkReady change the mailbox under its mutex and send the notification
 only after unlocking; the service receives a token first and drains later. Any
 number of goroutines may be between unlock and notify.
 */
module MailboxWakeup {
  import opened Options
  import opened Users
  import opened Mailbox

  /** notifiers: goroutines that have unlocked and not yet notified; woken: the service holds a token. */
  datatype World = World(mail: Mail, token: bool, notifiers: nat, woken: bool)

  datatype Move =
    | Deliver(event: MapEvent)                                   // the locked part of Apply
    | Baseline(users: Option<UserMap>, config: Option<Config>)   // SeedBaseline
    | BecomeReady                                                // the locked part of MarkReady
    | Notify                                                     // a non-blocking send on the channel
    | TakeToken                                                  // the service's select receives
    | DrainAll                                                   // DrainIfReady, also called directly at startup

  predicate Enabled(w: World, a: Move)
  {
    match a
    case Notify => w.notifiers > 0
    case TakeToken => w.token && !w.woken
    case _ => true
  }

  function Next(w: World, a: Move): World
    requires Enabled(w, a)
  {
    match a
    case Deliver(e) => w.(mail := Apply(w.mail, e), notifiers := if Changes(e) then w.notifiers + 1 else w.notifiers)
    case Baseline(u, c) => w.(mail := Seed(w.mail, u, c))
    case BecomeReady => w.(mail := w.mail.(ready := true), notifiers := w.notifiers + 1)
    case Notify => w.(notifiers := w.notifiers - 1, token := true)
    case TakeToken => w.(token := false, woken := true)
    case DrainAll => w.(mail := AfterDrain(w.mail), woken := false)
  }

  predicate Possible(w: World, moves: seq<Move>)
    decreases |moves|
  {
    moves == [] || (Enabled(w, moves[0]) && Possible(Next(w, moves[0]), moves[1..]))
  }

  function Run(w: World, moves: seq<Move>): World
    requires Possible(w, moves)
    decreases |moves|
  {
    if moves == [] then w else Run(Next(w, moves[0]), moves[1..])
  }

  /** Something waits for the service. */
  predicate Undrained(m: Mail)
  {
    m.dirtyUsers || m.dirtyConfig || m.dirtyDevices || m.needsReconcile
  }

  predicate Awake(w: World)
  {
    && (w.mail.ready && Undrained(w.mail) ==> w.token || w.notifiers > 0 || w.woken)
    && (w.mail.dirtyConfig ==> w.mail.config.Some?)
    && (w.mail.dirtyDevices ==> w.mail.devices.Some?)
  }

  lemma StepAwake(w: World, a: Move)
    requires Enabled(w, a) && Awake(w)
    ensures Awake(Next(w, a))
  {
    match a {
      case Deliver(e) => ApplyChanges(w.mail, e);
      case _ =>
    }
  }

  /** Apply marks something dirty exactly when it also signals a change. */
  lemma ApplyChanges(m: Mail, e: MapEvent)
    ensures !Changes(e) ==> Apply(m, e) == m
    ensures Changes(e) ==> Undrained(Apply(m, e))
    ensures Apply(m, e).ready == m.ready
    ensures Apply(m, e).dirtyConfig ==> m.dirtyConfig || Apply(m, e).config.Some?
    ensures m.config.Some? ==> Apply(m, e).config.Some?
    ensures Apply(m, e).dirtyDevices ==> m.dirtyDevices || Apply(m, e).devices.Some?
    ensures m.devices.Some? ==> Apply(m, e).devices.Some?
  {
  }

  /**
   No lost wake-up: in every interleaving, undrained state of a ready mailbox has a
   pending token, a goroutine about to notify, or a service about to drain.
   */
  lemma {:induction false} NoLostWakeup(w: World, moves: seq<Move>)
    requires Possible(w, moves) && Awake(w)
    ensures Awake(Run(w, moves))
    decreases |moves|
  {
    if moves != [] {
      StepAwake(w, moves[0]);
      NoLostWakeup(Next(w, moves[0]), moves[1..]);
    }
  }

  /** From a new mailbox on. */
  lemma NoLostWakeupFromStart(moves: seq<Move>)
    requires Possible(World(NEW, false, 0, false), moves)
    ensures var w := Run(World(NEW, false, 0, false), moves);
            w.mail.ready && Undrained(w.mail) ==> w.token || w.notifiers > 0 || w.woken
  {
    NoLostWakeup(World(NEW, false, 0, false), moves);
  }

  /** And the state does get out: notify, receive and drain suffice, whichever are still needed. */
  lemma Deliverable(w: World) returns (moves: seq<Move>)
    requires Awake(w) && w.mail.ready && Undrained(w.mail)
    ensures |moves| <= 3 && Possible(w, moves) && !Undrained(Run(w, moves).mail)
    ensures forall k :: 0 <= k < |moves| ==> moves[k] in {Notify, TakeToken, DrainAll}
    ensures moves[|moves| - 1] == DrainAll
    ensures moves == [DrainAll] ==> w.woken
  {
    assert [DrainAll][1..] == [] && [TakeToken, DrainAll][1..] == [DrainAll];
    assert [Notify, TakeToken, DrainAll][1..] == [TakeToken, DrainAll];
    var w1 := w;
    if w.woken {
      moves := [DrainAll];
    } else if w.token {
      moves := [TakeToken, DrainAll];
      w1 := Next(w, TakeToken);
    } else {
      moves := [Notify, TakeToken, DrainAll];
      w1 := Next(Next(w, Notify), TakeToken);
    }
    assert Possible(w1, [DrainAll]) && Run(w1, [DrainAll]) == Next(w1, DrainAll);
  }
}
