/**
 Serial runs of the panel's device store for one user: node reports and node
 disconnects, each handled to the end before the next. The order in which Redis
 listed the winners is part of a report event, so every theorem holds for every
 such order.
 */
module DeviceRuns {
  import opened Options
  import opened DeviceFields
  import opened DeviceAdmission
  import opened DeviceStateServices

  datatype Store = Store(allowed: Devices, reported: Devices, clock: int)

  datatype Event =
    | Report(node: int, ips: seq<string>, preferred: seq<string>, now: int)
    | Clear(node: int, now: int)

  ghost predicate Possible(s: Store, e: Event)
  {
    e.now >= s.clock
    && (e.Report? ==> NoDuplicates(e.ips) && IsListing(e.preferred, LiveIps(s.allowed, e.now)))
  }

  function Step(s: Store, e: Event, limit: int): Store
  {
    match e
    case Report(node, ips, preferred, now) =>
      Store(AllowedAfter(s.allowed, s.reported, node, ips, preferred, now, limit),
            ReportedAfter(s.reported, node, ips, now), now)
    case Clear(node, now) =>
      Store(AllowedAfterClear(s.allowed, node), ReportedAfterClear(s.allowed, s.reported, node), now)
  }

  function Run(s: Store, es: seq<Event>, limit: int): Store
    decreases |es|
  {
    if es == [] then s else Run(Step(s, es[0], limit), es[1..], limit)
  }

  ghost predicate PossibleRun(s: Store, es: seq<Event>, limit: int)
    decreases |es|
  {
    es == [] || (Possible(s, es[0]) && PossibleRun(Step(s, es[0], limit), es[1..], limit))
  }

  /** Never more live addresses than a positive limit. */
  predicate Bounded(s: Store, limit: int)
  {
    limit > 0 ==> |LiveIps(s.allowed, s.clock)| <= limit
  }

  /** Every allowed device is also reported, with the same timestamp, and none is from the future. */
  predicate Mirrored(s: Store)
  {
    forall e :: e in s.allowed ==> e in s.reported && s.reported[e] == s.allowed[e] && s.allowed[e] <= s.clock
  }

  // ---------- one step ----------

  lemma CapturedWinners(s: Store, e: Event, limit: int)
    requires Possible(s, e) && e.Report? && Bounded(s, limit)
    ensures limit > 0 ==> |e.preferred| <= limit
    ensures ToSet(e.ips) <= LiveIps(ReportedAfter(s.reported, e.node, e.ips, e.now), e.now)
    ensures LiveIps(Step(s, e, limit).allowed, e.now)
         == LiveIps(WithoutNode(s.allowed, e.node), e.now) + ToSet(Stored(s, e, limit))
    ensures LiveIps(WithoutNode(s.allowed, e.node), e.now) <= ToSet(e.preferred)
  {
    ListingSize(e.preferred);
    LiveShrinks(s.allowed, s.allowed, s.clock, e.now);
    SubsetSize(LiveIps(s.allowed, e.now), LiveIps(s.allowed, s.clock));
    LiveAfterStamp(s.reported, e.node, e.ips, e.now, e.now);
    LiveAfterStamp(s.allowed, e.node, Stored(s, e, limit), e.now, e.now);
    LiveWithoutNode(s.allowed, e.node, e.now);
  }

  /** The addresses a report leaves stored for its node. */
  function Stored(s: Store, e: Event, limit: int): seq<string>
    requires e.Report?
  {
    Admit(e.ips, e.preferred, LiveIps(ReportedAfter(s.reported, e.node, e.ips, e.now), e.now), limit)
  }

  lemma StepBounded(s: Store, e: Event, limit: int)
    requires Possible(s, e) && Bounded(s, limit)
    ensures Bounded(Step(s, e, limit), limit)
  {
    if limit > 0 {
      if e.Report? {
        CapturedWinners(s, e, limit);
        AdmitBound(e.ips, e.preferred, LiveIps(ReportedAfter(s.reported, e.node, e.ips, e.now), e.now), limit);
        SubsetSize(LiveIps(Step(s, e, limit).allowed, e.now), ToSet(e.preferred) + ToSet(Stored(s, e, limit)));
      } else {
        LiveShrinks(s.allowed, Step(s, e, limit).allowed, s.clock, e.now);
        SubsetSize(LiveIps(Step(s, e, limit).allowed, e.now), LiveIps(s.allowed, s.clock));
      }
    }
  }

  lemma StepMirrored(s: Store, e: Event, limit: int)
    requires Possible(s, e) && Mirrored(s)
    ensures Mirrored(Step(s, e, limit))
  {
    if e.Report? {
      var stored := Stored(s, e, limit);
      if limit > 0 {
        KeepOnlyFacts(e.ips, ToSet(AllowedGlobal(e.preferred, ToSet(e.preferred), e.ips,
          LiveIps(ReportedAfter(s.reported, e.node, e.ips, e.now), e.now), limit)));
      }
      assert ToSet(stored) <= ToSet(e.ips);
      assert forall d :: d in EntriesOf(e.node, stored) ==> d.ip in ToSet(stored);
      assert forall d :: d in EntriesOf(e.node, stored) ==> d in EntriesOf(e.node, e.ips);
    }
  }

  // ---------- what an event does entry by entry ----------

  /**
   A report replaces what its node had: reported afterwards are exactly its addresses, with
   the time of the report; allowed are some of them; other nodes keep every entry.
   */
  lemma ReportReplaces(s: Store, e: Event, limit: int, d: Entry)
    requires e.Report?
    ensures var s' := Step(s, e, limit);
            && s'.clock == e.now
            && (d.node == e.node ==> (d in s'.reported <==> d.ip in e.ips) && (d in s'.allowed ==> d.ip in e.ips))
            && (d.node == e.node && d in s'.reported ==> s'.reported[d] == e.now)
            && (d.node == e.node && d in s'.allowed ==> s'.allowed[d] == e.now)
            && (d.node != e.node ==> SameEntry(s.allowed, s'.allowed, d) && SameEntry(s.reported, s'.reported, d))
  {
    var s' := Step(s, e, limit);
    StampAt(s.reported, e.node, e.ips, e.now, d);
    StampAt(s.allowed, e.node, Stored(s, e, limit), e.now, d);
    StoredIsReported(s, e, limit, d.ip);
  }

  predicate SameEntry(h: Devices, h': Devices, d: Entry)
  {
    (d in h' <==> d in h) && (d in h' ==> h'[d] == h[d])
  }

  lemma StampAt(h: Devices, node: int, ips: seq<string>, ts: int, d: Entry)
    ensures var h' := Stamp(WithoutNode(h, node), node, ips, ts);
            if d.node == node then (d in h' <==> d.ip in ips) && (d in h' ==> h'[d] == ts) else SameEntry(h, h', d)
  {
    assert d in EntriesOf(node, ips) <==> d.node == node && d.ip in ips;
  }

  lemma StoredIsReported(s: Store, e: Event, limit: int, ip: string)
    requires e.Report?
    ensures ip in Stored(s, e, limit) ==> ip in e.ips
  {
    if limit > 0 {
      var alive := LiveIps(ReportedAfter(s.reported, e.node, e.ips, e.now), e.now);
      KeepOnlyFacts(e.ips, ToSet(AllowedGlobal(e.preferred, ToSet(e.preferred), e.ips, alive, limit)));
      assert ip in Stored(s, e, limit) ==> ip in ToSet(Stored(s, e, limit));
    }
  }

  /** A disconnect takes all entries of a node with an allowed device, from both stores, and nothing else. */
  lemma ClearRemoves(s: Store, node: int, now: int, limit: int, d: Entry)
    ensures var s' := Step(s, Clear(node, now), limit);
            && s'.clock == now
            && (d.node == node && OnNode(s.allowed, node) ==> d !in s'.allowed && d !in s'.reported)
            && (d.node != node || !OnNode(s.allowed, node) ==>
                  SameEntry(s.allowed, s'.allowed, d) && SameEntry(s.reported, s'.reported, d))
  {
  }

  /** A user without a limit has every reported address stored. */
  lemma UnlimitedStoresAll(s: Store, e: Event, limit: int, d: Entry)
    requires e.Report? && limit <= 0
    ensures LiveIps(Step(s, e, limit).allowed, e.now) == Others(s, e.node, e.now) + ToSet(e.ips)
    ensures d.node == e.node ==> (d in Step(s, e, limit).allowed <==> d.ip in e.ips)
  {
    LiveAfterStamp(s.allowed, e.node, Stored(s, e, limit), e.now, e.now);
    StampAt(s.allowed, e.node, e.ips, e.now, d);
  }

  // ---------- whole runs ----------

  /** The limit holds after every serial run, and every allowed device stays mirrored. */
  lemma {:induction false} RunKeepsInvariants(s: Store, es: seq<Event>, limit: int)
    requires PossibleRun(s, es, limit) && Bounded(s, limit) && Mirrored(s)
    ensures Bounded(Run(s, es, limit), limit) && Mirrored(Run(s, es, limit))
    decreases |es|
  {
    if es != [] {
      StepBounded(s, es[0], limit);
      StepMirrored(s, es[0], limit);
      RunKeepsInvariants(Step(s, es[0], limit), es[1..], limit);
    }
  }

  lemma {:induction false} RunBounded(s: Store, es: seq<Event>, limit: int)
    requires PossibleRun(s, es, limit) && Bounded(s, limit)
    ensures Bounded(Run(s, es, limit), limit)
    decreases |es|
  {
    if es != [] {
      StepBounded(s, es[0], limit);
      RunBounded(Step(s, es[0], limit), es[1..], limit);
    }
  }

  /** From the empty stores on, every limit is met and the reported store covers the allowed one. */
  lemma RunsFromEmpty(es: seq<Event>, clock: int, limit: int)
    requires limit > 0 && PossibleRun(Store(map[], map[], clock), es, limit)
    ensures var s := Run(Store(map[], map[], clock), es, limit);
            |LiveIps(s.allowed, s.clock)| <= limit && Mirrored(s)
  {
    assert LiveIps(map[], clock) == {};
    RunKeepsInvariants(Store(map[], map[], clock), es, limit);
  }

  /** The node of d keeps reporting its address in time, and never disconnects. */
  predicate KeepsReporting(d: Entry, es: seq<Event>, last: int)
    decreases |es|
  {
    es == []
    || (es[0].now - last <= TTL
        && (es[0].node == d.node ==> es[0].Report? && d.ip in es[0].ips)
        && KeepsReporting(d, es[1..], if es[0].node == d.node then es[0].now else last))
  }

  /**
   First come, first served: an allowed device whose node keeps reporting it is
   never evicted, whatever other nodes report and whatever else its own node adds.
   */
  lemma {:induction false} FirstComeFirstServed(s: Store, es: seq<Event>, limit: int, d: Entry)
    requires PossibleRun(s, es, limit) && Bounded(s, limit)
    requires d in s.allowed && s.clock - s.allowed[d] <= TTL
    requires KeepsReporting(d, es, s.allowed[d])
    ensures IsLive(Run(s, es, limit).allowed, d, Run(s, es, limit).clock)
    decreases |es|
  {
    if es != [] {
      var e := es[0];
      var s' := Step(s, e, limit);
      StepBounded(s, e, limit);
      if e.node == d.node {
        var alive := LiveIps(ReportedAfter(s.reported, e.node, e.ips, e.now), e.now);
        CapturedWinners(s, e, limit);
        assert IsLive(s.allowed, d, e.now);
        assert d.ip in ToSet(e.preferred) && d.ip in ToSet(e.ips);
        if limit > 0 {
          AdmitBound(e.ips, e.preferred, alive, limit);
        }
        assert d.ip in ToSet(Stored(s, e, limit));
        assert d in EntriesOf(d.node, Stored(s, e, limit));
        assert s'.allowed[d] == e.now;
      } else {
        assert d in WithoutNode(s.allowed, e.node);
        assert s'.allowed[d] == s.allowed[d];
      }
      FirstComeFirstServed(s', es[1..], limit, d);
    }
  }

  // ---------- slots ----------

  /** Live addresses allowed on the other nodes. */
  function Others(s: Store, node: int, now: int): set<string>
  {
    LiveIps(WithoutNode(s.allowed, node), now)
  }

  /** Live devices of the node that the report no longer mentions and no other node holds: they still count once. */
  function Leaving(s: Store, e: Event): set<string>
    requires e.Report?
  {
    LiveIps(s.allowed, e.now) - (Others(s, e.node, e.now) + ToSet(e.ips))
  }

  /**
   The exact number of live addresses after any one report. A slot stays idle if and only
   if some device is leaving and the addresses wanted do not fit beside the leaving ones.
   */
  lemma ReportSize(s: Store, e: Event, limit: int)
    requires e.Report? && Possible(s, e) && Bounded(s, limit) && limit > 0
    ensures var wanted, live := Others(s, e.node, e.now) + ToSet(e.ips), LiveIps(Step(s, e, limit).allowed, e.now);
            && |live| == Min(limit - |Leaving(s, e)|, |wanted|) && live <= wanted
            && (|live| < Min(limit, |wanted|) <==> Leaving(s, e) != {} && |wanted| > limit - |Leaving(s, e)|)
  {
    var alive := LiveIps(ReportedAfter(s.reported, e.node, e.ips, e.now), e.now);
    CapturedWinners(s, e, limit);
    var g := AllowlistShape(e.ips, e.preferred, alive, limit);
    SlotCount(LiveIps(s.allowed, e.now), Others(s, e.node, e.now), ToSet(e.ips), g, limit);
    var wanted, live := Others(s, e.node, e.now) + ToSet(e.ips), LiveIps(Step(s, e, limit).allowed, e.now);
    IdleIff(|live|, Leaving(s, e), |wanted|, limit);
  }

  /** Counting the global allowlist g: the wanted addresses in it, and the leaving ones. */
  lemma SlotCount(live: set<string>, others: set<string>, ips: set<string>, g: set<string>, limit: int)
    requires others <= live <= g <= live + ips && |g| <= limit
    requires |g| < limit ==> ips <= g
    ensures |others + ips * g| == Min(limit - |live - (others + ips)|, |others + ips|)
  {
    var stays, leaving := others + ips * g, live - (others + ips);
    assert g == stays + leaving && stays !! leaving;
    SubsetSize(stays, others + ips);
    if |g| < limit {
      assert stays == others + ips;
    }
  }

  lemma IdleIff(live: nat, leaving: set<string>, wanted: nat, limit: int)
    requires live == Min(limit - |leaving|, wanted)
    ensures live < Min(limit, wanted) <==> leaving != {} && wanted > limit - |leaving|
  {
  }

  /** When everything the node had allowed is in its report again, no slot stays idle. */
  lemma ReportFillsSlots(s: Store, e: Event, limit: int)
    requires e.Report? && Possible(s, e) && Bounded(s, limit) && limit > 0
    requires LiveIps(s.allowed, e.now) <= Others(s, e.node, e.now) + ToSet(e.ips)
    ensures |LiveIps(Step(s, e, limit).allowed, e.now)|
         == Min(limit, |Others(s, e.node, e.now) + ToSet(e.ips)|)
    ensures LiveIps(Step(s, e, limit).allowed, e.now) <= Others(s, e.node, e.now) + ToSet(e.ips)
    ensures ToSet(Stored(s, e, limit)) == ToSet(e.ips)
         || |LiveIps(Step(s, e, limit).allowed, e.now)| == limit
    ensures ToSet(e.ips) * ToSet(e.preferred) <= ToSet(Stored(s, e, limit)) <= ToSet(e.ips)
  {
    var alive := LiveIps(ReportedAfter(s.reported, e.node, e.ips, e.now), e.now);
    ReportSize(s, e, limit);
    assert Leaving(s, e) == {};
    CapturedWinners(s, e, limit);
    AdmitBound(e.ips, e.preferred, alive, limit);
    assert ToSet(e.preferred) + ToSet(Stored(s, e, limit)) == LiveIps(Step(s, e, limit).allowed, e.now);
  }

  /**
   No slot stays idle: after a node sends the same report twice, the live allowed
   set has exactly min(limit, |other nodes' addresses and the report|) addresses.
   */
  lemma RepeatedReportFills(s: Store, e1: Event, e2: Event, limit: int)
    requires e1.Report? && e2.Report? && e1.node == e2.node && e1.ips == e2.ips
    requires limit > 0 && Bounded(s, limit)
    requires Possible(s, e1) && Possible(Step(s, e1, limit), e2)
    ensures |LiveIps(Run(s, [e1, e2], limit).allowed, e2.now)|
         == Min(limit, |Others(s, e2.node, e2.now) + ToSet(e2.ips)|)
  {
    var s1 := Step(s, e1, limit);
    StepBounded(s, e1, limit);
    AfterReport(s, e1, limit, e2.now);
    ReportFillsSlots(s1, e2, limit);
    assert [e1, e2][1..] == [e2] && [e2][1..] == [];
    assert Run(s, [e1, e2], limit) == Run(s1, [e2], limit) == Step(s1, e2, limit);
  }

  /** What a report leaves behind: its node holds reported addresses only, other nodes are untouched. */
  lemma AfterReport(s: Store, e: Event, limit: int, now: int)
    requires e.Report? && Possible(s, e) && Bounded(s, limit)
    ensures WithoutNode(Step(s, e, limit).allowed, e.node) == WithoutNode(s.allowed, e.node)
    ensures LiveIps(Step(s, e, limit).allowed, now) <= Others(s, e.node, now) + ToSet(e.ips)
  {
    var stored := Stored(s, e, limit);
    if limit > 0 {
      CapturedWinners(s, e, limit);
      AdmitBound(e.ips, e.preferred, LiveIps(ReportedAfter(s.reported, e.node, e.ips, e.now), e.now), limit);
    }
    LiveAfterWrite(s.allowed, e.node, stored, e.now, now);
  }

  /** A third identical report, while the others' devices stay live, changes no device. */
  lemma ThirdReportChangesNothing(s: Store, e1: Event, e2: Event, e3: Event, limit: int)
    requires e1.Report? && e2.Report? && e3.Report? && e1.node == e2.node == e3.node
    requires e1.ips == e2.ips == e3.ips
    requires limit > 0 && Bounded(s, limit)
    requires Possible(s, e1) && Possible(Step(s, e1, limit), e2)
    requires Possible(Step(Step(s, e1, limit), e2, limit), e3)
    requires e3.now - e2.now <= TTL && Others(s, e1.node, e3.now) == Others(s, e1.node, e2.now)
    ensures var s2 := Step(Step(s, e1, limit), e2, limit);
            Step(s2, e3, limit).allowed.Keys == s2.allowed.Keys
            && (e3.now == e2.now ==> Step(s2, e3, limit) == s2)
  {
    var s1 := Step(s, e1, limit);
    var s2 := Step(s1, e2, limit);
    StepBounded(s, e1, limit);
    AfterReport(s, e1, limit, e2.now);
    StepBounded(s1, e2, limit);
    AfterReport(s1, e2, limit, e3.now);
    ReportFillsSlots(s1, e2, limit);
    CapturedWinners(s1, e2, limit);
    LiveAfterStamp(s1.allowed, e2.node, Stored(s1, e2, limit), e2.now, e3.now);
    SameAgain(s2, e3, limit, ToSet(Stored(s1, e2, limit)));
    SameEntries(e1.node, Stored(s1, e2, limit), Stored(s2, e3, limit));
    AfterReport(s2, e3, limit, e3.now);
    SameHash(s1.allowed, e1.node, Stored(s1, e2, limit), e2.now, Stored(s2, e3, limit), e3.now);
    SameHash(s1.reported, e1.node, e2.ips, e2.now, e3.ips, e3.now);
  }

  /** A report over devices that already fill every slot they can stores the same addresses. */
  lemma SameAgain(s: Store, e: Event, limit: int, stored: set<string>)
    requires e.Report? && Possible(s, e) && Bounded(s, limit) && limit > 0
    requires stored <= ToSet(e.ips)
    requires LiveIps(s.allowed, e.now) == Others(s, e.node, e.now) + stored
    requires ToSet(e.ips) * Others(s, e.node, e.now) <= stored
    requires stored == ToSet(e.ips) || |LiveIps(s.allowed, e.now)| == limit
    ensures ToSet(Stored(s, e, limit)) == stored
  {
    CapturedWinners(s, e, limit);
    AdmitBound(e.ips, e.preferred, LiveIps(ReportedAfter(s.reported, e.node, e.ips, e.now), e.now), limit);
    if stored != ToSet(e.ips) {
      SubsetEqual(ToSet(e.preferred), ToSet(e.preferred) + ToSet(Stored(s, e, limit)));
    }
  }

  lemma SameHash(h: Devices, node: int, a: seq<string>, ta: int, b: seq<string>, tb: int)
    requires EntriesOf(node, a) == EntriesOf(node, b)
    ensures var once := Stamp(WithoutNode(h, node), node, a, ta);
            var twice := Stamp(WithoutNode(once, node), node, b, tb);
            twice.Keys == once.Keys && (ta == tb ==> twice == once)
  {
    LiveAfterWrite(h, node, a, ta, ta);
  }

  lemma SubsetEqual(a: set<string>, b: set<string>)
    requires a <= b && |b| <= |a|
    ensures a == b
  {
    assert b == a + (b - a);
  }

  lemma SameEntries(node: int, a: seq<string>, b: seq<string>)
    requires ToSet(a) == ToSet(b)
    ensures EntriesOf(node, a) == EntriesOf(node, b)
  {
    assert forall ip :: ip in a <==> ip in ToSet(a);
    assert forall ip :: ip in b <==> ip in ToSet(b);
  }

  /** One report may be too little: replacing the only device leaves the slot empty until the next report. */
  lemma OneReportMayIdle()
    ensures var s, e := Store(map[Entry(1, "A") := 0], map[Entry(1, "A") := 0], 0), Report(1, ["B"], ["A"], 0);
            Bounded(s, 1) && Mirrored(s) && Possible(s, e) && LiveIps(Step(s, e, 1).allowed, 0) == {}
  {
    var s, e := Store(map[Entry(1, "A") := 0], map[Entry(1, "A") := 0], 0), Report(1, ["B"], ["A"], 0);
    OnlyDevice("A");
    assert ToSet(["A"]) == {"A"} && ToSet(["B"]) == {"B"};
    assert Others(s, 1, 0) == {};
    assert Leaving(s, e) == {"A"};
    ReportSize(s, e, 1);
  }

  lemma OnlyDevice(ip: string)
    ensures LiveIps(map[Entry(1, ip) := 0], 0) == {ip}
  {
    assert IsLive(map[Entry(1, ip) := 0], Entry(1, ip), 0);
  }

  // ---------- changing limits ----------

  /** The winners a report keeps when there are more of them than slots: the first in hash order. */
  function FirstWinners(e: Event, limit: nat): set<string>
    requires e.Report?
  {
    if |e.preferred| <= limit then ToSet(e.preferred) else ToSet(e.preferred[..limit])
  }

  /** The exact live set after a report that finds more live devices than the limit allows. */
  lemma OverLimitExactly(s: Store, e: Event, limit: int)
    requires e.Report? && limit > 0 && Possible(s, e) && |e.preferred| > limit
    ensures LiveIps(Step(s, e, limit).allowed, e.now)
         == Others(s, e.node, e.now) + ToSet(e.ips) * FirstWinners(e, limit)
  {
    var alive := LiveIps(ReportedAfter(s.reported, e.node, e.ips, e.now), e.now);
    LiveAfterStamp(s.allowed, e.node, Stored(s, e, limit), e.now, e.now);
    AdmitOverLimit(e.ips, e.preferred, alive, limit);
  }

  /**
   Under any limit, also one lowered a moment ago: a report ends within the limit if and
   only if the live devices fitted it before, or the other nodes' devices and the
   reported ones among the first winners do.
   */
  lemma WithinLimitIff(s: Store, e: Event, limit: int)
    requires e.Report? && limit > 0 && Possible(s, e)
    ensures |LiveIps(Step(s, e, limit).allowed, e.now)| <= limit
       <==> |LiveIps(s.allowed, e.now)| <= limit
            || |Others(s, e.node, e.now) + ToSet(e.ips) * FirstWinners(e, limit)| <= limit
  {
    ListingSize(e.preferred);
    if |e.preferred| > limit {
      OverLimitExactly(s, e, limit);
    } else {
      var alive := LiveIps(ReportedAfter(s.reported, e.node, e.ips, e.now), e.now);
      LiveAfterStamp(s.allowed, e.node, Stored(s, e, limit), e.now, e.now);
      LiveWithoutNode(s.allowed, e.node, e.now);
      AdmitBound(e.ips, e.preferred, alive, limit);
      SubsetSize(LiveIps(Step(s, e, limit).allowed, e.now), ToSet(e.preferred) + ToSet(Stored(s, e, limit)));
    }
  }

  /** Whatever the limit is now: a step ends within it or adds no live address. */
  lemma OverLimitOnlyShrinks(s: Store, e: Event, limit: int)
    requires limit > 0 && Possible(s, e)
    ensures |LiveIps(Step(s, e, limit).allowed, e.now)| <= limit
         || LiveIps(Step(s, e, limit).allowed, e.now) <= LiveIps(s.allowed, e.now)
  {
    if e.Clear? {
      LiveShrinks(s.allowed, Step(s, e, limit).allowed, e.now, e.now);
    } else {
      ListingSize(e.preferred);
      WithinLimitIff(s, e, limit);
      LiveWithoutNode(s.allowed, e.node, e.now);
      if |e.preferred| > limit {
        OverLimitExactly(s, e, limit);
        assert ToSet(e.preferred[..limit]) <= ToSet(e.preferred);
      }
    }
  }

  /** An empty report of a node without devices leaves everything live, however far beyond the limit. */
  lemma EmptyReportEvictsNobody(s: Store, e: Event, limit: int)
    requires e.Report? && e.ips == [] && !OnNode(s.allowed, e.node)
    requires limit > 0 && Possible(s, e) && |e.preferred| > limit
    ensures LiveIps(Step(s, e, limit).allowed, e.now) == LiveIps(s.allowed, e.now)
  {
    OverLimitExactly(s, e, limit);
    assert WithoutNode(s.allowed, e.node) == s.allowed;
    assert ToSet([]) == {};
  }

  /** A lowered limit does not evict devices of nodes that do not report. */
  lemma LoweredLimitMayStayExceeded()
    ensures var h := map[Entry(1, "A") := 0, Entry(1, "B") := 0];
            var s, e := Store(h, h, 0), Report(2, [], ["A", "B"], 0);
            Possible(s, e) && |LiveIps(Step(s, e, 1).allowed, 0)| == 2
  {
    var h := map[Entry(1, "A") := 0, Entry(1, "B") := 0];
    var s, e := Store(h, h, 0), Report(2, [], ["A", "B"], 0);
    TwoDevices("A", "B");
    assert ToSet(["A", "B"]) == {"A", "B"};
    EmptyReportEvictsNobody(s, e, 1);
  }

  lemma TwoDevices(a: string, b: string)
    ensures LiveIps(map[Entry(1, a) := 0, Entry(1, b) := 0], 0) == {a, b}
  {
    var h := map[Entry(1, a) := 0, Entry(1, b) := 0];
    assert IsLive(h, Entry(1, a), 0) && IsLive(h, Entry(1, b), 0);
  }

  // ---------- publication ----------

  /**
   In every state of a serial run with a positive limit, the published list is
   exactly the live allowed set; an explicit limit above 1 publishes full lists only.
   */
  lemma PublishedExactly(s: Store, ips: seq<string>, winners: seq<string>, configured: Option<int>, limit: int)
    requires limit > 0 && Bounded(s, limit) && Mirrored(s)
    requires configured == None || configured == Some(limit)
    requires IsListing(ips, LiveIps(s.allowed, s.clock)) && IsListing(winners, LiveIps(s.allowed, s.clock))
    ensures var live := LiveIps(s.allowed, s.clock);
            var r := PublishedList(ips, winners, LiveIps(s.reported, s.clock), configured, limit);
            && (r.None? <==> live == {} || (configured.Some? && limit > 1 && |live| < limit))
            && (r.Some? ==> IsListing(r.value, live) && |r.value| <= limit)
            && (r.Some? && configured.Some? && limit > 1 ==> |r.value| == limit)
  {
    var live := LiveIps(s.allowed, s.clock);
    MirroredLive(s);
    var list := NothingCut(ips, winners, live, LiveIps(s.reported, s.clock), limit);
    ListingSize(ips);
    ListingSize(list);
    assert ips == [] <==> live == {} by {
      if ips != [] {
        assert ips[0] in ToSet(ips);
      }
    }
  }

  lemma MirroredLive(s: Store)
    requires Mirrored(s)
    ensures LiveIps(s.allowed, s.clock) <= LiveIps(s.reported, s.clock)
  {
    forall ip | ip in LiveIps(s.allowed, s.clock)
      ensures ip in LiveIps(s.reported, s.clock)
    {
      var d :| d in s.allowed && IsLive(s.allowed, d, s.clock) && d.ip == ip;
      assert IsLive(s.reported, d, s.clock);
    }
  }

  /** Live addresses that are all reported and fit the limit are all published. */
  lemma NothingCut(ips: seq<string>, winners: seq<string>, live: set<string>, alive: set<string>, limit: int)
    returns (list: seq<string>)
    requires IsListing(ips, live) && IsListing(winners, live) && live <= alive && 0 < limit && |live| <= limit
    ensures list == AdmitReported(ips, winners, alive, limit) && IsListing(list, live)
  {
    list := AdmitReported(ips, winners, alive, limit);
    var first := Fill([], winners, alive, limit);
    var g := AllowedGlobal(winners, alive, ips, alive, limit);
    FillFacts([], winners, alive, limit);
    FillFacts(first, ips, alive, limit);
    KeepOnlyFacts(ips, ToSet(g));
    ListingSize(g);
    assert ToSet(g) <= live;
    if |g| == limit {
      SubsetEqual(ToSet(g), live);
    }
  }

  /** In any state at all, a published list is live, without repeats and within a positive limit. */
  lemma PublishedCapped(s: Store, ips: seq<string>, winners: seq<string>, configured: Option<int>, stored: int,
                        now: int)
    requires IsListing(ips, LiveIps(s.allowed, now)) && IsListing(winners, LiveIps(s.allowed, now))
    ensures var limit := if configured.Some? then configured.value else stored;
            var r := PublishedList(ips, winners, LiveIps(s.reported, now), configured, stored);
            r.Some? ==>
              NoDuplicates(r.value) && ToSet(r.value) <= LiveIps(s.allowed, now)
              && (limit > 0 ==> |r.value| <= limit)
  {
    var limit := if configured.Some? then configured.value else stored;
    if limit > 0 {
      var alive := LiveIps(s.reported, now);
      var g := AllowedGlobal(winners, alive, ips, alive, limit);
      FillFacts([], winners, alive, limit);
      FillFacts(Fill([], winners, alive, limit), ips, alive, limit);
      KeepOnlyFacts(ips, ToSet(g));
      ListingSize(g);
      var list := AdmitReported(ips, winners, alive, limit);
      ListingSize(list);
      SubsetSize(ToSet(list), ToSet(g));
    }
  }

  /**
   In any state, with a positive limit: the list takes as many of the addresses that are
   both allowed and reported as the limit permits; an explicit limit above 1 withholds a
   list that has some but not all of its slots taken.
   */
  lemma PublishedSize(s: Store, ips: seq<string>, winners: seq<string>, configured: Option<int>, stored: int, now: int)
    requires IsListing(ips, LiveIps(s.allowed, now)) && IsListing(winners, LiveIps(s.allowed, now))
    requires (if configured.Some? then configured.value else stored) > 0
    ensures var limit := if configured.Some? then configured.value else stored;
            var both := LiveIps(s.allowed, now) * LiveIps(s.reported, now);
            var r := PublishedList(ips, winners, LiveIps(s.reported, now), configured, stored);
            && (r.Some? ==> NoDuplicates(r.value) && ToSet(r.value) <= both && |r.value| == Min(limit, |both|))
            && (r.None? <==> ips == [] || (configured.Some? && limit > 1 && 0 < |both| < limit))
  {
    var limit := if configured.Some? then configured.value else stored;
    var alive := LiveIps(s.reported, now);
    ReportedSize(ips, winners, LiveIps(s.allowed, now), alive, limit);
  }

  lemma ReportedSize(ips: seq<string>, winners: seq<string>, live: set<string>, alive: set<string>, limit: int)
    requires IsListing(ips, live) && IsListing(winners, live) && limit > 0
    ensures var list := AdmitReported(ips, winners, alive, limit);
            NoDuplicates(list) && ToSet(list) <= live * alive && |list| == Min(limit, |live * alive|)
  {
    var first := Fill([], winners, alive, limit);
    var g := AllowedGlobal(winners, alive, ips, alive, limit);
    var list := AdmitReported(ips, winners, alive, limit);
    FillFacts([], winners, alive, limit);
    FillFacts(first, ips, alive, limit);
    KeepOnlyFacts(ips, ToSet(g));
    ListingSize(g);
    ListingSize(list);
    assert ToSet(g) <= live * alive;
    assert ToSet(list) == ToSet(g);
    SubsetSize(ToSet(g), live * alive);
    if |g| < limit {
      assert ToSet(g) == live * alive;
    }
  }

  /** For a user without a limit exactly the live allowed addresses are published. */
  lemma PublishedUnlimited(ips: seq<string>, winners: seq<string>, live: set<string>, alive: set<string>,
                           configured: Option<int>, stored: int)
    requires IsListing(ips, live)
    requires (if configured.Some? then configured.value else stored) <= 0
    ensures var r := PublishedList(ips, winners, alive, configured, stored);
            (r.None? <==> live == {}) && (r.Some? ==> IsListing(r.value, live))
  {
    if ips != [] {
      assert ips[0] in ToSet(ips);
    }
  }

  // ---------- disconnects ----------

  /** A disconnect, or a full sync without the user, leaves reported devices behind in exactly one case. */
  lemma ClearLeavesReported(s: Store, node: int, now: int, limit: int)
    ensures !OnNode(Step(s, Clear(node, now), limit).allowed, node)
    ensures OnNode(Step(s, Clear(node, now), limit).reported, node)
       <==> OnNode(s.reported, node) && !OnNode(s.allowed, node)
  {
  }

  // ---------- the earlier panel ----------

  /** Without a limit the earlier version too stores every reported address. */
  lemma OldUnlimitedStoresAll(allowed: Devices, node: int, ips: seq<string>, others: seq<string>, now: int, limit: int)
    requires limit <= 0
    ensures LiveIps(OldAllowedAfter(allowed, node, ips, others, now, limit), now)
         == LiveIps(WithoutNode(allowed, node), now) + ToSet(ips)
  {
    LiveAfterStamp(allowed, node, AdmitOld(ips, others, limit), now, now);
  }

  /** The earlier rule fills every slot in a single report, and keeps the same bound. */
  lemma OldRuleFillsAtOnce(allowed: Devices, node: int, ips: seq<string>, others: seq<string>, now: int, limit: int)
    requires limit > 0 && |LiveIps(allowed, now)| <= limit
    requires IsListing(others, LiveIps(WithoutNode(allowed, node), now))
    ensures |LiveIps(OldAllowedAfter(allowed, node, ips, others, now, limit), now)|
         == Min(limit, |ToSet(others) + ToSet(ips)|)
  {
    ListingSize(others);
    LiveWithoutNode(allowed, node, now);
    SubsetSize(ToSet(others), LiveIps(allowed, now));
    AdmitOldBound(ips, others, limit);
    var stored := AdmitOld(ips, others, limit);
    LiveAfterStamp(allowed, node, stored, now, now);
    KeepOnlyFacts(ips, ToSet(AllowedGlobal(others, ToSet(others), ips, ToSet(ips), limit)));
    SubsetSize(ToSet(others) + ToSet(stored), ToSet(others) + ToSet(ips));
  }

  /**
   But it is first come, first served only for an address that another node holds or that
   comes early enough in the report: with the other nodes' devices, everything up to it
   must fit the limit. Whether it was allowed before makes no difference.
   */
  lemma OldRuleKeepsIff(allowed: Devices, node: int, ips: seq<string>, others: seq<string>,
                        now: int, limit: int, k: nat)
    requires limit > 0 && NoDuplicates(ips) && k < |ips|
    requires IsListing(others, LiveIps(WithoutNode(allowed, node), now))
    ensures Entry(node, ips[k]) in OldAllowedAfter(allowed, node, ips, others, now, limit) <==>
              if |others| <= limit
              then ips[k] in others || |ToSet(others) + ToSet(ips[..k + 1])| <= limit
              else ips[k] in others[..limit]
  {
    AdmitAt(ips, others, ToSet(ips), limit, k);
    StoredEntry(allowed, node, AdmitOld(ips, others, limit), now, ips[k]);
  }

  lemma StoredEntry(h: Devices, node: int, stored: seq<string>, ts: int, ip: string)
    ensures Entry(node, ip) in Stamp(WithoutNode(h, node), node, stored, ts) <==> ip in stored
  {
    assert Entry(node, ip) in EntriesOf(node, stored) <==> ip in stored;
  }

  /** The same for the present rule, where an address that was allowed keeps its place wherever it comes. */
  lemma PresentRuleKeepsIff(s: Store, e: Event, limit: int, k: nat)
    requires e.Report? && Possible(s, e) && limit > 0 && k < |e.ips|
    ensures Entry(e.node, e.ips[k]) in Step(s, e, limit).allowed <==>
              if |LiveIps(s.allowed, e.now)| <= limit
              then e.ips[k] in LiveIps(s.allowed, e.now)
                   || |LiveIps(s.allowed, e.now) + ToSet(e.ips[..k + 1])| <= limit
              else e.ips[k] in FirstWinners(e, limit)
  {
    LiveAfterStamp(s.reported, e.node, e.ips, e.now, e.now);
    ListingSize(e.preferred);
    AdmitAt(e.ips, e.preferred, LiveIps(ReportedAfter(s.reported, e.node, e.ips, e.now), e.now), limit, k);
    StoredEntry(s.allowed, e.node, Stored(s, e, limit), e.now, e.ips[k]);
    assert e.ips[k] in e.preferred <==> e.ips[k] in ToSet(e.preferred);
  }

  /** With no device on another node, the earlier rule keeps just the first addresses of the report. */
  lemma OldRuleAlone(allowed: Devices, node: int, ips: seq<string>, now: int, limit: int, k: nat)
    requires limit > 0 && NoDuplicates(ips) && k < |ips| && LiveIps(WithoutNode(allowed, node), now) == {}
    ensures Entry(node, ips[k]) in OldAllowedAfter(allowed, node, ips, [], now, limit) <==> k < limit
  {
    OldRuleKeepsIff(allowed, node, ips, [], now, limit, k);
    ListingSize(ips[..k + 1]);
    assert ToSet([]) + ToSet(ips[..k + 1]) == ToSet(ips[..k + 1]);
  }

  /** So a device still reported is displaced by a newer one that comes before it in the report. */
  lemma OldRuleDisplaces()
    ensures var h := map[Entry(1, "A") := 0];
            var after := OldAllowedAfter(h, 1, ["B", "A"], [], 1, 1);
            Entry(1, "A") !in after && Entry(1, "B") in after
  {
    var h := map[Entry(1, "A") := 0];
    assert WithoutNode(h, 1) == map[];
    OldRuleAlone(h, 1, ["B", "A"], 1, 1, 0);
    OldRuleAlone(h, 1, ["B", "A"], 1, 1, 1);
  }
}
