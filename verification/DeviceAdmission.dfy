/**
 The device state of one user and the admission rule that decides which of the
 addresses in a node's report may stay. Redis returns the fields of a hash in an
 order nobody controls, so lists read from a hash are only known to be listings:
 the right addresses, each once, in some order.
 */
module DeviceAdmission {
  import opened DeviceFields

  /** Seconds a device entry stays alive. */
  const TTL := 300

  /** One Redis hash of a user: device slot to the time it was last reported. */
  type Devices = map<Entry, int>

  predicate IsLive(h: Devices, e: Entry, now: int)
  {
    e in h && now - h[e] <= TTL
  }

  function LiveIps(h: Devices, now: int): set<string>
  {
    set e | e in h && IsLive(h, e, now) :: e.ip
  }

  predicate NoDuplicates(ips: seq<string>)
  {
    forall i, j :: 0 <= i < j < |ips| ==> ips[i] != ips[j]
  }

  function ToSet(ips: seq<string>): set<string>
  {
    set ip | ip in ips
  }

  /** ips enumerates s, each element once, in some order. */
  predicate IsListing(ips: seq<string>, s: set<string>)
  {
    NoDuplicates(ips) && ToSet(ips) == s
  }

  function WithoutNode(h: Devices, node: int): Devices
  {
    map e | e in h && e.node != node :: h[e]
  }

  predicate OnNode(h: Devices, node: int)
  {
    exists e :: e in h && e.node == node
  }

  /** Clearing a node visits the user only when it holds an allowed device there. */
  function AllowedAfterClear(allowed: Devices, node: int): Devices
  {
    if OnNode(allowed, node) then WithoutNode(allowed, node) else allowed
  }

  function ReportedAfterClear(allowed: Devices, reported: Devices, node: int): Devices
  {
    if OnNode(allowed, node) then WithoutNode(reported, node) else reported
  }

  function EntriesOf(node: int, ips: seq<string>): set<Entry>
  {
    set ip | ip in ips :: Entry(node, ip)
  }

  /** The hash after writing every address of ips for the node with one timestamp. */
  function Stamp(h: Devices, node: int, ips: seq<string>, ts: int): Devices
  {
    map e | e in h.Keys + EntriesOf(node, ips) :: if e in EntriesOf(node, ips) then ts else h[e]
  }

  /**
   Extends acc with the addresses of ips that are eligible and new, in order,
   until the limit is reached. Both filling loops of the admission rule do this.
   */
  function Fill(acc: seq<string>, ips: seq<string>, eligible: set<string>, limit: int): seq<string>
    decreases |ips|
  {
    if ips == [] then acc
    else
      var r := Fill(acc, ips[..|ips| - 1], eligible, limit);
      var ip := ips[|ips| - 1];
      if |r| >= limit || ip !in eligible || ip in r then r else r + [ip]
  }

  /** array_unique: the first occurrence of every address, in order. */
  function Distinct(ips: seq<string>): seq<string>
  {
    if ips == [] then []
    else
      var r := Distinct(ips[..|ips| - 1]);
      var ip := ips[|ips| - 1];
      if ip in r then r else r + [ip]
  }

  /** array_filter that keeps the members of allowed, in order. */
  function KeepOnly(ips: seq<string>, allowed: set<string>): seq<string>
  {
    if ips == [] then []
    else
      var r := KeepOnly(ips[..|ips| - 1], allowed);
      var ip := ips[|ips| - 1];
      if ip in allowed then r + [ip] else r
  }

  /** The global allowlist: winners first, then the report fills the free slots. */
  function AllowedGlobal(preferred: seq<string>, winners: set<string>, ips: seq<string>,
                         alive: set<string>, limit: int): seq<string>
  {
    Fill(Fill([], preferred, winners, limit), ips, alive, limit)
  }

  /**
   limitDevices with the list captured before removal: no winner is filtered.
   Returns the addresses of the report that may be stored.
   */
  function Admit(ips: seq<string>, preferred: seq<string>, alive: set<string>, limit: int): seq<string>
  {
    if limit <= 0 then ips
    else KeepOnly(ips, ToSet(AllowedGlobal(preferred, ToSet(preferred), ips, alive, limit)))
  }

  /** limitDevices without a captured list: allowed addresses count only while still reported. */
  function AdmitReported(ips: seq<string>, allowed: seq<string>, alive: set<string>, limit: int): seq<string>
  {
    if limit <= 0 then ips
    else KeepOnly(ips, ToSet(AllowedGlobal(allowed, alive, ips, alive, limit)))
  }

  /** The earlier admission rule: it lists the allowed devices after removing the node's own. */
  function AdmitOld(ips: seq<string>, others: seq<string>, limit: int): seq<string>
  {
    if limit <= 0 then ips
    else KeepOnly(ips, ToSet(AllowedGlobal(others, ToSet(others), ips, ToSet(ips), limit)))
  }

  function ReportedAfter(reported: Devices, node: int, ips: seq<string>, ts: int): Devices
  {
    Stamp(WithoutNode(reported, node), node, ips, ts)
  }

  /** The allowed hash after one uninterrupted report. */
  function AllowedAfter(allowed: Devices, reported: Devices, node: int, ips: seq<string>,
                        preferred: seq<string>, now: int, limit: int): Devices
  {
    var alive := LiveIps(ReportedAfter(reported, node, ips, now), now);
    Stamp(WithoutNode(allowed, node), node, Admit(ips, preferred, alive, limit), now)
  }

  /** The earlier setDevices: winners are listed after the node's own devices are gone. */
  function OldAllowedAfter(allowed: Devices, node: int, ips: seq<string>, others: seq<string>,
                           now: int, limit: int): Devices
  {
    Stamp(WithoutNode(allowed, node), node, AdmitOld(ips, others, limit), now)
  }

  // ---------- the two list operations ----------

  lemma {:induction false} FillFacts(acc: seq<string>, ips: seq<string>, eligible: set<string>, limit: int)
    ensures ToSet(acc) <= ToSet(Fill(acc, ips, eligible, limit)) <= ToSet(acc) + (ToSet(ips) * eligible)
    ensures |acc| <= limit ==> |Fill(acc, ips, eligible, limit)| <= limit
    ensures NoDuplicates(acc) ==> NoDuplicates(Fill(acc, ips, eligible, limit))
    ensures |Fill(acc, ips, eligible, limit)| < limit ==>
              ToSet(ips) * eligible <= ToSet(Fill(acc, ips, eligible, limit))
    decreases |ips|
  {
    if ips != [] {
      var front, ip := ips[..|ips| - 1], ips[|ips| - 1];
      FillFacts(acc, front, eligible, limit);
      AppendToSet(front, ip);
      assert front + [ip] == ips;
      AppendToSet(Fill(acc, front, eligible, limit), ip);
    }
  }

  lemma {:induction false} KeepOnlyFacts(ips: seq<string>, allowed: set<string>)
    ensures ToSet(KeepOnly(ips, allowed)) == ToSet(ips) * allowed
    ensures NoDuplicates(ips) ==> NoDuplicates(KeepOnly(ips, allowed))
  {
    if ips != [] {
      var front, ip := ips[..|ips| - 1], ips[|ips| - 1];
      KeepOnlyFacts(front, allowed);
      AppendToSet(front, ip);
      assert front + [ip] == ips;
      AppendToSet(KeepOnly(front, allowed), ip);
      assert NoDuplicates(ips) ==> ip !in ToSet(front);
      assert ip !in ToSet(front) ==> ip !in KeepOnly(front, allowed);
    }
  }

  lemma {:induction false} DistinctFacts(ips: seq<string>)
    ensures IsListing(Distinct(ips), ToSet(ips))
  {
    if ips != [] {
      var front, ip := ips[..|ips| - 1], ips[|ips| - 1];
      DistinctFacts(front);
      AppendToSet(front, ip);
      assert front + [ip] == ips;
      AppendToSet(Distinct(front), ip);
      assert ip in Distinct(front) ==> ip in ToSet(Distinct(front));
    }
  }

  /** Order is kept: a new address comes right after the distinct ones before it. */
  lemma {:induction false} DistinctInOrder(ips: seq<string>, k: nat)
    requires k < |ips| && ips[k] !in ips[..k]
    ensures |ToSet(ips[..k])| < |Distinct(ips)| && Distinct(ips)[|ToSet(ips[..k])|] == ips[k]
  {
    var front, last := ips[..|ips| - 1], ips[|ips| - 1];
    if k < |front| {
      DistinctInOrder(front, k);
      assert front[..k] == ips[..k];
    } else {
      DistinctFacts(front);
      ListingSize(Distinct(front));
      assert ips[..k] == front;
      assert last !in ToSet(Distinct(front));
    }
  }

  lemma {:induction false} KeepOnlyInOrder(a: seq<string>, b: seq<string>, allowed: set<string>)
    ensures KeepOnly(a + b, allowed) == KeepOnly(a, allowed) + KeepOnly(b, allowed)
    decreases |b|
  {
    if b == [] {
      assert a + b == a;
    } else {
      KeepOnlyInOrder(a, b[..|b| - 1], allowed);
      assert (a + b)[..|a + b| - 1] == a + b[..|b| - 1];
    }
  }

  lemma AppendToSet(ips: seq<string>, ip: string)
    ensures ToSet(ips + [ip]) == ToSet(ips) + {ip}
  {
  }

  // ---------- sizes of listings ----------

  lemma {:induction false} ListingSize(ips: seq<string>)
    requires NoDuplicates(ips)
    ensures |ToSet(ips)| == |ips|
  {
    if ips != [] {
      var front, ip := ips[..|ips| - 1], ips[|ips| - 1];
      ListingSize(front);
      assert ToSet(ips) == ToSet(front) + {ip} && ip !in ToSet(front);
    }
  }

  lemma SubsetSize(a: set<string>, b: set<string>)
    requires a <= b
    ensures |a| <= |b|
  {
    assert b == a + (b - a);
  }

  function Min(a: int, b: int): int
  {
    if a <= b then a else b
  }

  /** Filling from a list without repeats takes its first addresses, up to the limit. */
  lemma {:induction false} FillTakesFirst(ips: seq<string>, k: nat, limit: nat)
    requires NoDuplicates(ips) && k <= |ips|
    ensures Fill([], ips[..k], ToSet(ips), limit) == ips[..Min(k, limit)]
  {
    if k > 0 {
      FillTakesFirst(ips, k - 1, limit);
      assert ips[..k][..k - 1] == ips[..k - 1];
      if k <= limit {
        assert ips[..k] == ips[..k - 1] + [ips[k - 1]];
        assert ips[k - 1] !in ips[..k - 1];
      }
    }
  }

  /** So a capped fill keeps every winner when the winners fit. */
  lemma FillKeepsAll(ips: seq<string>, limit: int)
    requires NoDuplicates(ips) && |ips| <= limit
    ensures Fill([], ips, ToSet(ips), limit) == ips
  {
    FillTakesFirst(ips, |ips|, limit);
    assert ips[..|ips|] == ips;
  }

  /** How far a fill gets when everything is eligible. */
  lemma FillSize(acc: seq<string>, ips: seq<string>, eligible: set<string>, limit: int)
    requires NoDuplicates(acc) && |acc| <= limit && ToSet(ips) <= eligible
    ensures |Fill(acc, ips, eligible, limit)| == Min(limit, |ToSet(acc) + ToSet(ips)|)
  {
    var r := Fill(acc, ips, eligible, limit);
    FillFacts(acc, ips, eligible, limit);
    ListingSize(r);
    SubsetSize(ToSet(r), ToSet(acc) + ToSet(ips));
    if |r| < limit {
      assert ToSet(r) == ToSet(acc) + ToSet(ips);
    }
  }

  /** Whether an address gets in is decided when its turn comes. */
  lemma {:induction false} DecidedAtItsTurn(acc: seq<string>, ips: seq<string>, eligible: set<string>,
                                            limit: int, k: nat)
    requires NoDuplicates(ips) && k < |ips|
    ensures ips[k] in Fill(acc, ips, eligible, limit) <==> ips[k] in Fill(acc, ips[..k + 1], eligible, limit)
    decreases |ips|
  {
    var front := ips[..|ips| - 1];
    if k < |front| {
      DecidedAtItsTurn(acc, front, eligible, limit, k);
      assert front[..k + 1] == ips[..k + 1];
    } else {
      assert ips[..k + 1] == ips;
    }
  }

  lemma FillNext(acc: seq<string>, ips: seq<string>, i: nat, eligible: set<string>, limit: int)
    requires i < |ips|
    ensures Fill(acc, ips[..i + 1], eligible, limit)
         == (var r := Fill(acc, ips[..i], eligible, limit);
             if |r| >= limit || ips[i] !in eligible || ips[i] in r then r else r + [ips[i]])
  {
    assert ips[..i + 1][..i] == ips[..i];
  }

  lemma FillTurn(acc: seq<string>, ips: seq<string>, eligible: set<string>, limit: int, k: nat)
    requires NoDuplicates(ips) && k < |ips| && ips[k] in eligible
    ensures var r := Fill(acc, ips[..k], eligible, limit);
            ips[k] in Fill(acc, ips, eligible, limit) <==> ips[k] in r || |r| < limit
  {
    DecidedAtItsTurn(acc, ips, eligible, limit, k);
    FillNext(acc, ips, k, eligible, limit);
  }

  lemma PrefixFacts(ips: seq<string>, k: nat)
    requires NoDuplicates(ips) && k < |ips|
    ensures ips[k] !in ips[..k] && ToSet(ips[..k]) <= ToSet(ips) && ips[k] in ToSet(ips)
    ensures ToSet(ips[..k + 1]) == ToSet(ips[..k]) + {ips[k]}
  {
    assert ips[..k + 1] == ips[..k] + [ips[k]];
    AppendToSet(ips[..k], ips[k]);
  }

  lemma FillAt(acc: seq<string>, ips: seq<string>, eligible: set<string>, limit: int, k: nat)
    requires NoDuplicates(acc) && |acc| <= limit && NoDuplicates(ips) && ToSet(ips) <= eligible && k < |ips|
    ensures ips[k] in Fill(acc, ips, eligible, limit)
       <==> ips[k] in acc || |ToSet(acc) + ToSet(ips[..k + 1])| <= limit
  {
    PrefixFacts(ips, k);
    FillTurn(acc, ips, eligible, limit, k);
    FillSize(acc, ips[..k], eligible, limit);
    FillFacts(acc, ips[..k], eligible, limit);
    TurnOf(acc, ips[..k], ips[k], Fill(acc, ips[..k], eligible, limit));
  }

  lemma TurnOf(acc: seq<string>, before: seq<string>, ip: string, r: seq<string>)
    requires ip !in before && ToSet(acc) <= ToSet(r) <= ToSet(acc) + ToSet(before)
    ensures ip in r <==> ip in acc
    ensures ip !in acc ==> |ToSet(acc) + (ToSet(before) + {ip})| == |ToSet(acc) + ToSet(before)| + 1
  {
    assert ip in r <==> ip in ToSet(r);
    assert ip in acc <==> ip in ToSet(acc);
    assert ip !in ToSet(before);
    if ip !in acc {
      assert ToSet(acc) + (ToSet(before) + {ip}) == (ToSet(acc) + ToSet(before)) + {ip};
    }
  }

  // ---------- writing a report field by field ----------

  lemma StampNothing(h: Devices, node: int, ts: int)
    ensures Stamp(h, node, [], ts) == h
  {
  }

  lemma StampOneMore(h: Devices, node: int, ips: seq<string>, i: nat, ts: int)
    requires i < |ips|
    ensures Stamp(h, node, ips[..i + 1], ts) == Stamp(h, node, ips[..i], ts)[Entry(node, ips[i]) := ts]
  {
    assert ips[..i + 1] == ips[..i] + [ips[i]];
    assert EntriesOf(node, ips[..i + 1]) == EntriesOf(node, ips[..i]) + {Entry(node, ips[i])};
  }

  // ---------- live addresses of the updated hashes ----------

  lemma LiveAfterStamp(h: Devices, node: int, ips: seq<string>, ts: int, now: int)
    requires ts <= now <= ts + TTL
    ensures LiveIps(Stamp(WithoutNode(h, node), node, ips, ts), now)
         == LiveIps(WithoutNode(h, node), now) + ToSet(ips)
  {
    var w := WithoutNode(h, node);
    var s := Stamp(w, node, ips, ts);
    forall ip | ip in ToSet(ips)
      ensures ip in LiveIps(s, now)
    {
      assert IsLive(s, Entry(node, ip), now);
    }
    forall ip | ip in LiveIps(w, now)
      ensures ip in LiveIps(s, now)
    {
      var e :| e in w && IsLive(w, e, now) && e.ip == ip;
      assert IsLive(s, e, now);
    }
    forall ip | ip in LiveIps(s, now)
      ensures ip in LiveIps(w, now) + ToSet(ips)
    {
      var e :| e in s && IsLive(s, e, now) && e.ip == ip;
      if e !in EntriesOf(node, ips) {
        assert IsLive(w, e, now);
      }
    }
  }

  /** Writing a report for a node leaves the other nodes alone and adds reported addresses only. */
  lemma LiveAfterWrite(h: Devices, node: int, ips: seq<string>, ts: int, now: int)
    ensures LiveIps(Stamp(WithoutNode(h, node), node, ips, ts), now)
         <= LiveIps(WithoutNode(h, node), now) + ToSet(ips)
    ensures WithoutNode(Stamp(WithoutNode(h, node), node, ips, ts), node) == WithoutNode(h, node)
  {
    var w := WithoutNode(h, node);
    var s := Stamp(w, node, ips, ts);
    forall ip | ip in LiveIps(s, now)
      ensures ip in LiveIps(w, now) + ToSet(ips)
    {
      var e :| e in s && IsLive(s, e, now) && e.ip == ip;
      if e !in EntriesOf(node, ips) {
        assert IsLive(w, e, now);
      }
    }
  }

  lemma LiveWithoutNode(h: Devices, node: int, now: int)
    ensures LiveIps(WithoutNode(h, node), now) <= LiveIps(h, now)
  {
    var w := WithoutNode(h, node);
    forall ip | ip in LiveIps(w, now)
      ensures ip in LiveIps(h, now)
    {
      var e :| e in w && IsLive(w, e, now) && e.ip == ip;
      assert IsLive(h, e, now);
    }
  }

  /** An entry is live at the age of 300 seconds and no longer at 301. */
  lemma LiveForFiveMinutes(h: Devices, e: Entry)
    requires e in h
    ensures IsLive(h, e, h[e]) && IsLive(h, e, h[e] + 300) && !IsLive(h, e, h[e] + 301)
    ensures forall now :: IsLive(h, e, now) <==> now <= h[e] + 300
  {
  }

  /** Removing entries or letting time pass never makes an address live. */
  lemma LiveShrinks(h: Devices, h': Devices, now: int, now': int)
    requires now <= now'
    requires forall e :: e in h' ==> e in h && h'[e] == h[e]
    ensures LiveIps(h', now') <= LiveIps(h, now)
  {
    forall ip | ip in LiveIps(h', now')
      ensures ip in LiveIps(h, now)
    {
      var e :| e in h' && IsLive(h', e, now') && e.ip == ip;
      assert IsLive(h, e, now);
    }
  }

  // ---------- the admission rule ----------

  /**
   Admission, stated without its loops: when the captured winners fit the limit,
   the stored part of the report together with all the winners is at most the
   limit, winners in the report are all stored, and a free slot is refused to no
   reported address.
   */
  lemma AdmitBound(ips: seq<string>, preferred: seq<string>, alive: set<string>, limit: int)
    requires limit > 0 && NoDuplicates(preferred) && |preferred| <= limit
    ensures |ToSet(preferred) + ToSet(Admit(ips, preferred, alive, limit))| <= limit
    ensures ToSet(ips) * ToSet(preferred) <= ToSet(Admit(ips, preferred, alive, limit)) <= ToSet(ips)
    ensures NoDuplicates(ips) ==> NoDuplicates(Admit(ips, preferred, alive, limit))
    ensures ToSet(ips) <= alive ==>
              ToSet(Admit(ips, preferred, alive, limit)) == ToSet(ips)
              || |ToSet(preferred) + ToSet(Admit(ips, preferred, alive, limit))| == limit
  {
    var g := AllowedGlobal(preferred, ToSet(preferred), ips, alive, limit);
    FillKeepsAll(preferred, limit);
    FillFacts(preferred, ips, alive, limit);
    KeepOnlyFacts(ips, ToSet(g));
    ListingSize(g);
    var stored := ToSet(Admit(ips, preferred, alive, limit));
    SubsetSize(ToSet(preferred) + stored, ToSet(g));
    if ToSet(ips) <= alive && |g| == limit {
      assert ToSet(g) == ToSet(preferred) + stored;
    }
  }

  /** The global allowlist as a set g, and the stored part of the report in terms of it. */
  lemma AllowlistShape(ips: seq<string>, preferred: seq<string>, alive: set<string>, limit: int)
    returns (g: set<string>)
    requires limit > 0 && NoDuplicates(preferred) && |preferred| <= limit && ToSet(ips) <= alive
    ensures ToSet(preferred) <= g <= ToSet(preferred) + ToSet(ips) && |g| <= limit
    ensures |g| < limit ==> ToSet(ips) <= g
    ensures ToSet(Admit(ips, preferred, alive, limit)) == ToSet(ips) * g
  {
    var list := AllowedGlobal(preferred, ToSet(preferred), ips, alive, limit);
    FillKeepsAll(preferred, limit);
    FillFacts(preferred, ips, alive, limit);
    KeepOnlyFacts(ips, ToSet(list));
    ListingSize(list);
    g := ToSet(list);
  }

  /** With more winners than the limit, exactly the reported ones among the first winners are stored. */
  lemma AdmitOverLimit(ips: seq<string>, preferred: seq<string>, alive: set<string>, limit: int)
    requires limit > 0 && NoDuplicates(preferred) && |preferred| > limit
    ensures ToSet(Admit(ips, preferred, alive, limit)) == ToSet(ips) * ToSet(preferred[..limit])
  {
    FillTakesFirst(preferred, |preferred|, limit);
    assert preferred[..|preferred|] == preferred;
    FillFull(preferred[..limit], ips, alive, limit);
    KeepOnlyFacts(ips, ToSet(preferred[..limit]));
  }

  /**
   Exactly which addresses of a report are stored: with winners that fit, the winners and
   every address up to which winners and report fit the limit; else the first winners.
   */
  lemma AdmitAt(ips: seq<string>, preferred: seq<string>, alive: set<string>, limit: int, k: nat)
    requires limit > 0 && NoDuplicates(preferred) && NoDuplicates(ips) && ToSet(ips) <= alive && k < |ips|
    ensures ips[k] in Admit(ips, preferred, alive, limit) <==>
              if |preferred| <= limit
              then ips[k] in preferred || |ToSet(preferred) + ToSet(ips[..k + 1])| <= limit
              else ips[k] in preferred[..limit]
  {
    if |preferred| <= limit {
      FillKeepsAll(preferred, limit);
      FillAt(preferred, ips, alive, limit, k);
      KeptIff(ips, Fill(preferred, ips, alive, limit), k);
    } else {
      AdmitOverLimit(ips, preferred, alive, limit);
      InSet(ips, k);
      assert ips[k] in Admit(ips, preferred, alive, limit) <==> ips[k] in ToSet(Admit(ips, preferred, alive, limit));
    }
  }

  lemma InSet(ips: seq<string>, k: nat)
    requires k < |ips|
    ensures ips[k] in ToSet(ips)
  {
  }

  lemma KeptIff(ips: seq<string>, g: seq<string>, k: nat)
    requires k < |ips|
    ensures ips[k] in KeepOnly(ips, ToSet(g)) <==> ips[k] in g
  {
    KeepOnlyFacts(ips, ToSet(g));
    InSet(ips, k);
    assert ips[k] in KeepOnly(ips, ToSet(g)) <==> ips[k] in ToSet(KeepOnly(ips, ToSet(g)));
  }

  lemma {:induction false} FillFull(acc: seq<string>, ips: seq<string>, eligible: set<string>, limit: int)
    requires |acc| >= limit
    ensures Fill(acc, ips, eligible, limit) == acc
    decreases |ips|
  {
    if ips != [] {
      FillFull(acc, ips[..|ips| - 1], eligible, limit);
    }
  }

  /** The earlier rule obeys the same bound, with the other nodes' devices as winners. */
  lemma AdmitOldBound(ips: seq<string>, others: seq<string>, limit: int)
    requires limit > 0 && NoDuplicates(others) && |others| <= limit
    ensures |ToSet(others) + ToSet(AdmitOld(ips, others, limit))| <= limit
    ensures ToSet(AdmitOld(ips, others, limit)) == ToSet(ips)
         || |ToSet(others) + ToSet(AdmitOld(ips, others, limit))| == limit
  {
    AdmitBound(ips, others, ToSet(ips), limit);
  }
}
