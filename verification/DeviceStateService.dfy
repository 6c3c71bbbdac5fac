/**
 The panel's device bookkeeping for one user, over the two Redis hashes as the
 panel really stores them: string fields "node:ip". Ghost fields hold the abstract
 (node, ip) maps, and Valid() ties the strings to them.
 */
module DeviceStateServices {
  import opened Options
  import opened DeviceFields
  import opened DeviceAdmission

  /** The device slot a field stands for; fields written by the panel all have one. */
  ghost function Slot(field: string): Entry
  {
    if exists e :: Field(e) == field then
      var e :| Field(e) == field; e
    else Entry(0, "")
  }

  lemma SlotOfField(e: Entry)
    ensures Slot(Field(e)) == e
  {
    FieldInjective(Slot(Field(e)), e);
  }

  /** The string-keyed hash stores exactly h. */
  ghost predicate Encodes(hash: map<string, int>, h: Devices)
  {
    && (forall f :: f in hash ==> Stores(hash, h, f))
    && (forall e :: e in h ==> HasField(hash, h, e))
  }

  ghost predicate Stores(hash: map<string, int>, h: Devices, f: string)
  {
    f in hash && Slot(f) in h && h[Slot(f)] == hash[f] && Field(Slot(f)) == f
  }

  ghost predicate HasField(hash: map<string, int>, h: Devices, e: Entry)
  {
    e in h && Field(e) in hash && hash[Field(e)] == h[e] && Slot(Field(e)) == e
  }

  /** hdel of one field. */
  lemma EncodeDelete(hash: map<string, int>, h: Devices, e: Entry)
    requires Encodes(hash, h)
    ensures Encodes(hash - {Field(e)}, h - {e})
  {
    SlotOfField(e);
    forall f | f in hash - {Field(e)}
      ensures Stores(hash - {Field(e)}, h - {e}, f)
    {
      assert Stores(hash, h, f);
    }
    forall d | d in h - {e}
      ensures HasField(hash - {Field(e)}, h - {e}, d)
    {
      assert HasField(hash, h, d);
    }
  }

  /** hMset of one field. */
  lemma EncodeWrite(hash: map<string, int>, h: Devices, e: Entry, ts: int)
    requires Encodes(hash, h)
    ensures Encodes(hash[Field(e) := ts], h[e := ts])
  {
    SlotOfField(e);
    forall f | f == Field(e) || f in hash
      ensures Stores(hash[Field(e) := ts], h[e := ts], f)
    {
      assert f != Field(e) ==> Stores(hash, h, f);
    }
    forall d | d == e || d in h
      ensures HasField(hash[Field(e) := ts], h[e := ts], d)
    {
      assert d != e ==> HasField(hash, h, d);
    }
  }

  /** Addresses of the live entries whose fields have been visited already. */
  ghost function LiveVisited(h: Devices, todo: set<string>, now: int): set<string>
  {
    set e | e in h && Field(e) !in todo && IsLive(h, e, now) :: e.ip
  }

  lemma NothingVisited(hash: map<string, int>, h: Devices, now: int)
    requires Encodes(hash, h)
    ensures LiveVisited(h, hash.Keys, now) == {}
    ensures LiveVisited(h, {}, now) == LiveIps(h, now)
  {
    forall e | e in h
      ensures Field(e) in hash
    {
      assert HasField(hash, h, e);
    }
  }

  lemma VisitOne(hash: map<string, int>, h: Devices, todo: set<string>, field: string, now: int)
    requires Encodes(hash, h) && field in hash && field in todo
    ensures ':' in field
    ensures LiveVisited(h, todo - {field}, now)
         == LiveVisited(h, todo, now) + (if now - hash[field] <= TTL then {IpOf(field)} else {})
  {
    var entry := OnlyEntryOf(hash, h, field);
    IpRoundTrip(entry);
    VisitEntry(h, todo, entry, now);
  }

  lemma VisitEntry(h: Devices, todo: set<string>, entry: Entry, now: int)
    requires entry in h && forall e :: e in h ==> (Field(e) == Field(entry) <==> e == entry)
    requires Field(entry) in todo
    ensures LiveVisited(h, todo - {Field(entry)}, now)
         == LiveVisited(h, todo, now) + (if now - h[entry] <= TTL then {entry.ip} else {})
  {
    var seen, more := LiveVisited(h, todo, now), LiveVisited(h, todo - {Field(entry)}, now);
    if now - h[entry] <= TTL {
      assert IsLive(h, entry, now);
      assert more == seen + {entry.ip};
    } else {
      assert !IsLive(h, entry, now);
      assert more == seen;
    }
  }

  /** Exactly one entry of h is stored under a field of the hash. */
  lemma OnlyEntryOf(hash: map<string, int>, h: Devices, field: string) returns (entry: Entry)
    requires Encodes(hash, h) && field in hash
    ensures entry in h && Field(entry) == field && h[entry] == hash[field]
    ensures forall e :: e in h ==> (Field(e) == field <==> e == entry)
  {
    assert Stores(hash, h, field);
    entry := Slot(field);
    forall e | e in h
      ensures Field(e) == field <==> e == entry
    {
      SlotOfField(e);
    }
  }

  /** Listing one more address, when it is not listed already. */
  lemma ListNew(ips: seq<string>, ip: string)
    requires NoDuplicates(ips)
    ensures ip in ips ==> ToSet(ips) + {ip} == ToSet(ips)
    ensures ip !in ips ==> IsListing(ips + [ip], ToSet(ips) + {ip})
  {
    AppendToSet(ips, ip);
  }

  /** What is left of h while the fields in todo have not been visited for removal. */
  ghost function StillThere(h: Devices, node: int, todo: set<string>): Devices
  {
    map e | e in h && (e.node != node || Field(e) in todo) :: h[e]
  }

  lemma RemoveStep(hash: map<string, int>, h: Devices, node: int, todo: set<string>, field: string)
    returns (entry: Entry)
    requires Encodes(hash, h) && field in hash && field in todo
    ensures Field(entry) == field
    ensures StillThere(h, node, todo - {field})
         == if StartsWith(field, NodePrefix(node)) then StillThere(h, node, todo) - {entry}
            else StillThere(h, node, todo)
  {
    entry := OnlyEntryOf(hash, h, field);
    PrefixSelectsNode(entry, node);
    OneLess(h, node, todo, entry);
  }

  lemma OneLess(h: Devices, node: int, todo: set<string>, entry: Entry)
    requires entry in h && forall e :: e in h ==> (Field(e) == Field(entry) <==> e == entry)
    ensures StillThere(h, node, todo - {Field(entry)})
         == if entry.node == node then StillThere(h, node, todo) - {entry} else StillThere(h, node, todo)
  {
    var l := StillThere(h, node, todo - {Field(entry)});
    var r := if entry.node == node then StillThere(h, node, todo) - {entry} else StillThere(h, node, todo);
    forall e
      ensures (e in l <==> e in r) && (e in l ==> l[e] == r[e])
    {
    }
  }

  lemma RemoveEnds(hash: map<string, int>, h: Devices, node: int)
    requires Encodes(hash, h)
    ensures StillThere(h, node, hash.Keys) == h && StillThere(h, node, {}) == WithoutNode(h, node)
  {
    forall e | e in h
      ensures Field(e) in hash
    {
      assert HasField(hash, h, e);
    }
  }

  /** Some visited field belongs to the node. */
  ghost predicate NodeVisited(h: Devices, todo: set<string>, node: int)
  {
    exists e :: e in h && Field(e) !in todo && e.node == node
  }

  lemma VisitNode(hash: map<string, int>, h: Devices, todo: set<string>, field: string, node: int)
    requires Encodes(hash, h) && field in hash && field in todo
    ensures NodeVisited(h, todo - {field}, node)
       <==> NodeVisited(h, todo, node) || StartsWith(field, NodePrefix(node))
  {
    var entry := OnlyEntryOf(hash, h, field);
    PrefixSelectsNode(entry, node);
  }

  lemma NodeNotVisited(hash: map<string, int>, h: Devices, node: int)
    requires Encodes(hash, h)
    ensures !NodeVisited(h, hash.Keys, node)
    ensures NodeVisited(h, {}, node) <==> OnNode(h, node)
  {
    forall e | e in h
      ensures Field(e) in hash
    {
      assert HasField(hash, h, e);
    }
    if OnNode(h, node) {
      var e :| e in h && e.node == node;
      assert Field(e) !in {};
    }
  }

  /** The list published for a user, from the live allowed addresses in two hash orders. */
  function PublishedList(ips: seq<string>, winners: seq<string>, alive: set<string>,
                         configured: Option<int>, stored: int): Option<seq<string>>
  {
    if ips == [] then None
    else
      var limit := if configured.Some? then configured.value else stored;
      var list := AdmitReported(ips, winners, alive, limit);
      if configured.Some? && limit > 1 && 0 < |list| < limit then None else Some(list)
  }

  /** r is a list published from these stores, for some two orders of the allowed hash. */
  ghost predicate Published(r: Option<seq<string>>, allowed: Devices, reported: Devices,
                            configured: Option<int>, stored: int, now: int)
  {
    exists ips, winners ::
      IsListing(ips, LiveIps(allowed, now)) && IsListing(winners, LiveIps(allowed, now))
      && r == PublishedList(ips, winners, LiveIps(reported, now), configured, stored)
  }

  class DeviceStateService {
    var allowedHash: map<string, int>
    var reportedHash: map<string, int>
    var lockHeld: bool

    ghost var allowed: Devices
    ghost var reported: Devices

    ghost predicate Valid()
      reads this
    {
      Encodes(allowedHash, allowed) && Encodes(reportedHash, reported)
    }

    constructor ()
      ensures Valid() && allowed == map[] && reported == map[] && !lockHeld
    {
      allowedHash, reportedHash, lockHeld := map[], map[], false;
      allowed, reported := map[], map[];
    }

    /** getAllowedDevices and getReportedDevices: live addresses of a hash, without repeats. */
    static method LiveDevices(hash: map<string, int>, ghost h: Devices, now: int) returns (ips: seq<string>)
      requires Encodes(hash, h)
      ensures IsListing(ips, LiveIps(h, now))
    {
      ips := [];
      var todo := hash.Keys;
      NothingVisited(hash, h, now);
      while todo != {}
        invariant todo <= hash.Keys
        invariant IsListing(ips, LiveVisited(h, todo, now))
        decreases todo
      {
        var field :| field in todo;
        VisitOne(hash, h, todo, field, now);
        todo := todo - {field};
        if now - hash[field] <= TTL {
          var ip := IpOf(field);
          ListNew(ips, ip);
          if ip !in ips {
            ips := ips + [ip];
          }
        }
      }
    }

    /** removeNodeDevices on one hash: deletes every field with the node's prefix. */
    static method RemoveNode(hash: map<string, int>, ghost h: Devices, node: int) returns (left: map<string, int>)
      requires Encodes(hash, h)
      ensures Encodes(left, WithoutNode(h, node))
    {
      left := hash;
      ghost var rest := h;
      RemoveEnds(hash, h, node);
      var todo := hash.Keys;
      while todo != {}
        invariant todo <= hash.Keys
        invariant Encodes(left, rest)
        invariant rest == StillThere(h, node, todo)
        decreases todo
      {
        var field :| field in todo;
        ghost var entry := RemoveStep(hash, h, node, todo, field);
        todo := todo - {field};
        if StartsWith(field, NodePrefix(node)) {
          EncodeDelete(left, rest, entry);
          left := left - {field};
          rest := rest - {entry};
        }
      }
    }

    /** hMset of all the addresses of a report with one timestamp. */
    static method Write(hash: map<string, int>, ghost h: Devices, node: int, ips: seq<string>, ts: int)
      returns (out: map<string, int>)
      requires Encodes(hash, h)
      ensures Encodes(out, Stamp(h, node, ips, ts))
    {
      out := hash;
      StampNothing(h, node, ts);
      for i := 0 to |ips|
        invariant Encodes(out, Stamp(h, node, ips[..i], ts))
      {
        EncodeWrite(out, Stamp(h, node, ips[..i], ts), Entry(node, ips[i]), ts);
        StampOneMore(h, node, ips, i, ts);
        out := out[NodePrefix(node) + ips[i] := ts];
      }
      assert ips[..|ips|] == ips;
    }

    /** Stores the report; nothing is written for an empty one. */
    method WriteReported(node: int, ips: seq<string>, now: int)
      requires Valid()
      modifies this`reportedHash, this`reported
      ensures Valid() && reported == Stamp(old(reported), node, ips, now)
    {
      StampNothing(reported, node, now);
      if ips != [] {
        reportedHash := Write(reportedHash, reported, node, ips, now);
        reported := Stamp(reported, node, ips, now);
      }
    }

    method WriteAllowed(node: int, ips: seq<string>, now: int)
      requires Valid()
      modifies this`allowedHash, this`allowed
      ensures Valid() && allowed == Stamp(old(allowed), node, ips, now)
    {
      StampNothing(allowed, node, now);
      if ips != [] {
        allowedHash := Write(allowedHash, allowed, node, ips, now);
        allowed := Stamp(allowed, node, ips, now);
      }
    }

    method RemoveNodeDevices(node: int)
      requires Valid()
      modifies this`allowedHash, this`allowed
      ensures Valid() && allowed == WithoutNode(old(allowed), node)
    {
      allowedHash := RemoveNode(allowedHash, allowed, node);
      allowed := WithoutNode(allowed, node);
    }

    method RemoveNodeReportedDevices(node: int)
      requires Valid()
      modifies this`reportedHash, this`reported
      ensures Valid() && reported == WithoutNode(old(reported), node)
    {
      reportedHash := RemoveNode(reportedHash, reported, node);
      reported := WithoutNode(reported, node);
    }

    /** getNodeDevices for this user: does any field carry the node's prefix? */
    static method HasNode(hash: map<string, int>, ghost h: Devices, node: int) returns (found: bool)
      requires Encodes(hash, h)
      ensures found <==> OnNode(h, node)
    {
      found := false;
      var todo := hash.Keys;
      NodeNotVisited(hash, h, node);
      while todo != {}
        invariant todo <= hash.Keys
        invariant found <==> NodeVisited(h, todo, node)
        decreases todo
      {
        var field :| field in todo;
        VisitNode(hash, h, todo, field, node);
        todo := todo - {field};
        if StartsWith(field, NodePrefix(node)) {
          found := true;
        }
      }
    }

    /**
     clearAllNodeDevices, and the removal of missing users in syncNodeDevices: a user
     without an allowed device on the node is not visited at all.
     */
    method ClearNode(node: int)
      requires Valid()
      modifies this`allowedHash, this`allowed, this`reportedHash, this`reported
      ensures Valid()
      ensures allowed == AllowedAfterClear(old(allowed), node)
      ensures reported == ReportedAfterClear(old(allowed), old(reported), node)
    {
      var found := HasNode(allowedHash, allowed, node);
      if found {
        RemoveNodeDevices(node);
        RemoveNodeReportedDevices(node);
      }
    }

    /** array_values(array_unique(...)): the first occurrence of every address. */
    static method Unique(ips: seq<string>) returns (r: seq<string>)
      ensures r == Distinct(ips) && IsListing(r, ToSet(ips))
    {
      r := [];
      for i := 0 to |ips|
        invariant r == Distinct(ips[..i])
      {
        assert ips[..i + 1][..i] == ips[..i];
        if ips[i] !in r {
          r := r + [ips[i]];
        }
      }
      assert ips[..|ips|] == ips;
      DistinctFacts(ips);
    }

    /** First loop of limitDevices: existing winners, in hash order, up to the limit. */
    static method TakeWinners(list: seq<string>, alive: seq<string>, keepAll: bool, ghost eligible: set<string>,
                              limit: int)
      returns (global: seq<string>)
      requires limit > 0
      requires forall ip :: ip in list ==> (ip in eligible <==> keepAll || ip in alive)
      ensures global == Fill([], list, eligible, limit)
    {
      global := [];
      var i := 0;
      while i < |list|
        invariant 0 <= i <= |list|
        invariant global == Fill([], list[..i], eligible, limit)
        invariant |global| < limit
      {
        FillNext([], list, i, eligible, limit);
        if !keepAll && list[i] !in alive {
          i := i + 1;
          continue;
        }
        if list[i] !in global {
          global := global + [list[i]];
        }
        i := i + 1;
        if |global| >= limit {
          FillStops([], list, i, eligible, limit);
          return;
        }
      }
      assert list[..|list|] == list;
    }

    /** Second loop of limitDevices: the report fills the slots that are left. */
    static method FillFromReport(first: seq<string>, ips: seq<string>, alive: seq<string>,
                                 ghost eligible: set<string>, limit: int)
      returns (global: seq<string>)
      requires forall ip :: ip in ips ==> (ip in eligible <==> ip in alive)
      ensures global == Fill(first, ips, eligible, limit)
    {
      global := first;
      var i := 0;
      while i < |ips|
        invariant 0 <= i <= |ips|
        invariant global == Fill(first, ips[..i], eligible, limit)
      {
        if |global| >= limit {
          FillStops(first, ips, i, eligible, limit);
          return;
        }
        FillNext(first, ips, i, eligible, limit);
        if ips[i] in alive && ips[i] !in global {
          global := global + [ips[i]];
        }
        i := i + 1;
      }
      assert ips[..|ips|] == ips;
    }

    /** The closing array_filter of limitDevices. */
    static method KeepAllowed(ips: seq<string>, global: seq<string>) returns (r: seq<string>)
      ensures r == KeepOnly(ips, ToSet(global))
    {
      r := [];
      for k := 0 to |ips|
        invariant r == KeepOnly(ips[..k], ToSet(global))
      {
        assert ips[..k + 1][..k] == ips[..k];
        if ips[k] in global {
          r := r + [ips[k]];
        }
      }
      assert ips[..|ips|] == ips;
    }

    /** limitDevices, against the admission rule. */
    method LimitDevices(ips: seq<string>, limit: int, preferred: Option<seq<string>>, now: int)
      returns (r: seq<string>)
      requires Valid()
      ensures preferred.Some? ==> r == Admit(ips, preferred.value, LiveIps(reported, now), limit)
      ensures preferred.None? ==>
                exists winners :: IsListing(winners, LiveIps(allowed, now))
                                  && r == AdmitReported(ips, winners, LiveIps(reported, now), limit)
    {
      var list;
      if preferred.Some? {
        list := preferred.value;
      } else {
        list := LiveDevices(allowedHash, allowed, now);
      }
      if limit <= 0 {
        return ips;
      }
      var alive := LiveDevices(reportedHash, reported, now);
      ghost var aliveSet := LiveIps(reported, now);
      SameMembers(alive, aliveSet);
      var first := TakeWinners(list, alive, preferred.Some?, if preferred.Some? then ToSet(list) else aliveSet, limit);
      var global := FillFromReport(first, ips, alive, aliveSet, limit);
      r := KeepAllowed(ips, global);
    }

    /**
     setDevices for one report. When the lock is taken nothing changes. Otherwise the
     winners are captured before the node's own entries are removed, so the new state
     is the admission rule applied to the state at entry, for some hash order preferred.
     */
    method SetDevices(node: int, ips: seq<string>, limit: int, now: int) returns (ghost preferred: seq<string>)
      requires Valid()
      modifies this
      ensures Valid() && lockHeld == old(lockHeld)
      ensures old(lockHeld) ==> allowed == old(allowed) && reported == old(reported)
      ensures !old(lockHeld) ==>
                IsListing(preferred, LiveIps(old(allowed), now))
                && reported == ReportedAfter(old(reported), node, Distinct(ips), now)
                && allowed == AllowedAfter(old(allowed), old(reported), node, Distinct(ips), preferred, now, limit)
    {
      if lockHeld {
        return [];
      }
      lockHeld := true;
      var winners := LiveDevices(allowedHash, allowed, now);
      preferred := winners;
      RemoveNodeDevices(node);
      var unique := Unique(ips);
      RemoveNodeReportedDevices(node);
      WriteReported(node, unique, now);
      var admitted := LimitDevices(unique, limit, Some(winners), now);
      WriteAllowed(node, admitted, now);
      lockHeld := false;
    }

    /** The earlier limitDevices: every device still allowed counts, reported or not. */
    method LimitDevicesEarlier(ips: seq<string>, limit: int, now: int) returns (r: seq<string>)
      requires Valid()
      ensures exists others :: IsListing(others, LiveIps(allowed, now)) && r == AdmitOld(ips, others, limit)
    {
      var others := LiveDevices(allowedHash, allowed, now);
      if limit <= 0 {
        assert ips == AdmitOld(ips, others, limit);
        return ips;
      }
      var first := TakeWinners(others, [], true, ToSet(others), limit);
      var global := FillFromReport(first, ips, ips, ToSet(ips), limit);
      r := KeepAllowed(ips, global);
    }

    /** The earlier setDevices: winners are listed only after the node's own entries are gone. */
    method SetDevicesEarlier(node: int, ips: seq<string>, limit: int, now: int) returns (ghost others: seq<string>)
      requires Valid()
      modifies this
      ensures Valid() && lockHeld == old(lockHeld)
      ensures old(lockHeld) ==> allowed == old(allowed) && reported == old(reported)
      ensures !old(lockHeld) ==>
                IsListing(others, LiveIps(WithoutNode(old(allowed), node), now))
                && reported == ReportedAfter(old(reported), node, Distinct(ips), now)
                && allowed == OldAllowedAfter(old(allowed), node, Distinct(ips), others, now, limit)
    {
      if lockHeld {
        return [];
      }
      lockHeld := true;
      RemoveNodeDevices(node);
      var unique := Unique(ips);
      RemoveNodeReportedDevices(node);
      WriteReported(node, unique, now);
      var admitted := LimitDevicesEarlier(unique, limit, now);
      others :| IsListing(others, LiveIps(allowed, now)) && admitted == AdmitOld(unique, others, limit);
      WriteAllowed(node, admitted, now);
      lockHeld := false;
    }

    /** getDeviceCount: distinct live addresses in the reported hash. */
    method GetDeviceCount(now: int) returns (n: nat)
      requires Valid()
      ensures n == |LiveIps(reported, now)|
    {
      var ips := LiveDevices(reportedHash, reported, now);
      ListingSize(ips);
      n := |ips|;
    }

    /** getUsersDevices for one user: the list pushed to the nodes, or nothing. */
    method GetUserDevices(configured: Option<int>, stored: int, now: int)
      returns (r: Option<seq<string>>)
      requires Valid()
      ensures Published(r, allowed, reported, configured, stored, now)
    {
      var live := LiveDevices(allowedHash, allowed, now);
      if live == [] {
        assert PublishedList(live, live, LiveIps(reported, now), configured, stored) == None;
        return None;
      }
      var limit := if configured.Some? then configured.value else stored;
      var list := LimitDevices(live, limit, None, now);
      ghost var winners :| IsListing(winners, LiveIps(allowed, now))
                           && list == AdmitReported(live, winners, LiveIps(reported, now), limit);
      if configured.Some? && configured.value > 1 && |list| > 0 && |list| < configured.value {
        r := None;
      } else {
        r := Some(list);
      }
      assert r == PublishedList(live, winners, LiveIps(reported, now), configured, stored);
    }
  }

  lemma SameMembers(ips: seq<string>, s: set<string>)
    requires ToSet(ips) == s
    ensures forall ip :: ip in ips <==> ip in s
  {
    assert forall ip :: ip in ips <==> ip in ToSet(ips);
  }

  /** Once the list is full, the rest of the input changes nothing: breaking out is safe. */
  lemma {:induction false} FillStops(acc: seq<string>, ips: seq<string>, i: nat, eligible: set<string>, limit: int)
    requires i <= |ips| && |Fill(acc, ips[..i], eligible, limit)| >= limit
    ensures Fill(acc, ips, eligible, limit) == Fill(acc, ips[..i], eligible, limit)
    decreases |ips| - i
  {
    if i == |ips| {
      assert ips[..i] == ips;
    } else {
      FillNext(acc, ips, i, eligible, limit);
      FillStops(acc, ips, i + 1, eligible, limit);
    }
  }
}
