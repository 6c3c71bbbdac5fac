/**
 Traffic accounting on the node: the kernel's cumulative counters, which restart from
 zero now and then, are turned into deltas that wait to be pushed.
 */
module Tracker {
  import opened Users

  /** Bytes in both directions. */
  datatype Bytes = Bytes(up: int, down: int)
  {
    function Plus(other: Bytes): Bytes {
      Bytes(up + other.up, down + other.down)
    }

    predicate NonNegative() {
      up >= 0 && down >= 0
    }
  }

  type Traffic = map<int, Bytes>

  const ZERO := Bytes(0, 0)

  /** A Go map read: the zero value for a missing key. */
  function Get(m: Traffic, uid: int): Bytes
  {
    if uid in m then m[uid] else ZERO
  }

  /** The delta of one counter; a counter below its last value has been reset. */
  function Delta(prev: int, cum: int): int
  {
    if cum - prev < 0 then cum else cum - prev
  }

  function DeltaOf(prev: Bytes, cum: Bytes): Bytes
  {
    Bytes(Delta(prev.up, cum.up), Delta(prev.down, cum.down))
  }

  predicate Moved(prev: Bytes, cum: Bytes)
  {
    DeltaOf(prev, cum).up > 0 || DeltaOf(prev, cum).down > 0
  }

  /** Users that get a pending entry from these readings. */
  function Movers(lastSeen: Traffic, cum: Traffic, uids: set<int>): set<int>
  {
    set u | u in uids && u in cum && Moved(Get(lastSeen, u), cum[u])
  }

  /** Pending traffic after the readings of the given users have been processed. */
  function PendingAfter(lastSeen: Traffic, pending: Traffic, cum: Traffic, uids: set<int>): Traffic
  {
    map u | u in pending.Keys + Movers(lastSeen, cum, uids) ::
      if u in Movers(lastSeen, cum, uids) then Get(pending, u).Plus(DeltaOf(Get(lastSeen, u), cum[u])) else pending[u]
  }

  /** Both maps added user by user. */
  function Merge(a: Traffic, b: Traffic): Traffic
  {
    map u | u in a.Keys + b.Keys :: if u in b then Get(a, u).Plus(b[u]) else a[u]
  }

  /** Pending traffic after one reading of one user. */
  function Recorded(pending: Traffic, uid: int, prev: Bytes, cum: Bytes): Traffic
  {
    if Moved(prev, cum) then pending[uid := Get(pending, uid).Plus(DeltaOf(prev, cum))] else pending
  }

  function SeenAfter(lastSeen: Traffic, cum: Traffic, uids: set<int>): Traffic
  {
    lastSeen + Only(cum, uids)
  }

  lemma MoversOneMore(lastSeen: Traffic, cum: Traffic, uids: set<int>, uid: int)
    requires uid in cum && uid !in uids
    ensures Movers(lastSeen, cum, uids + {uid})
         == Movers(lastSeen, cum, uids) + (if Moved(Get(lastSeen, uid), cum[uid]) then {uid} else {})
    ensures uid !in Movers(lastSeen, cum, uids)
  {
  }

  lemma PendingOneMore(lastSeen: Traffic, pending: Traffic, cum: Traffic, uids: set<int>, uid: int)
    requires uid in cum && uid !in uids
    ensures PendingAfter(lastSeen, pending, cum, uids + {uid})
         == Recorded(PendingAfter(lastSeen, pending, cum, uids), uid, Get(lastSeen, uid), cum[uid])
  {
    MoversOneMore(lastSeen, cum, uids, uid);
    var l := PendingAfter(lastSeen, pending, cum, uids + {uid});
    var r := Recorded(PendingAfter(lastSeen, pending, cum, uids), uid, Get(lastSeen, uid), cum[uid]);
    forall u
      ensures (u in l <==> u in r) && (u in l ==> l[u] == r[u])
    {
    }
  }

  lemma SeenOneMore(lastSeen: Traffic, cum: Traffic, uids: set<int>, uid: int)
    requires uid in cum && uid !in uids
    ensures SeenAfter(lastSeen, cum, uids + {uid}) == SeenAfter(lastSeen, cum, uids)[uid := cum[uid]]
    ensures Get(SeenAfter(lastSeen, cum, uids), uid) == Get(lastSeen, uid)
  {
  }

  lemma NothingRead(lastSeen: Traffic, pending: Traffic, cum: Traffic)
    ensures PendingAfter(lastSeen, pending, cum, {}) == pending
    ensures SeenAfter(lastSeen, cum, {}) == lastSeen
  {
    assert Movers(lastSeen, cum, {}) == {};
  }

  lemma AllRead(lastSeen: Traffic, cum: Traffic)
    ensures SeenAfter(lastSeen, cum, cum.Keys) == lastSeen + cum
  {
    assert Only(cum, cum.Keys) == cum;
  }

  lemma MergeOneMore(a: Traffic, b: Traffic, part: set<int>, uid: int)
    requires uid in b && uid !in part && part <= b.Keys
    ensures Merge(a, Only(b, part + {uid}))
         == var m := Merge(a, Only(b, part));
            m[uid := Get(m, uid).Plus(b[uid])]
  {
    var p, q := Only(b, part), Only(b, part + {uid});
    assert q == p[uid := b[uid]];
    assert q.Keys == p.Keys + {uid};
  }

  function Only(m: Traffic, part: set<int>): Traffic
  {
    map u | u in m && u in part :: m[u]
  }

  class Tracker {
    var lastSeen: Traffic
    var pendingTraffic: Traffic

    constructor ()
      ensures lastSeen == map[] && pendingTraffic == map[]
    {
      lastSeen, pendingTraffic := map[], map[];
    }

    /** One user's reading: the loop body of Process. */
    method Record(uid: int, cum: Bytes)
      modifies this
      ensures lastSeen == old(lastSeen)[uid := cum]
      ensures pendingTraffic == Recorded(old(pendingTraffic), uid, Get(old(lastSeen), uid), cum)
    {
      var prev := Get(lastSeen, uid);
      var deltaUp := cum.up - prev.up;
      var deltaDown := cum.down - prev.down;
      if deltaUp < 0 {
        deltaUp := cum.up;
      }
      if deltaDown < 0 {
        deltaDown := cum.down;
      }
      lastSeen := lastSeen[uid := cum];
      if deltaUp > 0 || deltaDown > 0 {
        var cur := Get(pendingTraffic, uid);
        pendingTraffic := pendingTraffic[uid := Bytes(cur.up + deltaUp, cur.down + deltaDown)];
      }
    }

    /** Process: one reading of the cumulative counters. */
    method Process(cumTraffic: Traffic)
      modifies this
      ensures lastSeen == old(lastSeen) + cumTraffic
      ensures pendingTraffic == PendingAfter(old(lastSeen), old(pendingTraffic), cumTraffic, cumTraffic.Keys)
    {
      var todo := cumTraffic.Keys;
      NothingRead(lastSeen, pendingTraffic, cumTraffic);
      assert cumTraffic.Keys - todo == {};
      while todo != {}
        invariant todo <= cumTraffic.Keys
        invariant lastSeen == SeenAfter(old(lastSeen), cumTraffic, cumTraffic.Keys - todo)
        invariant pendingTraffic == PendingAfter(old(lastSeen), old(pendingTraffic), cumTraffic, cumTraffic.Keys - todo)
        decreases todo
      {
        HasElement(todo);
        var uid :| uid in todo;
        SeenOneMore(old(lastSeen), cumTraffic, cumTraffic.Keys - todo, uid);
        PendingOneMore(old(lastSeen), old(pendingTraffic), cumTraffic, cumTraffic.Keys - todo, uid);
        Record(uid, cumTraffic[uid]);
        assert cumTraffic.Keys - (todo - {uid}) == cumTraffic.Keys - todo + {uid};
        todo := todo - {uid};
      }
      assert cumTraffic.Keys - {} == cumTraffic.Keys;
      AllRead(old(lastSeen), cumTraffic);
    }

    /** FlushTraffic: hands over the pending traffic and starts afresh. */
    method FlushTraffic() returns (data: Traffic)
      modifies this`pendingTraffic
      ensures data == old(pendingTraffic) && pendingTraffic == map[]
    {
      data := pendingTraffic;
      pendingTraffic := map[];
    }

    /** RestoreTraffic: takes back what could not be pushed. */
    method RestoreTraffic(data: Traffic)
      modifies this`pendingTraffic
      ensures pendingTraffic == Merge(old(pendingTraffic), data)
    {
      var todo := data.Keys;
      assert Only(data, data.Keys - todo) == map[];
      while todo != {}
        invariant todo <= data.Keys
        invariant pendingTraffic == Merge(old(pendingTraffic), Only(data, data.Keys - todo))
        decreases todo
      {
        HasElement(todo);
        var uid :| uid in todo;
        MergeOneMore(old(pendingTraffic), data, data.Keys - todo, uid);
        pendingTraffic := pendingTraffic[uid := Get(pendingTraffic, uid).Plus(data[uid])];
        assert data.Keys - (todo - {uid}) == data.Keys - todo + {uid};
        todo := todo - {uid};
      }
      assert data.Keys - {} == data.Keys;
      assert Only(data, data.Keys) == data;
    }
  }
}
