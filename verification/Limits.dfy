/**
 The two fast lookups by authentication UUID: the device limit of a user and its
 shared rate limiter. Both must agree with a scan of the user list.
 */
module Limits {
  import opened Users

  /** Every UUID a user may authenticate with; empty strings never count. */
  function AuthSet(u: UserSpec): set<string>
  {
    set a | a in [u.uuid] + u.aliases && a != ""
  }

  /** AuthUUIDs: the same UUIDs as a list, the primary one first, without repeats. */
  method AuthUUIDs(u: UserSpec) returns (out: seq<string>)
    ensures forall i, j :: 0 <= i < j < |out| ==> out[i] != out[j]
    ensures (set a | a in out) == AuthSet(u)
    ensures u.uuid != "" ==> out != [] && out[0] == u.uuid
  {
    out := if u.uuid != "" then [u.uuid] else [];
    for i := 0 to |u.aliases|
      invariant forall j, k :: 0 <= j < k < |out| ==> out[j] != out[k]
      invariant forall a :: a in out <==> a != "" && (a == u.uuid || a in u.aliases[..i])
      invariant u.uuid != "" ==> out != [] && out[0] == u.uuid
    {
      var alias := u.aliases[i];
      assert u.aliases[..i + 1] == u.aliases[..i] + [alias];
      if alias != "" && alias !in out {
        out := out + [alias];
      }
    }
    assert u.aliases[..|u.aliases|] == u.aliases;
    assert forall a :: a in [u.uuid] + u.aliases <==> a == u.uuid || a in u.aliases;
  }

  /** No UUID belongs to two users. */
  predicate DisjointAuth(m: UserMap)
  {
    forall i, j :: i in m && j in m && i != j ==> AuthSet(m[i]) !! AuthSet(m[j])
  }

  predicate Owns(m: UserMap, i: int, auth: string)
  {
    i in m && auth in AuthSet(m[i])
  }

  /** The UUIDs that belong to a user: its primary one and every alias, unless empty, and no others. */
  lemma OwnedUuids(m: UserMap, i: int, auth: string)
    requires i in m
    ensures Owns(m, i, auth) <==>
              auth != "" && (auth == m[i].uuid || exists k :: 0 <= k < |m[i].aliases| && m[i].aliases[k] == auth)
  {
    assert auth in [m[i].uuid] + m[i].aliases <==> auth == m[i].uuid || auth in m[i].aliases;
  }

  // ---------- device limits ----------

  /** Every entry comes from a limited user, and every UUID of a limited user has an entry. */
  ghost predicate IndexesLimits(index: map<string, int>, m: UserMap, ids: set<int>)
  {
    && (forall a :: a in index ==> exists i :: i in ids && Owns(m, i, a) && 0 < m[i].deviceLimit == index[a])
    && (forall i, a :: i in ids && Owns(m, i, a) && m[i].deviceLimit > 0 ==> a in index)
  }

  lemma IndexOneMore(index: map<string, int>, m: UserMap, ids: set<int>, id: int, auths: seq<string>,
                     index': map<string, int>)
    requires IndexesLimits(index, m, ids) && id in m
    requires (set a | a in auths) == AuthSet(m[id])
    requires m[id].deviceLimit <= 0 ==> index' == index
    requires m[id].deviceLimit > 0 ==>
               forall a :: (a in index' <==> a in index || a in auths)
                           && (a in index' ==> index'[a] == if a in auths then m[id].deviceLimit else index[a])
    ensures IndexesLimits(index', m, ids + {id})
  {
    assert forall a :: a in auths <==> a in AuthSet(m[id]);
    forall a | a in index'
      ensures exists i :: i in ids + {id} && Owns(m, i, a) && 0 < m[i].deviceLimit == index'[a]
    {
      if m[id].deviceLimit > 0 && a in auths {
        assert Owns(m, id, a);
      } else {
        var i :| i in ids && Owns(m, i, a) && 0 < m[i].deviceLimit == index[a];
        assert i in ids + {id};
      }
    }
  }

  /** A scan of the users: the positive limit of the user that owns the UUID. */
  ghost predicate ScanFinds(m: UserMap, auth: string, limit: int)
  {
    exists i :: Owns(m, i, auth) && m[i].deviceLimit == limit && limit > 0
  }

  class Limiter {
    var users: UserMap
    var uuidDeviceLimit: map<string, int>

    ghost predicate Valid()
      reads this
    {
      Keyed(users) && IndexesLimits(uuidDeviceLimit, users, users.Keys)
    }

    constructor ()
      ensures Valid() && users == map[]
    {
      users, uuidDeviceLimit := map[], map[];
    }

    /** UpdateUsers: replaces the users, rebuilds the index, and returns the IDs that disappeared. */
    method UpdateUsers(list: seq<UserSpec>) returns (removed: seq<int>)
      modifies this
      ensures Valid() && users == ById(list)
      ensures forall i :: i in removed <==> i in old(users) && i !in users
      ensures forall i, j :: 0 <= i < j < |removed| ==> removed[i] != removed[j]
    {
      var newUsers := Overlay(map[], list);
      assert map[] + ById(list) == ById(list);
      removed := [];
      var todo := users.Keys;
      while todo != {}
        invariant todo <= users.Keys && users == old(users)
        invariant forall i :: i in removed <==> i in users && i !in todo && i !in newUsers
        invariant forall i, j :: 0 <= i < j < |removed| ==> removed[i] != removed[j]
        decreases todo
      {
        HasElement(todo);
        var id :| id in todo;
        todo := todo - {id};
        if id !in newUsers {
          removed := removed + [id];
        }
      }
      users := newUsers;
      ByIdFacts(list);
      uuidDeviceLimit := BuildIndex(newUsers);
    }

    static method BuildIndex(m: UserMap) returns (index: map<string, int>)
      ensures IndexesLimits(index, m, m.Keys)
    {
      index := map[];
      var todo := m.Keys;
      while todo != {}
        invariant todo <= m.Keys && IndexesLimits(index, m, m.Keys - todo)
        decreases todo
      {
        HasElement(todo);
        var id :| id in todo;
        var auths := AuthUUIDs(m[id]);
        ghost var before := index;
        if m[id].deviceLimit > 0 {
          for k := 0 to |auths|
            invariant forall a :: (a in index <==> a in before || a in auths[..k])
                                  && (a in index ==>
                                        index[a] == if a in auths[..k] then m[id].deviceLimit else before[a])
          {
            assert auths[..k + 1] == auths[..k] + [auths[k]];
            index := index[auths[k] := m[id].deviceLimit];
          }
          assert auths[..|auths|] == auths;
        }
        IndexOneMore(before, m, m.Keys - todo, id, auths, index);
        assert m.Keys - (todo - {id}) == m.Keys - todo + {id};
        todo := todo - {id};
      }
      assert m.Keys - {} == m.Keys;
    }

    /** GetDeviceLimitByUUID: with disjoint UUIDs, exactly what a scan of the users finds. */
    method GetDeviceLimitByUUID(auth: string) returns (limit: int, ok: bool)
      requires Valid() && DisjointAuth(users)
      ensures ok <==> exists l :: ScanFinds(users, auth, l)
      ensures ok ==> ScanFinds(users, auth, limit) && forall l :: ScanFinds(users, auth, l) ==> l == limit
      ensures !ok ==> limit == 0
    {
      ok := auth in uuidDeviceLimit;
      limit := if ok then uuidDeviceLimit[auth] else 0;
      IndexIsScan(uuidDeviceLimit, users, auth);
    }
  }

  /** With disjoint UUIDs a UUID has one owner, so the index and the scan agree in both directions. */
  lemma IndexIsScan(index: map<string, int>, m: UserMap, auth: string)
    requires IndexesLimits(index, m, m.Keys) && DisjointAuth(m)
    ensures auth in index <==> exists l :: ScanFinds(m, auth, l)
    ensures auth in index ==> ScanFinds(m, auth, index[auth])
    ensures forall l :: ScanFinds(m, auth, l) ==> auth in index && l == index[auth]
  {
    if auth in index {
      var i :| i in m && Owns(m, i, auth) && 0 < m[i].deviceLimit == index[auth];
      assert ScanFinds(m, auth, index[auth]);
    }
    forall l | ScanFinds(m, auth, l)
      ensures auth in index && l == index[auth]
    {
      var i :| Owns(m, i, auth) && m[i].deviceLimit == l && l > 0;
      assert i in m.Keys && auth in index;
      var j :| j in m && Owns(m, j, auth) && 0 < m[j].deviceLimit == index[auth];
      assert i == j;
    }
  }

  /** The primary UUID and every alias of a loaded user finds its device limit, and an empty one nothing. */
  lemma EveryUuidFindsItsLimit(index: map<string, int>, m: UserMap, i: int, auth: string)
    requires IndexesLimits(index, m, m.Keys) && DisjointAuth(m) && i in m
    requires auth == m[i].uuid || auth in m[i].aliases
    ensures auth in index <==> auth != "" && m[i].deviceLimit > 0
    ensures auth in index ==> index[auth] == m[i].deviceLimit
  {
    assert auth in m[i].aliases ==> exists k :: 0 <= k < |m[i].aliases| && m[i].aliases[k] == auth;
    OwnedUuids(m, i, auth);
    IndexIsScan(index, m, auth);
    if auth != "" && m[i].deviceLimit > 0 {
      assert ScanFinds(m, auth, m[i].deviceLimit);
    }
    if auth in index {
      var j :| Owns(m, j, auth) && m[j].deviceLimit == index[auth];
      OwnedUuids(m, j, auth);
      assert auth in AuthSet(m[i]) && auth in AuthSet(m[j]);
    }
  }

  // ---------- rate limits ----------

  /** Bytes per second for a limit in megabits per second. */
  function BytesPerSecond(speedLimit: int): int
  {
    speedLimit * 1_000_000 / 8
  }

  /** The burst used when an existing limiter is updated. */
  function UpdatedBurst(bytesPerSec: int): int
  {
    if bytesPerSec < 64 * 1024 then 64 * 1024 else bytesPerSec
  }

  /** The burst used when a limiter is created on demand. */
  function CreatedBurst(bytesPerSec: int): int
  {
    var burst := UpdatedBurst(bytesPerSec);
    if bytesPerSec * 4 > 64 * 1024 && burst > bytesPerSec * 4 then bytesPerSec * 4 else burst
  }

  /** Both ways give the same limiter: rate and burst are 125000 bytes per megabit. */
  lemma SameRates(speedLimit: int)
    requires speedLimit > 0
    ensures BytesPerSecond(speedLimit) == 125_000 * speedLimit
    ensures UpdatedBurst(BytesPerSecond(speedLimit)) == CreatedBurst(BytesPerSecond(speedLimit)) == 125_000 * speedLimit
  {
  }

  /** A token bucket shared by all connections of a user. */
  class RateLimiter {
    var limit: int
    var burst: int

    constructor (limit: int, burst: int)
      ensures this.limit == limit && this.burst == burst
    {
      this.limit, this.burst := limit, burst;
    }
  }

  ghost predicate MapsOwners(uuidMap: map<string, int>, m: UserMap, ids: set<int>)
  {
    && (forall a :: a in uuidMap ==> uuidMap[a] in ids && Owns(m, uuidMap[a], a))
    && (forall i, a :: i in ids && Owns(m, i, a) ==> a in uuidMap)
  }

  lemma MapOneMore(uuidMap: map<string, int>, m: UserMap, ids: set<int>, id: int, auths: seq<string>,
                   uuidMap': map<string, int>)
    requires MapsOwners(uuidMap, m, ids) && id in m
    requires (set a | a in auths) == AuthSet(m[id])
    requires forall a :: (a in uuidMap' <==> a in uuidMap || a in auths)
                         && (a in uuidMap' ==> uuidMap'[a] == if a in auths then id else uuidMap[a])
    ensures MapsOwners(uuidMap', m, ids + {id})
  {
    assert forall a :: a in auths <==> a in AuthSet(m[id]);
  }

  /** With disjoint UUIDs the map finds the one owner of a UUID. */
  lemma OwnerFound(uuidMap: map<string, int>, m: UserMap, auth: string, i: int)
    requires MapsOwners(uuidMap, m, m.Keys) && DisjointAuth(m) && Owns(m, i, auth)
    ensures auth in uuidMap && uuidMap[auth] == i
  {
    assert i in m.Keys && auth in uuidMap;
  }

  /** The primary UUID and every alias of a loaded user leads to the user's bucket. */
  lemma EveryUuidFindsItsUser(uuidMap: map<string, int>, m: UserMap, i: int, auth: string)
    requires MapsOwners(uuidMap, m, m.Keys) && DisjointAuth(m) && i in m
    requires auth == m[i].uuid || auth in m[i].aliases
    ensures auth in uuidMap <==> auth != ""
    ensures auth in uuidMap ==> uuidMap[auth] == i
  {
    assert auth in m[i].aliases ==> exists k :: 0 <= k < |m[i].aliases| && m[i].aliases[k] == auth;
    OwnedUuids(m, i, auth);
    if auth != "" {
      OwnerFound(uuidMap, m, auth, i);
    } else if auth in uuidMap {
      OwnedUuids(m, uuidMap[auth], auth);
    }
  }

  class SpeedTracker {
    const limiter: Limiter
    var buckets: map<int, RateLimiter>
    var uuidMap: map<string, int>
    var hasLimits: bool

    /** Distinct users have distinct limiter objects. */
    ghost predicate Distinct()
      reads this
    {
      forall i, j :: i in buckets && j in buckets && i != j ==> buckets[i] != buckets[j]
    }

    /** A bucket exists only for a loaded user with a speed limit, and carries that limit. */
    ghost predicate RateOk(m: UserMap, i: int)
      requires i in buckets
      reads this, buckets[i]
    {
      i in m && m[i].speedLimit > 0
      && buckets[i].limit == 125_000 * m[i].speedLimit && buckets[i].burst == 125_000 * m[i].speedLimit
    }

    /** In step with the limiter's users, as after UpdateBuckets. */
    ghost predicate Synced()
      reads this, limiter, buckets.Values
    {
      && Distinct()
      && MapsOwners(uuidMap, limiter.users, limiter.users.Keys)
      && (forall i :: i in buckets ==> RateOk(limiter.users, i))
    }

    constructor (l: Limiter)
      ensures limiter == l && buckets == map[] && uuidMap == map[] && Distinct()
    {
      limiter := l;
      buckets, uuidMap, hasLimits := map[], map[], false;
    }

    static method BuildMap(m: UserMap) returns (out: map<string, int>)
      ensures MapsOwners(out, m, m.Keys)
    {
      out := map[];
      var todo := m.Keys;
      while todo != {}
        invariant todo <= m.Keys && MapsOwners(out, m, m.Keys - todo)
        decreases todo
      {
        HasElement(todo);
        var id :| id in todo;
        var auths := AuthUUIDs(m[id]);
        ghost var before := out;
        for k := 0 to |auths|
          invariant forall a :: (a in out <==> a in before || a in auths[..k])
                                && (a in out ==> out[a] == if a in auths[..k] then id else before[a])
        {
          assert auths[..k + 1] == auths[..k] + [auths[k]];
          out := out[auths[k] := id];
        }
        assert auths[..|auths|] == auths;
        MapOneMore(before, m, m.Keys - todo, id, auths, out);
        assert m.Keys - (todo - {id}) == m.Keys - todo + {id};
        todo := todo - {id};
      }
      assert m.Keys - {} == m.Keys;
    }

    /** The first loop of UpdateBuckets: limiters are updated in place, those of unlimited users dropped. */
    method UpdateRates(m: UserMap)
      requires Distinct()
      modifies this`buckets, buckets.Values
      ensures Distinct() && forall i :: i in buckets && i in m ==> RateOk(m, i)
      ensures forall i :: i in buckets <==> i in old(buckets) && (i in m ==> m[i].speedLimit > 0)
      ensures forall i :: i in buckets ==> buckets[i] == old(buckets[i])
    {
      ghost var start := buckets;
      var todo := m.Keys;
      while todo != {}
        invariant todo <= m.Keys && start == old(buckets)
        invariant forall i :: i in buckets <==> i in start && (i !in m || i in todo || m[i].speedLimit > 0)
        invariant forall i :: i in buckets ==> buckets[i] == start[i]
        invariant forall i :: i in buckets && i in m && i !in todo ==> RateOk(m, i)
        decreases todo
      {
        HasElement(todo);
        var id :| id in todo;
        todo := todo - {id};
        if id in buckets {
          if m[id].speedLimit > 0 {
            SameRates(m[id].speedLimit);
            var lim := buckets[id];
            lim.limit := BytesPerSecond(m[id].speedLimit);
            lim.burst := UpdatedBurst(BytesPerSecond(m[id].speedLimit));
          } else {
            buckets := buckets - {id};
          }
        }
      }
    }

    /** The second loop: buckets of users that are gone are dropped. */
    method DropMissing(m: UserMap)
      modifies this`buckets
      ensures forall i :: i in buckets <==> i in old(buckets) && i in m
      ensures forall i :: i in buckets ==> buckets[i] == old(buckets[i])
    {
      var todo := buckets.Keys;
      while todo != {}
        invariant todo <= buckets.Keys
        invariant forall i :: i in buckets <==> i in old(buckets) && (i in m || i in todo)
        invariant forall i :: i in buckets ==> buckets[i] == old(buckets[i])
        decreases todo
      {
        HasElement(todo);
        var id :| id in todo;
        todo := todo - {id};
        if id !in m {
          buckets := buckets - {id};
        }
      }
    }

    method SyncRates(m: UserMap)
      requires Distinct()
      modifies this`buckets, buckets.Values
      ensures Distinct() && forall i :: i in buckets ==> RateOk(m, i)
      ensures forall i :: i in buckets <==> i in old(buckets) && i in m && m[i].speedLimit > 0
      ensures forall i :: i in buckets ==> buckets[i] == old(buckets[i])
    {
      UpdateRates(m);
      DropMissing(m);
    }

    /** UpdateBuckets: after it, lookups agree with the limiter's users; kept limiters are the same objects. */
    method UpdateBuckets()
      requires Distinct()
      modifies this, buckets.Values
      ensures Synced() && hasLimits == (buckets != map[])
      ensures limiter.users == old(limiter.users)
      ensures forall i :: i in buckets <==> i in old(buckets) && i in limiter.users && limiter.users[i].speedLimit > 0
      ensures forall i :: i in buckets ==> buckets[i] == old(buckets[i])
    {
      var m := limiter.users;
      SyncRates(m);
      var newMap := BuildMap(m);
      uuidMap := newMap;
      hasLimits := |buckets| > 0;
    }

    /** The two calls with which the service loads a user list: afterwards both indexes agree with it. */
    method LoadUsers(list: seq<UserSpec>)
      requires Distinct()
      modifies this, limiter, buckets.Values
      ensures limiter.Valid() && Synced() && limiter.users == ById(list)
      ensures forall i :: i in buckets <==> i in old(buckets) && i in ById(list) && ById(list)[i].speedLimit > 0
    {
      var _ := limiter.UpdateUsers(list);
      UpdateBuckets();
    }

    /**
     GetLimiter, also while the limiter's users are newer than the buckets: no limiter for
     unknown UUIDs, and none for a user without a bucket who is unknown or unlimited.
     Otherwise the owner's one bucket, created on demand at the rate of the user's limit.
     In step with the users, the rate is right either way.
     */
    method GetLimiter(auth: string) returns (r: RateLimiter?)
      requires Distinct()
      modifies this
      ensures Distinct() && limiter.users == old(limiter.users) && uuidMap == old(uuidMap)
      ensures r == null <==>
                auth !in uuidMap
                || (uuidMap[auth] !in old(buckets)
                    && !(uuidMap[auth] in limiter.users && limiter.users[uuidMap[auth]].speedLimit > 0))
      ensures r != null ==> uuidMap[auth] in buckets && buckets[uuidMap[auth]] == r
      ensures r != null && uuidMap[auth] !in old(buckets) ==>
                fresh(r) && r.limit == r.burst == 125_000 * limiter.users[uuidMap[auth]].speedLimit
      ensures forall i :: i in old(buckets) ==> i in buckets && buckets[i] == old(buckets[i])
      ensures forall i :: i in buckets && i !in old(buckets) ==> r != null && i == uuidMap[auth]
      ensures old(Synced()) ==> Synced()
      ensures old(Synced()) && r != null ==> RateOk(limiter.users, uuidMap[auth])
    {
      if auth !in uuidMap {
        return null;
      }
      var uid := uuidMap[auth];
      if uid in buckets {
        return buckets[uid];
      }
      if uid !in limiter.users || limiter.users[uid].speedLimit <= 0 {
        return null;
      }
      var bytesPerSec := BytesPerSecond(limiter.users[uid].speedLimit);
      SameRates(limiter.users[uid].speedLimit);
      var lim := new RateLimiter(bytesPerSec, CreatedBurst(bytesPerSec));
      r := AddBucket(uid, lim);
    }

    /** The second check, under the write lock: whoever comes first adds its limiter, everybody gets that one. */
    method AddBucket(uid: int, lim: RateLimiter) returns (r: RateLimiter)
      requires Distinct() && lim !in buckets.Values
      modifies this`buckets, this`hasLimits
      ensures Distinct() && uid in buckets && r == buckets[uid]
      ensures uid in old(buckets) ==> buckets == old(buckets)
      ensures uid !in old(buckets) ==> r == lim && buckets == old(buckets)[uid := lim] && hasLimits
    {
      if uid in buckets {
        return buckets[uid];
      }
      buckets := buckets[uid := lim];
      hasLimits := true;
      r := lim;
    }

    /** Two callers that both found no bucket and made their own limiter end up with the same one. */
    method RacingCallers(uid: int, a: RateLimiter, b: RateLimiter) returns (ra: RateLimiter, rb: RateLimiter)
      requires Distinct() && a != b && a !in buckets.Values && b !in buckets.Values
      modifies this`buckets, this`hasLimits
      ensures ra == rb && uid in buckets && buckets[uid] == ra
    {
      ra := AddBucket(uid, a);
      rb := AddBucket(uid, b);
    }

    /** All UUIDs of one user share one limiter object. */
    method SharedBucket(a: string, b: string, ghost i: int) returns (ra: RateLimiter?, rb: RateLimiter?)
      requires Synced() && DisjointAuth(limiter.users)
      requires Owns(limiter.users, i, a) && Owns(limiter.users, i, b)
      modifies this
      ensures ra == rb
      ensures ra != null <==> limiter.users[i].speedLimit > 0
    {
      OwnerFound(uuidMap, limiter.users, a, i);
      OwnerFound(uuidMap, limiter.users, b, i);
      ra := GetLimiter(a);
      rb := GetLimiter(b);
    }
  }
}
