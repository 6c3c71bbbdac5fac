/**
 Users of a node as Go lists, and the maps keyed by ID that those lists stand for.
 Times are nanoseconds since the epoch; a user's expiry is in whole seconds.
 */
module Users {
  const SECOND := 1_000_000_000

  datatype UserSpec = UserSpec(id: int, uuid: string, aliases: seq<string>, expiredAt: int,
                               speedLimit: int, deviceLimit: int)
  {
    predicate IsExpiredAt(now: int) {
      expiredAt > 0 && now >= expiredAt * SECOND
    }
  }

  type UserMap = map<int, UserSpec>

  /** The map a loop "m[u.ID] = u" builds: the last user with an ID wins. */
  function ById(users: seq<UserSpec>): UserMap
  {
    if users == [] then map[] else ById(users[..|users| - 1])[users[|users| - 1].id := users[|users| - 1]]
  }

  predicate UniqueIds(users: seq<UserSpec>)
  {
    forall i, j :: 0 <= i < j < |users| ==> users[i].id != users[j].id
  }

  /** Every user sits under its own ID. */
  predicate Keyed(m: UserMap)
  {
    forall i :: i in m ==> m[i].id == i
  }

  function Ids(users: seq<UserSpec>): set<int>
  {
    set u | u in users :: u.id
  }

  /** What the kernel knows of a user map: ID to UUID. */
  function Uuids(m: UserMap): map<int, string>
  {
    map i | i in m :: m[i].uuid
  }

  /** The unexpired users, in order. */
  function Active(users: seq<UserSpec>, now: int): seq<UserSpec>
  {
    if users == [] then []
    else
      var front, last := Active(users[..|users| - 1], now), users[|users| - 1];
      if last.IsExpiredAt(now) then front else front + [last]
  }

  function ActiveMap(m: UserMap, now: int): UserMap
  {
    map i | i in m && !m[i].IsExpiredAt(now) :: m[i]
  }

  predicate NoneExpired(m: UserMap, now: int)
  {
    forall i :: i in m ==> !m[i].IsExpiredAt(now)
  }

  /** The users whose ID is not in ids, in order. */
  function Without(users: seq<UserSpec>, ids: set<int>): seq<UserSpec>
  {
    if users == [] then []
    else
      var front, last := Without(users[..|users| - 1], ids), users[|users| - 1];
      if last.id in ids then front else front + [last]
  }

  /**
   A user expires with the second it names, on a clock of nanoseconds: not one nanosecond
   earlier, and never for a zero or negative expiry.
   */
  lemma ExpiresOnTime(u: UserSpec, now: int)
    ensures u.expiredAt <= 0 ==> !u.IsExpiredAt(now)
    ensures u.expiredAt > 0 ==> (u.IsExpiredAt(now) <==> now >= u.expiredAt * 1_000_000_000)
    ensures u.expiredAt == 1_700_000_000 ==>
              u.IsExpiredAt(1_700_000_000_000_000_000) && !u.IsExpiredAt(1_699_999_999_999_999_999)
  {
  }

  // ---------- lists and maps ----------

  lemma ByIdSnoc(users: seq<UserSpec>, u: UserSpec)
    ensures ById(users + [u]) == ById(users)[u.id := u]
  {
    assert (users + [u])[..|users|] == users;
  }

  lemma IdsSnoc(users: seq<UserSpec>, u: UserSpec)
    ensures Ids(users + [u]) == Ids(users) + {u.id}
  {
  }

  lemma {:induction false} ByIdFacts(users: seq<UserSpec>)
    ensures ById(users).Keys == Ids(users)
    ensures Keyed(ById(users))
    ensures forall i :: i in ById(users) ==> ById(users)[i] in users
  {
    if users != [] {
      var front, last := users[..|users| - 1], users[|users| - 1];
      ByIdFacts(front);
      assert users == front + [last];
      IdsSnoc(front, last);
    }
  }

  lemma {:induction false} ByIdUnique(users: seq<UserSpec>, k: nat)
    requires UniqueIds(users) && k < |users|
    ensures users[k].id in ById(users) && ById(users)[users[k].id] == users[k]
  {
    if k < |users| - 1 {
      ByIdUnique(users[..|users| - 1], k);
    }
  }

  lemma UniqueSnoc(users: seq<UserSpec>, u: UserSpec)
    requires UniqueIds(users) && u.id !in Ids(users)
    ensures UniqueIds(users + [u])
  {
    assert forall i :: 0 <= i < |users| ==> users[i].id in Ids(users);
  }

  /** Splits off the last user of a list with unique IDs. */
  lemma UniqueFront(users: seq<UserSpec>)
    requires users != [] && UniqueIds(users)
    ensures UniqueIds(users[..|users| - 1]) && users[|users| - 1].id !in Ids(users[..|users| - 1])
    ensures users == users[..|users| - 1] + [users[|users| - 1]]
  {
  }

  lemma {:induction false} ActiveMembers(users: seq<UserSpec>, now: int)
    ensures forall u :: u in Active(users, now) <==> u in users && !u.IsExpiredAt(now)
    ensures Ids(Active(users, now)) <= Ids(users)
  {
    if users != [] {
      var front, last := users[..|users| - 1], users[|users| - 1];
      ActiveMembers(front, now);
      assert users == front + [last];
    }
  }

  lemma {:induction false} ActiveUnique(users: seq<UserSpec>, now: int)
    requires UniqueIds(users)
    ensures UniqueIds(Active(users, now))
  {
    if users != [] {
      UniqueFront(users);
      ActiveUnique(users[..|users| - 1], now);
      ActiveMembers(users[..|users| - 1], now);
      if !users[|users| - 1].IsExpiredAt(now) {
        UniqueSnoc(Active(users[..|users| - 1], now), users[|users| - 1]);
      }
    }
  }

  /** Filtering expired users in a list or in its map is the same, when IDs are unique. */
  lemma {:induction false} ActiveById(users: seq<UserSpec>, now: int)
    requires UniqueIds(users)
    ensures ById(Active(users, now)) == ActiveMap(ById(users), now)
  {
    if users != [] {
      var front, last := users[..|users| - 1], users[|users| - 1];
      UniqueFront(users);
      ActiveById(front, now);
      ByIdFacts(front);
      ByIdSnoc(Active(front, now), last);
      ActiveMapInsert(ById(front), last, now);
    }
  }

  lemma ActiveMapInsert(m: UserMap, u: UserSpec, now: int)
    requires u.id !in m
    ensures ActiveMap(m[u.id := u], now)
         == if u.IsExpiredAt(now) then ActiveMap(m, now) else ActiveMap(m, now)[u.id := u]
  {
  }

  lemma {:induction false} ActiveIdempotent(users: seq<UserSpec>, now: int)
    requires forall u :: u in users ==> !u.IsExpiredAt(now)
    ensures Active(users, now) == users
  {
    if users != [] {
      ActiveIdempotent(users[..|users| - 1], now);
    }
  }

  /** Filtering keeps the order: it can be done part by part. */
  lemma {:induction false} ActiveInOrder(a: seq<UserSpec>, b: seq<UserSpec>, now: int)
    ensures Active(a + b, now) == Active(a, now) + Active(b, now)
    decreases |b|
  {
    if b == [] {
      assert a + b == a;
    } else {
      ActiveInOrder(a, b[..|b| - 1], now);
      assert (a + b)[..|a + b| - 1] == a + b[..|b| - 1];
    }
  }

  lemma {:induction false} WithoutInOrder(a: seq<UserSpec>, b: seq<UserSpec>, ids: set<int>)
    ensures Without(a + b, ids) == Without(a, ids) + Without(b, ids)
    decreases |b|
  {
    if b == [] {
      assert a + b == a;
    } else {
      WithoutInOrder(a, b[..|b| - 1], ids);
      assert (a + b)[..|a + b| - 1] == a + b[..|b| - 1];
    }
  }

  lemma {:induction false} ActiveShorter(users: seq<UserSpec>, now: int)
    ensures |Active(users, now)| <= |users|
    ensures |Active(users, now)| == |users| <==> forall u :: u in users ==> !u.IsExpiredAt(now)
    ensures |Active(users, now)| == |users| ==> Active(users, now) == users
  {
    if users != [] {
      var front, last := users[..|users| - 1], users[|users| - 1];
      ActiveShorter(front, now);
      assert users == front + [last];
      assert forall u :: u in users <==> u in front || u == last;
    }
  }

  lemma {:induction false} WithoutMembers(users: seq<UserSpec>, ids: set<int>)
    ensures forall u :: u in Without(users, ids) <==> u in users && u.id !in ids
    ensures Ids(Without(users, ids)) <= Ids(users)
  {
    if users != [] {
      var front, last := users[..|users| - 1], users[|users| - 1];
      WithoutMembers(front, ids);
      assert users == front + [last];
    }
  }

  lemma {:induction false} WithoutUnique(users: seq<UserSpec>, ids: set<int>)
    requires UniqueIds(users)
    ensures UniqueIds(Without(users, ids))
  {
    if users != [] {
      UniqueFront(users);
      WithoutUnique(users[..|users| - 1], ids);
      WithoutMembers(users[..|users| - 1], ids);
      if users[|users| - 1].id !in ids {
        UniqueSnoc(Without(users[..|users| - 1], ids), users[|users| - 1]);
      }
    }
  }

  lemma {:induction false} WithoutById(users: seq<UserSpec>, ids: set<int>)
    ensures ById(Without(users, ids)) == ById(users) - ids
  {
    if users != [] {
      var front, last := users[..|users| - 1], users[|users| - 1];
      WithoutById(front, ids);
      if last.id !in ids {
        ByIdSnoc(Without(front, ids), last);
      }
    }
  }

  // ---------- the in-place filter ----------

  /** The backing array after filtering in place: the unexpired users, then whatever was there. */
  function InPlace(users: seq<UserSpec>, now: int): seq<UserSpec>
  {
    ActiveShorter(users, now);
    Active(users, now) + users[|Active(users, now)|..]
  }

  lemma ActiveNext(users: seq<UserSpec>, i: nat, now: int)
    requires i < |users|
    ensures Active(users[..i + 1], now)
         == Active(users[..i], now) + (if users[i].IsExpiredAt(now) then [] else [users[i]])
  {
    assert users[..i + 1][..i] == users[..i];
  }

  lemma SameTail(all: seq<UserSpec>, was: seq<UserSpec>, m: nat, n: nat)
    requires m <= n <= |all| == |was| && all[m..] == was[m..]
    ensures all[..n] == all[..m] + was[..n][m..] && all[n..] == was[n..]
  {
    forall k | m <= k < |all|
      ensures all[k] == was[k]
    {
      assert all[m..][k - m] == was[m..][k - m];
    }
  }

  /** activeUsersAt: filters the first n users of the array in place and returns how many are left. */
  method ActiveUsersAt(a: array<UserSpec>, n: nat, now: int) returns (m: nat)
    requires n <= a.Length
    modifies a
    ensures m <= n && a[..m] == Active(old(a[..n]), now)
    ensures a[..n] == InPlace(old(a[..n]), now) && a[n..] == old(a[n..])
  {
    m := 0;
    ghost var before := a[..n];
    for i := 0 to n
      invariant m <= i && a[..m] == Active(before[..i], now) && a[m..] == old(a[..])[m..]
    {
      var u := a[i];
      assert u == a[m..][i - m] == before[i];
      ActiveNext(before, i, now);
      if !u.IsExpiredAt(now) {
        a[m] := u;
        m := m + 1;
      }
    }
    assert before[..n] == before;
    SameTail(a[..], old(a[..]), m, n);
  }

  // ---------- merging and subtracting ----------

  lemma OverlayInsert(m: UserMap, d: UserMap, u: UserSpec)
    ensures (m + d)[u.id := u] == m + d[u.id := u]
  {
  }

  lemma OverlayNext(m: UserMap, users: seq<UserSpec>, i: nat)
    requires i < |users|
    ensures m + ById(users[..i + 1]) == (m + ById(users[..i]))[users[i].id := users[i]]
  {
    assert users[..i + 1] == users[..i] + [users[i]];
    ByIdSnoc(users[..i], users[i]);
    OverlayInsert(m, ById(users[..i]), users[i]);
  }

  /** The loop "for _, u := range users { m[u.ID] = u }". */
  method Overlay(start: UserMap, users: seq<UserSpec>) returns (m: UserMap)
    ensures m == start + ById(users)
  {
    m := start;
    for i := 0 to |users|
      invariant m == start + ById(users[..i])
    {
      OverlayNext(start, users, i);
      m := m[users[i].id := users[i]];
    }
    assert users[..|users|] == users;
  }

  lemma EmptySet(s: set<int>)
    ensures s == {} <==> forall x :: x !in s
  {
    assert (forall x :: x !in s) ==> s == {};
  }

  lemma HasElement(s: set<int>)
    requires s != {}
    ensures exists x :: x in s
  {
    assert (forall x :: x !in s) ==> s == {};
  }

  lemma CommonElement(a: set<int>, b: set<int>)
    requires !(a !! b)
    ensures exists x :: x in a && x in b
  {
    assert (forall x :: x in a ==> x !in b) ==> a !! b;
  }

  lemma ValuesNext(m: UserMap, todo: set<int>, out: seq<UserSpec>, id: int)
    requires Keyed(m) && id in todo && todo <= m.Keys
    requires UniqueIds(out) && Ids(out) == m.Keys - todo && ById(out) == m - todo
    ensures var next := out + [m[id]];
            UniqueIds(next) && Ids(next) == m.Keys - (todo - {id}) && ById(next) == m - (todo - {id})
  {
    ByIdSnoc(out, m[id]);
    IdsSnoc(out, m[id]);
    UniqueSnoc(out, m[id]);
    PutBack(m, todo, id);
  }

  lemma PutBack(m: UserMap, todo: set<int>, id: int)
    requires id in todo && todo <= m.Keys
    ensures m - (todo - {id}) == (m - todo)[id := m[id]]
  {
  }

  /** The values of a map, in Go's arbitrary iteration order. */
  method Values(m: UserMap) returns (out: seq<UserSpec>)
    requires Keyed(m)
    ensures ById(out) == m && UniqueIds(out)
  {
    out := [];
    var todo := m.Keys;
    while todo != {}
      invariant todo <= m.Keys
      invariant UniqueIds(out) && Ids(out) == m.Keys - todo && ById(out) == m - todo
      decreases todo
    {
      HasElement(todo);
      var id :| id in todo;
      ValuesNext(m, todo, out, id);
      todo := todo - {id};
      out := out + [m[id]];
    }
    assert m - {} == m;
  }

  /** mergeUsers: overlays delta on base. */
  method MergeUsers(base: seq<UserSpec>, delta: seq<UserSpec>) returns (out: seq<UserSpec>)
    ensures ById(out) == ById(base) + ById(delta) && UniqueIds(out)
  {
    var m := Overlay(map[], base);
    m := Overlay(m, delta);
    assert map[] + ById(base) == ById(base);
    ByIdFacts(base);
    ByIdFacts(delta);
    out := Values(m);
  }

  /** subtractUsers: base without the users of delta, in order. */
  method SubtractUsers(base: seq<UserSpec>, delta: seq<UserSpec>) returns (out: seq<UserSpec>)
    ensures out == Without(base, Ids(delta))
  {
    var removeSet: set<int> := {};
    for i := 0 to |delta|
      invariant removeSet == Ids(delta[..i])
    {
      assert delta[..i + 1] == delta[..i] + [delta[i]];
      IdsSnoc(delta[..i], delta[i]);
      removeSet := removeSet + {delta[i].id};
    }
    assert delta[..|delta|] == delta;
    out := [];
    for i := 0 to |base|
      invariant out == Without(base[..i], removeSet)
    {
      assert base[..i + 1][..i] == base[..i];
      if base[i].id !in removeSet {
        out := out + [base[i]];
      }
    }
    assert base[..|base|] == base;
  }

  // ---------- the kernel's user operations ----------

  /** AddUsers by contract: users already present are silently skipped, also repeats within the list. */
  function KernelAdd(kernel: map<int, string>, users: seq<UserSpec>): map<int, string>
  {
    if users == [] then kernel
    else
      var k, u := KernelAdd(kernel, users[..|users| - 1]), users[|users| - 1];
      if u.id in k then k else k[u.id := u.uuid]
  }

  lemma {:induction false} KernelAddUnique(kernel: map<int, string>, users: seq<UserSpec>)
    requires UniqueIds(users)
    ensures KernelAdd(kernel, users) == Uuids(ById(users)) + kernel
  {
    if users != [] {
      var front, last := users[..|users| - 1], users[|users| - 1];
      UniqueFront(users);
      KernelAddUnique(kernel, front);
      ByIdFacts(front);
      UuidsInsert(ById(front), last);
      OverlayOne(Uuids(ById(front)), kernel, last.id, last.uuid);
    }
  }

  lemma OverlayOne(m: map<int, string>, kernel: map<int, string>, id: int, uuid: string)
    ensures m[id := uuid] + kernel == if id in kernel then m + kernel else (m + kernel)[id := uuid]
  {
  }

  lemma UuidsInsert(m: UserMap, u: UserSpec)
    ensures Uuids(m[u.id := u]) == Uuids(m)[u.id := u.uuid]
  {
  }
}
