/**
 The difference between two user lists, and the kernel contract that a full
 replacement is equivalent to removing and adding that difference.
 */
module UserDiff {
  import opened Users

  /** fmt.Sprint of a list of strings. */
  function Render(aliases: seq<string>): string
  {
    "[" + Join(aliases) + "]"
  }

  function Join(aliases: seq<string>): string
  {
    if aliases == [] then ""
    else if |aliases| == 1 then aliases[0]
    else Join(aliases[..|aliases| - 1]) + " " + aliases[|aliases| - 1]
  }

  /** What the kernel authenticates a user by. */
  datatype Identity = Identity(uuid: string, aliases: string)

  function IdentityOf(u: UserSpec): Identity
  {
    Identity(u.uuid, Render(u.aliases))
  }

  function Identities(m: UserMap): map<int, Identity>
  {
    map i | i in m :: IdentityOf(m[i])
  }

  /** The user is missing from the other side, or known there by another identity. */
  predicate Differs(u: UserSpec, other: UserMap)
  {
    u.id !in other || IdentityOf(other[u.id]) != IdentityOf(u)
  }

  function Differing(users: seq<UserSpec>, other: UserMap): seq<UserSpec>
  {
    if users == [] then []
    else
      var front, last := Differing(users[..|users| - 1], other), users[|users| - 1];
      if Differs(last, other) then front + [last] else front
  }

  /** One of the two collecting loops of UserDiff. */
  method Collect(users: seq<UserSpec>, other: UserMap) returns (out: seq<UserSpec>)
    ensures out == Differing(users, other)
  {
    out := [];
    for i := 0 to |users|
      invariant out == Differing(users[..i], other)
    {
      var u := users[i];
      assert users[..i + 1][..i] == users[..i];
      if u.id !in other || other[u.id].uuid != u.uuid || Render(other[u.id].aliases) != Render(u.aliases) {
        out := out + [u];
      }
    }
    assert users[..|users|] == users;
  }

  /** UserDiff: which users to add and which to remove when going from one list to another. */
  method UserDiff(oldUsers: seq<UserSpec>, newUsers: seq<UserSpec>)
    returns (toAdd: seq<UserSpec>, toRemove: seq<UserSpec>)
    ensures toAdd == Differing(newUsers, ById(oldUsers))
    ensures toRemove == Differing(oldUsers, ById(newUsers))
  {
    var oldMap := Overlay(map[], oldUsers);
    var newMap := Overlay(map[], newUsers);
    assert map[] + ById(oldUsers) == ById(oldUsers) && map[] + ById(newUsers) == ById(newUsers);
    toAdd := Collect(newUsers, oldMap);
    toRemove := Collect(oldUsers, newMap);
  }

  lemma {:induction false} DifferingMembers(users: seq<UserSpec>, other: UserMap)
    ensures forall u :: u in Differing(users, other) <==> u in users && Differs(u, other)
    ensures Ids(Differing(users, other)) <= Ids(users)
  {
    if users != [] {
      var front, last := users[..|users| - 1], users[|users| - 1];
      DifferingMembers(front, other);
      assert users == front + [last];
    }
  }

  lemma {:induction false} DifferingUnique(users: seq<UserSpec>, other: UserMap)
    requires UniqueIds(users)
    ensures UniqueIds(Differing(users, other))
  {
    if users != [] {
      var front, last := users[..|users| - 1], users[|users| - 1];
      UniqueFront(users);
      DifferingUnique(front, other);
      DifferingMembers(front, other);
      if Differs(last, other) {
        UniqueSnoc(Differing(front, other), last);
      }
    }
  }

  /** The lists keep the order of the users. */
  lemma {:induction false} DifferingInOrder(a: seq<UserSpec>, b: seq<UserSpec>, other: UserMap)
    ensures Differing(a + b, other) == Differing(a, other) + Differing(b, other)
    decreases |b|
  {
    if b == [] {
      assert a + b == a;
    } else {
      DifferingInOrder(a, b[..|b| - 1], other);
      assert (a + b)[..|a + b| - 1] == a + b[..|b| - 1];
    }
  }

  lemma UniqueLookup(users: seq<UserSpec>, u: UserSpec)
    requires UniqueIds(users) && u in users
    ensures u.id in ById(users) && ById(users)[u.id] == u
  {
    var k :| 0 <= k < |users| && users[k] == u;
    ByIdUnique(users, k);
  }

  /** d holds exactly the users of m that differ from the other side. */
  ghost predicate IsDifference(d: UserMap, m: UserMap, other: UserMap)
  {
    && d.Keys <= m.Keys
    && (forall i :: i in m ==> (i in d <==> Differs(m[i], other)))
    && (forall i :: i in d ==> d[i] == m[i])
  }

  lemma DifferenceOf(users: seq<UserSpec>, other: UserMap)
    requires UniqueIds(users)
    ensures IsDifference(ById(Differing(users, other)), ById(users), other)
  {
    var diff := Differing(users, other);
    DifferingMembers(users, other);
    DifferingUnique(users, other);
    ByIdFacts(users);
    ByIdFacts(diff);
    forall i | i in ById(users) && Differs(ById(users)[i], other)
      ensures i in ById(diff)
    {
      UniqueLookup(diff, ById(users)[i]);
    }
    forall i | i in ById(diff)
      ensures i in ById(users) && ById(diff)[i] == ById(users)[i] && Differs(ById(users)[i], other)
    {
      UniqueLookup(users, ById(diff)[i]);
    }
  }

  /** Applying a difference to an identity map. */
  function Patch(m: map<int, Identity>, toAdd: UserMap, toRemove: UserMap): map<int, Identity>
  {
    (m - toRemove.Keys) + Identities(toAdd)
  }

  lemma PatchExact(was: UserMap, next: UserMap, toAdd: UserMap, toRemove: UserMap)
    requires Keyed(was) && Keyed(next)
    requires IsDifference(toAdd, next, was) && IsDifference(toRemove, was, next)
    ensures Patch(Identities(was), toAdd, toRemove) == Identities(next)
  {
    var l, r := Patch(Identities(was), toAdd, toRemove), Identities(next);
    forall i
      ensures (i in l <==> i in r) && (i in l ==> l[i] == r[i])
    {
      assert i in was ==> was[i].id == i;
      assert i in next ==> next[i].id == i;
    }
  }

  lemma PatchUuids(was: UserMap, next: UserMap, toAdd: UserMap, toRemove: UserMap)
    requires Keyed(was) && Keyed(next)
    requires IsDifference(toAdd, next, was) && IsDifference(toRemove, was, next)
    ensures Uuids(toAdd) + (Uuids(was) - toRemove.Keys) == Uuids(next)
  {
    var l, r := Uuids(toAdd) + (Uuids(was) - toRemove.Keys), Uuids(next);
    forall i
      ensures (i in l <==> i in r) && (i in l ==> l[i] == r[i])
    {
      assert i in was ==> was[i].id == i;
      assert i in next ==> next[i].id == i;
    }
  }

  /**
   The difference is exact: removing and then adding it turns the old identities into
   the new ones, and a user is in one of the lists only if its identity changed.
   */
  lemma UserDiffExact(oldUsers: seq<UserSpec>, newUsers: seq<UserSpec>)
    requires UniqueIds(oldUsers) && UniqueIds(newUsers)
    ensures var was, next := ById(oldUsers), ById(newUsers);
            var toAdd, toRemove := ById(Differing(newUsers, was)), ById(Differing(oldUsers, next));
            && Patch(Identities(was), toAdd, toRemove) == Identities(next)
            && (forall i :: i in toAdd <==> i in next && !(i in was && IdentityOf(was[i]) == IdentityOf(next[i])))
            && (forall i :: i in toRemove <==> i in was && !(i in next && IdentityOf(was[i]) == IdentityOf(next[i])))
  {
    var was, next := ById(oldUsers), ById(newUsers);
    ByIdFacts(oldUsers);
    ByIdFacts(newUsers);
    DifferenceOf(oldUsers, next);
    DifferenceOf(newUsers, was);
    PatchExact(was, next, ById(Differing(newUsers, was)), ById(Differing(oldUsers, next)));
  }

  /**
   The documented equivalence: on a kernel that holds the old users, RemoveUsers and
   AddUsers of the difference leave exactly what UpdateUsers of the new list leaves.
   */
  lemma UpdateIsRemoveThenAdd(oldUsers: seq<UserSpec>, newUsers: seq<UserSpec>)
    requires UniqueIds(oldUsers) && UniqueIds(newUsers)
    ensures var toRemove, toAdd := Differing(oldUsers, ById(newUsers)), Differing(newUsers, ById(oldUsers));
            KernelAdd(Uuids(ById(oldUsers)) - Ids(toRemove), toAdd) == Uuids(ById(newUsers))
  {
    var was, next := ById(oldUsers), ById(newUsers);
    var toAdd, toRemove := Differing(newUsers, was), Differing(oldUsers, next);
    ByIdFacts(oldUsers);
    ByIdFacts(newUsers);
    ByIdFacts(toRemove);
    DifferingUnique(newUsers, was);
    DifferenceOf(oldUsers, next);
    DifferenceOf(newUsers, was);
    KernelAddUnique(Uuids(was) - Ids(toRemove), toAdd);
    PatchUuids(was, next, ById(toAdd), ById(toRemove));
  }

  // ---------- when rendering is faithful ----------

  predicate NoSpace(s: string)
  {
    forall i :: 0 <= i < |s| ==> s[i] != ' '
  }

  /** Aliases that are words: not empty, without spaces. */
  predicate Words(aliases: seq<string>)
  {
    forall k :: 0 <= k < |aliases| ==> aliases[k] != "" && NoSpace(aliases[k])
  }

  lemma CutLastWord(p: string, x: string, q: string, y: string)
    requires NoSpace(x) && NoSpace(y) && p + " " + x == q + " " + y
    ensures p == q && x == y
  {
    if |x| < |y| {
      SpaceBefore(p, x, q, y);
    }
    if |y| < |x| {
      SpaceBefore(q, y, p, x);
    }
    assert (p + " " + x)[..|p|] == p && (q + " " + y)[..|q|] == q;
    assert (p + " " + x)[|p| + 1..] == x && (q + " " + y)[|q| + 1..] == y;
  }

  /** Counted from the end, a shorter last word has a space where a longer one has none. */
  lemma SpaceBefore(p: string, x: string, q: string, y: string)
    requires |x| < |y| && NoSpace(y) && |p| + |x| == |q| + |y|
    ensures p + " " + x != q + " " + y
  {
    assert (p + " " + x)[|p|] == ' ';
    assert (q + " " + y)[|p|] == y[|p| - |q| - 1];
  }

  lemma {:induction false} JoinInjective(a: seq<string>, b: seq<string>)
    requires Words(a) && Words(b) && Join(a) == Join(b)
    ensures a == b
  {
    JoinShape(a);
    JoinShape(b);
    if |a| > 1 && |b| > 1 {
      CutLastWord(Join(a[..|a| - 1]), a[|a| - 1], Join(b[..|b| - 1]), b[|b| - 1]);
      JoinInjective(a[..|a| - 1], b[..|b| - 1]);
      assert a == a[..|a| - 1] + [a[|a| - 1]] && b == b[..|b| - 1] + [b[|b| - 1]];
    }
  }

  lemma JoinShape(a: seq<string>)
    requires Words(a)
    ensures Join(a) == "" <==> a == []
    ensures NoSpace(Join(a)) <==> |a| <= 1
  {
    if |a| > 1 {
      assert Join(a)[|Join(a[..|a| - 1])|] == ' ';
    }
  }

  lemma RenderInjective(a: seq<string>, b: seq<string>)
    requires Words(a) && Words(b) && Render(a) == Render(b)
    ensures a == b
  {
    assert Render(a)[1..|Render(a)| - 1] == Join(a) && Render(b)[1..|Render(b)| - 1] == Join(b);
    JoinInjective(a, b);
  }

  /** UUID and alias list themselves. */
  datatype Credentials = Credentials(uuid: string, aliases: seq<string>)

  function CredentialsOf(m: UserMap): map<int, Credentials>
  {
    map i | i in m :: Credentials(m[i].uuid, m[i].aliases)
  }

  predicate WordAliases(m: UserMap)
  {
    forall i :: i in m ==> Words(m[i].aliases)
  }

  lemma SameCredentials(u: UserSpec, v: UserSpec)
    requires Words(u.aliases) && Words(v.aliases)
    ensures IdentityOf(u) == IdentityOf(v) <==> u.uuid == v.uuid && u.aliases == v.aliases
  {
    if IdentityOf(u) == IdentityOf(v) {
      RenderInjective(u.aliases, v.aliases);
    }
  }

  /** For word aliases the difference is exact on the alias lists, not only on their renderings. */
  lemma UserDiffExactAliases(oldUsers: seq<UserSpec>, newUsers: seq<UserSpec>)
    requires UniqueIds(oldUsers) && UniqueIds(newUsers)
    requires WordAliases(ById(oldUsers)) && WordAliases(ById(newUsers))
    ensures var was, next := ById(oldUsers), ById(newUsers);
            var toAdd, toRemove := ById(Differing(newUsers, was)), ById(Differing(oldUsers, next));
            (CredentialsOf(was) - toRemove.Keys) + CredentialsOf(toAdd) == CredentialsOf(next)
  {
    var was, next := ById(oldUsers), ById(newUsers);
    ByIdFacts(oldUsers);
    ByIdFacts(newUsers);
    DifferenceOf(oldUsers, next);
    DifferenceOf(newUsers, was);
    PatchCredentials(was, next, ById(Differing(newUsers, was)), ById(Differing(oldUsers, next)));
  }

  lemma PatchCredentials(was: UserMap, next: UserMap, toAdd: UserMap, toRemove: UserMap)
    requires Keyed(was) && Keyed(next) && WordAliases(was) && WordAliases(next)
    requires IsDifference(toAdd, next, was) && IsDifference(toRemove, was, next)
    ensures (CredentialsOf(was) - toRemove.Keys) + CredentialsOf(toAdd) == CredentialsOf(next)
  {
    var l, r := (CredentialsOf(was) - toRemove.Keys) + CredentialsOf(toAdd), CredentialsOf(next);
    forall i
      ensures (i in l <==> i in r) && (i in l ==> l[i] == r[i])
    {
      assert i in was ==> was[i].id == i;
      assert i in next ==> next[i].id == i;
      if i in was && i in next {
        SameCredentials(was[i], next[i]);
      }
    }
  }

  /** Identity is by rendering: two different alias lists may be taken for the same. */
  lemma RenderingIsLossy()
    ensures ["a b"] != ["a", "b"] && Render(["a b"]) == Render(["a", "b"])
  {
    assert ["a", "b"][..1] == ["a"];
  }
}
