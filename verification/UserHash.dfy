/**
 The byte string whose SHA-256 detects changes of the user list. SHA-256 itself is
 not part of this model: the digest is represented by its preimage.
 */
module UserHash {
  import opened Users

  /** A byte string. Text is written byte by byte: strings are ASCII, as UUIDs are. */
  type Digest = seq<int>

  const WORD := 0x1_0000_0000_0000_0000
  const INT64_LIMIT := 0x8000_0000_0000_0000

  /** uint64(x): two's complement of a 64-bit integer. */
  function Uint64(x: int): nat
  {
    x % WORD
  }

  function Power256(k: nat): nat
  {
    if k == 0 then 1 else 256 * Power256(k - 1)
  }

  /** The k low bytes of x, least significant first. */
  function LittleEndian(x: nat, k: nat): (bytes: Digest)
    ensures |bytes| == k
  {
    if k == 0 then [] else [x % 256] + LittleEndian(x / 256, k - 1)
  }

  function Word(x: int): Digest
  {
    LittleEndian(Uint64(x), 8)
  }

  function Text(s: string): (bytes: Digest)
    ensures |bytes| == |s|
    ensures forall i :: 0 <= i < |s| ==> bytes[i] == s[i] as int
  {
    seq(|s|, i requires 0 <= i < |s| => s[i] as int)
  }

  /** Each alias, followed by a zero byte. */
  function AliasBytes(aliases: seq<string>): Digest
  {
    if aliases == [] then [] else AliasBytes(aliases[..|aliases| - 1]) + Text(aliases[|aliases| - 1]) + [0]
  }

  /** The bytes written for one user. */
  function Record(u: UserSpec): Digest
  {
    Word(u.id) + Text(u.uuid) + Word(u.expiredAt) + AliasBytes(u.aliases) + Word(u.speedLimit) + Word(u.deviceLimit)
  }

  function Preimage(users: seq<UserSpec>): Digest
  {
    if users == [] then [] else Preimage(users[..|users| - 1]) + Record(users[|users| - 1])
  }

  /** The layout of a record, byte by byte, for one user. */
  lemma RecordLayout()
    ensures Record(UserSpec(1, "ab", ["c"], 2, 3, 4))
         == [1, 0, 0, 0, 0, 0, 0, 0] + [97, 98] + [2, 0, 0, 0, 0, 0, 0, 0] + [99, 0]
            + [3, 0, 0, 0, 0, 0, 0, 0] + [4, 0, 0, 0, 0, 0, 0, 0]
  {
    assert Text("ab") == [97, 98] && Text("c") == [99];
    assert ["c"][..0] == [];
    assert AliasBytes(["c"]) == [99, 0];
    SmallWords();
  }

  lemma SmallWords()
    ensures Word(1) == [1, 0, 0, 0, 0, 0, 0, 0] && Word(2) == [2, 0, 0, 0, 0, 0, 0, 0]
    ensures Word(3) == [3, 0, 0, 0, 0, 0, 0, 0] && Word(4) == [4, 0, 0, 0, 0, 0, 0, 0]
  {
    LittleEndianSmall(1, 8);
    LittleEndianSmall(2, 8);
    LittleEndianSmall(3, 8);
    LittleEndianSmall(4, 8);
  }

  // ---------- sorting ----------

  predicate SortedById(users: seq<UserSpec>)
  {
    forall i, j :: 0 <= i < j < |users| ==> users[i].id <= users[j].id
  }

  predicate StrictlySorted(users: seq<UserSpec>)
  {
    forall i, j :: 0 <= i < j < |users| ==> users[i].id < users[j].id
  }

  function Insert(users: seq<UserSpec>, u: UserSpec): seq<UserSpec>
  {
    if users == [] || users[|users| - 1].id <= u.id then users + [u]
    else Insert(users[..|users| - 1], u) + [users[|users| - 1]]
  }

  lemma SortedSnoc(users: seq<UserSpec>, u: UserSpec)
    requires forall v :: v in users ==> v.id <= u.id
    ensures SortedById(users) ==> SortedById(users + [u])
    ensures StrictlySorted(users) && u.id !in Ids(users) ==> StrictlySorted(users + [u])
  {
    assert forall i :: 0 <= i < |users| ==> users[i].id in Ids(users);
  }

  lemma {:induction false} InsertMembers(users: seq<UserSpec>, u: UserSpec)
    ensures multiset(Insert(users, u)) == multiset(users) + multiset{u}
    ensures forall v :: v in Insert(users, u) <==> v in users || v == u
  {
    if users != [] && users[|users| - 1].id > u.id {
      var front, last := users[..|users| - 1], users[|users| - 1];
      InsertMembers(front, u);
      assert users == front + [last];
    }
  }

  lemma {:induction false} InsertSorted(users: seq<UserSpec>, u: UserSpec)
    requires SortedById(users)
    ensures SortedById(Insert(users, u))
  {
    if users != [] && users[|users| - 1].id > u.id {
      var front, last := users[..|users| - 1], users[|users| - 1];
      InsertSorted(front, u);
      InsertMembers(front, u);
      SortedSnoc(Insert(front, u), last);
    } else {
      SortedSnoc(users, u);
    }
  }

  lemma InsertIds(users: seq<UserSpec>, u: UserSpec)
    ensures Ids(Insert(users, u)) == Ids(users) + {u.id}
  {
    InsertMembers(users, u);
  }

  lemma {:induction false} InsertStrict(users: seq<UserSpec>, u: UserSpec)
    requires StrictlySorted(users) && u.id !in Ids(users)
    ensures StrictlySorted(Insert(users, u))
  {
    if users != [] && users[|users| - 1].id > u.id {
      var front, last := users[..|users| - 1], users[|users| - 1];
      assert Ids(front) <= Ids(users);
      InsertStrict(front, u);
      InsertMembers(front, u);
      InsertIds(front, u);
      LastIsNew(users);
      SortedSnoc(Insert(front, u), last);
    } else {
      SortedSnoc(users, u);
    }
  }

  lemma {:induction false} InsertById(users: seq<UserSpec>, u: UserSpec)
    requires u.id !in Ids(users)
    ensures ById(Insert(users, u)) == ById(users)[u.id := u]
  {
    if users != [] && users[|users| - 1].id > u.id {
      var front, last := users[..|users| - 1], users[|users| - 1];
      assert last.id in Ids(users) && Ids(front) <= Ids(users);
      InsertById(front, u);
      ByIdSnoc(Insert(front, u), last);
      Commute(ById(front), u, last);
    } else {
      ByIdSnoc(users, u);
    }
  }

  lemma Commute(m: UserMap, u: UserSpec, v: UserSpec)
    requires u.id != v.id
    ensures m[u.id := u][v.id := v] == m[v.id := v][u.id := u]
  {
  }

  lemma LastIsNew(users: seq<UserSpec>)
    requires users != [] && StrictlySorted(users)
    ensures users[|users| - 1].id !in Ids(users[..|users| - 1])
    ensures forall v :: v in users[..|users| - 1] ==> v.id < users[|users| - 1].id
  {
  }

  ghost function LargestKey(m: UserMap): (k: int)
    requires m != map[]
    ensures k in m && forall i :: i in m ==> i <= k
  {
    assert m.Keys != {};
    HasLargest(m.Keys);
    var k :| k in m.Keys && forall i :: i in m.Keys ==> i <= k;
    k
  }

  /** The users of a map in ascending order of ID. */
  ghost function Canonical(m: UserMap): seq<UserSpec>
    decreases |m|
  {
    if m == map[] then []
    else
      var k := LargestKey(m);
      Canonical(m - {k}) + [m[k]]
  }

  lemma {:induction false} CanonicalById(m: UserMap)
    requires Keyed(m)
    ensures ById(Canonical(m)) == m
    decreases |m|
  {
    if m != map[] {
      var k := LargestKey(m);
      CanonicalById(m - {k});
      ByIdSnoc(Canonical(m - {k}), m[k]);
      assert m == (m - {k})[k := m[k]];
    }
  }

  lemma {:induction false} CanonicalSorted(m: UserMap)
    requires Keyed(m)
    ensures StrictlySorted(Canonical(m))
    decreases |m|
  {
    if m != map[] {
      var k := LargestKey(m);
      var front := Canonical(m - {k});
      CanonicalSorted(m - {k});
      CanonicalById(m - {k});
      ByIdFacts(front);
      assert forall v :: v in front ==> v.id in Ids(front);
      SortedSnoc(front, m[k]);
    }
  }

  lemma {:induction false} HasLargest(s: set<int>)
    requires s != {}
    ensures exists k :: k in s && forall i :: i in s ==> i <= k
  {
    HasElement(s);
    var x :| x in s;
    var rest := s - {x};
    assert forall i :: i in s ==> i in rest || i == x;
    if rest != {} {
      HasLargest(rest);
      var y :| y in rest && forall i :: i in rest ==> i <= y;
      var z := if x > y then x else y;
      assert z in s;
    }
  }

  /** A list sorted by unique IDs is determined by its map. */
  lemma {:induction false} SortedUnique(a: seq<UserSpec>, b: seq<UserSpec>)
    requires StrictlySorted(a) && StrictlySorted(b) && ById(a) == ById(b)
    ensures a == b
  {
    ByIdFacts(a);
    ByIdFacts(b);
    assert a != [] ==> a[|a| - 1].id in Ids(b);
    assert b != [] ==> b[|b| - 1].id in Ids(a);
    if a != [] && b != [] {
      var x, y := a[|a| - 1], b[|b| - 1];
      assert x.id == y.id;
      assert ById(a)[x.id] == x && ById(b)[y.id] == y;
      DropLast(a);
      DropLast(b);
      SortedUnique(a[..|a| - 1], b[..|b| - 1]);
    }
  }

  lemma DropLast(a: seq<UserSpec>)
    requires a != [] && StrictlySorted(a)
    ensures ById(a[..|a| - 1]) == ById(a) - {a[|a| - 1].id}
  {
    var front, last := a[..|a| - 1], a[|a| - 1];
    LastIsNew(a);
    ByIdFacts(front);
    RemoveInserted(ById(front), last);
  }

  lemma RemoveInserted(m: UserMap, u: UserSpec)
    requires u.id !in m
    ensures m[u.id := u] - {u.id} == m
  {
  }

  /** The digest of a user map: what change detection compares. */
  ghost function DigestOf(m: UserMap): Digest
  {
    Preimage(Canonical(m))
  }

  lemma InsertNext(list: seq<UserSpec>, users: seq<UserSpec>, i: nat)
    requires UniqueIds(users) && i < |users|
    requires StrictlySorted(list) && Ids(list) == Ids(users[..i]) && ById(list) == ById(users[..i])
    ensures var next := Insert(list, users[i]);
            StrictlySorted(next) && Ids(next) == Ids(users[..i + 1]) && ById(next) == ById(users[..i + 1])
  {
    assert users[..i + 1] == users[..i] + [users[i]];
    assert users[i].id !in Ids(users[..i]);
    InsertStrict(list, users[i]);
    InsertById(list, users[i]);
    InsertIds(list, users[i]);
    IdsSnoc(users[..i], users[i]);
    ByIdSnoc(users[..i], users[i]);
  }

  /**
   computeUserHash. For unique IDs the result depends on the map of the users only,
   so the order of the list, and the sorting algorithm, are immaterial.
   */
  method ComputeUserHash(users: seq<UserSpec>) returns (digest: Digest, ghost sorted: seq<UserSpec>)
    ensures SortedById(sorted) && multiset(sorted) == multiset(users) && digest == Preimage(sorted)
    ensures UniqueIds(users) ==> digest == DigestOf(ById(users))
  {
    var list: seq<UserSpec> := [];
    for i := 0 to |users|
      invariant SortedById(list) && multiset(list) == multiset(users[..i])
      invariant UniqueIds(users) ==>
                  StrictlySorted(list) && Ids(list) == Ids(users[..i]) && ById(list) == ById(users[..i])
    {
      assert users[..i + 1] == users[..i] + [users[i]];
      InsertMembers(list, users[i]);
      InsertSorted(list, users[i]);
      if UniqueIds(users) {
        InsertNext(list, users, i);
      }
      list := Insert(list, users[i]);
    }
    assert users[..|users|] == users;
    ByIdFacts(users);
    if UniqueIds(users) {
      CanonicalById(ById(users));
      CanonicalSorted(ById(users));
      SortedUnique(list, Canonical(ById(users)));
    }
    sorted := list;
    digest := [];
    for i := 0 to |list|
      invariant digest == Preimage(list[..i])
    {
      assert list[..i + 1][..i] == list[..i];
      digest := digest + Record(list[i]);
    }
    assert list[..|list|] == list;
  }

  // ---------- injectivity ----------

  predicate Int64(x: int)
  {
    -INT64_LIMIT <= x < INT64_LIMIT
  }

  /** Aliases of at least eight characters, none of them NUL; the panel's are UUIDs. */
  predicate AliasesOk(aliases: seq<string>)
  {
    forall k :: 0 <= k < |aliases| ==> |aliases[k]| >= 8 && NoNul(aliases[k])
  }

  predicate NoNul(s: string)
  {
    forall i :: 0 <= i < |s| ==> s[i] as int != 0
  }

  /**
   64-bit fields and a UUID of n characters. Where aliases occur, the top byte of the
   speed limit must be zero: it is what tells the speed limit from an alias.
   */
  predicate Decodable(u: UserSpec, n: nat, aliased: bool)
  {
    && |u.uuid| == n && Int64(u.id) && Int64(u.expiredAt) && Int64(u.speedLimit) && Int64(u.deviceLimit)
    && AliasesOk(u.aliases)
    && (if aliased then 0 <= u.speedLimit < 0x100_0000_0000_0000 else u.aliases == [])
  }

  predicate DecodableMap(m: UserMap, n: nat, aliased: bool)
  {
    forall i :: i in m ==> Decodable(m[i], n, aliased)
  }

  predicate DecodableList(users: seq<UserSpec>, n: nat, aliased: bool)
  {
    forall u :: u in users ==> Decodable(u, n, aliased)
  }

  lemma {:induction false} LittleEndianInjective(x: nat, y: nat, k: nat)
    requires x < Power256(k) && y < Power256(k) && LittleEndian(x, k) == LittleEndian(y, k)
    ensures x == y
  {
    if k > 0 {
      var a, b := LittleEndian(x, k), LittleEndian(y, k);
      assert a[0] == x % 256 && b[0] == y % 256;
      assert a[1..] == LittleEndian(x / 256, k - 1) && b[1..] == LittleEndian(y / 256, k - 1);
      LittleEndianInjective(x / 256, y / 256, k - 1);
    }
  }

  lemma PowersOf256()
    ensures Power256(7) == 0x100_0000_0000_0000 && Power256(8) == WORD
  {
    assert Power256(2) == 0x1_0000;
    assert Power256(4) == 0x1_0000_0000;
    assert Power256(6) == 0x1_0000_0000_0000;
  }

  lemma WordInjective(x: int, y: int)
    requires Int64(x) && Int64(y) && Word(x) == Word(y)
    ensures x == y
  {
    PowersOf256();
    LittleEndianInjective(Uint64(x), Uint64(y), 8);
  }

  lemma TextInjective(s: string, t: string)
    requires Text(s) == Text(t)
    ensures s == t
  {
    forall i | 0 <= i < |s|
      ensures s[i] == t[i]
    {
      assert Text(s)[i] == Text(t)[i];
    }
  }

  /** The top byte of a small word. */
  lemma {:induction false} LittleEndianTop(x: nat, k: nat)
    requires x < Power256(k)
    ensures LittleEndian(x, k + 1)[k] == 0
  {
    if k > 0 {
      assert x / 256 < Power256(k - 1);
      LittleEndianTop(x / 256, k - 1);
      assert LittleEndian(x, k + 1)[k] == LittleEndian(x / 256, k)[k - 1];
    } else {
      assert x == 0;
    }
  }

  lemma SmallWord(x: int)
    requires 0 <= x < 0x100_0000_0000_0000
    ensures Word(x)[7] == 0
  {
    PowersOf256();
    assert Uint64(x) == x;
    LittleEndianTop(x, 7);
  }

  // ---------- decoding from the front ----------

  /** Two byte strings with heads of one length split the same way. */
  lemma CutHead(a: Digest, x: Digest, b: Digest, y: Digest)
    requires |a| == |b| && a + x == b + y
    ensures a == b && x == y
  {
    assert (a + x)[..|a|] == a && (b + y)[..|b|] == b;
    assert (a + x)[|a|..] == x && (b + y)[|b|..] == y;
  }

  lemma CutWord(v: int, x: Digest, w: int, y: Digest)
    requires Int64(v) && Int64(w) && Word(v) + x == Word(w) + y
    ensures v == w && x == y
  {
    CutHead(Word(v), x, Word(w), y);
    WordInjective(v, w);
  }

  predicate NulFree(bytes: Digest)
  {
    forall i :: 0 <= i < |bytes| ==> bytes[i] != 0
  }

  /** A zero byte comes first, or nothing at all. */
  predicate Stops(bytes: Digest)
  {
    bytes == [] || bytes[0] == 0
  }

  /** A longer run without zero bytes goes on where a shorter one has ended. */
  lemma RunThenZero(p: Digest, x: Digest, q: Digest, y: Digest)
    requires |p| < |q| && NulFree(q) && Stops(x)
    ensures p + x != q + y
  {
    assert (q + y)[|p|] == q[|p|];
    assert x != [] ==> (p + x)[|p|] == 0;
    assert |q + y| > |p|;
    assert x == [] ==> |p + x| == |p|;
  }

  /** A run without zero bytes ends where the first zero byte follows, or where the bytes end. */
  lemma CutRun(p: Digest, x: Digest, q: Digest, y: Digest)
    requires NulFree(p) && NulFree(q) && Stops(x) && Stops(y) && p + x == q + y
    ensures p == q && x == y
  {
    if |p| < |q| {
      RunThenZero(p, x, q, y);
    }
    if |q| < |p| {
      RunThenZero(q, y, p, x);
    }
    CutHead(p, x, q, y);
  }

  lemma {:induction false} AliasBytesFront(aliases: seq<string>)
    requires aliases != []
    ensures AliasBytes(aliases) == Text(aliases[0]) + [0] + AliasBytes(aliases[1..])
  {
    var n := |aliases| - 1;
    if n > 0 {
      AliasBytesFront(aliases[..n]);
      assert aliases[..n][1..] == aliases[1..][..n - 1];
      assert aliases[1..][n - 1] == aliases[n];
    } else {
      assert aliases[..n] == [] && aliases[1..] == [];
      assert AliasBytes(aliases) == [] + Text(aliases[0]) + [0];
    }
  }

  lemma AliasBytesThen(aliases: seq<string>, rest: Digest)
    requires aliases != []
    ensures AliasBytes(aliases) + rest == Text(aliases[0]) + ([0] + (AliasBytes(aliases[1..]) + rest))
  {
    AliasBytesFront(aliases);
  }

  lemma CutAlias(s: string, x: Digest, t: string, y: Digest)
    requires NoNul(s) && NoNul(t) && Text(s) + ([0] + x) == Text(t) + ([0] + y)
    ensures s == t && x == y
  {
    CutRun(Text(s), [0] + x, Text(t), [0] + y);
    TextInjective(s, t);
    CutHead([0], x, [0], y);
  }

  /** The limits in a record. */
  function LimitWords(u: UserSpec): Digest
  {
    Word(u.speedLimit) + Word(u.deviceLimit)
  }

  /** Bytes that cannot be taken for an alias: the limits of a user, if there are aliases at all. */
  predicate NoAlias(bytes: Digest, aliased: bool)
  {
    |bytes| > 7 && (aliased ==> bytes[7] == 0)
  }

  lemma LimitsAreNoAlias(u: UserSpec, n: nat, aliased: bool, rest: Digest)
    requires Decodable(u, n, aliased)
    ensures NoAlias(LimitWords(u) + rest, aliased)
  {
    assert (LimitWords(u) + rest)[7] == Word(u.speedLimit)[7];
    if aliased {
      SmallWord(u.speedLimit);
    }
  }

  lemma AliasShows(aliases: seq<string>, rest: Digest)
    requires aliases != [] && AliasesOk(aliases)
    ensures !NoAlias(AliasBytes(aliases) + rest, true)
  {
    AliasBytesThen(aliases, rest);
    assert (AliasBytes(aliases) + rest)[7] == Text(aliases[0])[7] == aliases[0][7] as int;
  }

  /** Byte 7 of what follows the expiry tells whether an alias comes next. */
  lemma BothEmpty(a: seq<string>, p: Digest, b: seq<string>, q: Digest, aliased: bool)
    requires AliasesOk(a) && AliasesOk(b) && (!aliased ==> a == b == [])
    requires NoAlias(p, aliased) && NoAlias(q, aliased) && AliasBytes(a) + p == AliasBytes(b) + q
    ensures a == [] <==> b == []
  {
    assert AliasBytes([]) + p == p && AliasBytes([]) + q == q;
    if a != [] {
      AliasShows(a, p);
    }
    if b != [] {
      AliasShows(b, q);
    }
  }

  /** The aliases of a user can be read off the front of what follows the expiry. */
  lemma {:induction false} CutAliases(a: seq<string>, p: Digest, b: seq<string>, q: Digest, aliased: bool)
    requires AliasesOk(a) && AliasesOk(b) && (!aliased ==> a == b == [])
    requires NoAlias(p, aliased) && NoAlias(q, aliased) && AliasBytes(a) + p == AliasBytes(b) + q
    ensures a == b && p == q
    decreases |a|
  {
    BothEmpty(a, p, b, q, aliased);
    if a == [] {
      assert AliasBytes([]) + p == p && AliasBytes([]) + q == q;
    } else {
      AliasBytesThen(a, p);
      AliasBytesThen(b, q);
      CutAlias(a[0], AliasBytes(a[1..]) + p, b[0], AliasBytes(b[1..]) + q);
      CutAliases(a[1..], p, b[1..], q, aliased);
      assert a == [a[0]] + a[1..] && b == [b[0]] + b[1..];
    }
  }

  lemma LimitsThen(u: UserSpec, x: Digest)
    ensures LimitWords(u) + x == Word(u.speedLimit) + (Word(u.deviceLimit) + x)
  {
  }

  lemma CutLimits(u: UserSpec, x: Digest, v: UserSpec, y: Digest)
    requires Int64(u.speedLimit) && Int64(v.speedLimit) && Int64(u.deviceLimit) && Int64(v.deviceLimit)
    requires LimitWords(u) + x == LimitWords(v) + y
    ensures u.speedLimit == v.speedLimit && u.deviceLimit == v.deviceLimit && x == y
  {
    LimitsThen(u, x);
    LimitsThen(v, y);
    CutWord(u.speedLimit, Word(u.deviceLimit) + x, v.speedLimit, Word(v.deviceLimit) + y);
    CutWord(u.deviceLimit, x, v.deviceLimit, y);
  }

  /** A record can be decoded, field by field, whatever follows it. */
  lemma RecordInjective(u: UserSpec, x: Digest, v: UserSpec, y: Digest, n: nat, aliased: bool)
    requires Decodable(u, n, aliased) && Decodable(v, n, aliased)
    requires Record(u) + x == Record(v) + y
    ensures u == v && x == y
  {
    var p, q := AliasBytes(u.aliases) + (LimitWords(u) + x), AliasBytes(v.aliases) + (LimitWords(v) + y);
    RecordFields(u, x);
    RecordFields(v, y);
    CutWord(u.id, Text(u.uuid) + (Word(u.expiredAt) + p), v.id, Text(v.uuid) + (Word(v.expiredAt) + q));
    CutHead(Text(u.uuid), Word(u.expiredAt) + p, Text(v.uuid), Word(v.expiredAt) + q);
    TextInjective(u.uuid, v.uuid);
    CutWord(u.expiredAt, p, v.expiredAt, q);
    LimitsAreNoAlias(u, n, aliased, x);
    LimitsAreNoAlias(v, n, aliased, y);
    CutAliases(u.aliases, LimitWords(u) + x, v.aliases, LimitWords(v) + y, aliased);
    CutLimits(u, x, v, y);
  }

  lemma RecordFields(u: UserSpec, x: Digest)
    ensures Record(u) + x
         == Word(u.id) + (Text(u.uuid) + (Word(u.expiredAt) + (AliasBytes(u.aliases) + (LimitWords(u) + x))))
  {
    var a, b, c, d, e, f := Word(u.id), Text(u.uuid), Word(u.expiredAt), AliasBytes(u.aliases), Word(u.speedLimit),
      Word(u.deviceLimit);
    assert Record(u) == a + b + c + d + e + f;
    assert a + b + c + d + e + f + x == a + (b + (c + (d + ((e + f) + x))));
  }

  lemma {:induction false} PreimageFront(users: seq<UserSpec>)
    requires users != []
    ensures Preimage(users) == Record(users[0]) + Preimage(users[1..])
  {
    var n := |users| - 1;
    if n > 0 {
      PreimageFront(users[..n]);
      assert users[..n][1..] == users[1..][..n - 1];
      assert users[1..][n - 1] == users[n];
    } else {
      assert users[..n] == [] && users[1..] == [];
    }
  }

  lemma PreimageEmpty(users: seq<UserSpec>)
    ensures Preimage(users) == [] <==> users == []
  {
    if users != [] {
      PreimageFront(users);
      RecordFields(users[0], []);
    }
  }

  lemma {:induction false} PreimageInjective(a: seq<UserSpec>, b: seq<UserSpec>, n: nat, aliased: bool)
    requires DecodableList(a, n, aliased) && DecodableList(b, n, aliased) && Preimage(a) == Preimage(b)
    ensures a == b
  {
    PreimageEmpty(a);
    PreimageEmpty(b);
    if a != [] {
      PreimageFront(a);
      PreimageFront(b);
      RecordInjective(a[0], Preimage(a[1..]), b[0], Preimage(b[1..]), n, aliased);
      PreimageInjective(a[1..], b[1..], n, aliased);
      assert a == [a[0]] + a[1..] && b == [b[0]] + b[1..];
    }
  }

  /**
   Equal digests mean equal user maps, for users whose UUIDs have one common length and
   whose aliases are NUL-free and have eight characters or more.
   */
  lemma DigestInjective(m: UserMap, m': UserMap, n: nat, aliased: bool)
    requires Keyed(m) && Keyed(m') && DecodableMap(m, n, aliased) && DecodableMap(m', n, aliased)
    requires DigestOf(m) == DigestOf(m')
    ensures m == m'
  {
    CanonicalDecodable(m, n, aliased);
    CanonicalDecodable(m', n, aliased);
    CanonicalById(m);
    CanonicalById(m');
    PreimageInjective(Canonical(m), Canonical(m'), n, aliased);
  }

  lemma CanonicalDecodable(m: UserMap, n: nat, aliased: bool)
    requires Keyed(m) && DecodableMap(m, n, aliased)
    ensures DecodableList(Canonical(m), n, aliased)
  {
    var users := Canonical(m);
    CanonicalById(m);
    CanonicalSorted(m);
    forall u | u in users
      ensures Decodable(u, n, aliased)
    {
      var k :| 0 <= k < |users| && users[k] == u;
      ByIdUnique(users, k);
    }
  }

  /** No two user maps of g share a digest. */
  ghost predicate CollisionFree(g: iset<UserMap>)
  {
    forall a, b :: a in g && b in g && DigestOf(a) == DigestOf(b) ==> a == b
  }

  /** Decodable user maps are one such family. */
  lemma DecodableIsCollisionFree(n: nat, aliased: bool)
    ensures CollisionFree(iset m: UserMap | Keyed(m) && DecodableMap(m, n, aliased))
  {
    forall a: UserMap, b: UserMap
      | Keyed(a) && DecodableMap(a, n, aliased) && Keyed(b) && DecodableMap(b, n, aliased) && DigestOf(a) == DigestOf(b)
      ensures a == b
    {
      DigestInjective(a, b, n, aliased);
    }
  }

  lemma {:induction false} LittleEndianSmall(x: nat, k: nat)
    requires x < 256
    ensures forall i :: 0 <= i < k ==> LittleEndian(x, k)[i] == if i == 0 then x else 0
  {
    if k > 0 {
      LittleEndianSmall(0, k - 1);
    }
  }

  lemma WordsOfZero()
    ensures Word(0) == [0, 0, 0, 0, 0, 0, 0, 0]
  {
    LittleEndianSmall(0, 8);
  }

  lemma WordOfOne()
    ensures Word(1) == [1, 0, 0, 0, 0, 0, 0, 0]
  {
    LittleEndianSmall(1, 8);
  }

  /** A record whose numbers are 0, apart from the ID. */
  lemma SparseRecord(u: UserSpec)
    requires u.aliases == [] && u.expiredAt == u.speedLimit == u.deviceLimit == 0
    ensures Record(u) == Word(u.id) + Text(u.uuid) + Word(0) + Word(0) + Word(0)
  {
    assert Word(0) + AliasBytes([]) == Word(0);
  }

  lemma PreimageTwo(one: UserSpec, first: UserSpec, second: UserSpec)
    ensures Preimage([one]) == Record(one) && Preimage([first, second]) == Record(first) + Record(second)
  {
    assert [one][..0] == [] && [first, second][..1] == [first] && [first][..0] == [];
    assert Preimage([first]) == Record(first);
  }

  /** 24 NUL characters, one character 1, and 7 more NULs are the bytes of four words. */
  lemma NulText(s: string)
    requires |s| == 32 && forall i :: 0 <= i < 32 ==> s[i] as int == if i == 24 then 1 else 0
    ensures Text(s) == Word(0) + Word(0) + Word(0) + Word(1)
  {
    WordsOfZero();
    WordOfOne();
  }

  lemma Regroup(z: Digest, o: Digest)
    ensures z + (z + z + z + o) + z + z + z == (z + [] + z + z + z) + (o + [] + z + z + z)
  {
  }

  /**
   The encoding needs the common length: one user with a 32-character string for a UUID
   encodes like two users without any. The characters are NULs and one 1, not a real UUID.
   */
  lemma LengthsMatter(one: UserSpec, first: UserSpec, second: UserSpec)
    requires one == UserSpec(0, seq(32, i => if i == 24 then 1 as char else 0 as char), [], 0, 0, 0)
    requires first == UserSpec(0, "", [], 0, 0, 0) && second == UserSpec(1, "", [], 0, 0, 0)
    ensures StrictlySorted([one]) && StrictlySorted([first, second])
    ensures Preimage([one]) == Preimage([first, second])
  {
    SparseRecord(one);
    SparseRecord(first);
    SparseRecord(second);
    assert Text("") == [];
    PreimageTwo(one, first, second);
    NulText(one.uuid);
    Regroup(Word(0), Word(1));
  }
}
