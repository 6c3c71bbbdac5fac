/**
 Reports of alive addresses: an unchanged set is not reported again, by comparing
 digests. The digest is represented by its preimage, as for the user list.
 */
module AliveReports {
  import opened Options
  import opened Users
  import opened UserHash
  import opened DeviceAdmission

  type Alive = map<int, set<string>>

  // ---------- ascending order ----------

  /** Lexicographic order of strings. */
  predicate Before(a: string, b: string)
  {
    a == "" || (b != "" && (a[0] < b[0] || (a[0] == b[0] && Before(a[1..], b[1..]))))
  }

  lemma {:induction false} BeforeOrder(a: string, b: string)
    ensures Before(a, b) || Before(b, a)
    ensures Before(a, b) && Before(b, a) ==> a == b
  {
    if a != "" && b != "" {
      BeforeOrder(a[1..], b[1..]);
      assert a == [a[0]] + a[1..] && b == [b[0]] + b[1..];
    }
  }

  lemma {:induction false} BeforeTransitive(a: string, b: string, c: string)
    requires Before(a, b) && Before(b, c)
    ensures Before(a, c)
  {
    if a != "" && b != "" && c != "" {
      if a[0] == b[0] == c[0] {
        BeforeTransitive(a[1..], b[1..], c[1..]);
      }
    }
  }

  predicate Least(x: string, s: set<string>)
  {
    x in s && forall y :: y in s ==> Before(x, y)
  }

  lemma {:induction false} HasLeast(s: set<string>)
    requires s != {}
    ensures exists x :: Least(x, s)
  {
    var x :| x in s;
    var rest := s - {x};
    if rest == {} {
      BeforeOrder(x, x);
      assert forall y :: y in s ==> y == x || y in rest;
      assert Least(x, s);
    } else {
      HasLeast(rest);
      var y :| Least(y, rest);
      LeastOfTwo(x, y, s);
    }
  }

  lemma LeastOfTwo(x: string, y: string, s: set<string>)
    requires x in s && Least(y, s - {x})
    ensures Least(x, s) || Least(y, s)
  {
    BeforeOrder(x, y);
    BeforeOrder(x, x);
    if Before(x, y) {
      forall z | z in s
        ensures Before(x, z)
      {
        if z != x {
          BeforeTransitive(x, y, z);
        }
      }
    }
  }

  ghost function LeastOf(s: set<string>): (x: string)
    requires s != {}
    ensures Least(x, s)
  {
    HasLeast(s);
    var x :| Least(x, s); x
  }

  ghost function Ascending(s: set<string>): seq<string>
  {
    if s == {} then [] else [LeastOf(s)] + Ascending(s - {LeastOf(s)})
  }

  lemma AscendingFrom(x: string, s: set<string>)
    requires Least(x, s)
    ensures Ascending(s) == [x] + Ascending(s - {x})
  {
    BeforeOrder(x, LeastOf(s));
  }

  ghost function LargestOf(s: set<int>): (k: int)
    requires s != {}
    ensures k in s && forall i :: i in s ==> i <= k
  {
    HasLargest(s);
    var k :| k in s && forall i :: i in s ==> i <= k; k
  }

  ghost function AscendingIds(s: set<int>): seq<int>
  {
    if s == {} then [] else AscendingIds(s - {LargestOf(s)}) + [LargestOf(s)]
  }

  // ---------- the digest ----------

  /** The four low bytes of a user ID, most significant first. */
  function IdBytes(uid: int): Digest
  {
    [uid / 0x100_0000 % 256, uid / 0x1_0000 % 256, uid / 0x100 % 256, uid % 256]
  }

  function Joined(ips: seq<string>): Digest
  {
    if ips == [] then [] else Joined(ips[..|ips| - 1]) + Text(ips[|ips| - 1])
  }

  /** What the digest says of one user's addresses. */
  ghost function AddressBytes(alive: Alive, uid: int): Digest
  {
    Joined(Ascending(if uid in alive then alive[uid] else {}))
  }

  ghost function UserBytes(uid: int, alive: Alive): Digest
  {
    IdBytes(uid) + AddressBytes(alive, uid)
  }

  ghost function Encoded(uids: seq<int>, alive: Alive): Digest
  {
    if uids == [] then [] else Encoded(uids[..|uids| - 1], alive) + UserBytes(uids[|uids| - 1], alive)
  }

  lemma {:induction false} AscendingIdsMembers(s: set<int>)
    ensures forall i :: i in AscendingIds(s) <==> i in s
  {
    if s != {} {
      AscendingIdsMembers(s - {LargestOf(s)});
    }
  }

  /** calcAliveIPsHash; the empty string for nobody alive is the empty preimage. */
  ghost function Encode(alive: Alive): Digest
  {
    Encoded(AscendingIds(alive.Keys), alive)
  }

  /** sort.Ints. */
  method SortIds(s: set<int>) returns (list: seq<int>)
    ensures list == AscendingIds(s)
  {
    list := [];
    var todo := s;
    while todo != {}
      invariant AscendingIds(s) == AscendingIds(todo) + list
      decreases todo
    {
      HasLargest(todo);
      var k :| k in todo && forall i :: i in todo ==> i <= k;
      assert k == LargestOf(todo);
      todo := todo - {k};
      list := [k] + list;
    }
  }

  /** sort.Strings. */
  method SortIps(s: set<string>) returns (list: seq<string>)
    ensures list == Ascending(s)
  {
    list := [];
    var todo := s;
    while todo != {}
      invariant Ascending(s) == list + Ascending(todo)
      decreases todo
    {
      HasLeast(todo);
      var x :| x in todo && forall y :: y in todo ==> Before(x, y);
      AscendingFrom(x, todo);
      todo := todo - {x};
      list := list + [x];
    }
  }

  method CalcAliveIPsHash(alive: Alive) returns (h: Digest)
    ensures h == Encode(alive)
  {
    h := [];
    var userIDs := SortIds(alive.Keys);
    AscendingIdsMembers(alive.Keys);
    for i := 0 to |userIDs|
      invariant h == Encoded(userIDs[..i], alive)
    {
      var uid := userIDs[i];
      var ipList := SortIps(alive[uid]);
      var text: Digest := [];
      for j := 0 to |ipList|
        invariant text == Joined(ipList[..j])
      {
        assert ipList[..j + 1][..j] == ipList[..j];
        text := text + Text(ipList[j]);
      }
      assert ipList[..|ipList|] == ipList;
      assert userIDs[..i + 1][..i] == userIDs[..i];
      h := h + (IdBytes(uid) + text);
    }
    assert userIDs[..|userIDs|] == userIDs;
  }

  lemma TwoAscending(a: string, b: string)
    requires a != "" && b != "" && a[0] < b[0]
    ensures Ascending({a, b}) == [a, b]
  {
    BeforeOrder(a, a);
    assert Least(a, {a, b});
    AscendingFrom(a, {a, b});
    BeforeOrder(b, b);
    assert {a, b} - {a} == {b} && Least(b, {b});
    AscendingFrom(b, {b});
    assert {b} - {b} == {};
  }

  lemma EncodeOne(uid: int, a: string, b: string)
    requires a != "" && b != "" && a[0] < b[0]
    ensures Encode(map[uid := {a, b}]) == IdBytes(uid) + (Text(a) + Text(b))
  {
    var alive := map[uid := {a, b}];
    TwoAscending(a, b);
    assert alive.Keys == {uid};
    assert {uid} - {uid} == {};
    assert AscendingIds({uid} - {uid}) == [];
    assert AscendingIds({uid}) == [uid];
    assert Joined([a, b]) == Text(a) + Text(b) by {
      assert [a, b][..1] == [a];
      assert [a][..0] == [];
      assert Joined([a]) == Text(a);
    }
    assert [uid][..0] == [];
    assert Encoded([], alive) == [];
    assert Encoded([uid], alive) == IdBytes(uid) + Joined(Ascending(alive[uid]));
  }

  /** Addresses are written without separators, so a change can go unnoticed. */
  lemma DigestCollides(uid: int)
    ensures var was: Alive := map[uid := {"1.1.1.1", "23.1.1.2"}];
            var now: Alive := map[uid := {"1.1.1.12", "3.1.1.2"}];
            was != now && Encode(was) == Encode(now)
  {
    EncodeOne(uid, "1.1.1.1", "23.1.1.2");
    EncodeOne(uid, "1.1.1.12", "3.1.1.2");
    SameLetters();
    DifferentAddresses(uid, "1.1.1.1", "23.1.1.2", "1.1.1.12", "3.1.1.2");
  }

  lemma SameLetters()
    ensures Text("1.1.1.1") + Text("23.1.1.2") == Text("1.1.1.12") + Text("3.1.1.2")
  {
    assert "1.1.1.1" + "23.1.1.2" == "1.1.1.12" + "3.1.1.2";
    SameText("1.1.1.1", "23.1.1.2", "1.1.1.12", "3.1.1.2");
  }

  lemma DifferentAddresses(uid: int, a: string, b: string, c: string, d: string)
    requires |a| < |c| && a != d
    ensures map[uid := {a, b}] != map[uid := {c, d}]
  {
    var was, now := map[uid := {a, b}], map[uid := {c, d}];
    assert a in was[uid] && a !in now[uid];
  }

  lemma TextConcat(a: string, b: string)
    ensures Text(a + b) == Text(a) + Text(b)
  {
  }

  lemma SameText(a: string, b: string, c: string, d: string)
    requires a + b == c + d
    ensures Text(a) + Text(b) == Text(c) + Text(d)
  {
    TextConcat(a, b);
    TextConcat(c, d);
  }

  // ---------- when the digest tells two sets apart ----------

  /** User IDs below 2^24 and addresses without NUL: then every record starts with a zero byte that no address holds. */
  predicate Readable(alive: Alive)
  {
    forall u :: u in alive ==> 0 <= u < 0x100_0000 && forall ip :: ip in alive[u] ==> NoNul(ip)
  }

  lemma {:induction false} AscendingMembers(s: set<string>)
    ensures forall x :: x in Ascending(s) <==> x in s
  {
    if s != {} {
      AscendingMembers(s - {LeastOf(s)});
    }
  }

  lemma {:induction false} JoinedNulFree(ips: seq<string>)
    requires forall ip :: ip in ips ==> NoNul(ip)
    ensures NulFree(Joined(ips))
  {
    if ips != [] {
      var front, ip := ips[..|ips| - 1], ips[|ips| - 1];
      JoinedNulFree(front);
      assert NoNul(ip);
      TextNulFree(ip);
    }
  }

  lemma TextNulFree(s: string)
    requires NoNul(s)
    ensures NulFree(Text(s))
  {
  }

  lemma AddressesNulFree(alive: Alive, uid: int)
    requires Readable(alive)
    ensures NulFree(AddressBytes(alive, uid))
  {
    var ips := if uid in alive then alive[uid] else {};
    AscendingMembers(ips);
    JoinedNulFree(Ascending(ips));
  }

  lemma IdBytesInjective(u: int, v: int)
    requires 0 <= u < 0x100_0000 && 0 <= v < 0x100_0000 && IdBytes(u) == IdBytes(v)
    ensures u == v
  {
    IdFromBytes(u);
    IdFromBytes(v);
    assert IdBytes(u)[1] == IdBytes(v)[1] && IdBytes(u)[2] == IdBytes(v)[2] && IdBytes(u)[3] == IdBytes(v)[3];
  }

  lemma IdFromBytes(u: int)
    requires 0 <= u < 0x100_0000
    ensures u == IdBytes(u)[1] * 0x1_0000 + IdBytes(u)[2] * 0x100 + IdBytes(u)[3]
    ensures IdBytes(u)[0] == 0
  {
    var q := u / 0x100;
    var r := q / 0x100;
    assert u == q * 0x100 + u % 0x100;
    assert q == r * 0x100 + q % 0x100;
    assert r == u / 0x1_0000 && 0 <= r < 0x100;
  }

  predicate SmallIds(uids: seq<int>)
  {
    forall k :: 0 <= k < |uids| ==> 0 <= uids[k] < 0x100_0000
  }

  lemma Middle<T>(s: seq<T>)
    requires |s| > 1
    ensures s[..|s| - 1][1..] == s[1..][..|s| - 2] && s[..|s| - 1][0] == s[0] && s[1..][|s| - 2] == s[|s| - 1]
  {
  }

  lemma Assoc(a: Digest, b: Digest, c: Digest)
    ensures (a + b) + c == a + (b + c)
  {
  }

  lemma {:induction false} EncodedFront(uids: seq<int>, alive: Alive)
    requires uids != []
    ensures Encoded(uids, alive) == UserBytes(uids[0], alive) + Encoded(uids[1..], alive)
  {
    var n := |uids| - 1;
    if n > 0 {
      EncodedFront(uids[..n], alive);
      Middle(uids);
      Assoc(UserBytes(uids[0], alive), Encoded(uids[1..][..n - 1], alive), UserBytes(uids[n], alive));
    } else {
      assert uids[..n] == [] && uids[1..] == [];
    }
  }

  lemma UserThen(uid: int, alive: Alive, rest: Digest)
    ensures UserBytes(uid, alive) + rest == IdBytes(uid) + (AddressBytes(alive, uid) + rest)
  {
  }

  lemma EncodedStops(uids: seq<int>, alive: Alive)
    requires SmallIds(uids)
    ensures Stops(Encoded(uids, alive)) && (Encoded(uids, alive) == [] <==> uids == [])
  {
    if uids != [] {
      EncodedFront(uids, alive);
      IdFromBytes(uids[0]);
    }
  }

  /** Records can be cut off the front, one user at a time. */
  lemma {:induction false} EncodedInjective(us: seq<int>, a: Alive, vs: seq<int>, b: Alive)
    requires Readable(a) && Readable(b) && SmallIds(us) && SmallIds(vs)
    requires Encoded(us, a) == Encoded(vs, b)
    ensures us == vs && forall k :: 0 <= k < |us| ==> AddressBytes(a, us[k]) == AddressBytes(b, us[k])
    decreases |us|
  {
    EncodedStops(us, a);
    EncodedStops(vs, b);
    if us != [] {
      CutUser(us, a, vs, b);
      EncodedInjective(us[1..], a, vs[1..], b);
      assert us == [us[0]] + us[1..] && vs == [vs[0]] + vs[1..];
      forall k | 0 <= k < |us|
        ensures AddressBytes(a, us[k]) == AddressBytes(b, us[k])
      {
        assert k > 0 ==> us[k] == us[1..][k - 1];
      }
    }
  }

  lemma CutUser(us: seq<int>, a: Alive, vs: seq<int>, b: Alive)
    requires Readable(a) && Readable(b) && us != [] && vs != [] && SmallIds(us) && SmallIds(vs)
    requires Encoded(us, a) == Encoded(vs, b)
    ensures us[0] == vs[0] && AddressBytes(a, us[0]) == AddressBytes(b, us[0])
    ensures Encoded(us[1..], a) == Encoded(vs[1..], b)
  {
    EncodedFront(us, a);
    EncodedFront(vs, b);
    var x, y := Encoded(us[1..], a), Encoded(vs[1..], b);
    UserThen(us[0], a, x);
    UserThen(vs[0], b, y);
    CutHead(IdBytes(us[0]), AddressBytes(a, us[0]) + x, IdBytes(vs[0]), AddressBytes(b, vs[0]) + y);
    IdBytesInjective(us[0], vs[0]);
    EncodedStops(us[1..], a);
    EncodedStops(vs[1..], b);
    AddressesNulFree(a, us[0]);
    AddressesNulFree(b, vs[0]);
    CutRun(AddressBytes(a, us[0]), x, AddressBytes(b, vs[0]), y);
  }

  lemma {:induction false} EncodedSame(us: seq<int>, a: Alive, b: Alive)
    requires forall u :: AddressBytes(a, u) == AddressBytes(b, u)
    ensures Encoded(us, a) == Encoded(us, b)
  {
    if us != [] {
      EncodedSame(us[..|us| - 1], a, b);
    }
  }

  /** A change goes unnoticed if and only if the same users are alive, each with addresses that read the same joined. */
  lemma SameDigestIff(a: Alive, b: Alive)
    requires Readable(a) && Readable(b)
    ensures Encode(a) == Encode(b)
       <==> a.Keys == b.Keys && forall u :: u in a ==> AddressBytes(a, u) == AddressBytes(b, u)
  {
    AscendingIdsMembers(a.Keys);
    AscendingIdsMembers(b.Keys);
    var us, vs := AscendingIds(a.Keys), AscendingIds(b.Keys);
    if Encode(a) == Encode(b) {
      KeysAreSmall(a, us);
      KeysAreSmall(b, vs);
      EncodedInjective(us, a, vs, b);
      assert forall u :: u in a.Keys <==> u in us;
      assert forall u :: u in b.Keys <==> u in us;
    }
    if a.Keys == b.Keys && forall u :: u in a ==> AddressBytes(a, u) == AddressBytes(b, u) {
      EncodedSame(us, a, b);
    }
  }

  lemma KeysAreSmall(alive: Alive, uids: seq<int>)
    requires Readable(alive) && forall u :: u in uids ==> u in alive
    ensures SmallIds(uids)
  {
    forall k | 0 <= k < |uids|
      ensures 0 <= uids[k] < 0x100_0000
    {
      assert uids[k] in uids;
    }
  }

  predicate OneLength(alive: Alive, k: nat)
  {
    forall u, ip :: u in alive && ip in alive[u] ==> |ip| == k
  }

  predicate AllLength(x: seq<string>, k: nat)
  {
    forall i :: 0 <= i < |x| ==> |x[i]| == k
  }

  lemma {:induction false} JoinedInjective(x: seq<string>, y: seq<string>, k: nat)
    requires k > 0 && AllLength(x, k) && AllLength(y, k) && Joined(x) == Joined(y)
    ensures x == y
  {
    if x != [] && y != [] {
      CutTail(Joined(x[..|x| - 1]), Text(x[|x| - 1]), Joined(y[..|y| - 1]), Text(y[|y| - 1]));
      TextInjective(x[|x| - 1], y[|y| - 1]);
      JoinedInjective(x[..|x| - 1], y[..|y| - 1], k);
      assert x == x[..|x| - 1] + [x[|x| - 1]] && y == y[..|y| - 1] + [y[|y| - 1]];
    }
  }

  lemma CutTail(p: Digest, x: Digest, q: Digest, y: Digest)
    requires |x| == |y| && p + x == q + y
    ensures p == q && x == y
  {
    assert |p| == |q|;
    CutHead(p, x, q, y);
  }

  /** For addresses of one length, no change is ever missed. */
  lemma OneLengthDetects(a: Alive, b: Alive, k: nat)
    requires Readable(a) && Readable(b) && k > 0 && OneLength(a, k) && OneLength(b, k)
    ensures Encode(a) == Encode(b) <==> a == b
  {
    SameDigestIff(a, b);
    if Encode(a) == Encode(b) {
      forall u | u in a
        ensures a[u] == b[u]
      {
        SameAddresses(a[u], b[u], k);
      }
    }
  }

  lemma SameAddresses(s: set<string>, t: set<string>, k: nat)
    requires k > 0 && (forall ip :: ip in s ==> |ip| == k) && (forall ip :: ip in t ==> |ip| == k)
    requires Joined(Ascending(s)) == Joined(Ascending(t))
    ensures s == t
  {
    AscendingMembers(s);
    AscendingMembers(t);
    JoinedInjective(Ascending(s), Ascending(t), k);
  }

  // ---------- the reporter ----------

  /** The lists of a report, as sets. */
  predicate Lists(report: map<int, seq<string>>, alive: Alive)
  {
    report.Keys == alive.Keys && forall u :: u in report ==> IsListing(report[u], alive[u])
  }

  method Enumerate(s: set<string>) returns (ips: seq<string>)
    ensures IsListing(ips, s)
  {
    ips := [];
    var todo := s;
    while todo != {}
      invariant todo <= s && IsListing(ips, s - todo)
      decreases todo
    {
      var ip :| ip in todo;
      assert ip !in ToSet(ips);
      AppendToSet(ips, ip);
      assert s - (todo - {ip}) == s - todo + {ip};
      todo := todo - {ip};
      ips := ips + [ip];
    }
    assert s - {} == s;
  }

  /** What the caller of a flush sees: the alive sets, unless their digest is the last one. */
  ghost function Report(last: Digest, alive: Alive): Option<Alive>
  {
    if Encode(alive) == last then None else Some(alive)
  }

  /** A Go map read of a slice: nil, that is empty, for a missing key. */
  function ListFor(m: map<int, seq<string>>, uid: int): seq<string>
  {
    if uid in m then m[uid] else []
  }

  class AliveReporter {
    var aliveIPs: Alive                     // the published snapshot
    var lastAliveIPsHash: Digest
    var aliveIPsBuf: map<int, seq<string>>

    constructor ()
      ensures aliveIPs == map[] && lastAliveIPsHash == [] && aliveIPsBuf == map[]
    {
      aliveIPs, lastAliveIPsHash, aliveIPsBuf := map[], [], map[];
    }

    /** FlushAliveIPs: the alive addresses, or nothing while their digest stays the same. */
    method FlushAliveIPs() returns (r: Option<map<int, seq<string>>>)
      modifies this`lastAliveIPsHash, this`aliveIPsBuf
      ensures lastAliveIPsHash == Encode(aliveIPs)
      ensures r.None? <==> Report(old(lastAliveIPsHash), aliveIPs).None?
      ensures r.None? ==> aliveIPsBuf == old(aliveIPsBuf)
      ensures r.Some? ==> r.value == aliveIPsBuf && Lists(r.value, aliveIPs)
    {
      var currentHash := CalcAliveIPsHash(aliveIPs);
      if currentHash == lastAliveIPsHash {
        return None;
      }
      lastAliveIPsHash := currentHash;
      aliveIPsBuf := map[];
      var todo := aliveIPs.Keys;
      while todo != {}
        invariant lastAliveIPsHash == currentHash
        invariant todo <= aliveIPs.Keys && aliveIPsBuf.Keys == aliveIPs.Keys - todo
        invariant forall u :: u in aliveIPsBuf ==> IsListing(aliveIPsBuf[u], aliveIPs[u])
        decreases todo
      {
        HasElement(todo);
        var uid :| uid in todo;
        var buf := Enumerate(aliveIPs[uid]);
        aliveIPsBuf := aliveIPsBuf[uid := buf];
        todo := todo - {uid};
      }
      r := Some(aliveIPsBuf);
    }

    /** RestoreAliveIPs: merges the lists into the buffer, which no later flush reads. */
    method RestoreAliveIPs(data: map<int, seq<string>>)
      modifies this`aliveIPsBuf
      ensures aliveIPsBuf.Keys == old(aliveIPsBuf.Keys) + data.Keys
      ensures forall u :: u in aliveIPsBuf ==>
                ToSet(aliveIPsBuf[u]) == ToSet(ListFor(old(aliveIPsBuf), u)) + ToSet(ListFor(data, u))
    {
      var todo := data.Keys;
      while todo != {}
        invariant todo <= data.Keys
        invariant aliveIPsBuf.Keys == old(aliveIPsBuf.Keys) + (data.Keys - todo)
        invariant forall u :: u in aliveIPsBuf ==>
                    ToSet(aliveIPsBuf[u])
                      == ToSet(ListFor(old(aliveIPsBuf), u)) + (if u in todo then {} else ToSet(ListFor(data, u)))
        invariant forall u :: u in todo ==> ListFor(aliveIPsBuf, u) == ListFor(old(aliveIPsBuf), u)
        decreases todo
      {
        HasElement(todo);
        var uid :| uid in todo;
        var ips := MergeIps(ListFor(aliveIPsBuf, uid), data[uid]);
        aliveIPsBuf := aliveIPsBuf[uid := ips];
        todo := todo - {uid};
      }
    }

    static method MergeIps(ips: seq<string>, more: seq<string>) returns (r: seq<string>)
      ensures ToSet(r) == ToSet(ips) + ToSet(more)
      ensures NoDuplicates(ips) ==> NoDuplicates(r)
    {
      r := ips;
      for k := 0 to |more|
        invariant ToSet(r) == ToSet(ips) + ToSet(more[..k])
        invariant NoDuplicates(ips) ==> NoDuplicates(r)
      {
        assert more[..k + 1] == more[..k] + [more[k]];
        AppendToSet(more[..k], more[k]);
        if more[k] !in r {
          AppendToSet(r, more[k]);
          r := r + [more[k]];
        } else {
          assert more[k] in ToSet(r);
        }
      }
      assert more[..|more|] == more;
    }
  }

  // ---------- whole runs ----------

  datatype Reporter = Reporter(alive: Alive, last: Digest, buffered: Alive)

  datatype Event =
    | Processed(alive: Alive)
    | Flush
    | Restore(data: Alive)    // after a failed push: merges into the buffer

  ghost function Step(s: Reporter, e: Event): Reporter
  {
    match e
    case Processed(alive) => s.(alive := alive)
    case Flush => if Report(s.last, s.alive).None? then s else s.(last := Encode(s.alive), buffered := s.alive)
    case Restore(data) =>
      s.(buffered := map u | u in s.buffered.Keys + data.Keys ::
           (if u in s.buffered then s.buffered[u] else {}) + (if u in data then data[u] else {}))
  }

  /** What the flushes of a run return. */
  ghost function Reports(s: Reporter, es: seq<Event>): seq<Option<Alive>>
    decreases |es|
  {
    if es == [] then []
    else (if es[0].Flush? then [Report(s.last, s.alive)] else []) + Reports(Step(s, es[0]), es[1..])
  }

  function WithoutRestores(es: seq<Event>): seq<Event>
  {
    if es == [] then []
    else if es[0].Restore? then WithoutRestores(es[1..])
    else [es[0]] + WithoutRestores(es[1..])
  }

  /** Restoring addresses after a failed push changes no later report. */
  lemma {:induction false} RestoreHasNoEffect(s: Reporter, t: Reporter, es: seq<Event>)
    requires s.alive == t.alive && s.last == t.last
    ensures Reports(s, es) == Reports(t, WithoutRestores(es))
    decreases |es|
  {
    if es != [] {
      if es[0].Restore? {
        RestoreHasNoEffect(Step(s, es[0]), t, es[1..]);
      } else {
        RestoreHasNoEffect(Step(s, es[0]), Step(t, es[0]), es[1..]);
        var shorter := WithoutRestores(es);
        assert shorter[0] == es[0] && shorter[1..] == WithoutRestores(es[1..]);
      }
    }
  }

  /**
   So a report whose push failed is not sent again while the addresses stay the same:
   every later flush returns nothing.
   */
  lemma {:induction false} FailedReportIsForgotten(s: Reporter, es: seq<Event>)
    requires s.last == Encode(s.alive)
    requires forall e :: e in es && e.Processed? ==> Encode(e.alive) == s.last
    ensures forall r :: r in Reports(s, es) ==> r == None
    decreases |es|
  {
    if es != [] {
      FailedReportIsForgotten(Step(s, es[0]), es[1..]);
    }
  }

  /** A report is made exactly once: the next flush is silent until the digest changes. */
  lemma ReportedOnce(s: Reporter)
    ensures var t := Step(s, Flush);
            Report(t.last, t.alive) == None && t.alive == s.alive && t.last == Encode(s.alive)
    ensures Report(s.last, s.alive) != None ==> Report(s.last, s.alive) == Some(s.alive)
  {
  }

  /** A changed digest is reported by the next flush, with the addresses the kernel shows. */
  lemma ChangeIsReported(s: Reporter, alive: Alive)
    requires Encode(alive) != s.last
    ensures Reports(s, [Processed(alive), Flush]) == [Some(alive)]
  {
    assert [Processed(alive), Flush][1..] == [Flush] && [Flush][1..] == [];
    var t := Step(s, Processed(alive));
    assert Reports(t, [Flush]) == [Report(t.last, t.alive)] + Reports(Step(t, Flush), []);
  }
}
