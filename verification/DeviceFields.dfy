/**
 The panel keeps one Redis hash per user whose fields are strings "node:ip".
 This module proves that those strings are a faithful encoding of (node, ip)
 pairs, also for IPv6 addresses, which contain colons themselves.
 */
module DeviceFields {

  /** One device slot of a user: an address seen by a node. */
  datatype Entry = Entry(node: int, ip: string)

  function DigitChar(d: nat): char
    requires d < 10
  {
    ('0' as int + d) as char
  }

  function Digits(n: nat): (s: string)
    ensures s != []
    ensures ':' !in s && '-' !in s
  {
    if n < 10 then [DigitChar(n)] else Digits(n / 10) + [DigitChar(n % 10)]
  }

  /** PHP's rendering of an integer inside a double-quoted string. */
  function Decimal(n: int): (s: string)
    ensures s != [] && ':' !in s
  {
    if n < 0 then "-" + Digits(-n) else Digits(n)
  }

  /** The prefix used to find all the fields of a node. */
  function NodePrefix(node: int): string
  {
    Decimal(node) + ":"
  }

  function Field(e: Entry): string
  {
    NodePrefix(e.node) + e.ip
  }

  /** strpos($field, ':'), or the length when there is no colon. */
  function FirstColon(field: string): (i: nat)
    ensures i <= |field|
    ensures forall k :: 0 <= k < i ==> field[k] != ':'
    ensures i < |field| ==> field[i] == ':'
  {
    if field == [] || field[0] == ':' then 0 else 1 + FirstColon(field[1..])
  }

  /** substr($field, strpos($field, ':') + 1) */
  function IpOf(field: string): string
    requires ':' in field
  {
    field[FirstColon(field) + 1..]
  }

  /** str_starts_with */
  predicate StartsWith(s: string, prefix: string)
  {
    prefix <= s
  }

  lemma {:induction false} DigitsInjective(m: nat, n: nat)
    requires Digits(m) == Digits(n)
    ensures m == n
  {
    var s, t := Digits(m), Digits(n);
    assert s[|s| - 1] == DigitChar(m % 10) && t[|t| - 1] == DigitChar(n % 10);
    assert m % 10 == n % 10;
    if m < 10 || n < 10 {
      assert |s| == 1;
    } else {
      assert s[..|s| - 1] == Digits(m / 10) && t[..|t| - 1] == Digits(n / 10);
      DigitsInjective(m / 10, n / 10);
    }
  }

  lemma DecimalInjective(m: int, n: int)
    requires Decimal(m) == Decimal(n)
    ensures m == n
  {
    if m < 0 && n < 0 {
      assert Decimal(m)[1..] == Digits(-m) && Decimal(n)[1..] == Digits(-n);
      DigitsInjective(-m, -n);
    } else if m >= 0 && n >= 0 {
      DigitsInjective(m, n);
    }
  }

  /** Node IDs are written the usual way, as they are interpolated into a string. */
  lemma FieldsReadAsWritten()
    ensures Field(Entry(12, "1.2.3.4")) == "12:1.2.3.4" && Field(Entry(7, "::1")) == "7:::1"
  {
    assert Digits(1) == "1" && Digits(12) == "12";
  }

  lemma FieldColon(e: Entry)
    ensures ':' in Field(e) && FirstColon(Field(e)) == |Decimal(e.node)|
  {
    var f, k := Field(e), |Decimal(e.node)|;
    assert f[k] == ':';
    assert forall i :: 0 <= i < k ==> f[i] == Decimal(e.node)[i];
  }

  /** Splitting at the first colon recovers the address, whatever characters it holds. */
  lemma IpRoundTrip(e: Entry)
    ensures ':' in Field(e) && IpOf(Field(e)) == e.ip
  {
    FieldColon(e);
    assert Field(e)[|NodePrefix(e.node)|..] == e.ip;
  }

  /** The prefix test selects exactly the fields of that node: node 1 never matches node 11. */
  lemma PrefixSelectsNode(e: Entry, node: int)
    ensures StartsWith(Field(e), NodePrefix(node)) <==> e.node == node
  {
    var f := Field(e);
    if StartsWith(f, NodePrefix(node)) {
      var k := |Decimal(node)|;
      assert f[k] == NodePrefix(node)[k] == ':';
      assert forall i :: 0 <= i < k ==> f[i] == NodePrefix(node)[i] == Decimal(node)[i];
      FieldColon(e);
      assert FirstColon(f) == k;
      assert Decimal(node) == f[..k] == Decimal(e.node);
      DecimalInjective(node, e.node);
    } else {
      assert NodePrefix(e.node) <= f;
    }
  }

  /** Different device slots never share a field. */
  lemma FieldInjective(d: Entry, e: Entry)
    requires Field(d) == Field(e)
    ensures d == e
  {
    PrefixSelectsNode(d, d.node);
    PrefixSelectsNode(e, d.node);
    IpRoundTrip(d);
    IpRoundTrip(e);
  }
}
