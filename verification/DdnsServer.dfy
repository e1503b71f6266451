/**
 A name server that takes dynamic updates: zones, lookups in the closest enclosing zone, and
 update processing as in section 3.4.2 of RFC 2136 (SOA records aside).
 */
module DdnsServer {
  import opened Prelude

  /** A domain name as its labels, leftmost first. */
  type Name = seq<string>

  datatype RType = A | CNAME | NS | PTR | Other(text: string)

  /** Record data with its type; addresses and target names are given by their parts. */
  datatype Rdata = Rdata(rtype: RType, parts: seq<string>)

  datatype RRset = RRset(ttl: nat, items: set<Rdata>)

  datatype RKey = RKey(name: Name, rtype: RType)

  type Zone = map<RKey, RRset>
  type Server = map<Name, Zone>

  predicate Under(n: Name, zone: Name) {
    |zone| <= |n| && n[|n| - |zone|..] == zone
  }

  /** The closest enclosing zone that the server holds. */
  function Authority(s: Server, n: Name): (z: Option<Name>)
    ensures z.Some? ==> z.value in s
  {
    if n in s then Some(n) else if n == [] then None else Authority(s, n[1..])
  }

  /** ZERO or one RRset. */
  function Lookup(s: Server, n: Name, t: RType): Option<RRset> {
    var z := Authority(s, n);
    if z.Some? && RKey(n, t) in s[z.value] then Some(s[z.value][RKey(n, t)]) else None
  }

  /** The answer to an ANY query is not empty. */
  predicate HasAny(s: Server, n: Name) {
    var z := Authority(s, n);
    z.Some? && exists k :: k in s[z.value] && k.name == n
  }

  datatype Change =
    | Insert(name: Name, ttl: nat, rdata: Rdata)
    | DropRRset(name: Name, rtype: RType)
    | DropName(name: Name)
    | DropRdata(name: Name, rdata: Rdata)

  /** A CNAME may stand beside nothing else: the addition is silently ignored. */
  predicate Blocked(z: Zone, n: Name, t: RType) {
    if t == CNAME then exists k :: k in z && k.name == n && k.rtype != CNAME
    else RKey(n, CNAME) in z
  }

  function Process(z: Zone, apex: Name, c: Change): Zone {
    match c
    case Insert(n, ttl, r) =>
      var k := RKey(n, r.rtype);
      if Blocked(z, n, r.rtype) then z
      else if r.rtype == CNAME || k !in z then z[k := RRset(ttl, {r})]
      else z[k := RRset(ttl, z[k].items + {r})]
    case DropRRset(n, t) =>
      if n == apex && t == NS then z else z - {RKey(n, t)}
    case DropName(n) =>
      map k | k in z && (k.name != n || (n == apex && k.rtype == NS)) :: z[k]
    case DropRdata(n, r) =>
      var k := RKey(n, r.rtype);
      if k !in z then z
      else if z[k].items - {r} != {} then z[k := RRset(z[k].ttl, z[k].items - {r})]
      else if n == apex && r.rtype == NS then z
      else z - {k}
  }

  /** Sends changes for one name; unknown zones and names outside the zone are refused. */
  predicate Accepts(s: Server, zone: Name, n: Name) {
    zone in s && Under(n, zone)
  }

  /** What a server never holds: empty RRsets, two CNAMEs, or a CNAME beside other data. */
  ghost predicate Consistent(s: Server) {
    forall z :: z in s ==> ConsistentZone(s[z])
  }

  ghost predicate ConsistentZone(z: Zone) {
    && (forall k :: k in z ==> z[k].items != {})
    && (forall k :: k in z && k.rtype == CNAME ==> exists r :: z[k].items == {r})
    && (forall j, k :: j in z && k in z && j.name == k.name && j.rtype == CNAME ==> k.rtype == CNAME)
  }

  /** The closest zone encloses the name, so a message to it is accepted. */
  lemma {:induction false} AuthorityAccepts(s: Server, n: Name)
    ensures Authority(s, n).Some? ==> Accepts(s, Authority(s, n).value, n)
  {
    if n !in s && n != [] {
      AuthorityAccepts(s, n[1..]);
      var z := Authority(s, n);
      assert z.Some? ==> n[|n| - |z.value|..] == n[1..][|n[1..]| - |z.value|..];
    }
  }

  /** The closest zone is the longest one: no zone of the server between it and the name. */
  lemma {:induction false} AuthorityIsClosest(s: Server, n: Name, z: Name)
    requires z in s && Under(n, z)
    ensures Authority(s, n).Some? && |z| <= |Authority(s, n).value|
  {
    if n !in s {
      assert n[|n| - |z|..] == n[1..][|n[1..]| - |z|..];
      AuthorityIsClosest(s, n[1..], z);
    }
  }

  /** Updates never change which zones there are. */
  lemma {:induction false} SameAuthority(s: Server, t: Server, n: Name)
    requires s.Keys == t.Keys
    ensures Authority(s, n) == Authority(t, n)
  {
    if n !in s && n != [] {
      SameAuthority(s, t, n[1..]);
    }
  }
}
