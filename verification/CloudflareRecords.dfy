/**
 Records of a Cloudflare zone: the pillar and API dictionaries, the named tuple built
 from them, validation, the one-pass sanity check and the paged listing of the remote zone.
 */
module CloudflareRecords {
  import opened Prelude

  /** Identifiers handed out by the API. */
  type Id = nat

  /** Record types; only the ones the code tells apart have a name here. */
  datatype RType = A | AAAA | CNAME | MX | Other(text: string)

  /** A record as a dictionary: every key may be missing. */
  datatype RecordDict = RecordDict(
    name: Option<string>,
    content: Option<string>,
    rtype: Option<RType>,
    proxied: Option<bool>,
    id: Option<Id>,
    ttl: Option<int>,
    saltManaged: Option<bool>,
    priority: Option<int>)

  datatype Key = Key(rtype: RType, name: string, content: string, saltManaged: bool)

  /** What the API stores for one identifier. */
  datatype Body = Body(
    rtype: RType, name: string, content: string, priority: Option<int>, proxied: bool, ttl: int)

  datatype Record = Record(
    id: Option<Id>,
    rtype: RType,
    name: string,
    content: string,
    priority: Option<int>,
    proxied: bool,
    ttl: int,
    saltManaged: bool)
  {
    function Pure(): Record {
      this.(id := None)
    }

    function KeyOf(): Key {
      Key(rtype, name, content, saltManaged)
    }

    /** The request body of POST and PUT. */
    function Json(): Body {
      Body(rtype, name, content, if rtype == MX then priority else None, proxied, ttl)
    }
  }

  datatype Error =
    | MissingName
    | MissingContent(name: string)
    | MissingPriority(name: string)
    | ZoneMismatch
    | OutsideZone(name: string)
    | InvalidTtl(name: string)
    | ProxiedTtl(name: string)
    | NoData(name: string)
    | MixedCname(name: string)
    | SeveralCname(name: string)

  function GetOr<T>(o: Option<T>, default: T): T {
    if o.Some? then o.value else default
  }

  predicate HasNameAndContent(d: RecordDict) {
    d.name.Some? && d.content.Some?
  }

  function FromDict(d: RecordDict): Record
    requires HasNameAndContent(d)
  {
    var rtype := GetOr(d.rtype, A);
    Record(d.id, rtype, d.name.value, d.content.value,
           if rtype == MX then d.priority else None,
           GetOr(d.proxied, false), GetOr(d.ttl, 1), GetOr(d.saltManaged, true))
  }

  function Validate(d: RecordDict): Option<Error> {
    if d.name.None? then Some(MissingName)
    else if d.content.None? then Some(MissingContent(d.name.value))
    else if d.rtype == Some(MX) && d.priority.None? then Some(MissingPriority(d.name.value))
    else None
  }

  /** The required fields are there. */
  ghost predicate Filled(d: RecordDict) {
    d.name.Some? && d.content.Some? && (d.rtype == Some(MX) ==> d.priority.Some?)
  }

  /** The record carries the given fields: type A, not proxied, automatic TTL and managed unless told otherwise. */
  ghost predicate Carries(r: Record, d: RecordDict) {
    && d.name == Some(r.name) && d.content == Some(r.content) && d.id == r.id
    && (d.rtype == Some(r.rtype) || (d.rtype.None? && r.rtype == A))
    && (d.proxied == Some(r.proxied) || (d.proxied.None? && !r.proxied))
    && (d.ttl == Some(r.ttl) || (d.ttl.None? && r.ttl == 1))
    && (d.saltManaged == Some(r.saltManaged) || (d.saltManaged.None? && r.saltManaged))
    && (if r.rtype == MX then r.priority == d.priority else r.priority.None?)
  }

  /** The first of the missing fields is blamed. */
  ghost predicate Blames(e: Error, d: RecordDict) {
    match e
    case MissingName => d.name.None?
    case MissingContent(n) => d.name == Some(n) && d.content.None?
    case MissingPriority(n) => d.name == Some(n) && d.content.Some? && d.rtype == Some(MX) && d.priority.None?
    case _ => false
  }

  /** Validation stops at the first bad entry; otherwise every entry becomes a record, in order. */
  function Desired(ds: seq<RecordDict>): (r: Result<seq<Record>, Error>)
    ensures r.Ok? <==> forall i :: 0 <= i < |ds| ==> Filled(ds[i])
    ensures r.Ok? ==> |r.value| == |ds| && WellFormed(r.value)
    ensures r.Ok? ==> forall i :: 0 <= i < |ds| ==> Carries(r.value[i], ds[i])
    ensures r.Err? ==>
              exists i :: 0 <= i < |ds| && Blames(r.error, ds[i]) && forall j :: 0 <= j < i ==> Filled(ds[j])
  {
    if ds == [] then Ok([])
    else if Validate(ds[0]).Some? then Err(Validate(ds[0]).value)
    else
      match Desired(ds[1..])
      case Err(e) => assert forall i :: 0 <= i < |ds[1..]| ==> ds[1..][i] == ds[i + 1]; Err(e)
      case Ok(rest) => assert forall i :: 0 < i < |ds| ==> ds[i] == ds[1..][i - 1]; Ok([FromDict(ds[0])] + rest)
  }

  /** Records built from dictionaries carry a priority only when they are MX records. */
  predicate WellFormed(rs: seq<Record>) {
    forall i :: 0 <= i < |rs| ==> rs[i].rtype != MX ==> rs[i].priority == None
  }

  /** A stored body as the listing returns it: the API knows nothing of salt_managed. */
  function Read(id: Id, b: Body): (r: Record)
    ensures r.id == Some(id) && r.saltManaged
    ensures r.Json() == b.(priority := if b.rtype == MX then b.priority else None)
    ensures r.rtype != MX ==> r.priority == None
  {
    FromDict(RecordDict(Some(b.name), Some(b.content), Some(b.rtype), Some(b.proxied),
                        Some(id), Some(b.ttl), None, b.priority))
  }

  // ---------------------------------------------------------------- sanity check

  predicate IsAddress(rtype: RType) {
    rtype == A || rtype == AAAA
  }

  /** Two record types that may not share a name: CNAME with A/AAAA, or two CNAMEs. */
  ghost predicate Clash(a: RType, b: RType) {
    (a == CNAME && b in {A, AAAA, CNAME}) || (b == CNAME && a in {A, AAAA})
  }

  ghost predicate NoClash(rs: seq<Record>) {
    forall i, j :: 0 <= i < j < |rs| && rs[i].name == rs[j].name ==> !Clash(rs[i].rtype, rs[j].rtype)
  }

  /** The name is the zone, or labels and a dot before it. */
  ghost predicate Belongs(name: string, zone: string) {
    name == zone || exists labels: string :: name == labels + "." + zone
  }

  predicate InZone(name: string, zone: string): (r: bool)
    ensures r == Belongs(name, zone)
  {
    BelongsByEnd(name, zone);
    name == zone || (|name| > |zone| && name[|name| - |zone| - 1..] == "." + zone)
  }

  lemma BelongsByEnd(name: string, zone: string)
    ensures Belongs(name, zone) <==> name == zone || (|name| > |zone| && name[|name| - |zone| - 1..] == "." + zone)
  {
    if |name| > |zone| && name[|name| - |zone| - 1..] == "." + zone {
      var labels := name[..|name| - |zone| - 1];
      assert name == labels + ("." + zone) == labels + "." + zone;
    }
    forall labels: string | name == labels + "." + zone
      ensures |name| > |zone| && name[|name| - |zone| - 1..] == "." + zone
    {
      assert name == labels + ("." + zone);
    }
  }

  /** The conditions on one record; `synthesizes` stands for a `data()` call that does not raise. */
  ghost predicate RecordOk(r: Record, zone: string, synthesizes: Record -> bool) {
    && Belongs(r.name, zone)
    && (r.ttl == 1 || r.ttl >= 120)
    && (r.ttl == 1 || !r.proxied)
    && synthesizes(r)
  }

  ghost predicate Accepted(rs: seq<Record>, zone: string, synthesizes: Record -> bool) {
    && (forall i :: 0 <= i < |rs| ==> RecordOk(rs[i], zone, synthesizes))
    && NoClash(rs)
  }

  lemma ClashRejects(rs: seq<Record>, i: nat, n: nat, zone: string, synthesizes: Record -> bool)
    requires i < n < |rs| && rs[i].name == rs[n].name && Clash(rs[i].rtype, rs[n].rtype)
    ensures !Accepted(rs[..n + 1], zone, synthesizes)
  {
    assert rs[..n + 1][i] == rs[i] && rs[..n + 1][n] == rs[n];
  }

  /** One pass with two growing sets decides the pairwise condition, whatever the order. */
  method SanityCheck(zone: string, found: string, rs: seq<Record>, synthesizes: Record -> bool)
    returns (r: Result<(), Error>)
    ensures r.Ok? <==> found == zone && Accepted(rs, zone, synthesizes)
    ensures r == Err(ZoneMismatch) <==> found != zone
    ensures r.Err? && found == zone ==>
              exists i :: 0 <= i < |rs|
                       && Accepted(rs[..i], zone, synthesizes)
                       && !Accepted(rs[..i + 1], zone, synthesizes)
                       && !r.error.MissingName? && r.error.name == rs[i].name
  {
    if zone != found {
      return Err(ZoneMismatch);
    }
    var addresses: set<string>, cnames: set<string> := {}, {};
    for n := 0 to |rs|
      invariant Accepted(rs[..n], zone, synthesizes)
      invariant forall x :: x in addresses <==> exists i :: 0 <= i < n && rs[i].name == x && IsAddress(rs[i].rtype)
      invariant forall x :: x in cnames <==> exists i :: 0 <= i < n && rs[i].name == x && rs[i].rtype == CNAME
    {
      var record := rs[n];
      assert rs[..n + 1] == rs[..n] + [record];
      assert rs[..n + 1][n] == record;
      if !InZone(record.name, zone) {
        return Err(OutsideZone(record.name));
      }
      if record.ttl != 1 && record.ttl < 120 {
        return Err(InvalidTtl(record.name));
      }
      if record.ttl != 1 && record.proxied {
        return Err(ProxiedTtl(record.name));
      }
      if !synthesizes(record) {
        return Err(NoData(record.name));
      }
      if IsAddress(record.rtype) {
        addresses := addresses + {record.name};
        if record.name in cnames {
          var i :| 0 <= i < n && rs[i].name == record.name && rs[i].rtype == CNAME;
          ClashRejects(rs, i, n, zone, synthesizes);
          return Err(MixedCname(record.name));
        }
      }
      if record.rtype == CNAME {
        if record.name in cnames {
          var i :| 0 <= i < n && rs[i].name == record.name && rs[i].rtype == CNAME;
          ClashRejects(rs, i, n, zone, synthesizes);
          return Err(SeveralCname(record.name));
        }
        cnames := cnames + {record.name};
        if record.name in addresses {
          var i :| 0 <= i < n && rs[i].name == record.name && IsAddress(rs[i].rtype);
          ClashRejects(rs, i, n, zone, synthesizes);
          return Err(MixedCname(record.name));
        }
      }
    }
    assert rs[..|rs|] == rs;
    return Ok(());
  }

  // ---------------------------------------------------------------- listing the remote zone

  /** An exclude pattern is a predicate on names. */
  type Pattern = string -> bool

  predicate Excluded(exclude: seq<Pattern>, name: string) {
    exists i :: 0 <= i < |exclude| && exclude[i](name)
  }

  /** The part of the zone that Salt looks at. */
  function Visible(zone: map<Id, Body>, exclude: seq<Pattern>): map<Id, Record> {
    map id | id in zone && !Excluded(exclude, zone[id].name) :: Read(id, zone[id])
  }

  /** `rs` holds every record of `v`, and nothing else, once per identifier. */
  ghost predicate Lists(rs: seq<Record>, v: map<Id, Record>) {
    && NoDup(rs)
    && forall r :: r in rs <==> r.id.Some? && r.id.value in v && v[r.id.value] == r
  }

  type Page = seq<(Id, Body)>

  /** The pages of the listing hold exactly the records of the zone. */
  ghost predicate Paginates(pages: seq<Page>, zone: map<Id, Body>) {
    forall id, b :: (id in zone && zone[id] == b) <==> exists p :: 0 <= p < |pages| && (id, b) in pages[p]
  }

  method IsExcluded(exclude: seq<Pattern>, name: string) returns (excluded: bool)
    ensures excluded == Excluded(exclude, name)
  {
    excluded := false;
    for i := 0 to |exclude|
      invariant excluded == exists j :: 0 <= j < i && exclude[j](name)
    {
      if exclude[i](name) {
        excluded := true;
        break;
      }
    }
  }

  /**
   Reads the pages in turn into a dictionary keyed by identifier. The server reports the
   requested page and a fixed page count, which may be zero.
   */
  method Existing(pages: seq<Page>, exclude: seq<Pattern>, ghost zone: map<Id, Body>)
    returns (records: seq<Record>, requests: nat)
    requires Paginates(pages, zone)
    ensures Lists(records, Visible(zone, exclude))
    ensures requests == if |pages| == 0 then 1 else |pages|
  {
    var keys: seq<Id>, table: map<Id, Record> := [], map[];
    var page := 1;
    requests := 0;
    while true
      invariant requests == page - 1
      invariant 1 <= page && (page <= |pages| || (page == 1 && |pages| == 0))
      invariant Collected(keys, table, pages, page - 1, 0, exclude, zone)
      decreases |pages| - page
    {
      requests := requests + 1;
      if page <= |pages| {
        keys, table := ReadPage(keys, table, pages, page - 1, exclude, zone);
      }
      var currentPage, totalPages := page, |pages|;
      if currentPage == totalPages || totalPages == 0 {
        break;
      }
      NextPage(keys, table, pages, page, exclude, zone);
      page := page + 1;
    }
    CollectedAll(keys, table, pages, exclude, zone);
    records := seq(|keys|, i requires 0 <= i < |keys| && keys[i] in table => table[keys[i]]);
    ValuesListed(keys, table, records, Visible(zone, exclude));
  }

  /** The inner loop of the listing, over the entries of one page. */
  method ReadPage(keys0: seq<Id>, table0: map<Id, Record>, pages: seq<Page>, page: nat,
                  exclude: seq<Pattern>, ghost zone: map<Id, Body>)
    returns (keys: seq<Id>, table: map<Id, Record>)
    requires Paginates(pages, zone)
    requires page < |pages|
    requires Collected(keys0, table0, pages, page, 0, exclude, zone)
    ensures Collected(keys, table, pages, page, |pages[page]|, exclude, zone)
  {
    keys, table := keys0, table0;
    for i := 0 to |pages[page]|
      invariant Collected(keys, table, pages, page, i, exclude, zone)
    {
      var (id, b) := pages[page][i];
      var excluded := IsExcluded(exclude, b.name);
      OneEntry(keys, table, pages, page, i, exclude, zone);
      if !excluded {
        if id !in table {
          keys := keys + [id];
        }
        table := table[id := Read(id, b)];
      }
    }
  }

  lemma OneEntry(keys: seq<Id>, table: map<Id, Record>, pages: seq<Page>, page: nat, i: nat,
                 exclude: seq<Pattern>, zone: map<Id, Body>)
    requires Paginates(pages, zone)
    requires page < |pages| && i < |pages[page]|
    requires Collected(keys, table, pages, page, i, exclude, zone)
    ensures var (id, b) := pages[page][i];
            if Excluded(exclude, b.name) then
              Collected(keys, table, pages, page, i + 1, exclude, zone)
            else
              Collected(if id in table then keys else keys + [id], table[id := Read(id, b)],
                        pages, page, i + 1, exclude, zone)
  {
    var (id, b) := pages[page][i];
    assert (id, b) in pages[page];
    assert id in zone && zone[id] == b;
    forall p, k | 0 <= p < |pages| && 0 <= k < |pages[p]| && Before(p, k, page, i + 1)
      ensures Before(p, k, page, i) || pages[p][k] == (id, b)
    {
    }
  }

  /** Position (p, i) of the listing comes before page `page` entry `n`. */
  predicate Before(p: nat, i: nat, page: nat, n: nat) {
    p < page || (p == page && i < n)
  }

  ghost predicate Collected(keys: seq<Id>, table: map<Id, Record>, pages: seq<Page>, page: nat, n: nat,
                            exclude: seq<Pattern>, zone: map<Id, Body>) {
    && NoDup(keys)
    && (forall id :: id in keys <==> id in table)
    && (forall id :: id in table ==> id in Visible(zone, exclude) && table[id] == Visible(zone, exclude)[id])
    && forall p, i :: 0 <= p < |pages| && 0 <= i < |pages[p]| && Before(p, i, page, n) ==>
          pages[p][i].0 in Visible(zone, exclude) ==> pages[p][i].0 in table
  }

  lemma NextPage(keys: seq<Id>, table: map<Id, Record>, pages: seq<Page>, page: nat,
                 exclude: seq<Pattern>, zone: map<Id, Body>)
    requires 1 <= page <= |pages|
    requires Collected(keys, table, pages, page - 1, |pages[page - 1]|, exclude, zone)
    ensures Collected(keys, table, pages, page, 0, exclude, zone)
  {
  }

  lemma CollectedAll(keys: seq<Id>, table: map<Id, Record>, pages: seq<Page>,
                     exclude: seq<Pattern>, zone: map<Id, Body>)
    requires Paginates(pages, zone)
    requires |pages| == 0 ==> Collected(keys, table, pages, 0, 0, exclude, zone)
    requires |pages| > 0 ==> Collected(keys, table, pages, |pages| - 1, |pages[|pages| - 1]|, exclude, zone)
    ensures NoDup(keys) && (forall id :: id in keys <==> id in table)
    ensures table == Visible(zone, exclude)
  {
    var v := Visible(zone, exclude);
    forall id | id in v
      ensures id in table
    {
      var b := zone[id];
      var p :| 0 <= p < |pages| && (id, b) in pages[p];
      var i :| 0 <= i < |pages[p]| && pages[p][i] == (id, b);
      assert Before(p, i, |pages| - 1, |pages[|pages| - 1]|);
    }
  }

  lemma ValuesListed(keys: seq<Id>, table: map<Id, Record>, records: seq<Record>, v: map<Id, Record>)
    requires NoDup(keys) && (forall id :: id in keys <==> id in table)
    requires table == v && forall id :: id in v ==> v[id].id == Some(id)
    requires |records| == |keys| && forall i :: 0 <= i < |keys| ==> keys[i] in table && records[i] == table[keys[i]]
    ensures Lists(records, v)
  {
    forall r: Record | r.id.Some? && r.id.value in v && v[r.id.value] == r
      ensures r in records
    {
      var i :| 0 <= i < |keys| && keys[i] == r.id.value;
      assert records[i] == r;
    }
  }
}
