/**
 The diff between the visible remote records and the desired ones, and the order in which
 its operations are applied.
 */
module CloudflarePlan {
  import opened Prelude
  import opened CloudflareRecords

  datatype Action = Add | Remove | Update

  datatype Op = Op(action: Action, record: Record)

  // ---------------------------------------------------------------- dictionaries built from lists

  /** The dictionary comprehension keyed by (type, name, content, salt_managed): the last record wins. */
  function Index(rs: seq<Record>): (m: map<Key, Record>)
    ensures forall k :: k in m ==> m[k] in rs && m[k].KeyOf() == k
    ensures forall r :: r in rs ==> r.KeyOf() in m
    ensures forall i {:trigger LastOfKey(rs, i)} :: 0 <= i < |rs| && LastOfKey(rs, i) ==> m[rs[i].KeyOf()] == rs[i]
  {
    if rs == [] then map[]
    else
      var n := |rs| - 1;
      assert rs[..n] + [rs[n]] == rs;
      LastOfKeySnoc(rs[..n], rs[n]);
      Index(rs[..n])[rs[n].KeyOf() := rs[n]]
  }

  /** No later record has the key of record `i`. */
  ghost predicate LastOfKey(rs: seq<Record>, i: nat)
    requires i < |rs|
  {
    forall j :: i < j < |rs| ==> rs[j].KeyOf() != rs[i].KeyOf()
  }

  lemma LastOfKeySnoc(rs: seq<Record>, r: Record)
    ensures forall i {:trigger LastOfKey(rs + [r], i)} :: 0 <= i < |rs| && LastOfKey(rs + [r], i) ==>
              LastOfKey(rs, i) && r.KeyOf() != (rs + [r])[i].KeyOf() == rs[i].KeyOf()
  {
    var s := rs + [r];
    forall i | 0 <= i < |rs| && LastOfKey(s, i)
      ensures LastOfKey(rs, i) && r.KeyOf() != s[i].KeyOf() == rs[i].KeyOf()
    {
      assert s[|rs|] == r;
      assert forall j :: 0 <= j < |rs| ==> s[j] == rs[j];
    }
  }

  /** The dictionary from name to salt_managed: the last value per name wins. */
  function Flags(rs: seq<Record>): (m: map<string, bool>)
    ensures forall n :: n in m <==> exists i :: 0 <= i < |rs| && rs[i].name == n
    ensures forall n :: n in m ==> LastFlag(rs, n, m[n])
  {
    if rs == [] then map[]
    else
      var n := |rs| - 1;
      assert rs[..n] + [rs[n]] == rs;
      LastFlagSnoc(rs[..n], rs[n]);
      Flags(rs[..n])[rs[n].name := rs[n].saltManaged]
  }

  /** The last record of the name has this flag. */
  ghost predicate LastFlag(rs: seq<Record>, name: string, flag: bool) {
    exists i :: 0 <= i < |rs| && rs[i].name == name && rs[i].saltManaged == flag
      && forall j :: i < j < |rs| ==> rs[j].name != name
  }

  lemma LastFlagSnoc(rs: seq<Record>, r: Record)
    ensures LastFlag(rs + [r], r.name, r.saltManaged)
    ensures forall n, f :: n != r.name && LastFlag(rs, n, f) ==> LastFlag(rs + [r], n, f)
  {
    var s := rs + [r];
    assert s[|rs|] == r;
    forall n, f | n != r.name && LastFlag(rs, n, f)
      ensures LastFlag(s, n, f)
    {
      var i :| 0 <= i < |rs| && rs[i].name == n && rs[i].saltManaged == f
          && forall j :: i < j < |rs| ==> rs[j].name != n;
      assert s[i] == rs[i];
    }
  }

  // ---------------------------------------------------------------- diff

  /** The two records agree in type, name, content and salt_managed. */
  ghost predicate Alike(a: Record, b: Record) {
    a.rtype == b.rtype && a.name == b.name && a.content == b.content && a.saltManaged == b.saltManaged
  }

  /** The i-th record is the last one of its kind. */
  ghost predicate Final(rs: seq<Record>, i: int) {
    0 <= i < |rs| && forall j :: i < j < |rs| ==> !Alike(rs[j], rs[i])
  }

  /** Unwanted records of the name go: it is not in the list, or its last record there is managed. */
  ghost predicate Claims(wanted: seq<Record>, name: string) {
    (exists i :: 0 <= i < |wanted| && wanted[i].name == name) ==> LastFlag(wanted, name, true)
  }

  /**
   The operation belongs to the difference of two lists: a managed record of which the zone has
   nothing alike is added, an existing one of which the list has nothing alike is removed if its
   name is claimed, and one that differs in another field is overwritten under its identifier.
   */
  ghost predicate Differs(op: Op, existing: seq<Record>, wanted: seq<Record>) {
    match op.action
    case Add =>
      && op.record.saltManaged && (exists j :: Final(wanted, j) && wanted[j] == op.record)
      && forall i :: 0 <= i < |existing| ==> !Alike(existing[i], op.record)
    case Remove =>
      && Claims(wanted, op.record.name) && (exists i :: Final(existing, i) && existing[i] == op.record)
      && forall j :: 0 <= j < |wanted| ==> !Alike(wanted[j], op.record)
    case Update =>
      exists i, j :: Final(existing, i) && Final(wanted, j) && Overwrites(op.record, existing[i], wanted[j])
  }

  /** The written record is the wanted one, in the place of an existing one that is alike but not equal. */
  ghost predicate Overwrites(r: Record, e: Record, w: Record) {
    && Alike(e, w) && w.saltManaged
    && !(w.id.None? && e.priority == w.priority && e.proxied == w.proxied && e.ttl == w.ttl)
    && r == w.(id := e.id)
  }

  /** Removal is suppressed at names whose last desired record is not managed. */
  predicate HandsOff(flags: map<string, bool>, name: string) {
    name in flags && !flags[name]
  }

  /** The operation `op` belongs to the difference between existing and desired records. */
  predicate IsChange(op: Op, existing: map<Key, Record>, desired: map<Key, Record>, flags: map<string, bool>) {
    var k := op.record.KeyOf();
    match op.action
    case Add =>
      k in desired && k !in existing && desired[k] == op.record && op.record.saltManaged
    case Remove =>
      k in existing && k !in desired && existing[k] == op.record && !HandsOff(flags, k.name)
    case Update =>
      && k in existing && k in desired && existing[k].Pure() != desired[k]
      && desired[k].saltManaged && op.record == desired[k].(id := existing[k].id)
  }

  lemma IndexHasKind(rs: seq<Record>, r: Record)
    ensures r.KeyOf() in Index(rs) <==> exists i :: 0 <= i < |rs| && Alike(rs[i], r)
  {
    if r.KeyOf() in Index(rs) {
      var i :| 0 <= i < |rs| && rs[i] == Index(rs)[r.KeyOf()];
      assert Alike(rs[i], r);
    }
    if i :| 0 <= i < |rs| && Alike(rs[i], r) {
      assert rs[i] in rs && rs[i].KeyOf() == r.KeyOf();
    }
  }

  /** The dictionary holds the last record of each kind. */
  lemma IndexIsFinal(rs: seq<Record>, r: Record)
    ensures r.KeyOf() in Index(rs) && Index(rs)[r.KeyOf()] == r <==> exists i :: Final(rs, i) && rs[i] == r
  {
    if r.KeyOf() in Index(rs) && Index(rs)[r.KeyOf()] == r {
      var i := FinalOf(rs, r);
    }
    if i :| Final(rs, i) && rs[i] == r {
      assert LastOfKey(rs, i);
    }
  }

  /** A record of the dictionary is the final one of its kind. */
  lemma FinalOf(rs: seq<Record>, r: Record) returns (i: nat)
    requires r in rs && Index(rs)[r.KeyOf()] == r
    ensures Final(rs, i) && rs[i] == r
  {
    i :| 0 <= i < |rs| && rs[i] == r;
    var n := |rs|;
    while exists j :: i < j < n && Alike(rs[j], rs[i])
      invariant i < n == |rs| && Alike(rs[i], r)
      decreases n - i
    {
      var j :| i < j < n && Alike(rs[j], rs[i]);
      i := j;
    }
    assert LastOfKey(rs, i);
  }

  /** Unwanted records stay exactly at the names that the list does not claim. */
  lemma ClaimsIff(wanted: seq<Record>, name: string)
    ensures Claims(wanted, name) <==> !HandsOff(Flags(wanted), name)
  {
    if name in Flags(wanted) {
      OneLastFlag(wanted, name, true, false);
    }
  }

  lemma OneLastFlag(rs: seq<Record>, name: string, f: bool, g: bool)
    ensures LastFlag(rs, name, f) && LastFlag(rs, name, g) ==> f == g
  {
    if LastFlag(rs, name, f) && LastFlag(rs, name, g) {
      var i :| 0 <= i < |rs| && rs[i].name == name && rs[i].saltManaged == f
          && forall j :: i < j < |rs| ==> rs[j].name != name;
      var k :| 0 <= k < |rs| && rs[k].name == name && rs[k].saltManaged == g
          && forall j :: k < j < |rs| ==> rs[j].name != name;
      assert !(i < k) && !(k < i);
    }
  }

  /** The dictionaries give exactly the difference of the lists. */
  lemma ChangeIff(op: Op, existing: seq<Record>, wanted: seq<Record>)
    ensures IsChange(op, Index(existing), Index(wanted), Flags(wanted)) <==> Differs(op, existing, wanted)
  {
    if op.action.Update? {
      UpdateIff(op, existing, wanted);
    } else {
      IndexHasKind(existing, op.record);
      IndexHasKind(wanted, op.record);
      IndexIsFinal(existing, op.record);
      IndexIsFinal(wanted, op.record);
      ClaimsIff(wanted, op.record.name);
    }
  }

  lemma UpdateIff(op: Op, existing: seq<Record>, wanted: seq<Record>)
    requires op.action.Update?
    ensures IsChange(op, Index(existing), Index(wanted), Flags(wanted)) <==> Differs(op, existing, wanted)
  {
    var k := op.record.KeyOf();
    if IsChange(op, Index(existing), Index(wanted), Flags(wanted)) {
      var i := FinalOf(existing, Index(existing)[k]);
      var j := FinalOf(wanted, Index(wanted)[k]);
      assert Overwrites(op.record, existing[i], wanted[j]);
    }
    forall i, j | Final(existing, i) && Final(wanted, j) && Overwrites(op.record, existing[i], wanted[j])
      ensures IsChange(op, Index(existing), Index(wanted), Flags(wanted))
    {
      assert LastOfKey(existing, i) && LastOfKey(wanted, j);
      assert existing[i].KeyOf() == k && wanted[j].KeyOf() == k;
    }
  }

  /** `ops` is the difference, each operation once, in some order. */
  ghost predicate Plan(ops: seq<Op>, existing: map<Key, Record>, desired: map<Key, Record>, flags: map<string, bool>) {
    NoDup(ops) && forall op :: op in ops <==> IsChange(op, existing, desired, flags)
  }

  /** A key has at most one operation. */
  lemma OneChangePerKey(a: Op, b: Op, existing: map<Key, Record>, desired: map<Key, Record>, flags: map<string, bool>)
    requires IsChange(a, existing, desired, flags) && IsChange(b, existing, desired, flags)
    requires a.record.KeyOf() == b.record.KeyOf()
    ensures a == b
  {
  }

  /** `part` is what the plan contributes by `action` for the keys visited so far, each change once. */
  ghost predicate Contributes(part: seq<Op>, action: Action, seen: set<Key>,
                            e: map<Key, Record>, d: map<Key, Record>, flags: map<string, bool>) {
    && NoDup(part)
    && forall op :: op in part <==> op.action == action && op.record.KeyOf() in seen && IsChange(op, e, d, flags)
  }

  lemma CollectOne(part: seq<Op>, action: Action, seen: set<Key>, key: Key, op: Op,
                   e: map<Key, Record>, d: map<Key, Record>, flags: map<string, bool>)
    requires Contributes(part, action, seen, e, d, flags)
    requires key !in seen && op.action == action && op.record.KeyOf() == key && IsChange(op, e, d, flags)
    ensures Contributes(part + [op], action, seen + {key}, e, d, flags)
  {
    forall o: Op | o.action == action && o.record.KeyOf() == key && IsChange(o, e, d, flags)
      ensures o == op
    {
      OneChangePerKey(o, op, e, d, flags);
    }
    assert op !in part;
  }

  lemma CollectNone(part: seq<Op>, action: Action, seen: set<Key>, key: Key,
                    e: map<Key, Record>, d: map<Key, Record>, flags: map<string, bool>)
    requires Contributes(part, action, seen, e, d, flags)
    requires forall op: Op :: op.action == action && op.record.KeyOf() == key ==> !IsChange(op, e, d, flags)
    ensures Contributes(part, action, seen + {key}, e, d, flags)
  {
  }

  /** The change, if any, that the plan makes by `action` for one key. */
  function ChangeFor(action: Action, key: Key, e: map<Key, Record>, d: map<Key, Record>,
                     flags: map<string, bool>): Option<Op>
    requires (action.Add? || key in e) && (action.Remove? || key in d)
  {
    match action
    case Add => if d[key].saltManaged then Some(Op(Add, d[key])) else None
    case Remove => if HandsOff(flags, key.name) then None else Some(Op(Remove, e[key]))
    case Update =>
      if e[key].Pure() == d[key] || !d[key].saltManaged then None
      else Some(Op(Update, d[key].(id := e[key].id, saltManaged := true)))
  }

  /** The keys each of the three loops walks. */
  function KeysFor(action: Action, e: map<Key, Record>, d: map<Key, Record>): set<Key> {
    match action
    case Add => d.Keys - e.Keys
    case Remove => e.Keys - d.Keys
    case Update => e.Keys * d.Keys
  }

  lemma Visit(part: seq<Op>, action: Action, seen: set<Key>, key: Key,
              e: map<Key, Record>, d: map<Key, Record>, flags: map<string, bool>)
    requires Keyed(e) && Keyed(d)
    requires key in KeysFor(action, e, d) && key !in seen
    requires Contributes(part, action, seen, e, d, flags)
    ensures var change := ChangeFor(action, key, e, d, flags);
            Contributes(if change.Some? then part + [change.value] else part, action, seen + {key}, e, d, flags)
  {
    var change := ChangeFor(action, key, e, d, flags);
    if change.Some? {
      assert IsChange(change.value, e, d, flags);
      CollectOne(part, action, seen, key, change.value, e, d, flags);
    } else {
      CollectNone(part, action, seen, key, e, d, flags);
    }
  }

  ghost predicate Keyed(m: map<Key, Record>) {
    forall k :: k in m ==> m[k].KeyOf() == k
  }

  lemma OneLess(all: set<Key>, keys: set<Key>, key: Key)
    requires key in keys && keys <= all
    ensures all - (keys - {key}) == (all - keys) + {key}
  {
  }

  /** One of the three loops of the diff: the keys come in an arbitrary order. */
  method Changes(action: Action, e: map<Key, Record>, d: map<Key, Record>, flags: map<string, bool>)
    returns (part: seq<Op>)
    requires Keyed(e) && Keyed(d)
    ensures Contributes(part, action, KeysFor(action, e, d), e, d, flags)
  {
    part := [];
    var all := KeysFor(action, e, d);
    var keys := all;
    while keys != {}
      invariant keys <= all
      invariant Contributes(part, action, all - keys, e, d, flags)
      decreases |keys|
    {
      var key :| key in keys;
      Visit(part, action, all - keys, key, e, d, flags);
      var change := ChangeFor(action, key, e, d, flags);
      part := if change.Some? then part + [change.value] else part;
      OneLess(all, keys, key);
      keys := keys - {key};
    }
    assert all - keys == all;
  }

  /** Three parts, one per action and each over all of its keys, make up the plan. */
  lemma PartsMakePlan(a: seq<Op>, r: seq<Op>, u: seq<Op>,
                      e: map<Key, Record>, d: map<Key, Record>, flags: map<string, bool>)
    requires Contributes(a, Add, KeysFor(Add, e, d), e, d, flags)
    requires Contributes(r, Remove, KeysFor(Remove, e, d), e, d, flags)
    requires Contributes(u, Update, KeysFor(Update, e, d), e, d, flags)
    ensures Plan(a + r + u, e, d, flags)
  {
    var s := a + r + u;
    assert forall i :: 0 <= i < |a| ==> s[i] == a[i] && s[i] in a;
    assert forall i :: |a| <= i < |a| + |r| ==> s[i] == r[i - |a|] && s[i] in r;
    assert forall i :: |a| + |r| <= i < |s| ==> s[i] == u[i - |a| - |r|] && s[i] in u;
  }

  lemma PlanIsDifference(ops: seq<Op>, existing: seq<Record>, wanted: seq<Record>)
    requires Plan(ops, Index(existing), Index(wanted), Flags(wanted))
    ensures forall op :: op in ops <==> Differs(op, existing, wanted)
  {
    forall op
      ensures op in ops <==> Differs(op, existing, wanted)
    {
      ChangeIff(op, existing, wanted);
    }
  }

  /** The changes in an arbitrary order, as the set operations of the source give them, then ordered. */
  method Diff(existing: seq<Record>, wanted: seq<Record>) returns (ops: seq<Op>)
    ensures Plan(ops, Index(existing), Index(wanted), Flags(wanted))
    ensures NoDup(ops) && forall op :: op in ops <==> Differs(op, existing, wanted)
    ensures Ordered(ops) && Grouped(ops) && InTurn(ops)
  {
    var e, d, flags := Index(existing), Index(wanted), Flags(wanted);
    var a := Changes(Add, e, d, flags);
    var r := Changes(Remove, e, d, flags);
    var u := Changes(Update, e, d, flags);
    PartsMakePlan(a, r, u, e, d, flags);
    ops := Order(a + r + u);
    PermutationKeepsNoDup(a + r + u, ops);
    PlanIsDifference(ops, existing, wanted);
    OrderedInTurn(ops);
  }

  // ---------------------------------------------------------------- order

  predicate Primary(op: Op) {
    op.record.rtype.A? || op.record.rtype.AAAA? || op.record.rtype.CNAME?
  }

  /** SPECIAL_APPLY_ORDER and REGULAR_APPLY_ORDER. */
  function Rank(special: bool, action: Action): nat {
    match action
    case Remove => if special then 0 else 2
    case Add => if special then 1 else 0
    case Update => if special then 2 else 1
  }

  /** Some operation on a CNAME touches this name. */
  ghost predicate CnameAt(ops: seq<Op>, name: string) {
    exists op :: op in ops && op.record.name == name && op.record.rtype.CNAME?
  }

  predicate SameGroup(a: Op, b: Op) {
    a.record.name == b.record.name && Primary(a) == Primary(b)
  }

  /** Within one group of one name, operations follow the order that applies to the group. */
  ghost predicate Ordered(ops: seq<Op>) {
    forall i, j :: 0 <= i < j < |ops| && SameGroup(ops[i], ops[j]) ==>
      var special := Primary(ops[i]) && CnameAt(ops, ops[i].record.name);
      Rank(special, ops[i].action) <= Rank(special, ops[j].action)
  }

  /** The operations of one group are contiguous. */
  ghost predicate Contiguous(ops: seq<Op>) {
    forall i, j, k :: 0 <= i <= j <= k < |ops| && SameGroup(ops[i], ops[k]) ==> SameGroup(ops[i], ops[j])
  }

  /** Address and CNAME groups come first, and each group is contiguous. */
  ghost predicate Grouped(ops: seq<Op>) {
    && (forall i, j :: 0 <= i < j < |ops| && Primary(ops[j]) ==> Primary(ops[i]))
    && Contiguous(ops)
  }

  /**
   The order spelled out. Addresses and CNAMEs come before other types. Of a name, where a CNAME is
   touched, these are removed, added and updated in turn; otherwise they are added, updated and
   removed, and so are the other types.
   */
  ghost predicate InTurn(ops: seq<Op>) {
    forall i, j :: 0 <= i < j < |ops| ==> TakesTurns(ops, i, j)
  }

  ghost predicate TakesTurns(ops: seq<Op>, i: nat, j: nat)
    requires i < |ops| && j < |ops|
  {
    var a, b := ops[i], ops[j];
    var first, second := a.record.rtype in {A, AAAA, CNAME}, b.record.rtype in {A, AAAA, CNAME};
    && (second ==> first)
    && (a.record.name == b.record.name && first == second && first && CnameAt(ops, a.record.name) ==>
          (b.action.Remove? ==> a.action.Remove?) && (a.action.Update? ==> b.action.Update?))
    && (a.record.name == b.record.name && first == second && !(first && CnameAt(ops, a.record.name)) ==>
          (b.action.Add? ==> a.action.Add?) && (a.action.Remove? ==> b.action.Remove?))
  }

  lemma OrderedInTurn(ops: seq<Op>)
    requires Ordered(ops) && Grouped(ops)
    ensures InTurn(ops)
  {
    forall i, j | 0 <= i < j < |ops|
      ensures TakesTurns(ops, i, j)
    {
      assert SameGroup(ops[i], ops[j])
          <==> ops[i].record.name == ops[j].record.name && Primary(ops[i]) == Primary(ops[j]);
    }
  }

  function OfRank(ops: seq<Op>, special: bool, rank: nat): seq<Op> {
    if ops == [] then []
    else
      var n := |ops| - 1;
      OfRank(ops[..n], special, rank) + if Rank(special, ops[n].action) == rank then [ops[n]] else []
  }

  /** Python's stable `sorted` with a key that takes three values. */
  function SortByRank(ops: seq<Op>, special: bool): seq<Op> {
    OfRank(ops, special, 0) + OfRank(ops, special, 1) + OfRank(ops, special, 2)
  }

  lemma {:induction false} OfRankRanks(ops: seq<Op>, special: bool, rank: nat)
    ensures forall i :: 0 <= i < |OfRank(ops, special, rank)| ==>
              Rank(special, OfRank(ops, special, rank)[i].action) == rank
  {
    if ops != [] {
      OfRankRanks(ops[..|ops| - 1], special, rank);
    }
  }

  lemma {:induction false} SortPermutes(ops: seq<Op>, special: bool)
    ensures multiset(SortByRank(ops, special)) == multiset(ops)
  {
    if ops != [] {
      SortPermutes(ops[..|ops| - 1], special);
      SortGrows(ops, special);
      LastJoins(ops);
    }
  }

  lemma LastJoins<T>(s: seq<T>)
    requires s != []
    ensures multiset(s) == multiset(s[..|s| - 1]) + multiset{s[|s| - 1]}
  {
    assert s == s[..|s| - 1] + [s[|s| - 1]];
  }

  /** The last operation joins the part of its rank. */
  lemma SortGrows(ops: seq<Op>, special: bool)
    requires ops != []
    ensures multiset(SortByRank(ops, special)) ==
            multiset(SortByRank(ops[..|ops| - 1], special)) + multiset{ops[|ops| - 1]}
  {
    var init, last := ops[..|ops| - 1], ops[|ops| - 1];
    OfRankLast(ops, special, 0);
    OfRankLast(ops, special, 1);
    OfRankLast(ops, special, 2);
    OneOfThreeGrows(OfRank(init, special, 0), OfRank(init, special, 1), OfRank(init, special, 2),
                    OfRank(ops, special, 0), OfRank(ops, special, 1), OfRank(ops, special, 2), last);
  }

  lemma OfRankLast(ops: seq<Op>, special: bool, rank: nat)
    requires ops != []
    ensures var init, last := ops[..|ops| - 1], ops[|ops| - 1];
            OfRank(ops, special, rank) ==
            if Rank(special, last.action) == rank then OfRank(init, special, rank) + [last]
            else OfRank(init, special, rank)
  {
  }

  ghost predicate SortedBy(ops: seq<Op>, special: bool) {
    forall i, j :: 0 <= i < j < |ops| ==> Rank(special, ops[i].action) <= Rank(special, ops[j].action)
  }

  lemma SortSorts(ops: seq<Op>, special: bool)
    ensures SortedBy(SortByRank(ops, special), special)
  {
    OfRankRanks(ops, special, 0);
    OfRankRanks(ops, special, 1);
    OfRankRanks(ops, special, 2);
  }

  lemma SortMembers(ops: seq<Op>, special: bool, op: Op)
    ensures op in SortByRank(ops, special) <==> op in ops
  {
    SortPermutes(ops, special);
    assert op in SortByRank(ops, special) <==> op in multiset(SortByRank(ops, special));
    assert op in ops <==> op in multiset(ops);
  }

  // ---------------------------------------------------------------- groups

  /** A dictionary from name to operations, in insertion order. */
  datatype Groups = Groups(names: seq<string>, table: map<string, seq<Op>>)

  /** One group per name, holding operations of that name and of one kind. */
  ghost predicate Tidy(g: Groups, primary: bool) {
    && NoDup(g.names)
    && (forall n :: n in g.names <==> n in g.table)
    && (forall n, op :: n in g.table && op in g.table[n] ==> op.record.name == n && Primary(op) == primary)
  }

  function Flatten(names: seq<string>, table: map<string, seq<Op>>): seq<Op>
    requires forall n :: n in names ==> n in table
  {
    if names == [] then [] else Flatten(names[..|names| - 1], table) + table[names[|names| - 1]]
  }

  function Put(g: Groups, op: Op): Groups {
    var n := op.record.name;
    if n in g.table then Groups(g.names, g.table[n := g.table[n] + [op]])
    else Groups(g.names + [n], g.table[n := [op]])
  }

  lemma {:induction false} FlattenFrame(names: seq<string>, t: map<string, seq<Op>>, u: map<string, seq<Op>>)
    requires forall n :: n in names ==> n in t && n in u && t[n] == u[n]
    ensures Flatten(names, t) == Flatten(names, u)
  {
    if names != [] {
      FlattenFrame(names[..|names| - 1], t, u);
    }
  }

  lemma {:induction false} FlattenGrow(names: seq<string>, t: map<string, seq<Op>>, n: string, op: Op)
    requires NoDup(names) && n in names && forall m :: m in names ==> m in t
    ensures multiset(Flatten(names, t[n := t[n] + [op]])) == multiset(Flatten(names, t)) + multiset{op}
  {
    var k := |names| - 1;
    var u := t[n := t[n] + [op]];
    assert names == names[..k] + [names[k]];
    if names[k] == n {
      FlattenFrame(names[..k], t, u);
      var f := Flatten(names[..k], t);
      InsertPermutes(f + t[n], op, []);
      assert Flatten(names, u) == f + t[n] + [op] + [];
      assert f + t[n] + [] == Flatten(names, t);
    } else {
      FlattenGrow(names[..k], t, n, op);
      assert multiset(Flatten(names, u)) == multiset(Flatten(names[..k], u)) + multiset(t[names[k]]);
      assert multiset(Flatten(names, t)) == multiset(Flatten(names[..k], t)) + multiset(t[names[k]]);
    }
  }

  /** All operations in the groups. */
  ghost function Holding(g: Groups): multiset<Op>
    requires forall n :: n in g.names <==> n in g.table
  {
    multiset(Flatten(g.names, g.table))
  }

  lemma PutOne(g: Groups, primary: bool, op: Op)
    requires Tidy(g, primary) && Primary(op) == primary
    ensures Tidy(Put(g, op), primary) && Holding(Put(g, op)) == Holding(g) + multiset{op}
  {
    PutTidy(g, primary, op);
    PutGrows(g, primary, op);
  }

  lemma PutTidy(g: Groups, primary: bool, op: Op)
    requires Tidy(g, primary) && Primary(op) == primary
    ensures Tidy(Put(g, op), primary)
  {
  }

  lemma PutGrows(g: Groups, primary: bool, op: Op)
    requires Tidy(g, primary) && Tidy(Put(g, op), primary)
    ensures multiset(Flatten(Put(g, op).names, Put(g, op).table)) == multiset(Flatten(g.names, g.table)) + multiset{op}
  {
    var n := op.record.name;
    if n in g.table {
      FlattenGrow(g.names, g.table, n, op);
    } else {
      assert (g.names + [n])[..|g.names|] == g.names;
      FlattenFrame(g.names, g.table, g.table[n := [op]]);
      assert Flatten(g.names + [n], g.table[n := [op]]) == Flatten(g.names, g.table) + [op];
    }
  }

  predicate OfKind(ops: seq<Op>, primary: bool) {
    forall i :: 0 <= i < |ops| ==> Primary(ops[i]) == primary
  }

  predicate AllNamed(ops: seq<Op>, n: string) {
    forall i :: 0 <= i < |ops| ==> ops[i].record.name == n
  }

  predicate NoneNamed(ops: seq<Op>, n: string) {
    forall i :: 0 <= i < |ops| ==> ops[i].record.name != n
  }

  lemma CnameInConcat(a: seq<Op>, b: seq<Op>, n: string)
    ensures CnameAt(a + b, n) <==> CnameAt(a, n) || CnameAt(b, n)
  {
    assert forall op :: op in a + b <==> op in a || op in b;
  }

  lemma NoneNamedNoCname(ops: seq<Op>, n: string)
    requires NoneNamed(ops, n) || OfKind(ops, false)
    ensures !CnameAt(ops, n)
  {
  }

  /** Appending the sorted group of a new name keeps the groups ordered and contiguous. */
  lemma AppendGroup(part: seq<Op>, group: seq<Op>, n: string, primary: bool)
    requires OfKind(part, primary) && OfKind(group, primary) && Ordered(part) && Contiguous(part)
    requires NoneNamed(part, n) && AllNamed(group, n)
    requires SortedBy(group, primary && CnameAt(group, n))
    ensures OfKind(part + group, primary) && Ordered(part + group) && Contiguous(part + group)
  {
    var s := part + group;
    NoneNamedNoCname(part, n);
    CnameInConcat(part, group, n);
    forall i, j | 0 <= i < j < |s| && SameGroup(s[i], s[j])
      ensures var special := Primary(s[i]) && CnameAt(s, s[i].record.name);
              Rank(special, s[i].action) <= Rank(special, s[j].action)
    {
      if j < |part| {
        CnameInConcat(part, group, s[i].record.name);
        NoneNamedNoCname(group, s[i].record.name);
      }
    }
  }

  /** The part built from the first `i` groups of a dictionary. */
  ghost predicate Built(part: seq<Op>, g: Groups, primary: bool, i: nat)
    requires i <= |g.names| && forall n :: n in g.names ==> n in g.table
  {
    && multiset(part) == multiset(Flatten(g.names[..i], g.table))
    && OfKind(part, primary) && Ordered(part) && Contiguous(part)
    && forall k :: i <= k < |g.names| ==> NoneNamed(part, g.names[k])
  }

  lemma BuildNext(part: seq<Op>, g: Groups, primary: bool, i: nat, group: seq<Op>)
    requires Tidy(g, primary) && i < |g.names| && Built(part, g, primary, i)
    requires OfKind(group, primary) && AllNamed(group, g.names[i])
    requires SortedBy(group, primary && CnameAt(group, g.names[i]))
    requires multiset(group) == multiset(g.table[g.names[i]])
    ensures Built(part + group, g, primary, i + 1)
  {
    var name := g.names[i];
    AppendGroup(part, group, name, primary);
    assert g.names[..i + 1][..i] == g.names[..i];
    assert Flatten(g.names[..i + 1], g.table) == Flatten(g.names[..i], g.table) + g.table[name];
    assert multiset(part + group) == multiset(part) + multiset(group);
    forall k | i + 1 <= k < |g.names|
      ensures NoneNamed(part + group, g.names[k])
    {
      assert NoneNamed(part, g.names[k]);
    }
  }

  /** Appends the groups of one dictionary, each sorted by the order that applies to it. */
  method AppendInOrder(g: Groups, primary: bool) returns (part: seq<Op>)
    requires Tidy(g, primary)
    ensures multiset(part) == Holding(g)
    ensures OfKind(part, primary) && Ordered(part) && Contiguous(part)
  {
    part := [];
    for i := 0 to |g.names|
      invariant Built(part, g, primary, i)
    {
      var ops := g.table[g.names[i]];
      var special := primary && exists k :: 0 <= k < |ops| && ops[k].record.rtype.CNAME?;
      var group := SortByRank(ops, special);
      GroupReady(ops, g.names[i], primary, special);
      SortPermutes(ops, special);
      BuildNext(part, g, primary, i, group);
      part := part + group;
    }
    assert g.names[..|g.names|] == g.names;
  }

  lemma GroupReady(ops: seq<Op>, n: string, primary: bool, special: bool)
    requires forall op :: op in ops ==> op.record.name == n && Primary(op) == primary
    requires special <==> primary && exists k :: 0 <= k < |ops| && ops[k].record.rtype.CNAME?
    ensures var s := SortByRank(ops, special);
            OfKind(s, primary) && AllNamed(s, n) && SortedBy(s, primary && CnameAt(s, n))
  {
    var s := SortByRank(ops, special);
    SortSorts(ops, special);
    forall op
      ensures op in s <==> op in ops
    {
      SortMembers(ops, special, op);
    }
    assert forall i :: 0 <= i < |s| ==> s[i] in s;
    if special {
      var k :| 0 <= k < |ops| && ops[k].record.rtype.CNAME?;
      assert ops[k] in s;
    }
  }

  /** The first loop: one dictionary for addresses and CNAMEs, one for the rest. */
  method GroupAll(diff: seq<Op>) returns (primary: Groups, rest: Groups)
    ensures Tidy(primary, true) && Tidy(rest, false)
    ensures Holding(primary) + Holding(rest) == multiset(diff)
  {
    primary, rest := Groups([], map[]), Groups([], map[]);
    for i := 0 to |diff|
      invariant Tidy(primary, true) && Tidy(rest, false)
      invariant Holding(primary) + Holding(rest) == multiset(diff[..i])
    {
      Prefix(diff, i);
      AddEitherWay(Holding(primary), Holding(rest), diff[i]);
      if Primary(diff[i]) {
        PutOne(primary, true, diff[i]);
        primary := Put(primary, diff[i]);
      } else {
        PutOne(rest, false, diff[i]);
        rest := Put(rest, diff[i]);
      }
    }
    assert diff[..|diff|] == diff;
  }

  lemma Prefix(diff: seq<Op>, i: nat)
    requires i < |diff|
    ensures multiset(diff[..i + 1]) == multiset(diff[..i]) + multiset{diff[i]}
  {
    assert diff[..i + 1] == diff[..i] + [diff[i]];
  }

  /** Groups the changes by kind and name, sorts each group and concatenates the groups. */
  method Order(diff: seq<Op>) returns (result: seq<Op>)
    ensures multiset(result) == multiset(diff)
    ensures Ordered(result) && Grouped(result)
  {
    var primary, rest := GroupAll(diff);
    var first := AppendInOrder(primary, true);
    var second := AppendInOrder(rest, false);
    PrimaryThenRest(first, second);
    result := first + second;
  }

  lemma PrimaryThenRest(a: seq<Op>, b: seq<Op>)
    requires OfKind(a, true) && Ordered(a) && Contiguous(a)
    requires OfKind(b, false) && Ordered(b) && Contiguous(b)
    ensures Ordered(a + b) && Grouped(a + b)
  {
    var s := a + b;
    forall i, j | 0 <= i < j < |s| && SameGroup(s[i], s[j])
      ensures var special := Primary(s[i]) && CnameAt(s, s[i].record.name);
              Rank(special, s[i].action) <= Rank(special, s[j].action)
    {
      if j < |a| {
        CnameInConcat(a, b, s[i].record.name);
        NoneNamedNoCname(b, s[i].record.name);
      }
    }
  }
}
