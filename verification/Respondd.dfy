/** The response cache: the cached dictionary and the returned one are the same object. */
module Respondd {
  import opened Prelude

  type Fields = map<string, string>

  const NODE_ID := "node_id"

  /** A mutable dictionary. */
  class Struct {
    var fields: Fields

    constructor (fields: Fields)
      ensures this.fields == fields
    {
      this.fields := fields;
    }

    method Set(key: string, value: string)
      modifies this
      ensures fields == old(fields)[key := value]
    {
      fields := fields[key := value];
    }
  }

  /** The answer, bare or under a root name. */
  datatype Answer = Bare(body: Struct) | Rooted(root: string, body: Struct)

  /** One call: the clock when the cache is checked, what `_get` returns, the clock when it is stored, the node id. */
  datatype Call = Call(check: real, fetched: Fields, stored: real, nodeId: string)

  /** The cache as a value. */
  datatype Cache = Cache(fields: Fields, time: real)

  predicate Hit(caching: Option<real>, c: Cache, call: Call) {
    caching.Some? && call.check - c.time <= caching.value
  }

  /** The cache after a call; its fields are also the fields of the answer. */
  function Served(caching: Option<real>, c: Cache, call: Call): Cache {
    if Hit(caching, c, call) then c else Cache(call.fetched[NODE_ID := call.nodeId], call.stored)
  }

  class Responder {
    const caching: Option<real>
    var cache: Struct
    var cacheTime: real

    constructor (caching: Option<real>)
      ensures this.caching == caching && fresh(cache) && cache.fields == map[] && cacheTime == 0.0
    {
      this.caching := caching;
      cache := new Struct(map[]);
      cacheTime := 0.0;
    }

    /**
     On a hit the answer is the cached object itself; otherwise it is a new object that is cached
     first and completed with the node id afterwards, which shows in the cache as well.
     */
    method GetStruct(call: Call, root: Option<string>) returns (answer: Answer)
      modifies this
      ensures answer.body == cache && answer.Rooted? == root.Some? && (root.Some? ==> answer.root == root.value)
      ensures Cache(cache.fields, cacheTime) == Served(caching, Cache(old(cache.fields), old(cacheTime)), call)
      ensures cache == old(cache) || fresh(cache)
      ensures Hit(caching, Cache(old(cache.fields), old(cacheTime)), call) ==> cache == old(cache)
    {
      var ret: Struct;
      if caching.Some? && call.check - cacheTime <= caching.value {
        ret := cache;
      } else {
        ret := new Struct(call.fetched);
        cache := ret;
        cacheTime := call.stored;
        ret.Set(NODE_ID, call.nodeId);
      }
      answer := if root.Some? then Rooted(root.value, ret) else Bare(ret);
    }

    /**
     A whole run on a new responder: each answer keeps its content, and a cached one is the object
     answered before.
     */
    method Serve(calls: seq<Call>, root: Option<string>) returns (answers: seq<Answer>)
      requires cache.fields == map[] && cacheTime == 0.0
      modifies this
      ensures |answers| == |calls|
      ensures forall i :: 0 <= i < |calls| ==> answers[i].body.fields == After(caching, calls, i + 1).fields
      ensures forall i :: 0 < i < |calls| && !Fetched(caching, calls, i) ==> answers[i].body == answers[i - 1].body
    {
      answers := [];
      for i := 0 to |calls|
        invariant |answers| == i
        invariant Cache(cache.fields, cacheTime) == After(caching, calls, i)
        invariant i > 0 ==> answers[i - 1].body == cache
        invariant forall k :: 0 <= k < i ==> answers[k].body.fields == After(caching, calls, k + 1).fields
        invariant forall k :: 0 < k < i && !Fetched(caching, calls, k) ==> answers[k].body == answers[k - 1].body
      {
        var answer := GetStruct(calls[i], root);
        answers := answers + [answer];
      }
    }
  }

  // ---------------------------------------------------------------- whole runs

  /** The cache after the first `n` calls on a new responder. */
  function After(caching: Option<real>, calls: seq<Call>, n: nat): Cache
    requires n <= |calls|
  {
    if n == 0 then Cache(map[], 0.0) else Served(caching, After(caching, calls, n - 1), calls[n - 1])
  }

  /** The clock does not run backwards, within a call and from call to call. */
  ghost predicate Clocked(calls: seq<Call>) {
    && (forall i :: 0 <= i < |calls| ==> calls[i].check <= calls[i].stored)
    && (forall i, j :: 0 <= i < j < |calls| ==> calls[i].stored <= calls[j].check)
  }

  predicate Fetched(caching: Option<real>, calls: seq<Call>, i: nat)
    requires i < |calls|
  {
    !Hit(caching, After(caching, calls, i), calls[i])
  }

  /** The answer to call `i` is what call `j` fetched, and nothing was fetched since. */
  ghost predicate Newest(caching: Option<real>, calls: seq<Call>, i: nat, j: nat)
    requires j <= i < |calls|
  {
    && Fetched(caching, calls, j) && (forall m :: j < m <= i ==> !Fetched(caching, calls, m))
    && After(caching, calls, i + 1) == Cache(calls[j].fetched[NODE_ID := calls[j].nodeId], calls[j].stored)
  }

  lemma {:induction false} CacheStays(caching: Option<real>, calls: seq<Call>, j: nat, i: nat)
    requires j < i <= |calls| && Fetched(caching, calls, j) && forall m :: j < m < i ==> !Fetched(caching, calls, m)
    ensures After(caching, calls, i) == Cache(calls[j].fetched[NODE_ID := calls[j].nodeId], calls[j].stored)
  {
    if j + 1 < i {
      CacheStays(caching, calls, j, i - 1);
      assert !Fetched(caching, calls, i - 1);
    }
  }

  /**
   The next fetch after call `j` is made by the first call more than `caching` seconds later, by
   every call without caching.
   */
  lemma FetchedIff(caching: Option<real>, calls: seq<Call>, j: nat, i: nat)
    requires j < i < |calls| && Fetched(caching, calls, j) && forall m :: j < m < i ==> !Fetched(caching, calls, m)
    ensures Fetched(caching, calls, i) <==> caching.None? || calls[i].check > calls[j].stored + caching.value
  {
    CacheStays(caching, calls, j, i);
  }

  /** The call comes within `caching` of time 0, the time of the empty initial cache. */
  predicate Early(caching: Option<real>, call: Call) {
    caching.Some? && call.check <= caching.value
  }

  /** As long as all calls are early the cache is the empty initial one; from then on it has the node id. */
  lemma {:induction false} EmptyWhileEarly(caching: Option<real>, calls: seq<Call>, n: nat)
    requires n <= |calls|
    ensures if forall j :: 0 <= j < n ==> Early(caching, calls[j]) then After(caching, calls, n) == Cache(map[], 0.0)
            else NODE_ID in After(caching, calls, n).fields
  {
    if n > 0 {
      EmptyWhileEarly(caching, calls, n - 1);
    }
  }

  /** An answer has the node id if and only if it or an answer before it was not early. */
  lemma NodeIdIff(caching: Option<real>, calls: seq<Call>, i: nat)
    requires i < |calls|
    ensures NODE_ID in After(caching, calls, i + 1).fields <==> exists j :: 0 <= j <= i && !Early(caching, calls[j])
  {
    EmptyWhileEarly(caching, calls, i + 1);
  }

  /** A responder asked right after time 0 answers with nothing. */
  lemma EarlyAnswer(fetched: Fields, nodeId: string)
    ensures var calls := [Call(1.0, fetched, 1.0, nodeId)]; After(Some(30.0), calls, 1).fields == map[]
  {
    var calls := [Call(1.0, fetched, 1.0, nodeId)];
    assert Early(Some(30.0), calls[0]);
    EmptyWhileEarly(Some(30.0), calls, 1);
  }

  /**
   From the first call that is not early on, every answer is the newest fetched value and is at
   most `caching` seconds old when it is not fetched by the call itself.
   */
  lemma {:induction false} AnswersAreFresh(caching: Option<real>, calls: seq<Call>, i: nat) returns (j: nat)
    requires Clocked(calls) && i < |calls| && exists e :: 0 <= e <= i && !Early(caching, calls[e])
    ensures j <= i && Newest(caching, calls, i, j)
    ensures j < i ==> caching.Some? && calls[j].stored <= calls[i].check <= calls[j].stored + caching.value
  {
    if Fetched(caching, calls, i) {
      j := i;
    } else {
      EmptyWhileEarly(caching, calls, i);
      j := AnswersAreFresh(caching, calls, i - 1);
    }
  }
}
