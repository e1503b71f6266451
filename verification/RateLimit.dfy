/** The token bucket that limits responses, and exact statements about whole call sequences. */
module RateLimit {
  import opened Prelude

  /** Calls per minute and bucket size. */
  datatype Config = Config(rate: real, burst: real)
  {
    ghost predicate Valid() {
      rate > 0.0 && burst >= 0.0
    }
  }

  function Min(a: real, b: real): real {
    if a < b then a else b
  }

  /** Tokens gained in `d` seconds. */
  function Refill(rate: real, d: real): real
    requires rate > 0.0
  {
    Positive(rate);
    d / (60.0 / rate)
  }

  lemma Positive(rate: real)
    requires rate > 0.0
    ensures 60.0 / rate > 0.0
  {
  }

  lemma RefillIsLinear(rate: real, a: real, b: real)
    requires rate > 0.0
    ensures Refill(rate, a) == a * rate / 60.0
    ensures Refill(rate, a + b) == Refill(rate, a) + Refill(rate, b)
    ensures a >= 0.0 ==> Refill(rate, a) >= 0.0
  {
    Divide(rate, a);
    Divide(rate, b);
    Divide(rate, a + b);
    assert (a + b) * rate == a * rate + b * rate;
    if a >= 0.0 {
      assert a * rate >= 0.0;
    }
  }

  lemma Divide(rate: real, d: real)
    requires rate > 0.0
    ensures Refill(rate, d) == d * rate / 60.0
  {
    var q := 60.0 / rate;
    Positive(rate);
    assert q * rate == 60.0;
    var x := d / q;
    assert x * q == d;
    calc {
      d * rate;
      (x * q) * rate;
      x * (q * rate);
      x * 60.0;
    }
  }

  // ---------------------------------------------------------------- the limiter

  class Limiter {
    const config: Config
    var bucket: real
    var last: Option<real>

    constructor (rate: real, burst: real)
      ensures config == Config(rate, burst) && bucket == burst && last == None
    {
      config := Config(rate, burst);
      bucket := burst;
      last := None;
    }

    /** The very first call is granted without a token; a rate of zero would divide by zero. */
    method Limit(now: real) returns (granted: bool)
      requires config.rate > 0.0
      modifies this
      ensures (State(bucket, last), granted) == Next(config, State(old(bucket), old(last)), now)
    {
      if last.None? {
        last := Some(now);
        return true;
      }
      var diff := now - last.value;
      last := Some(now);
      Positive(config.rate);
      bucket := bucket + diff / (60.0 / config.rate);
      if bucket > config.burst {
        bucket := config.burst;
      }
      if bucket >= 1.0 {
        bucket := bucket - 1.0;
        return true;
      } else {
        return false;
      }
    }

    /** A whole sequence of calls on a new limiter. */
    method Serve(times: seq<real>) returns (decisions: seq<bool>)
      requires config.Valid() && bucket == config.burst && last == None
      modifies this
      ensures |decisions| == |times|
      ensures forall i :: 0 <= i < |times| ==> decisions[i] == Granted(config, times, i)
    {
      decisions := [];
      for i := 0 to |times|
        invariant |decisions| == i
        invariant i == 0 ==> bucket == config.burst && last == None
        invariant i > 0 ==> bucket == Level(config, times, i) && last == Some(times[i - 1])
        invariant forall k :: 0 <= k < i ==> decisions[k] == Granted(config, times, k)
      {
        var granted := Limit(times[i]);
        decisions := decisions + [granted];
      }
    }
  }

  datatype State = State(bucket: real, last: Option<real>)

  function Next(c: Config, s: State, now: real): (State, bool)
    requires c.rate > 0.0
  {
    if s.last.None? then (State(s.bucket, Some(now)), true)
    else
      var level := Min(s.bucket + Refill(c.rate, now - s.last.value), c.burst);
      if level >= 1.0 then (State(level - 1.0, Some(now)), true) else (State(level, Some(now)), false)
  }

  // ---------------------------------------------------------------- call sequences

  /** The bucket after the first `i` calls. */
  function Level(c: Config, ts: seq<real>, i: nat): real
    requires c.rate > 0.0 && 1 <= i <= |ts|
    decreases i, 0
  {
    if i == 1 then c.burst
    else if Avail(c, ts, i - 1) >= 1.0 then Avail(c, ts, i - 1) - 1.0
    else Avail(c, ts, i - 1)
  }

  /** The bucket when call `i` is decided. */
  function Avail(c: Config, ts: seq<real>, i: nat): real
    requires c.rate > 0.0 && 1 <= i < |ts|
    decreases i, 1
  {
    Min(Level(c, ts, i) + Refill(c.rate, ts[i] - ts[i - 1]), c.burst)
  }

  predicate Granted(c: Config, ts: seq<real>, i: nat)
    requires c.rate > 0.0 && i < |ts|
  {
    i == 0 || Avail(c, ts, i) >= 1.0
  }

  /** Number of granted calls among i, ..., j - 1. */
  function Grants(c: Config, ts: seq<real>, i: nat, j: nat): nat
    requires c.rate > 0.0 && i <= j <= |ts|
    decreases j - i
  {
    if i == j then 0 else Grants(c, ts, i, j - 1) + if Granted(c, ts, j - 1) then 1 else 0
  }

  ghost predicate Nondecreasing(ts: seq<real>) {
    forall i, j :: 0 <= i <= j < |ts| ==> ts[i] <= ts[j]
  }

  /** The bucket always stays between 0 and burst. */
  lemma {:induction false} BucketRange(c: Config, ts: seq<real>, i: nat)
    requires c.Valid() && Nondecreasing(ts) && 1 <= i <= |ts|
    ensures 0.0 <= Level(c, ts, i) <= c.burst
  {
    if i > 1 {
      BucketRange(c, ts, i - 1);
      RefillIsLinear(c.rate, ts[i - 1] - ts[i - 2], 0.0);
    }
  }

  /** What a window starting at call `k` would still allow call `j`. */
  function Room(c: Config, ts: seq<real>, k: nat, j: nat): real
    requires c.rate > 0.0 && 1 <= k <= j < |ts|
  {
    c.burst + Refill(c.rate, ts[j] - ts[k]) - Grants(c, ts, k, j) as real
  }

  lemma RoomStep(c: Config, ts: seq<real>, k: nat, j: nat)
    requires c.Valid() && 1 <= k <= j && j + 1 < |ts|
    ensures Room(c, ts, k, j + 1) ==
            Room(c, ts, k, j) + Refill(c.rate, ts[j + 1] - ts[j]) - if Granted(c, ts, j) then 1.0 else 0.0
  {
    RefillIsLinear(c.rate, ts[j] - ts[k], ts[j + 1] - ts[j]);
    assert (ts[j] - ts[k]) + (ts[j + 1] - ts[j]) == ts[j + 1] - ts[k];
  }

  /** The bucket is exactly the least room over all windows that end at the call. */
  lemma {:induction false} BucketIsLeastRoom(c: Config, ts: seq<real>, j: nat)
    requires c.Valid() && Nondecreasing(ts) && 1 <= j < |ts|
    ensures forall k :: 1 <= k <= j ==> Avail(c, ts, j) <= Room(c, ts, k, j)
    ensures exists k :: 1 <= k <= j && Avail(c, ts, j) == Room(c, ts, k, j)
  {
    NoTime(c.rate);
    assert Room(c, ts, j, j) == c.burst;
    RefillIsLinear(c.rate, ts[j] - ts[j - 1], 0.0);
    if j > 1 {
      BucketIsLeastRoom(c, ts, j - 1);
      forall k | 1 <= k <= j - 1
        ensures Room(c, ts, k, j) ==
                Room(c, ts, k, j - 1) + Refill(c.rate, ts[j] - ts[j - 1]) - if Granted(c, ts, j - 1) then 1.0 else 0.0
      {
        RoomStep(c, ts, k, j - 1);
      }
      var k :| 1 <= k <= j - 1 && Avail(c, ts, j - 1) == Room(c, ts, k, j - 1);
      assert Level(c, ts, j) + Refill(c.rate, ts[j] - ts[j - 1]) == Room(c, ts, k, j);
    }
  }

  lemma NoTime(rate: real)
    requires rate > 0.0
    ensures Refill(rate, 0.0) == 0.0
  {
    Divide(rate, 0.0);
  }

  /**
   A call after the first is granted if and only if no window ending with it would then hold
   more than burst + rate * length / 60 granted calls.
   */
  lemma GrantedIff(c: Config, ts: seq<real>, j: nat)
    requires c.Valid() && Nondecreasing(ts) && 1 <= j < |ts|
    ensures Granted(c, ts, j) <==>
            forall k :: 1 <= k <= j ==> Grants(c, ts, k, j) as real + 1.0 <= c.burst + Refill(c.rate, ts[j] - ts[k])
  {
    BucketIsLeastRoom(c, ts, j);
    var k :| 1 <= k <= j && Avail(c, ts, j) == Room(c, ts, k, j);
    assert forall k :: 1 <= k <= j ==>
      (Grants(c, ts, k, j) as real + 1.0 <= c.burst + Refill(c.rate, ts[j] - ts[k]) <==> 1.0 <= Room(c, ts, k, j));
  }

  lemma LevelBound(c: Config, ts: seq<real>, i: nat, j: nat)
    requires c.Valid() && Nondecreasing(ts) && 1 <= i < j <= |ts|
    ensures Level(c, ts, j) <= c.burst + Refill(c.rate, ts[j - 1] - ts[i]) - Grants(c, ts, i, j) as real
  {
    BucketIsLeastRoom(c, ts, j - 1);
    assert Avail(c, ts, j - 1) <= Room(c, ts, i, j - 1);
  }

  /** In every window of calls at most burst + rate * length / 60 are granted, one more if it holds the first call. */
  lemma WindowBound(c: Config, ts: seq<real>, i: nat, j: nat)
    requires c.Valid() && Nondecreasing(ts) && i < j <= |ts|
    ensures Grants(c, ts, i, j) as real <= c.burst + Refill(c.rate, ts[j - 1] - ts[i]) + if i == 0 then 1.0 else 0.0
  {
    if i > 0 {
      LevelBound(c, ts, i, j);
      BucketRange(c, ts, j);
    } else {
      GrantsFromFirst(c, ts, j);
      RefillIsLinear(c.rate, ts[j - 1] - ts[0], 0.0);
      if j > 1 {
        LevelBound(c, ts, 1, j);
        BucketRange(c, ts, j);
        RefillIsLinear(c.rate, ts[1] - ts[0], ts[j - 1] - ts[1]);
        assert (ts[1] - ts[0]) + (ts[j - 1] - ts[1]) == ts[j - 1] - ts[0];
      }
    }
  }

  lemma {:induction false} GrantsFromFirst(c: Config, ts: seq<real>, j: nat)
    requires c.rate > 0.0 && 1 <= j <= |ts|
    ensures Grants(c, ts, 0, j) == 1 + Grants(c, ts, 1, j)
  {
    if j > 1 {
      GrantsFromFirst(c, ts, j - 1);
    } else {
      assert Grants(c, ts, 0, 0) == 0;
    }
  }

  // ---------------------------------------------------------------- denied calls

  function Without(ts: seq<real>, d: nat): seq<real>
    requires d < |ts|
  {
    ts[..d] + ts[d + 1..]
  }

  /** Before the removed call nothing differs. */
  lemma {:induction false} SameBefore(c: Config, ts: seq<real>, d: nat, i: nat)
    requires c.rate > 0.0 && d < |ts| && 1 <= i <= d
    ensures Level(c, Without(ts, d), i) == Level(c, ts, i)
  {
    if i > 1 {
      SameBefore(c, ts, d, i - 1);
    }
  }

  /** Refilling twice is refilling once. */
  lemma MergedRefill(rate: real, burst: real, level: real, a: real, b: real)
    requires rate > 0.0 && a >= 0.0 && b >= 0.0
    ensures Min(Min(level + Refill(rate, a), burst) + Refill(rate, b), burst) == Min(level + Refill(rate, a + b), burst)
  {
    RefillIsLinear(rate, a, b);
    RefillIsLinear(rate, b, a);
  }

  /** After a removed denied call the bucket is what it would have been. */
  lemma {:induction false} SameAfter(c: Config, ts: seq<real>, d: nat, i: nat)
    requires c.Valid() && Nondecreasing(ts) && 1 <= d < |ts| && !Granted(c, ts, d) && d <= i && i + 1 < |ts|
    ensures Avail(c, Without(ts, d), i) == Avail(c, ts, i + 1)
  {
    var us := Without(ts, d);
    if i == d {
      SameBefore(c, ts, d, d);
      assert us[d] == ts[d + 1] && us[d - 1] == ts[d - 1];
      MergedRefill(c.rate, c.burst, Level(c, ts, d), ts[d] - ts[d - 1], ts[d + 1] - ts[d]);
      assert (ts[d] - ts[d - 1]) + (ts[d + 1] - ts[d]) == us[d] - us[d - 1];
    } else {
      SameAfter(c, ts, d, i - 1);
      assert us[i] == ts[i + 1] && us[i - 1] == ts[i];
    }
  }

  /** Removing any denied call from any sequence leaves every other decision as it was. */
  lemma DeniedIsInvisible(c: Config, ts: seq<real>, d: nat, i: nat)
    requires c.Valid() && Nondecreasing(ts) && d < |ts| && !Granted(c, ts, d)
    requires i < |ts| - 1
    ensures Granted(c, Without(ts, d), i) == Granted(c, ts, if i < d then i else i + 1)
  {
    if 1 <= i < d {
      SameBefore(c, ts, d, i);
      assert Without(ts, d)[i] == ts[i] && Without(ts, d)[i - 1] == ts[i - 1];
    } else if i >= d {
      SameAfter(c, ts, d, i);
    }
  }
}
