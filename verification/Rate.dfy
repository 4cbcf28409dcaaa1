/**
 The per-key sliding-window hit counter, sharded by a 64-bit string hash, against the full log of hits.

 The clock is a parameter and does not run backwards.
 */
module Rate {
  import opened Sequences

  const SHARD_COUNT := 16

  // --- The shard hash -------------------------------------------------------------------------

  const TWO63 := 0x8000_0000_0000_0000
  const TWO64 := 0x1_0000_0000_0000_0000

  /** Two's-complement wrap-around of a signed 64-bit integer. */
  function Wrap64(x: int): (r: int)
    ensures -TWO63 <= r < TWO63
    ensures -TWO63 <= x < TWO63 ==> r == x
  {
    (x + TWO63) % TWO64 - TWO63
  }

  /** Remainder with the sign of the dividend. */
  function Rem(a: int, b: int): int
    requires b > 0
  {
    if a >= 0 then a % b else -((-a) % b)
  }

  function Hash(k: string): (h: int)
    ensures -TWO63 <= h < TWO63
  {
    if k == "" then 0 else Wrap64(Hash(k[..|k| - 1]) * 31 + k[|k| - 1] as int)
  }

  function Shard(k: string): int {
    var h := Hash(k);
    Rem(if h < 0 then Wrap64(-h) else h, SHARD_COUNT)
  }

  type Index = i: int | 0 <= i < SHARD_COUNT

  function ShardIndex(k: string): Index {
    ShardInRange(k);
    Shard(k)
  }

  /** The smallest integer has no positive counterpart; its shard is 0 all the same. */
  lemma ShardInRange(k: string)
    ensures 0 <= Shard(k) < SHARD_COUNT
  {
  }

  method KeyHash(k: string) returns (shard: nat)
    ensures shard == ShardIndex(k)
  {
    ShardInRange(k);
    if |k| == 0 {
      return 0;
    }
    var h := 0;
    for i := 0 to |k|
      invariant h == Hash(k[..i])
    {
      assert k[..i + 1][..i] == k[..i];
      h := Wrap64(h * 31 + k[i] as int);
    }
    assert k[..|k|] == k;
    if h < 0 {
      h := Wrap64(-h);
    }
    return Rem(h, SHARD_COUNT);
  }

  // --- The log --------------------------------------------------------------------------------

  /** Every hit ever recorded, per key and in order. */
  type Log = map<string, seq<int>>

  function Times(log: Log, key: string): seq<int> {
    if key in log then log[key] else []
  }

  /** How many of the times are not before cutoff. */
  function CountFrom(ts: seq<int>, cutoff: int): nat {
    if ts == [] then 0
    else CountFrom(ts[..|ts| - 1], cutoff) + if ts[|ts| - 1] >= cutoff then 1 else 0
  }

  /** The positions of the times from cutoff on. */
  ghost function FromPositions(ts: seq<int>, cutoff: int): set<int> {
    set i | 0 <= i < |ts| && ts[i] >= cutoff
  }

  /** The recursive count is the number of those positions. */
  lemma {:induction false} CountIsNumber(ts: seq<int>, cutoff: int)
    ensures CountFrom(ts, cutoff) == |FromPositions(ts, cutoff)|
  {
    if ts == [] {
      assert FromPositions(ts, cutoff) == {};
    } else {
      var n := |ts| - 1;
      CountIsNumber(ts[..n], cutoff);
      assert FromPositions(ts, cutoff) == FromPositions(ts[..n], cutoff) + if ts[n] >= cutoff then {n} else {};
    }
  }

  lemma {:induction false} CountConcat(a: seq<int>, b: seq<int>, cutoff: int)
    ensures CountFrom(a + b, cutoff) == CountFrom(a, cutoff) + CountFrom(b, cutoff)
  {
    if b == [] {
      assert a + b == a;
    } else {
      var n := |b| - 1;
      CountConcat(a, b[..n], cutoff);
      assert (a + b)[..|a + b| - 1] == a + b[..n];
    }
  }

  lemma {:induction false} CountNone(ts: seq<int>, cutoff: int)
    requires forall i :: 0 <= i < |ts| ==> ts[i] < cutoff
    ensures CountFrom(ts, cutoff) == 0
  {
    if ts != [] {
      CountNone(ts[..|ts| - 1], cutoff);
    }
  }

  lemma {:induction false} CountAll(ts: seq<int>, cutoff: int)
    requires forall i :: 0 <= i < |ts| ==> ts[i] >= cutoff
    ensures CountFrom(ts, cutoff) == |ts|
  {
    if ts != [] {
      CountAll(ts[..|ts| - 1], cutoff);
    }
  }

  /** bucket is what is left of all after dropping times before cutoff from the front. */
  ghost predicate LeftOf(all: seq<int>, bucket: seq<int>, cutoff: int) {
    && |bucket| <= |all| && bucket == all[|all| - |bucket|..]
    && forall i :: 0 <= i < |all| - |bucket| ==> all[i] < cutoff
  }

  /** The dropped times do not matter for any later window. */
  lemma CountLeft(all: seq<int>, bucket: seq<int>, cutoff0: int, cutoff: int)
    requires LeftOf(all, bucket, cutoff0) && cutoff0 <= cutoff
    ensures CountFrom(all, cutoff) == CountFrom(bucket, cutoff)
  {
  }

  /** The bucket is the tail of all hits of its key that can still matter. */
  ghost predicate Fits(all: seq<int>, bucket: seq<int>, clock: int, window: nat) {
    && Sorted(all) && (forall i :: 0 <= i < |all| ==> all[i] <= clock)
    && LeftOf(all, bucket, clock - window)
  }

  lemma HitFits(all: seq<int>, bucket: seq<int>, i: nat, clock: int, now: int, window: nat)
    requires Fits(all, bucket, clock, window) && clock <= now
    requires i <= |bucket| && (forall k :: 0 <= k < i ==> bucket[k] < now - window)
    requires i < |bucket| ==> bucket[i] >= now - window
    ensures Fits(all + [now], bucket[i..] + [now], now, window)
    ensures var kept := bucket[i..] + [now]; forall k :: 0 <= k < |kept| ==> kept[k] >= now - window
  {
  }

  lemma WindowMoves(all: seq<int>, bucket: seq<int>, clock: int, now: int, window: nat)
    requires Fits(all, bucket, clock, window) && clock <= now
    ensures Fits(all, bucket, now, window)
  {
  }

  lemma CountTail(all: seq<int>, bucket: seq<int>, cutoff: int)
    requires LeftOf(all, bucket, cutoff) && forall k :: 0 <= k < |bucket| ==> bucket[k] >= cutoff
    ensures CountFrom(all, cutoff) == |bucket|
  {
    CountLeft(all, bucket, cutoff, cutoff);
    CountAll(bucket, cutoff);
  }

  class RateCounter {
    const window: nat
    const quota: int
    const shards: array<map<string, seq<int>>>
    /** Where a key lives; KeyHash in the program. */
    const shardOf: string -> Index

    ghost var log: Log
    ghost var clock: int

    function Bucket(key: string): seq<int>
      requires shards.Length == SHARD_COUNT
      reads shards
    {
      if key in shards[shardOf(key)] then shards[shardOf(key)][key] else []
    }

    ghost predicate Valid()
      reads this, shards
    {
      && shards.Length == SHARD_COUNT
      && forall key :: BucketOk(key)
    }

    /** Each bucket is the tail of the key's hits that can still matter. */
    ghost predicate BucketOk(key: string)
      requires shards.Length == SHARD_COUNT
      reads this, shards
    {
      Fits(Times(log, key), Bucket(key), clock, window)
    }

    constructor (quota: int, window: int, shardOf: string -> Index, now: int)
      ensures Valid() && log == map[] && clock == now && fresh(shards)
      ensures this.quota == quota && this.window == if window <= 0 then 60 else window
    {
      this.quota, this.window, this.shardOf := quota, if window <= 0 then 60 else window, shardOf;
      shards := new map<string, seq<int>>[SHARD_COUNT](_ => map[]);
      log, clock := map[], now;
    }

    /** Records a hit; true exactly when the hits of the closed window, this one included, exceed the quota. */
    method Over(key: string, now: int) returns (over: bool)
      requires Valid() && clock <= now
      modifies this`log, this`clock, shards
      ensures Valid() && log == old(log)[key := Times(old(log), key) + [now]] && clock == now
      ensures over <==> CountFrom(Times(log, key), now - window) > quota
    {
      var ts := RecordHit(key, now);
      assert BucketOk(key);
      CountTail(Times(log, key), ts, now - window);
      return |ts| > quota;
    }

    /** Drops the expired front of the key's bucket and appends the hit. */
    method RecordHit(key: string, now: int) returns (ts: seq<int>)
      requires Valid() && clock <= now
      modifies this`log, this`clock, shards
      ensures Valid() && log == old(log)[key := Times(old(log), key) + [now]] && clock == now
      ensures ts == Bucket(key) && forall k :: 0 <= k < |ts| ==> ts[k] >= now - window
    {
      assert BucketOk(key);
      ts := if key in shards[shardOf(key)] then shards[shardOf(key)][key] else [];
      var i := ExpiredFront(ts, now - window);
      HitFits(Times(log, key), ts, i, clock, now, window);
      ts := ts[i..] + [now];
      forall k
        ensures Fits(Times(log, k), Bucket(k), now, window)
      {
        assert BucketOk(k);
        WindowMoves(Times(log, k), Bucket(k), clock, now, window);
      }
      Store(key, ts);
      log := log[key := Times(log, key) + [now]];
      clock := now;
    }

    method Store(key: string, ts: seq<int>)
      requires shards.Length == SHARD_COUNT
      modifies shards
      ensures Bucket(key) == ts && forall k :: k != key ==> Bucket(k) == old(Bucket(k))
    {
      shards[shardOf(key)] := shards[shardOf(key)][key := ts];
    }

    /** The number of samples to drop from the front. */
    static method ExpiredFront(ts: seq<int>, cutoff: int) returns (i: nat)
      ensures i <= |ts| && (forall k :: 0 <= k < i ==> ts[k] < cutoff) && (i < |ts| ==> ts[i] >= cutoff)
    {
      i := 0;
      while i < |ts| && ts[i] < cutoff
        invariant 0 <= i <= |ts|
        invariant forall k :: 0 <= k < i ==> ts[k] < cutoff
      {
        i := i + 1;
      }
    }

    static method CountSamples(ts: seq<int>, cutoff: int) returns (n: nat)
      ensures n == CountFrom(ts, cutoff)
    {
      n := 0;
      for i := 0 to |ts|
        invariant n == CountFrom(ts[..i], cutoff)
      {
        assert ts[..i + 1][..i] == ts[..i];
        if ts[i] >= cutoff {
          n := n + 1;
        }
      }
      assert ts[..|ts|] == ts;
    }

    /** The hits of a key inside the closed window. */
    method Count(key: string, now: int) returns (n: nat)
      requires Valid() && clock <= now
      ensures n == CountFrom(Times(log, key), now - window)
    {
      var shard := shardOf(key);
      assert BucketOk(key);
      var ts := if key in shards[shard] then shards[shard][key] else [];
      var cutoff := now - window;
      n := CountSamples(ts, cutoff);
      CountLeft(Times(log, key), ts, clock - window, cutoff);
    }
  }
}
