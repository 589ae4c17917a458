/** The store (internal/mem_storage/mem_storage.go): a key lives in the shard its hash names, a global counter
    watches the memory of all shards, and each batch of evictions takes the next shard in rotation, and only
    that one. */
module MemStorages {
  import opened Base
  import opened SyncBuffers
  import opened Storage
  import opened Shards

  datatype SetResult = Stored | EmptyKey | NilItem | MemoryLimit
  datatype GetResult = Found(item: StoredItem) | NotFound | Stale | NoKey | Corrupt
  datatype DeleteResult = Deleted | VersionMismatch | NoName

  // ---------------------------------------------------------------- configuration

  /** Limits in bytes: background eviction starts above the threshold and aims at the target; above the
      maximum a write evicts first. */
  datatype Limits = Limits(maxBytes: nat, threshold: int, target: int, batch: nat)

  /** Division by 100 as the code divides, towards zero. */
  function Percent(x: int): int {
    if x >= 0 then x / 100 else -((-x) / 100)
  }

  /** Zero stands for the default; a negative percentage is taken as it is. */
  function MakeLimits(maxMemoryMB: int, evictThreshold: int, evictTarget: int, evictBatchSize: int): (l: Limits)
    ensures 1 <= l.batch <= 100
    ensures 0 <= evictThreshold <= 100 ==> l.threshold <= l.maxBytes
  {
    var mb := if maxMemoryMB <= 0 then 512 else maxMemoryMB;
    var th := if evictThreshold == 0 then 85 else evictThreshold;
    var ta := if evictTarget == 0 then 70 else evictTarget;
    var b := if evictBatchSize == 0 then 10 else evictBatchSize;
    var maxBytes := mb * 1024 * 1024;
    PercentBelow(maxBytes, th);
    Limits(maxBytes, Percent(maxBytes * th), Percent(maxBytes * ta), if b < 1 then 1 else if b > 100 then 100 else b)
  }

  lemma PercentBelow(x: nat, p: int)
    ensures 0 <= p <= 100 ==> Percent(x * p) <= x
  {
    if 0 <= p <= 100 {
      assert x * p <= x * 100;
    }
  }

  /** What the limits come to: the defaults are 512 MB, 85 and 70 per cent and batches of 10; a percentage that is not
      negative is taken of the maximum and rounded down. */
  lemma LimitsMeaning(mb: nat, percent: nat, target: nat, batch: int)
    requires mb > 0 && percent > 0 && target > 0
    ensures MakeLimits(0, 0, 0, 0) == Limits(536870912, 456340275, 375809638, 10)
    ensures var l := MakeLimits(mb, percent, target, batch);
            && l.maxBytes == mb * 1048576
            && 100 * l.threshold <= mb * 1048576 * percent < 100 * l.threshold + 100
            && 100 * l.target <= mb * 1048576 * target < 100 * l.target + 100
            && (1 <= batch <= 100 ==> l.batch == batch)
  {
  }

  const MIN_AUTO_SHARDS: nat := 256
  const MAX_AUTO_SHARDS: nat := 4096

  /** The number of shards: a power of two, at least what is asked for; zero asks for eight per processor, within
      bounds. */
  function ShardCount(asked: nat, processors: nat): (n: nat)
    ensures n > 0 && n >= asked
  {
    var auto := processors * 8;
    RoundUp(if asked > 0 then asked
            else if auto < MIN_AUTO_SHARDS then MIN_AUTO_SHARDS
            else if auto > MAX_AUTO_SHARDS then MAX_AUTO_SHARDS
            else auto, 1)
  }

  /** The count is the smallest power of two that covers what is asked for, or eight per processor, between 256 and
      4096, if nothing is. */
  lemma ShardCountMeaning(asked: nat, processors: nat) returns (k: nat)
    ensures var wanted := if asked > 0 then asked else if processors < 32 then 256 else if processors > 512 then 4096 else 8 * processors;
            ShardCount(asked, processors) == Pow2(k) && wanted <= Pow2(k) && (k > 0 ==> Pow2(k - 1) < wanted)
  {
    k := RoundUpIsPower(
      if asked > 0 then asked else if processors < 32 then 256 else if processors > 512 then 4096 else 8 * processors);
  }

  /** A write of this size goes ahead without evicting anything. */
  predicate Fits(l: Limits, current: int, size: nat) {
    current + size <= l.threshold || current + size <= l.maxBytes
  }

  const WRITE_BATCH: nat := 5
  const MAX_BATCHES: nat := 10

  /** What does not change: limits, compression, hash and the capacity of a shard's ring. */
  datatype Env = Env(limits: Limits, codec: Codec, hash: Text -> uint64, cap: nat)

  // ---------------------------------------------------------------- the store as a value

  /** The shards, the number of eviction batches so far and the global byte counter. */
  datatype StoreState = StoreState(shards: seq<ShardState>, rotor: nat, total: int)

  /** The shard of a key. */
  function Home(e: Env, n: nat, key: Text): (h: nat)
    requires n > 0
    ensures h < n
  {
    e.hash(key) as int % n
  }

  function Sum(s: seq<int>): int {
    if s == [] then 0 else Sum(s[..|s| - 1]) + s[|s| - 1]
  }

  function Counters(shards: seq<ShardState>): seq<int> {
    seq(|shards|, i requires 0 <= i < |shards| => shards[i].bytes)
  }

  ghost function Sizes(shards: seq<ShardState>): seq<int> {
    seq(|shards|, i requires 0 <= i < |shards| => TotalSize(shards[i].data))
  }

  /** The true size of everything stored. */
  ghost function Held(shards: seq<ShardState>): int {
    Sum(Sizes(shards))
  }

  ghost predicate AtHome(e: Env, n: nat, i: nat, d: Data) {
    n > 0 && forall k :: k in d ==> Home(e, n, k) == i
  }

  ghost predicate ShardsOk(e: Env, shards: seq<ShardState>) {
    forall i :: 0 <= i < |shards| ==> ShardOk(shards[i]) && AtHome(e, |shards|, i, shards[i].data)
  }

  /** Every shard is in order and holds only its own keys, and the global counter is the sum of the shards'. */
  ghost predicate StoreOk(e: Env, s: StoreState) {
    s.shards != [] && ShardsOk(e, s.shards) && s.total == Sum(Counters(s.shards))
  }

  /** One shard changes, and the global counter moves with the shard's. */
  function With(s: StoreState, h: nat, t: ShardState): StoreState
    requires h < |s.shards|
  {
    StoreState(s.shards[h := t], s.rotor, s.total + (t.bytes - s.shards[h].bytes))
  }

  /** One batch of evictions: the next shard in rotation. */
  function EvictNext(s: StoreState, n: nat): (StoreState, nat)
    requires s.shards != []
  {
    var h := (s.rotor + 1) % |s.shards|;
    var (t, m) := Evict(s.shards[h], n);
    (With(s.(rotor := s.rotor + 1), h, t), m)
  }

  /** Room for a write: one small batch when the maximum would be exceeded; refused if that finds nothing. */
  function MakeRoom(e: Env, s: StoreState, size: nat): (StoreState, bool)
    requires s.shards != []
  {
    if Fits(e.limits, s.total, size) then (s, true)
    else
      var (t, m) := EvictNext(s, WRITE_BATCH);
      (t, m > 0)
  }

  function StoreSet(e: Env, s: StoreState, key: Text, item: Option<StoredItem>): (StoreState, SetResult)
    requires s.shards != []
  {
    if key == [] then (s, EmptyKey) else if item.None? then (s, NilItem) else
      var it := Compact(e.codec, item.value);
      var (t, ok) := MakeRoom(e, s, ItemSize(key, it.bytes));
      if !ok then (t, MemoryLimit) else
        var h := Home(e, |t.shards|, key);
        (With(t, h, Put(t.shards[h], key, it, e.cap)), Stored)
  }

  function Answer(c: Codec, l: Lookup): GetResult {
    match l
    case Missing => NotFound
    case ExpiredNow => Stale
    case Hit(it) => match Expand(c, it) case Some(x) => Found(x) case None => Corrupt
  }

  function StoreGet(e: Env, s: StoreState, key: Text, now: int64): (StoreState, GetResult)
    requires s.shards != []
  {
    if key == [] then (s, NoKey) else
      var h := Home(e, |s.shards|, key);
      (With(s, h, Read(s.shards[h], key, now)), Answer(e.codec, Look(s.shards[h].data, key, now)))
  }

  function StoreDelete(e: Env, s: StoreState, key: Text, version: int64): (StoreState, DeleteResult)
    requires s.shards != []
  {
    if key == [] then (s, NoName) else
      var h := Home(e, |s.shards|, key);
      (With(s, h, Delete(s.shards[h], key, version, e.cap)),
       if KeepsNewer(s.shards[h].data, key, version) then VersionMismatch else Deleted)
  }

  /** A pass of background eviction that has evicted some keys already. */
  function Pass(e: Env, s: StoreState, evicted: nat): (StoreState, nat)
    requires s.shards != []
    decreases e.limits.batch * MAX_BATCHES - evicted
  {
    if s.total <= e.limits.target || evicted >= e.limits.batch * MAX_BATCHES then (s, evicted) else
      var (t, m) := EvictNext(s, e.limits.batch);
      if m == 0 then (t, evicted) else Pass(e, t, evicted + m)
  }

  function Background(e: Env, s: StoreState): (StoreState, nat)
    requires s.shards != []
  {
    if s.total <= e.limits.threshold then (s, 0) else Pass(e, s, 0)
  }

  /** What goes through all shards: the cleaner, the key listing, a drain, a reset. */
  datatype Sweep = Cleaning(now: int64) | Listed(now: int64) | Draining(clock: nat -> nat -> int64) | Clearing

  /** What a sweep does to shard i. */
  ghost function SweepShard(e: Env, w: Sweep, i: nat, s: ShardState): ShardState {
    match w
    case Cleaning(now) => Cleaned(s, now)
    case Listed(now) => Listing(s, now)
    case Draining(clock) => Drain(e.codec, s, clock(i)).0
    case Clearing => EMPTY_SHARD
  }

  /** The store when a sweep has been through the first n shards. */
  ghost function Swept(e: Env, s: StoreState, w: Sweep, n: nat): (t: StoreState)
    requires n <= |s.shards|
    ensures |t.shards| == |s.shards|
  {
    if n == 0 then s else
      var p := Swept(e, s, w, n - 1);
      With(p, n - 1, SweepShard(e, w, n - 1, p.shards[n - 1]))
  }

  /** A sweep does to each shard what it does to that shard alone, and moves the counter as the shards' move. */
  lemma {:induction false} SweptAt(e: Env, s: StoreState, w: Sweep, n: nat, h: nat)
    requires h < |s.shards| && n <= |s.shards|
    ensures Swept(e, s, w, n).shards[h] == if h < n then SweepShard(e, w, h, s.shards[h]) else s.shards[h]
  {
    hide SweepShard;
    if n > 0 {
      SweptAt(e, s, w, n - 1, h);
    }
  }

  // ---------------------------------------------------------------- runs

  datatype StoreOp =
    | SetOf(key: Text, item: Option<StoredItem>)
    | GetOf(key: Text, now: int64)
    | DeleteOf(key: Text, version: int64)
    | EvictionPass
    | SweepOf(w: Sweep)

  ghost function Step(e: Env, s: StoreState, op: StoreOp): (t: StoreState)
    requires s.shards != []
  {
    match op
    case SetOf(key, item) => StoreSet(e, s, key, item).0
    case GetOf(key, now) => StoreGet(e, s, key, now).0
    case DeleteOf(key, version) => StoreDelete(e, s, key, version).0
    case EvictionPass => Background(e, s).0
    case SweepOf(w) => Swept(e, s, w, |s.shards|)
  }

  lemma {:induction false} PassShape(e: Env, s: StoreState, evicted: nat)
    requires s.shards != []
    ensures |Pass(e, s, evicted).0.shards| == |s.shards|
    decreases e.limits.batch * MAX_BATCHES - evicted
  {
    hide EvictNext;
    if s.total > e.limits.target && evicted < e.limits.batch * MAX_BATCHES {
      var (t, m) := EvictNext(s, e.limits.batch);
      EvictShape(s, e.limits.batch);
      if m > 0 {
        PassShape(e, t, evicted + m);
      }
    }
  }

  lemma EvictShape(s: StoreState, n: nat)
    requires s.shards != []
    ensures |EvictNext(s, n).0.shards| == |s.shards|
  {
  }

  /** No operation changes the number of shards. */
  lemma StepShape(e: Env, s: StoreState, op: StoreOp)
    requires s.shards != []
    ensures |Step(e, s, op).shards| == |s.shards|
  {
    hide Pass, Evict, Swept, Put, Read, Delete;
    if op.EvictionPass? {
      PassShape(e, s, 0);
    }
  }

  function NewStore(n: nat): StoreState {
    StoreState(seq(n, _ => EMPTY_SHARD), 0, 0)
  }

  // ---------------------------------------------------------------- the ledger

  lemma {:induction false} SumUpdate(s: seq<int>, i: nat, v: int)
    requires i < |s|
    ensures Sum(s[i := v]) == Sum(s) - s[i] + v
  {
    var n := |s| - 1;
    if i < n {
      SumUpdate(s[..n], i, v);
      assert s[i := v][..n] == s[..n][i := v];
    } else {
      assert s[i := v][..n] == s[..n];
    }
  }

  lemma {:induction false} SumAtLeast(a: seq<int>, b: seq<int>)
    requires |a| == |b| && forall i :: 0 <= i < |a| ==> a[i] >= b[i]
    ensures Sum(a) >= Sum(b)
  {
    if a != [] {
      SumAtLeast(a[..|a| - 1], b[..|b| - 1]);
    }
  }

  lemma {:induction false} ZeroSum(s: seq<int>)
    requires forall i :: 0 <= i < |s| ==> s[i] == 0
    ensures Sum(s) == 0
  {
    if s != [] {
      ZeroSum(s[..|s| - 1]);
    }
  }

  /** A shard in order for another keeps the store in order. */
  lemma WithOk(e: Env, s: StoreState, h: nat, t: ShardState)
    requires StoreOk(e, s) && h < |s.shards| && ShardOk(t) && AtHome(e, |s.shards|, h, t.data)
    ensures StoreOk(e, With(s, h, t))
  {
    hide ShardOk, AtHome, Sum;
    SumUpdate(Counters(s.shards), h, t.bytes);
    assert Counters(s.shards[h := t]) == Counters(s.shards)[h := t.bytes];
  }

  /** A shard with fewer keys is at home where the old one was. */
  lemma HomeSubset(e: Env, n: nat, i: nat, d: Data, d': Data)
    requires AtHome(e, n, i, d) && d'.Keys <= d.Keys
    ensures AtHome(e, n, i, d')
  {
  }

  lemma EvictNextOk(e: Env, s: StoreState, n: nat)
    requires StoreOk(e, s) && n > 0
    ensures var (t, m) := EvictNext(s, n); var h := (s.rotor + 1) % |s.shards|;
            && StoreOk(e, t) && |t.shards| == |s.shards| && m <= n
            && (m == 0 <==> s.shards[h].data == map[]) && (m == 0 ==> t.shards[h].data == map[])
            && CutTo(s.shards[h], t.shards[h]) && t.shards == s.shards[h := t.shards[h]]
  {
    hide ShardOk, AtHome, Evict, Counters, Sum;
    var h := (s.rotor + 1) % |s.shards|;
    BatchOk(s.shards[h], n);
    var t := Evict(s.shards[h], n).0;
    HomeSubset(e, |s.shards|, h, s.shards[h].data, t.data);
    WithOk(e, s.(rotor := s.rotor + 1), h, t);
  }

  lemma PutHome(e: Env, n: nat, i: nat, s: ShardState, key: Text, it: CompItem)
    requires AtHome(e, n, i, s.data) && Home(e, n, key) == i
    ensures AtHome(e, n, i, Put(s, key, it, e.cap).data)
  {
  }

  lemma MakeRoomOk(e: Env, s: StoreState, size: nat)
    requires StoreOk(e, s)
    ensures StoreOk(e, MakeRoom(e, s, size).0) && |MakeRoom(e, s, size).0.shards| == |s.shards|
  {
    hide StoreOk, EvictNext, CutTo;
    if !Fits(e.limits, s.total, size) {
      EvictNextOk(e, s, WRITE_BATCH);
    }
  }

  lemma SetOk(e: Env, s: StoreState, key: Text, item: Option<StoredItem>)
    requires StoreOk(e, s)
    ensures StoreOk(e, StoreSet(e, s, key, item).0)
  {
    hide ShardOk, AtHome, MakeRoom, Put, Home, Counters, Sum;
    if key != [] && item.Some? {
      var it := Compact(e.codec, item.value);
      MakeRoomOk(e, s, ItemSize(key, it.bytes));
      var t := MakeRoom(e, s, ItemSize(key, it.bytes)).0;
      var h := Home(e, |t.shards|, key);
      PutOk(t.shards[h], key, it, e.cap);
      PutHome(e, |t.shards|, h, t.shards[h], key, it);
      WithOk(e, t, h, Put(t.shards[h], key, it, e.cap));
    }
  }

  lemma GetOk(e: Env, s: StoreState, key: Text, now: int64)
    requires StoreOk(e, s)
    ensures StoreOk(e, StoreGet(e, s, key, now).0)
  {
    hide ShardOk, AtHome, Home, Counters, Sum;
    if key != [] {
      var h := Home(e, |s.shards|, key);
      ReadOk(s.shards[h], key, now);
      HomeSubset(e, |s.shards|, h, s.shards[h].data, Read(s.shards[h], key, now).data);
      WithOk(e, s, h, Read(s.shards[h], key, now));
    }
  }

  lemma StoreDeleteOk(e: Env, s: StoreState, key: Text, version: int64)
    requires StoreOk(e, s)
    ensures StoreOk(e, StoreDelete(e, s, key, version).0)
  {
    hide ShardOk, AtHome, Home, Counters, Sum;
    if key != [] {
      var h := Home(e, |s.shards|, key);
      var t := Delete(s.shards[h], key, version, e.cap);
      DeleteOk(s.shards[h], key, version, e.cap);
      HomeSubset(e, |s.shards|, h, s.shards[h].data, t.data);
      WithOk(e, s, h, t);
    }
  }

  lemma {:induction false} PassOk(e: Env, s: StoreState, evicted: nat)
    requires StoreOk(e, s) && e.limits.batch > 0
    ensures StoreOk(e, Pass(e, s, evicted).0)
    decreases e.limits.batch * MAX_BATCHES - evicted
  {
    hide StoreOk, EvictNext, CutTo;
    assert s.shards != [] by {
      NonEmpty(e, s);
    }
    if s.total > e.limits.target && evicted < e.limits.batch * MAX_BATCHES {
      var (t, m) := EvictNext(s, e.limits.batch);
      EvictNextOk(e, s, e.limits.batch);
      if m > 0 {
        PassOk(e, t, evicted + m);
      }
    }
  }

  lemma NonEmpty(e: Env, s: StoreState)
    requires StoreOk(e, s)
    ensures s.shards != []
  {
  }

  lemma SweepShardOk(e: Env, w: Sweep, i: nat, s: ShardState)
    requires ShardOk(s)
    ensures ShardOk(SweepShard(e, w, i, s)) && SweepShard(e, w, i, s).data.Keys <= s.data.Keys
  {
    hide ShardOk, Drift, Complete, Cleaned;
    match w
    case Cleaning(now) => CleanedOk(s, now);
    case Listed(now) => ListingOk(s, now);
    case Draining(clock) =>
      DrainedRingOk(s);
      CompleteOk(e.codec, s.(queue := []), s.queue, clock(i));
    case Clearing => EmptyShardOk();
  }

  lemma {:induction false} SweptOk(e: Env, s: StoreState, w: Sweep, n: nat)
    requires StoreOk(e, s) && n <= |s.shards|
    ensures StoreOk(e, Swept(e, s, w, n))
  {
    hide ShardOk, AtHome, SweepShard, Counters, Sum;
    if n > 0 {
      SweptOk(e, s, w, n - 1);
      var p := Swept(e, s, w, n - 1);
      SweepShardOk(e, w, n - 1, p.shards[n - 1]);
      HomeSubset(e, |p.shards|, n - 1, p.shards[n - 1].data, SweepShard(e, w, n - 1, p.shards[n - 1]).data);
      WithOk(e, p, n - 1, SweepShard(e, w, n - 1, p.shards[n - 1]));
    }
  }

  lemma StepOk(e: Env, s: StoreState, op: StoreOp)
    requires StoreOk(e, s) && e.limits.batch > 0
    ensures StoreOk(e, Step(e, s, op))
  {
    hide StoreOk, StoreSet, StoreGet, StoreDelete, Pass, Swept;
    NonEmpty(e, s);
    match op
    case SetOf(key, item) => SetOk(e, s, key, item);
    case GetOf(key, now) => GetOk(e, s, key, now);
    case DeleteOf(key, version) => StoreDeleteOk(e, s, key, version);
    case EvictionPass => PassOk(e, s, 0);
    case SweepOf(w) => SweptOk(e, s, w, |s.shards|);
  }

  /** The store after any operations. */
  ghost function Run(e: Env, n: nat, ops: seq<StoreOp>): (t: StoreState)
    requires n > 0 && e.limits.batch > 0
    ensures StoreOk(e, t)
  {
    if ops == [] then
      NewOk(e, n);
      NewStore(n)
    else
      var p := Run(e, n, ops[..|ops| - 1]);
      NonEmpty(e, p);
      StepOk(e, p, ops[|ops| - 1]);
      Step(e, p, ops[|ops| - 1])
  }

  lemma NewOk(e: Env, n: nat)
    requires n > 0
    ensures StoreOk(e, NewStore(n))
  {
    EmptyShardOk();
    ZeroSum(Counters(NewStore(n).shards));
  }

  lemma CoversHeld(e: Env, s: StoreState)
    requires StoreOk(e, s)
    ensures s.total >= Held(s.shards)
  {
    hide TotalSize;
    SumAtLeast(Counters(s.shards), Sizes(s.shards));
  }

  /** Over every sequence of writes, reads, deletes, eviction passes, cleanings, listings, drains and resets the
      global counter is the sum of the shards' counters and never below the true size of everything stored. */
  lemma NeverUndercounts(e: Env, n: nat, ops: seq<StoreOp>)
    requires n > 0 && e.limits.batch > 0
    ensures var s := Run(e, n, ops); s.total == Sum(Counters(s.shards)) && s.total >= Held(s.shards)
  {
    CoversHeld(e, Run(e, n, ops));
  }

  // ---------------------------------------------------------------- contents

  /** Everything stored, as one map. */
  function Contents(shards: seq<ShardState>): Data {
    if shards == [] then map[] else Contents(shards[..|shards| - 1]) + shards[|shards| - 1].data
  }

  lemma {:induction false} InContents(shards: seq<ShardState>, k: Text) returns (i: nat)
    requires k in Contents(shards)
    ensures i < |shards| && k in shards[i].data && Contents(shards)[k] == shards[i].data[k]
  {
    var n := |shards| - 1;
    if k in shards[n].data {
      i := n;
    } else {
      i := InContents(shards[..n], k);
    }
  }

  lemma {:induction false} ContentsIn(shards: seq<ShardState>, i: nat, k: Text)
    requires i < |shards| && k in shards[i].data
    ensures k in Contents(shards)
  {
    if i < |shards| - 1 {
      ContentsIn(shards[..|shards| - 1], i, k);
    }
  }

  /** Shards are dealt out by the hash: counting through the hashes visits the shards in turn. */
  lemma HomesInTurn(e: Env, n: nat, a: Text, b: Text)
    requires n > 0 && e.hash(b) as int == e.hash(a) as int + 1
    ensures Home(e, n, b) == if Home(e, n, a) + 1 == n then 0 else Home(e, n, a) + 1
    ensures e.hash(a) < n ==> Home(e, n, a) == e.hash(a)
  {
    NextRemainder(e.hash(a) as int, n);
  }

  lemma NextRemainder(x: nat, n: nat)
    requires n > 0
    ensures (x + 1) % n == if x % n + 1 == n then 0 else x % n + 1
  {
    var q, r := x / n, x % n;
    assert x == n * q + r;
    if r + 1 == n {
      assert x + 1 == n * (q + 1);
      RemainderIs(x + 1, n, q + 1, 0);
    } else {
      RemainderIs(x + 1, n, q, r + 1);
    }
  }

  /** A key is where its hash says, and nowhere else. */
  lemma ContentsAt(e: Env, shards: seq<ShardState>, k: Text)
    requires shards != [] && ShardsOk(e, shards)
    ensures var d := shards[Home(e, |shards|, k)].data;
            (k in Contents(shards) <==> k in d) && (k in d ==> Contents(shards)[k] == d[k])
  {
    hide ShardOk, Contents;
    var h := Home(e, |shards|, k);
    if k in Contents(shards) {
      var i := InContents(shards, k);
      assert AtHome(e, |shards|, i, shards[i].data);
    }
    if k in shards[h].data {
      ContentsIn(shards, h, k);
    }
  }

  ghost predicate KeysOf(keys: seq<Text>, shards: seq<ShardState>) {
    NoDup(keys) && forall k :: k in keys <==> k in Contents(shards)
  }

  lemma NoKeys(shards: seq<ShardState>)
    ensures KeysOf([], shards[..0])
  {
    assert Contents(shards[..0]) == map[];
  }

  lemma KeysNext(e: Env, shards: seq<ShardState>, i: nat, keys: seq<Text>, own: seq<Text>)
    requires i < |shards| && ShardsOk(e, shards) && KeysOf(keys, shards[..i])
    requires NoDup(own) && forall k :: k in own <==> k in shards[i].data
    ensures KeysOf(keys + own, shards[..i + 1])
  {
    assert shards[..i + 1][..i] == shards[..i];
    forall k ensures !(k in keys && k in own) {
      if k in keys {
        var j := InContents(shards[..i], k);
        assert AtHome(e, |shards|, i, shards[i].data) && AtHome(e, |shards|, j, shards[j].data);
      }
    }
    NoDupConcat(keys, own);
  }

  // ---------------------------------------------------------------- what reads answer

  /** What the store holds for a key. */
  function Holds(e: Env, s: StoreState, k: Text): Option<CompItem>
    requires s.shards != []
  {
    Find(s.shards[Home(e, |s.shards|, k)].data, k)
  }

  /** A read of a key, in terms of what is held for it: its item, exactly as it was before compression, until its expiry
      time has passed; nothing for a key that is not held, nor for the empty key. */
  lemma ReadAnswers(e: Env, s: StoreState, key: Text, now: int64)
    requires s.shards != []
    ensures var r, x := StoreGet(e, s, key, now).1, Holds(e, s, key);
            && (key == [] ==> r == NoKey)
            && (key != [] && x.None? ==> r == NotFound)
            && (key != [] && x.Some? && x.value.expireAt.Some? && x.value.expireAt.value < now ==> r == Stale)
            && (key != [] && x.Some? && (x.value.expireAt.None? || now <= x.value.expireAt.value) ==>
                  r == if Expand(e.codec, x.value).Some? then Found(Expand(e.codec, x.value).value) else Corrupt)
  {
    hide Home, Expand;
  }

  /** What is left for a key when room has been made: what was held, or nothing if it was evicted. */
  lemma RoomLeaves(e: Env, s: StoreState, size: nat, key: Text)
    requires StoreOk(e, s)
    ensures var t := MakeRoom(e, s, size).0;
            |t.shards| == |s.shards| && (Holds(e, t, key) == Holds(e, s, key) || Holds(e, t, key) == None)
  {
    hide StoreOk, EvictNext, Home;
    NonEmpty(e, s);
    if !Fits(e.limits, s.total, size) {
      EvictNextOk(e, s, WRITE_BATCH);
    }
  }

  /** What is held after a write that is stored: the item, if it is newer than what was held. */
  lemma WriteHolds(e: Env, s: StoreState, key: Text, item: StoredItem)
    requires StoreOk(e, s) && StoreSet(e, s, key, Some(item)).1 == Stored
    requires Holds(e, s, key).Some? ==> Holds(e, s, key).value.version < item.version
    ensures var t := StoreSet(e, s, key, Some(item)).0;
            t.shards != [] && Holds(e, t, key) == Some(Compact(e.codec, item))
  {
    hide StoreOk, MakeRoom, Home, Touched, Newest, PutDelta, ItemSize;
    NonEmpty(e, s);
    CompactKeeps(e.codec, item);
    RoomLeaves(e, s, ItemSize(key, Compact(e.codec, item).bytes), key);
  }

  lemma CompactKeeps(c: Codec, item: StoredItem)
    ensures Compact(c, item).version == item.version && Compact(c, item).expireAt == item.expireAt
  {
  }

  /** What a write stores is what a read gives: the very item, version, expiry and value, until its expiry time has
      passed, and then nothing. */
  lemma WriteThenRead(e: Env, s: StoreState, key: Text, item: StoredItem, now: int64)
    requires Faithful(e.codec) && StoreOk(e, s) && StoreSet(e, s, key, Some(item)).1 == Stored
    requires Holds(e, s, key).Some? ==> Holds(e, s, key).value.version < item.version
    ensures var t := StoreSet(e, s, key, Some(item)).0;
            && t.shards != []
            && StoreGet(e, t, key, now).1 == if item.expireAt.Some? && item.expireAt.value < now then Stale else Found(item)
  {
    hide StoreOk, StoreSet, StoreGet, Holds, Compact, Expand, Faithful;
    NonEmpty(e, s);
    StoredHasName(e, s, key, item);
    WriteHolds(e, s, key, item);
    CompactKeeps(e.codec, item);
    CompactExpand(e.codec, item);
    ReadAnswers(e, StoreSet(e, s, key, Some(item)).0, key, now);
  }

  lemma StoredHasName(e: Env, s: StoreState, key: Text, item: StoredItem)
    requires s.shards != [] && StoreSet(e, s, key, Some(item)).1 == Stored
    ensures key != []
  {
  }

  /** A delete, in terms of what is held: nothing afterwards, unless a newer item than the positive version given is
      there, which stays; other keys are as they were, and the answer says which it was. */
  lemma DeleteThenRead(e: Env, s: StoreState, key: Text, version: int64, other: Text)
    requires StoreOk(e, s) && key != []
    ensures var (t, r) := StoreDelete(e, s, key, version); var x := Holds(e, s, key);
            var keeps := x.Some? && 0 < version < x.value.version;
            && t.shards != []
            && Holds(e, t, key) == (if keeps then x else None)
            && (r == VersionMismatch <==> keeps) && (r == Deleted <==> !keeps)
            && (other != key ==> Holds(e, t, other) == Holds(e, s, other))
  {
    hide ShardOk, Home, Without, Newest, ItemSize;
  }

  /** What the cleaner and the key listing leave of a key: its item, unless its expiry time has passed; a reset leaves
      nothing. */
  lemma SweepHolds(e: Env, s: StoreState, w: Sweep, k: Text)
    requires s.shards != []
    ensures var t, x := Swept(e, s, w, |s.shards|), Holds(e, s, k);
            && t.shards != []
            && (w.Cleaning? || w.Listed? ==>
                  Holds(e, t, k) == if x.Some? && x.value.expireAt.Some? && x.value.expireAt.value < w.now then None else x)
            && (w.Clearing? ==> Holds(e, t, k) == None)
  {
    hide Swept, Home, Drain, Keep, TotalSize;
    SweptAt(e, s, w, |s.shards|, Home(e, |s.shards|, k));
  }

  /** After a reset nothing is held, listed, waiting or counted anywhere. */
  lemma ResetEmpties(e: Env, s: StoreState)
    requires StoreOk(e, s)
    ensures var t := Swept(e, s, Clearing, |s.shards|);
            && t.total == 0 && |t.shards| == |s.shards|
            && forall i :: 0 <= i < |t.shards| ==> t.shards[i] == ShardState([], map[], 0, [])
  {
    hide Swept, ShardOk;
    var t := Swept(e, s, Clearing, |s.shards|);
    SweptOk(e, s, Clearing, |s.shards|);
    forall i | 0 <= i < |t.shards| ensures t.shards[i] == EMPTY_SHARD {
      SweptAt(e, s, Clearing, |s.shards|, i);
    }
    ZeroSum(Counters(t.shards));
  }

  /** The last operation waiting for the peers in a key's shard. */
  function LastQueued(e: Env, s: StoreState, key: Text): Option<SyncOp>
    requires s.shards != []
  {
    var q := s.shards[Home(e, |s.shards|, key)].queue;
    if q == [] then None else Some(q[|q| - 1])
  }

  /** Every change is queued for the peers: a newer item without its value, a removal without an item; what changes
      nothing is not. */
  lemma ChangesAreQueued(e: Env, s: StoreState, key: Text, item: StoredItem, version: int64)
    requires StoreOk(e, s) && key != [] && e.cap > 0
    ensures var (t, r) := StoreSet(e, s, key, Some(item));
            t.shards != [] &&
            (r == Stored && (Holds(e, s, key).Some? ==> Holds(e, s, key).value.version < item.version) ==>
               LastQueued(e, t, key) == Some(SyncOp(key, OpSet, Some(StoredItem(item.version, item.expireAt, [])))))
    ensures var (t, r) := StoreDelete(e, s, key, version);
            t.shards != [] &&
            if r == Deleted && Holds(e, s, key).Some? then LastQueued(e, t, key) == Some(SyncOp(key, OpDelete, None))
            else t == s
  {
    hide MakeRoom, StoreOk, Home, Without, ItemSize;
    var size := ItemSize(key, Compact(e.codec, item).bytes);
    NonEmpty(e, s);
    CompactKeeps(e.codec, item);
    RoomLeaves(e, s, size, key);
    MakeRoomOk(e, s, size);
  }

  // ---------------------------------------------------------------- what eviction does

  /** Every shard lost at most the old end of its list. */
  ghost predicate AllCut(before: seq<ShardState>, after: seq<ShardState>) {
    |before| == |after| && forall i :: 0 <= i < |before| ==> CutTo(before[i], after[i])
  }

  lemma AllCutStart(shards: seq<ShardState>)
    ensures AllCut(shards, shards)
  {
    hide CutTo;
    forall i | 0 <= i < |shards| ensures CutTo(shards[i], shards[i]) {
      CutNothing(shards[i]);
    }
  }

  lemma AllCutStep(before: seq<ShardState>, mid: seq<ShardState>, i: nat, t: ShardState)
    requires AllCut(before, mid) && i < |mid| && CutTo(mid[i], t)
    ensures AllCut(before, mid[i := t])
  {
    hide CutTo;
    CutTrans(before[i], mid[i], t);
  }

  /** A write is refused for want of memory exactly when it exceeds the maximum and the shard whose turn it is
      holds nothing, whatever the other shards hold.  An item counts for its key, its bytes and 176 more. */
  lemma RefusedExactly(e: Env, s: StoreState, key: Text, item: StoredItem)
    requires StoreOk(e, s) && key != []
    ensures var need := s.total + |key| + |Compact(e.codec, item).bytes| + 176;
            StoreSet(e, s, key, Some(item)).1 == MemoryLimit <==>
            need > e.limits.maxBytes && need > e.limits.threshold && s.shards[(s.rotor + 1) % |s.shards|].data == map[]
  {
    hide EvictNext, CutTo, StoreOk;
    NonEmpty(e, s);
    var size := ItemSize(key, Compact(e.codec, item).bytes);
    EvictNextOk(e, s, WRITE_BATCH);
    var (t, m) := EvictNext(s, WRITE_BATCH);
    assert MakeRoom(e, s, size) == if Fits(e.limits, s.total, size) then (s, true) else (t, m > 0);
  }

  /** What a write costs the other keys: nothing if it fits; else keys of the shard whose turn it is, and no others. */
  lemma WriteCosts(e: Env, s: StoreState, key: Text, item: StoredItem, other: Text)
    requires StoreOk(e, s) && key != [] && other != key
    ensures var t := StoreSet(e, s, key, Some(item)).0; var h := (s.rotor + 1) % |s.shards|;
            var need := s.total + |key| + |Compact(e.codec, item).bytes| + 176;
            && |t.shards| == |s.shards|
            && (need <= e.limits.maxBytes || need <= e.limits.threshold || Home(e, |s.shards|, other) != h ==>
                  Holds(e, t, other) == Holds(e, s, other))
            && (Holds(e, t, other) == Holds(e, s, other) || Holds(e, t, other) == None)
  {
    hide EvictNext, StoreOk, Home, Touched, Newest, PutDelta;
    NonEmpty(e, s);
    EvictNextOk(e, s, WRITE_BATCH);
    RoomLeaves(e, s, ItemSize(key, Compact(e.codec, item).bytes), other);
  }

  /** How many: five of them, or all the shard has if that is fewer. */
  lemma WriteEvicts(e: Env, s: StoreState, key: Text, item: StoredItem)
    requires StoreOk(e, s) && key != []
    ensures var t := StoreSet(e, s, key, Some(item)).0; var h := (s.rotor + 1) % |s.shards|;
            var need := s.total + |key| + |Compact(e.codec, item).bytes| + 176;
            && |t.shards| == |s.shards|
            && |s.shards[h].data| <= |t.shards[h].data| + 5
            && (need > e.limits.maxBytes && need > e.limits.threshold && Home(e, |s.shards|, key) != h ==>
                  |t.shards[h].data| == if |s.shards[h].data| <= 5 then 0 else |s.shards[h].data| - 5)
  {
    hide MakeRoom, StoreOk, Home, Put;
    NonEmpty(e, s);
    var it := Compact(e.codec, item);
    RoomCount(e, s, ItemSize(key, it.bytes));
    PutCount(MakeRoom(e, s, ItemSize(key, it.bytes)).0.shards[Home(e, |s.shards|, key)], key, it, e.cap);
  }

  lemma RoomCount(e: Env, s: StoreState, size: nat)
    requires StoreOk(e, s)
    ensures var h := (s.rotor + 1) % |s.shards|; var t := MakeRoom(e, s, size).0;
            && |t.shards| == |s.shards| && |s.shards[h].data| <= |t.shards[h].data| + 5
            && (!Fits(e.limits, s.total, size) ==>
                  |t.shards[h].data| == if |s.shards[h].data| <= 5 then 0 else |s.shards[h].data| - 5)
  {
    hide Evict, ShardOk;
    BatchCount(s.shards[(s.rotor + 1) % |s.shards|], WRITE_BATCH);
  }

  lemma PutCount(s: ShardState, key: Text, it: CompItem, cap: nat)
    ensures |Put(s, key, it, cap).data| >= |s.data|
  {
    assert s.data[key := it].Keys == s.data.Keys + {key};
  }

  /** A write that is not refused leaves its item, or a version at least as new, in the key's shard; eviction
      for its sake took at most the old end of one shard. */
  lemma StoredMeans(e: Env, s: StoreState, key: Text, item: StoredItem)
    requires StoreOk(e, s) && StoreSet(e, s, key, Some(item)).1 == Stored
    ensures var t := StoreSet(e, s, key, Some(item)).0;
            && |t.shards| == |s.shards|
            && var d := t.shards[Home(e, |t.shards|, key)].data; key in d && d[key].version >= item.version
    ensures var room := MakeRoom(e, s, ItemSize(key, Compact(e.codec, item).bytes)).0;
            AllCut(s.shards, room.shards)
  {
    hide EvictNext, CutTo, AllCut, StoreOk, Home;
    var size := ItemSize(key, Compact(e.codec, item).bytes);
    MakeRoomOk(e, s, size);
    AllCutStart(s.shards);
    if !Fits(e.limits, s.total, size) {
      EvictNextOk(e, s, WRITE_BATCH);
      var h := (s.rotor + 1) % |s.shards|;
      AllCutStep(s.shards, s.shards, h, EvictNext(s, WRITE_BATCH).0.shards[h]);
    }
  }

  /** How a pass that goes on from here ends: at the target, at the cap, or at a shard that holds nothing. */
  ghost predicate PassEnds(e: Env, t: StoreState, evicted: nat) {
    || t.total <= e.limits.target
    || evicted >= e.limits.batch * MAX_BATCHES
    || (t.shards != [] && t.shards[t.rotor % |t.shards|].data == map[])
  }

  lemma {:induction false} PassMeaning(e: Env, s: StoreState, evicted: nat)
    requires StoreOk(e, s) && e.limits.batch > 0
    requires evicted < e.limits.batch * (MAX_BATCHES + 1)
    ensures var (t, m) := Pass(e, s, evicted);
            AllCut(s.shards, t.shards) && PassEnds(e, t, m) && evicted <= m < e.limits.batch * (MAX_BATCHES + 1)
    decreases e.limits.batch * MAX_BATCHES - evicted
  {
    hide StoreOk, EvictNext, CutTo, AllCut;
    NonEmpty(e, s);
    AllCutStart(s.shards);
    if s.total > e.limits.target && evicted < e.limits.batch * MAX_BATCHES {
      var (t, m) := EvictNext(s, e.limits.batch);
      var h := (s.rotor + 1) % |s.shards|;
      EvictNextOk(e, s, e.limits.batch);
      RotorMoves(s, e.limits.batch);
      AllCutStep(s.shards, s.shards, h, t.shards[h]);
      if m > 0 {
        PassMeaning(e, t, evicted + m);
        AllCutTrans(s.shards, t.shards, Pass(e, t, evicted + m).0.shards);
      }
    }
  }

  lemma RotorMoves(s: StoreState, n: nat)
    requires s.shards != []
    ensures EvictNext(s, n).0.rotor == s.rotor + 1
  {
  }

  lemma AllCutTrans(a: seq<ShardState>, b: seq<ShardState>, c: seq<ShardState>)
    requires AllCut(a, b) && AllCut(b, c)
    ensures AllCut(a, c)
  {
    hide CutTo;
    forall i | 0 <= i < |a| ensures CutTo(a[i], c[i]) {
      CutTrans(a[i], b[i], c[i]);
    }
  }

  /** A pass of background eviction: it starts only above the threshold, ends at the target, after ten batches'
      worth of keys or at the first shard in rotation that holds nothing, and takes keys only by least recent
      use of their shard.  Above threshold and target it takes nothing at all exactly when the shard whose turn it is
      holds nothing. */
  lemma BackgroundMeaning(e: Env, s: StoreState)
    requires StoreOk(e, s) && e.limits.batch > 0
    ensures var (t, m) := Background(e, s);
            && AllCut(s.shards, t.shards) && m < e.limits.batch * (MAX_BATCHES + 1)
            && (s.total <= e.limits.threshold ==> t == s && m == 0)
            && (s.total > e.limits.threshold ==> PassEnds(e, t, m))
            && (s.total > e.limits.threshold && s.total > e.limits.target ==>
                  (m == 0 <==> s.shards[(s.rotor + 1) % |s.shards|].data == map[]))
            && (s.total <= e.limits.target ==> m == 0)
  {
    hide StoreOk, EvictNext, CutTo, AllCut;
    AllCutStart(s.shards);
    PassMeaning(e, s, 0);
    NonEmpty(e, s);
    EvictNextOk(e, s, e.limits.batch);
    var (t, m) := EvictNext(s, e.limits.batch);
    if m > 0 {
      PassMeaning(e, t, m);
    }
  }

  lemma KeysListed(e: Env, s: StoreState, i: nat, before: seq<ShardState>, keys: seq<Text>, own: seq<Text>)
    requires StoreOk(e, s) && i < |s.shards| == |before| && s.shards == before[i := s.shards[i]] && KeysOf(keys, before[..i])
    requires NoDup(own) && forall k :: k in own <==> k in s.shards[i].data
    ensures KeysOf(keys + own, s.shards[..i + 1])
  {
    hide ShardsOk, KeysOf, NoDup;
    assert s.shards[..i] == before[..i];
    KeysNext(e, s.shards, i, keys, own);
  }

  /** What a drain of the first n shards sends. */
  function Drained(e: Env, shards: seq<ShardState>, clock: nat -> nat -> int64, n: nat): seq<SyncOp>
    requires n <= |shards|
  {
    if n == 0 then [] else
      Drained(e, shards, clock, n - 1) + Drain(e.codec, shards[n - 1], clock(n - 1)).1
  }

  // ---------------------------------------------------------------- the store in place

  /** A shard as it is made. */
  ghost predicate Pristine(s: Shard)
    reads s, s.ring, s.ring.slots
  {
    s.Valid() && s.State() == EMPTY_SHARD && s.Cap() == SYNC_CAPACITY
  }

  class MemStorage {
    const shards: seq<Shard>
    const env: Env
    var evictShardIdx: nat
    var totalBytes: int

    /** The value of each shard, and everything the shards consist of. */
    ghost var states: seq<ShardState>
    ghost const repr: set<object>

    /** The shards share nothing, each has its value, and the limits are as New makes them. */
    ghost predicate Tied()
      reads this`states, repr
    {
      && this !in repr && shards != [] && |states| == |shards| && 0 < env.limits.batch
      && (forall i :: 0 <= i < |shards| ==> TiedAt(i))
      && forall i, j :: 0 <= i < j < |shards| ==> shards[i].Repr() !! shards[j].Repr()
    }

    ghost predicate TiedAt(i: nat)
      requires i < |shards| && i < |states|
      reads this`states, repr
    {
      && shards[i].Repr() <= repr && shards[i].Cap() == env.cap
      && shards[i].Valid() && shards[i].State() == states[i]
    }

    ghost function State(): StoreState
      reads this
    {
      StoreState(states, evictShardIdx, totalBytes)
    }

    ghost predicate Valid()
      reads this, repr
    {
      Tied() && StoreOk(env, State())
    }

    /** An empty store; the limits are those of the configuration, defaults where it says nothing. */
    constructor (asked: nat, processors: nat, maxMemoryMB: int, evictThreshold: int, evictTarget: int, evictBatchSize: int,
                 codec: Codec, hash: Text -> uint64)
      ensures Valid() && fresh(repr) && State() == NewStore(ShardCount(asked, processors))
      ensures env == Env(MakeLimits(maxMemoryMB, evictThreshold, evictTarget, evictBatchSize), codec, hash, SYNC_CAPACITY)
    {
      hide ShardOk, Recency, RoundUp;
      var shardCount := ShardCount(asked, processors);
      var made: seq<Shard> := [];
      ghost var parts: set<object> := {};
      for i := 0 to shardCount
        invariant |made| == i && fresh(parts)
        invariant forall j :: 0 <= j < i ==> Pristine(made[j]) && made[j].Repr() <= parts
        invariant forall j, k :: 0 <= j < k < i ==> made[j].Repr() !! made[k].Repr()
      {
        var one := new Shard();
        made := made + [one];
        parts := parts + one.Repr();
      }
      shards := made;
      env := Env(MakeLimits(maxMemoryMB, evictThreshold, evictTarget, evictBatchSize), codec, hash, SYNC_CAPACITY);
      evictShardIdx, totalBytes := 0, 0;
      states := seq(shardCount, _ => EMPTY_SHARD);
      repr := parts;
      new;
      forall i | 0 <= i < |shards| ensures TiedAt(i) {
        assert Pristine(made[i]);
      }
      NewOk(env, shardCount);
    }

    /** A change of one shard leaves the others tied to their values. */
    twostate lemma StillTied(h: nat)
      requires old(Tied()) && h < |shards| && |states| == |shards| && states == old(states)[h := states[h]]
      requires forall o: object :: o in repr && o !in shards[h].Repr() ==> unchanged(o)
      requires TiedAt(h)
      ensures Tied()
    {
      forall i | 0 <= i < |shards| ensures TiedAt(i) {
        if i != h {
          assert old(TiedAt(i));
          assert shards[i].Repr() !! shards[h].Repr();
        }
      }
    }

    /** The operations of one shard, with the global counter moving along. */
    method StoreAt(h: nat, key: Text, it: CompItem)
      requires Tied() && h < |shards|
      modifies this`states, this`totalBytes, repr
      ensures Tied() && State() == With(old(State()), h, Put(old(states)[h], key, it, env.cap))
    {
      hide Put, ShardOk, Recency;
      assert TiedAt(h);
      var delta := shards[h].Store(key, it);
      totalBytes := totalBytes + delta;
      states := states[h := shards[h].State()];
      StillTied(h);
    }

    method LoadAt(h: nat, key: Text, now: int64) returns (r: Lookup)
      requires Tied() && h < |shards|
      modifies this`states, this`totalBytes, repr
      ensures Tied() && State() == With(old(State()), h, Read(old(states)[h], key, now))
      ensures r == Look(old(states)[h].data, key, now)
    {
      hide Read, Look, ShardOk, Recency;
      assert TiedAt(h);
      ReadCounter(states[h], key, now);
      r := shards[h].Load(key, now);
      states := states[h := shards[h].State()];
      StillTied(h);
    }

    method DeleteAt(h: nat, key: Text, version: int64) returns (ok: bool)
      requires Tied() && h < |shards|
      modifies this`states, this`totalBytes, repr
      ensures Tied() && State() == With(old(State()), h, Delete(old(states)[h], key, version, env.cap))
      ensures ok == !KeepsNewer(old(states)[h].data, key, version)
    {
      hide Delete, ShardOk, Recency;
      assert TiedAt(h);
      var delta;
      ok, delta := shards[h].DeleteKey(key, version);
      totalBytes := totalBytes + delta;
      states := states[h := shards[h].State()];
      StillTied(h);
    }

    method EvictAt(h: nat, n: nat) returns (evicted: nat)
      requires Tied() && h < |shards|
      modifies this`states, this`totalBytes, repr
      ensures Tied() && State() == With(old(State()), h, Evict(old(states)[h], n).0)
      ensures evicted == Evict(old(states)[h], n).1
    {
      hide Evict, ShardOk, Recency;
      assert TiedAt(h);
      var delta;
      evicted, delta := shards[h].EvictBatch(n);
      totalBytes := totalBytes + delta;
      states := states[h := shards[h].State()];
      StillTied(h);
    }

    method CleanAt(h: nat, now: int64)
      requires Tied() && h < |shards|
      modifies this`states, this`totalBytes, repr
      ensures Tied() && State() == With(old(State()), h, Cleaned(old(states)[h], now))
    {
      hide Cleaned, ShardOk, Recency;
      assert TiedAt(h);
      var delta := shards[h].CleanExpired(now);
      totalBytes := totalBytes + delta;
      states := states[h := shards[h].State()];
      StillTied(h);
    }

    method KeysAt(h: nat, now: int64) returns (keys: seq<Text>)
      requires Tied() && h < |shards|
      modifies this`states, this`totalBytes, repr
      ensures Tied() && State() == With(old(State()), h, Listing(old(states)[h], now))
      ensures NoDup(keys) && forall k :: k in keys <==> k in states[h].data
    {
      hide NoDup, ShardOk, Recency;
      assert TiedAt(h);
      keys := shards[h].Keys(now);
      states := states[h := shards[h].State()];
      StillTied(h);
    }

    method DrainAt(h: nat, clock: nat -> int64) returns (ops: seq<SyncOp>)
      requires Tied() && h < |shards|
      modifies this`states, this`totalBytes, repr
      ensures Tied() && State() == With(old(State()), h, Drain(env.codec, old(states)[h], clock).0)
      ensures ops == Drain(env.codec, old(states)[h], clock).1
    {
      hide Drain, ShardOk, Recency;
      assert TiedAt(h);
      DrainCounter(env.codec, states[h], clock);
      ops := shards[h].DrainSync(env.codec, clock);
      states := states[h := shards[h].State()];
      StillTied(h);
    }

    method ClearAt(h: nat)
      requires Tied() && h < |shards|
      modifies this`states, this`totalBytes, repr
      ensures Tied() && State() == With(old(State()), h, EMPTY_SHARD)
    {
      hide ShardOk, Recency;
      assert TiedAt(h);
      totalBytes := totalBytes - shards[h].byteCount;
      shards[h].Clear();
      states := states[h := shards[h].State()];
      StillTied(h);
    }

    /** One batch from the next shard in rotation. */
    method EvictBatchLRU(n: nat) returns (evicted: nat)
      requires Tied()
      modifies this`evictShardIdx, this`states, this`totalBytes, repr
      ensures Tied() && EvictNext(old(State()), n) == (State(), evicted)
    {
      hide Evict, ShardOk, TiedAt;
      evictShardIdx := evictShardIdx + 1;
      var idx := evictShardIdx % |shards|;
      evicted := EvictAt(idx, n);
    }

    method CheckAndEvict(size: nat) returns (ok: bool)
      requires Tied()
      modifies this`evictShardIdx, this`states, this`totalBytes, repr
      ensures Tied() && MakeRoom(env, old(State()), size) == (State(), ok)
    {
      hide EvictNext, ShardOk, TiedAt;
      ok := true;
      if totalBytes + size <= env.limits.threshold {
        return;
      }
      if totalBytes + size > env.limits.maxBytes {
        var evicted := EvictBatchLRU(WRITE_BATCH);
        ok := evicted != 0;
      }
    }

    method Set(key: Text, item: Option<StoredItem>) returns (r: SetResult)
      requires Valid()
      modifies this, repr
      ensures Valid() && StoreSet(env, old(State()), key, item) == (State(), r)
    {
      hide MakeRoom, StoreOk, TiedAt, Put, Home;
      SetOk(env, State(), key, item);
      if key == [] {
        return EmptyKey;
      }
      if item.None? {
        return NilItem;
      }
      var it := Compact(env.codec, item.value);
      var ok := CheckAndEvict(ItemSize(key, it.bytes));
      if !ok {
        return MemoryLimit;
      }
      StoreAt(Home(env, |shards|, key), key, it);
      return Stored;
    }

    /** A read; GetNoCopy, which gossip and drains use, is the same but for copying. */
    method Get(key: Text, now: int64) returns (r: GetResult)
      requires Valid()
      modifies this, repr
      ensures Valid() && StoreGet(env, old(State()), key, now) == (State(), r)
    {
      hide StoreOk, TiedAt, Read, Look, Home;
      GetOk(env, State(), key, now);
      if key == [] {
        return NoKey;
      }
      var l := LoadAt(Home(env, |shards|, key), key, now);
      match l {
        case Missing => return NotFound;
        case ExpiredNow => return Stale;
        case Hit(it) =>
          var e := Expand(env.codec, it);
          return if e.Some? then Found(e.value) else Corrupt;
      }
    }

    method DeleteKey(key: Text, version: int64) returns (r: DeleteResult)
      requires Valid()
      modifies this, repr
      ensures Valid() && StoreDelete(env, old(State()), key, version) == (State(), r)
    {
      hide StoreOk, TiedAt, Delete, KeepsNewer, Home;
      StoreDeleteOk(env, State(), key, version);
      if key == [] {
        return NoName;
      }
      var ok := DeleteAt(Home(env, |shards|, key), key, version);
      return if ok then Deleted else VersionMismatch;
    }

    /** One pass of background eviction. */
    method RunAsyncEviction() returns (evicted: nat)
      requires Valid()
      modifies this, repr
      ensures Valid() && Background(env, old(State())) == (State(), evicted)
    {
      hide StoreOk, TiedAt, EvictNext;
      evicted := 0;
      PassOk(env, State(), 0);
      if totalBytes <= env.limits.threshold {
        return;
      }
      var done := false;
      ghost var whole := Pass(env, State(), 0);
      while !done && totalBytes > env.limits.target && evicted < env.limits.batch * MAX_BATCHES
        invariant Tied() && StoreOk(env, State())
        invariant whole == if done then (State(), evicted) else Pass(env, State(), evicted)
        decreases env.limits.batch * MAX_BATCHES - evicted, !done
      {
        EvictNextOk(env, State(), env.limits.batch);
        var n := EvictBatchLRU(env.limits.batch);
        if n == 0 {
          done := true;
        } else {
          evicted := evicted + n;
        }
      }
    }

    /** The background cleaner, shard by shard. */
    method CleanExpired(now: int64)
      requires Valid()
      modifies this, repr
      ensures Valid() && State() == Step(env, old(State()), SweepOf(Cleaning(now)))
    {
      hide StoreOk, TiedAt, Cleaned;
      SweptOk(env, State(), Cleaning(now), |shards|);
      for i := 0 to |shards|
        invariant Tied() && State() == Swept(env, old(State()), Cleaning(now), i)
      {
        CleanAt(i, now);
      }
    }

    /** All keys, shard by shard. */
    method Keys(now: int64) returns (keys: seq<Text>)
      requires Valid()
      modifies this, repr
      ensures Valid() && State() == Step(env, old(State()), SweepOf(Listed(now)))
      ensures NoDup(keys) && forall k :: k in keys <==> k in Contents(State().shards)
    {
      hide StoreOk, TiedAt, NoDup, Listing, Contents;
      SweptOk(env, State(), Listed(now), |shards|);
      keys := [];
      NoKeys(states);
      for i := 0 to |shards|
        invariant Tied() && State() == Swept(env, old(State()), Listed(now), i)
        invariant KeysOf(keys, states[..i])
      {
        SweptOk(env, old(State()), Listed(now), i + 1);
        ghost var before := states;
        var own := KeysAt(i, now);
        KeysListed(env, State(), i, before, keys, own);
        keys := keys + own;
      }
      assert states[..|shards|] == states;
    }

    /** The waiting operations of all shards; clock gives the time of each read, by shard and operation. */
    method GetSyncBuffer(clock: nat -> nat -> int64) returns (ops: seq<SyncOp>)
      requires Valid()
      modifies this, repr
      ensures Valid() && State() == Step(env, old(State()), SweepOf(Draining(clock)))
      ensures ops == Drained(env, old(states), clock, |shards|)
    {
      hide StoreOk, TiedAt, Drain;
      SweptOk(env, State(), Draining(clock), |shards|);
      ops := [];
      for i := 0 to |shards|
        invariant Tied() && State() == Swept(env, old(State()), Draining(clock), i)
        invariant states[i..] == old(states)[i..]
        invariant ops == Drained(env, old(states), clock, i)
      {
        assert states[i] == old(states)[i..][0];
        var own := DrainAt(i, clock(i));
        ops := ops + own;
      }
    }

    /** Forgets everything stored and waiting. */
    method Clear()
      requires Valid()
      modifies this, repr
      ensures Valid() && State() == Step(env, old(State()), SweepOf(Clearing))
    {
      hide StoreOk, TiedAt;
      SweptOk(env, State(), Clearing, |shards|);
      for i := 0 to |shards|
        invariant Tied() && State() == Swept(env, old(State()), Clearing, i)
      {
        ClearAt(i);
      }
    }
  }
}
