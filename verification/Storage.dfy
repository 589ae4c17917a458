/** What a storage shard holds and what each operation does to it, as values (internal/mem_storage/mem_storage.go):
    last-write-wins data, LRU list, byte counter and the operations waiting to be sent.  Operations run one
    after another; concurrent Sets of one key are modelled separately, step by step. */
module Storage {
  import opened Base
  import opened SyncBuffers

  /** A stored item: its bytes may be compressed. */
  datatype CompItem = CompItem(version: int64, expireAt: Option<int64>, bytes: Text, compressed: bool, origSize: nat)

  type Data = map<Text, CompItem>

  /** Compression is abstract: compress answers None when the value is kept as it is. */
  datatype Codec = Codec(compress: Text -> Option<Text>, expand: Text -> Option<Text>)

  ghost predicate Faithful(c: Codec) {
    forall v :: c.compress(v).Some? ==> c.expand(c.compress(v).value) == Some(v)
  }

  function Compact(c: Codec, it: StoredItem): CompItem {
    var z := c.compress(it.value);
    if z.Some? then CompItem(it.version, it.expireAt, z.value, true, |it.value|)
    else CompItem(it.version, it.expireAt, it.value, false, |it.value|)
  }

  function Expand(c: Codec, it: CompItem): Option<StoredItem> {
    if !it.compressed then Some(StoredItem(it.version, it.expireAt, it.bytes))
    else
      var v := c.expand(it.bytes);
      if v.Some? then Some(StoredItem(it.version, it.expireAt, v.value)) else None
  }

  lemma CompactExpand(c: Codec, it: StoredItem)
    requires Faithful(c)
    ensures Expand(c, Compact(c, it)) == Some(it)
  {
  }

  // ---------------------------------------------------------------- data

  /** Last write wins; on equal versions the item already stored stays. */
  function TryStore(d: Data, key: Text, it: CompItem): Data {
    if key in d && it.version <= d[key].version then d else d[key := it]
  }

  function Find(d: Data, k: Text): Option<CompItem> {
    if k in d then Some(d[k]) else None
  }

  predicate Expired(it: CompItem, now: int64) {
    it.expireAt.Some? && now > it.expireAt.value
  }

  /** What is left of the data when everything expired is gone. */
  function Unexpired(d: Data, now: int64): Data {
    map k | k in d && !Expired(d[k], now) :: d[k]
  }

  // ---------------------------------------------------------------- sizes

  const STRING_OVERHEAD: nat := 16
  const SLICE_OVERHEAD: nat := 24
  const STRUCT_OVERHEAD: nat := 72
  const SYNC_MAP_OVERHEAD: nat := 64

  function ItemSize(key: Text, bytes: Text): nat {
    |key| + |bytes| + STRING_OVERHEAD + SLICE_OVERHEAD + STRUCT_OVERHEAD + SYNC_MAP_OVERHEAD
  }

  /** The true size of everything stored. */
  ghost function TotalSize(d: Data): nat {
    if d == map[] then 0 else
      var k :| k in d;
      ItemSize(k, d[k].bytes) + TotalSize(d - {k})
  }

  lemma {:induction false} SizeRemove(d: Data, k: Text)
    requires k in d
    ensures TotalSize(d) == ItemSize(k, d[k].bytes) + TotalSize(d - {k})
    decreases |d|
  {
    var j :| j in d && TotalSize(d) == ItemSize(j, d[j].bytes) + TotalSize(d - {j});
    if j != k {
      assert d.Keys == (d - {j}).Keys + {j} && d.Keys == (d - {k}).Keys + {k};
      SizeRemove(d - {j}, k);
      SizeRemove(d - {k}, j);
      assert d - {j} - {k} == d - {k} - {j};
    }
  }

  lemma CardRemove(d: Data, k: Text)
    requires k in d
    ensures |d| == |d - {k}| + 1
  {
    assert d.Keys == (d - {k}).Keys + {k};
  }

  lemma SizeNew(d: Data, k: Text, it: CompItem)
    requires k !in d
    ensures TotalSize(d[k := it]) == TotalSize(d) + ItemSize(k, it.bytes)
  {
    SizeRemove(d[k := it], k);
    assert d[k := it] - {k} == d;
  }

  lemma SizeOverwrite(d: Data, k: Text, it: CompItem)
    requires k in d
    ensures TotalSize(d[k := it]) == TotalSize(d) - ItemSize(k, d[k].bytes) + ItemSize(k, it.bytes)
  {
    SizeRemove(d, k);
    SizeNew(d - {k}, k, it);
    assert (d - {k})[k := it] == d[k := it];
  }

  /** The bytes of keys and stored values, and nothing else. */
  ghost function HeldBytes(d: Data, ks: seq<Text>): nat
    requires forall k :: k in ks ==> k in d
  {
    if ks == [] then 0 else |ks[0]| + |d[ks[0]].bytes| + HeldBytes(d, ks[1..])
  }

  lemma {:induction false} HeldBytesWithout(d: Data, k: Text, ks: seq<Text>)
    requires k !in ks && forall j :: j in ks ==> j in d
    ensures HeldBytes(d, ks) == HeldBytes(d - {k}, ks)
  {
    if ks != [] {
      HeldBytesWithout(d, k, ks[1..]);
    }
  }

  /** What the size accounts for: every key's and every stored value's bytes, and 176 more for each item. */
  lemma {:induction false} SizeIsBytesHeld(d: Data, ks: seq<Text>)
    requires NoDup(ks) && forall k :: k in ks <==> k in d
    ensures TotalSize(d) == HeldBytes(d, ks) + 176 * |ks| && |ks| == |d|
    decreases |ks|
  {
    if ks != [] {
      var k, rest := ks[0], ks[1..];
      assert ks == [k] + rest;
      SizeRemove(d, k);
      CardRemove(d, k);
      HeldBytesWithout(d, k, rest);
      SizeIsBytesHeld(d - {k}, rest);
    } else {
      assert d == map[];
    }
  }

  // ---------------------------------------------------------------- recency

  /** The LRU list after a key is touched. */
  function Touched(l: seq<Text>, k: Text): seq<Text> {
    [k] + Without(l, k)
  }

  /** l lists its keys once each, most recently touched first: at says when, in touches so far. */
  ghost predicate Recency(l: seq<Text>, at: map<Text, nat>, clock: nat) {
    && (forall i :: 0 <= i < |l| ==> l[i] in at && at[l[i]] < clock)
    && forall i, j :: 0 <= i < j < |l| ==> at[l[j]] < at[l[i]]
  }

  lemma RecencyNoDup(l: seq<Text>, at: map<Text, nat>, clock: nat)
    requires Recency(l, at, clock)
    ensures NoDup(l)
  {
  }

  lemma WithoutRecency(l: seq<Text>, at: map<Text, nat>, clock: nat, k: Text)
    requires Recency(l, at, clock)
    ensures Recency(Without(l, k), at, clock)
    ensures forall x :: x in Without(l, k) <==> x in l && x != k
  {
    RecencyNoDup(l, at, clock);
    if k in l {
      var a, b := SplitAt(l, k);
      WithoutPresent(a, k, b);
      JoinRecency(a, k, b, at, clock);
    } else {
      WithoutAbsent(l, k);
    }
  }

  lemma JoinRecency(a: seq<Text>, k: Text, b: seq<Text>, at: map<Text, nat>, clock: nat)
    requires Recency(a + [k] + b, at, clock)
    ensures Recency(a + b, at, clock)
    ensures forall x :: x in a + b <==> x in a + [k] + b && x != k
  {
    var l, r := a + [k] + b, a + b;
    forall i | 0 <= i < |r| ensures r[i] == l[if i < |a| then i else i + 1] {}
    RecencyNoDup(l, at, clock);
    assert l[|a|] == k;
    assert forall i :: 0 <= i < |r| ==> r[i] != k;
    forall x ensures x in r <==> x in l && x != k {
      assert x in l <==> x in a || x == k || x in b;
      if x in r { var i :| 0 <= i < |r| && r[i] == x; }
    }
  }

  lemma TouchRecency(l: seq<Text>, at: map<Text, nat>, clock: nat, k: Text)
    requires Recency(l, at, clock)
    ensures Recency(Touched(l, k), at[k := clock], clock + 1)
    ensures forall x :: x in Touched(l, k) <==> x in l || x == k
  {
    WithoutRecency(l, at, clock, k);
    var w := Without(l, k);
    forall i | 0 <= i < |w| ensures w[i] != k && w[i] in l { assert w[i] in w; }
  }

  lemma PrefixRecency(l: seq<Text>, at: map<Text, nat>, clock: nat, m: nat)
    requires Recency(l, at, clock) && m <= |l|
    ensures Recency(l[..m], at, clock)
  {
  }

  lemma LastOnce(l: seq<Text>, at: map<Text, nat>, clock: nat)
    requires Recency(l, at, clock) && l != []
    ensures forall k :: k in l[..|l| - 1] <==> k in l && k != l[|l| - 1]
  {
    RecencyNoDup(l, at, clock);
    assert l == l[..|l| - 1] + [l[|l| - 1]];
  }

  // ---------------------------------------------------------------- a shard

  /** The LRU list, most recent first; the data; the byte counter; the operations waiting, oldest first. */
  datatype ShardState = ShardState(lru: seq<Text>, data: Data, bytes: int, queue: seq<SyncOp>)

  const EMPTY_SHARD: ShardState := ShardState([], map[], 0, [])

  /** The list has no repeats and covers everything stored, and so does the counter. */
  ghost predicate ShardOk(s: ShardState) {
    NoDup(s.lru) && s.data.Keys <= Elems(s.lru) && Drift(s) >= 0
  }

  /** How far the counter is above the truth. */
  ghost function Drift(s: ShardState): int {
    s.bytes - TotalSize(s.data)
  }

  /** The operation a stored item leaves for its peers; the value is looked up when it is sent. */
  function SetOp(key: Text, it: CompItem): SyncOp {
    SyncOp(key, OpSet, Some(StoredItem(it.version, it.expireAt, [])))
  }

  /** What a stored item adds to the counter: the size of an item it replaces is taken without the key. */
  function PutDelta(d: Data, key: Text, it: CompItem): int {
    ItemSize(key, it.bytes) - if key in d then ItemSize([], d[key].bytes) else 0
  }

  /** A Set that meets no concurrent writer. */
  function Put(s: ShardState, key: Text, it: CompItem, cap: nat): ShardState {
    if key in s.data && it.version <= s.data[key].version then s
    else ShardState(
      Touched(s.lru, key), s.data[key := it], s.bytes + PutDelta(s.data, key, it), Newest(s.queue + [SetOp(key, it)], cap))
  }

  datatype Lookup = Missing | ExpiredNow | Hit(item: CompItem)

  function Look(d: Data, key: Text, now: int64): Lookup {
    if key !in d then Missing else if Expired(d[key], now) then ExpiredNow else Hit(d[key])
  }

  /** A read: an expired item goes without the counter hearing of it, any other becomes the most recent. */
  function Read(s: ShardState, key: Text, now: int64): ShardState {
    match Look(s.data, key, now)
    case Missing => s
    case ExpiredNow => s.(lru := Without(s.lru, key), data := s.data - {key})
    case Hit(_) => s.(lru := Touched(s.lru, key))
  }

  /** Removal with exact accounting. */
  function Remove(s: ShardState, key: Text): ShardState {
    if key !in s.data then s
    else s.(lru := Without(s.lru, key), data := s.data - {key}, bytes := s.bytes - ItemSize(key, s.data[key].bytes))
  }

  /** A delete with a positive version leaves a newer item alone. */
  predicate KeepsNewer(d: Data, key: Text, version: int64) {
    key in d && version > 0 && d[key].version > version
  }

  /** A physical delete. */
  function Delete(s: ShardState, key: Text, version: int64, cap: nat): ShardState {
    if key !in s.data || KeepsNewer(s.data, key, version) then s
    else
      var r := Remove(s, key);
      r.(queue := Newest(r.queue + [SyncOp(key, OpDelete, None)], cap))
  }

  /** Removal of several keys, one after another. */
  function RemoveAll(s: ShardState, ks: seq<Text>): ShardState {
    if ks == [] then s else Remove(RemoveAll(s, ks[..|ks| - 1]), ks[|ks| - 1])
  }

  /** The key listing drops expired items from the data, and from nowhere else. */
  function Listing(s: ShardState, now: int64): ShardState {
    s.(data := Unexpired(s.data, now))
  }

  // ---------------------------------------------------------------- what the operations keep

  lemma WithoutFacts(l: seq<Text>, k: Text)
    requires NoDup(l)
    ensures NoDup(Without(l, k)) && NoDup(Touched(l, k))
    ensures forall x :: x in Without(l, k) <==> x in l && x != k
  {
    if k in l {
      var a, b := SplitAt(l, k);
      WithoutPresent(a, k, b);
      OnceJoined(a, k, b);
    } else {
      WithoutAbsent(l, k);
    }
  }

  lemma OnceJoined(a: seq<Text>, k: Text, b: seq<Text>)
    requires NoDup(a + [k] + b)
    ensures NoDup(a + b) && k !in a + b
  {
    var s := a + [k] + b;
    forall i | 0 <= i < |a + b| ensures (a + b)[i] == s[if i < |a| then i else i + 1] {
    }
    assert s[|a|] == k;
  }

  /** A shard whose list changed by a touch or a removal, and its data by at most that key. */
  lemma ListKeeps(s: ShardState, k: Text, d: Data)
    requires NoDup(s.lru) && s.data.Keys <= Elems(s.lru)
    ensures NoDup(Touched(s.lru, k)) && NoDup(Without(s.lru, k))
    ensures d.Keys <= s.data.Keys + {k} ==> d.Keys <= Elems(Touched(s.lru, k))
    ensures d.Keys <= s.data.Keys - {k} ==> d.Keys <= Elems(Without(s.lru, k))
  {
    hide NoDup, Without;
    WithoutFacts(s.lru, k);
  }

  /** Overwriting leaves the counter too high by the length of the key; nothing else about a Set does. */
  lemma PutOk(s: ShardState, key: Text, it: CompItem, cap: nat)
    requires ShardOk(s)
    ensures ShardOk(Put(s, key, it, cap))
    ensures Drift(Put(s, key, it, cap)) == Drift(s) + if key in s.data && it.version > s.data[key].version then |key| else 0
    ensures Put(s, key, it, cap) != s ==> var l := Put(s, key, it, cap).lru; l != [] && l[0] == key
  {
    hide TotalSize, NoDup, Without, Elems;
    ListKeeps(s, key, s.data[key := it]);
    if key in s.data {
      SizeOverwrite(s.data, key, it);
    } else {
      SizeNew(s.data, key, it);
    }
  }

  /** A lazily expired item leaves the counter too high by its size. */
  lemma ReadOk(s: ShardState, key: Text, now: int64)
    requires ShardOk(s)
    ensures ShardOk(Read(s, key, now))
    ensures Drift(Read(s, key, now)) ==
            Drift(s) + if Look(s.data, key, now).ExpiredNow? then ItemSize(key, s.data[key].bytes) else 0
    ensures Look(s.data, key, now).Hit? ==> var l := Read(s, key, now).lru; l != [] && l[0] == key
  {
    hide TotalSize, NoDup, Without, Elems;
    ListKeeps(s, key, Read(s, key, now).data);
    if key in s.data {
      SizeRemove(s.data, key);
    }
  }

  lemma ReadCounter(s: ShardState, key: Text, now: int64)
    ensures Read(s, key, now).bytes == s.bytes
  {
  }

  lemma RemoveKeeps(s: ShardState, key: Text)
    requires ShardOk(s)
    ensures ShardOk(Remove(s, key)) && Drift(Remove(s, key)) == Drift(s)
  {
    hide TotalSize, NoDup, Without, Elems;
    ListKeeps(s, key, s.data - {key});
    if key in s.data {
      SizeRemove(s.data, key);
    }
  }

  lemma DeleteOk(s: ShardState, key: Text, version: int64, cap: nat)
    requires ShardOk(s)
    ensures ShardOk(Delete(s, key, version, cap)) && Drift(Delete(s, key, version, cap)) == Drift(s)
    ensures key in Delete(s, key, version, cap).data <==> KeepsNewer(s.data, key, version)
    ensures forall k :: k != key ==> Find(Delete(s, key, version, cap).data, k) == Find(s.data, k)
  {
    hide TotalSize, NoDup, Without, Elems;
    RemoveKeeps(s, key);
  }

  lemma {:induction false} RemoveAllOk(s: ShardState, ks: seq<Text>)
    requires ShardOk(s)
    ensures ShardOk(RemoveAll(s, ks)) && Drift(RemoveAll(s, ks)) == Drift(s)
    ensures RemoveAll(s, ks).queue == s.queue
  {
    hide ShardOk, Drift;
    if ks != [] {
      RemoveAllOk(s, ks[..|ks| - 1]);
      RemoveKeeps(RemoveAll(s, ks[..|ks| - 1]), ks[|ks| - 1]);
    }
  }

  lemma ListingOk(s: ShardState, now: int64)
    requires ShardOk(s)
    ensures ShardOk(Listing(s, now)) && Drift(Listing(s, now)) >= Drift(s)
  {
    hide TotalSize, NoDup, Elems;
    SizeSubset(s.data, Unexpired(s.data, now));
  }

  // ---------------------------------------------------------------- removal of several keys

  lemma {:induction false} RemoveAllData(s: ShardState, ks: seq<Text>)
    ensures forall k :: k in RemoveAll(s, ks).data <==> k in s.data && k !in ks
    ensures forall k :: k in RemoveAll(s, ks).data ==> RemoveAll(s, ks).data[k] == s.data[k]
  {
    if ks != [] {
      RemoveAllData(s, ks[..|ks| - 1]);
      assert ks == ks[..|ks| - 1] + [ks[|ks| - 1]];
    }
  }

  /** Removing the expired keys, in whatever order, leaves exactly the unexpired data. */
  lemma CleanedData(s: ShardState, ks: seq<Text>, now: int64)
    requires forall k :: k in ks <==> k in s.data && Expired(s.data[k], now)
    ensures RemoveAll(s, ks).data == Unexpired(s.data, now)
  {
    RemoveAllData(s, ks);
  }

  /** The list without some keys. */
  function Keep(l: seq<Text>, gone: set<Text>): seq<Text> {
    if l == [] then [] else
      var p, k := Keep(l[..|l| - 1], gone), l[|l| - 1];
      if k in gone then p else p + [k]
  }

  lemma {:induction false} KeepWithout(l: seq<Text>, gone: set<Text>, k: Text)
    ensures Without(Keep(l, gone), k) == Keep(l, gone + {k})
  {
    if l != [] {
      var p, x := l[..|l| - 1], l[|l| - 1];
      KeepWithout(p, gone, k);
      if x !in gone {
        assert (Keep(p, gone) + [x])[..|Keep(p, gone)|] == Keep(p, gone);
      }
    }
  }

  lemma {:induction false} KeepAll(l: seq<Text>)
    ensures Keep(l, {}) == l
  {
    if l != [] {
      KeepAll(l[..|l| - 1]);
      assert l == l[..|l| - 1] + [l[|l| - 1]];
    }
  }

  /** A shard after the cleaner: every expired item goes, with exact accounting. */
  ghost function Cleaned(s: ShardState, now: int64): ShardState {
    var d := Unexpired(s.data, now);
    ShardState(Keep(s.lru, s.data.Keys - d.Keys), d, s.bytes - (TotalSize(s.data) - TotalSize(d)), s.queue)
  }

  lemma {:induction false} RemoveAllList(s: ShardState, ks: seq<Text>)
    requires NoDup(ks) && forall k :: k in ks ==> k in s.data
    ensures RemoveAll(s, ks).lru == Keep(s.lru, Elems(ks))
  {
    if ks == [] {
      assert Elems(ks) == {};
      KeepAll(s.lru);
    } else {
      var p, k := ks[..|ks| - 1], ks[|ks| - 1];
      NoDupParts(p, k);
      assert p + [k] == ks;
      ElemsSnoc(p, k);
      RemoveAllList(s, p);
      RemoveAllData(s, p);
      KeepWithout(s.lru, Elems(p), k);
    }
  }

  /** Removing the expired keys one by one, in whatever order, is cleaning. */
  lemma RemoveIsClean(s: ShardState, ks: seq<Text>, now: int64)
    requires ShardOk(s) && NoDup(ks) && forall k :: k in ks <==> k in s.data && Expired(s.data[k], now)
    ensures RemoveAll(s, ks) == Cleaned(s, now)
  {
    hide NoDup, TotalSize, Keep, RemoveAll;
    CleanedData(s, ks, now);
    RemoveAllOk(s, ks);
    RemoveAllList(s, ks);
    assert Elems(ks) == s.data.Keys - Unexpired(s.data, now).Keys;
  }

  lemma CleanedOk(s: ShardState, now: int64)
    requires ShardOk(s)
    ensures ShardOk(Cleaned(s, now)) && Drift(Cleaned(s, now)) == Drift(s)
    ensures Cleaned(s, now).data.Keys <= s.data.Keys
  {
    var ks := SomeOrder(s.data.Keys - Unexpired(s.data, now).Keys);
    RemoveIsClean(s, ks, now);
    RemoveAllOk(s, ks);
  }

  lemma {:induction false} SomeOrder(x: set<Text>) returns (ks: seq<Text>)
    ensures NoDup(ks) && forall k :: k in ks <==> k in x
  {
    ks := [];
    if x != {} {
      var k :| k in x;
      var p := SomeOrder(x - {k});
      ks := p + [k];
    }
  }

  lemma EmptyShardOk()
    ensures ShardOk(EMPTY_SHARD)
  {
  }

  lemma {:induction false} SizeSubset(d: Data, e: Data)
    requires e.Keys <= d.Keys && forall k :: k in e ==> e[k] == d[k]
    ensures TotalSize(e) <= TotalSize(d)
    decreases |d|
  {
    if d.Keys - e.Keys == {} {
      assert e == d;
    } else {
      var k :| k in d.Keys - e.Keys;
      SizeRemove(d, k);
      CardRemove(d, k);
      SizeSubset(d - {k}, e);
    }
  }

  // ---------------------------------------------------------------- draining

  /** A set operation queued without its value. */
  predicate Wants(op: SyncOp) {
    op.item.Some? && op.item.value.value == [] && op.opType.OpSet?
  }

  /** An operation as it leaves, given what the read of its key found. */
  function Fill(c: Codec, found: Lookup, op: SyncOp): SyncOp {
    if !Wants(op) || !found.Hit? || Expand(c, found.item).None? then op
    else op.(item := Some(op.item.value.(value := Expand(c, found.item).value.value)))
  }

  /** Completing operations one after another; clock gives the time of each read. */
  function Complete(c: Codec, s: ShardState, ops: seq<SyncOp>, clock: nat -> int64): (ShardState, seq<SyncOp>) {
    if ops == [] then (s, []) else
      var n := |ops| - 1;
      var (p, done) := Complete(c, s, ops[..n], clock);
      (if Wants(ops[n]) then Read(p, ops[n].key, clock(n)) else p,
       done + [Fill(c, Look(p.data, ops[n].key, clock(n)), ops[n])])
  }

  /** A drain: everything waiting leaves, completed with the values stored at that time. */
  function Drain(c: Codec, s: ShardState, clock: nat -> int64): (ShardState, seq<SyncOp>) {
    Complete(c, s.(queue := []), s.queue, clock)
  }

  /** The same change: same key, type, version and expiry. */
  predicate SameOp(a: SyncOp, b: SyncOp) {
    && a.key == b.key && a.opType == b.opType && a.item.Some? == b.item.Some?
    && (a.item.Some? ==> a.item.value.version == b.item.value.version && a.item.value.expireAt == b.item.value.expireAt)
  }

  lemma DrainedRingOk(s: ShardState)
    requires ShardOk(s)
    ensures ShardOk(s.(queue := []))
  {
  }

  lemma FillSame(c: Codec, found: Lookup, op: SyncOp)
    ensures SameOp(Fill(c, found, op), op)
  {
  }

  /** Whatever expires meanwhile: a drain loses and reorders nothing, and no operation changes but in its value. */
  lemma {:induction false} CompleteOk(c: Codec, s: ShardState, ops: seq<SyncOp>, clock: nat -> int64)
    requires ShardOk(s)
    ensures var (r, done) := Complete(c, s, ops, clock);
            && ShardOk(r) && r.bytes == s.bytes && r.queue == s.queue
            && r.data.Keys <= s.data.Keys && (forall k :: k in r.data ==> r.data[k] == s.data[k])
            && |done| == |ops| && forall i :: 0 <= i < |ops| ==> SameOp(done[i], ops[i])
  {
    hide ShardOk, Wants, Fill, SameOp;
    if ops != [] {
      var n := |ops| - 1;
      CompleteOk(c, s, ops[..n], clock);
      var p := Complete(c, s, ops[..n], clock).0;
      ReadOk(p, ops[n].key, clock(n));
      FillSame(c, Look(p.data, ops[n].key, clock(n)), ops[n]);
    }
  }

  /** An item that has not expired at any of the reads stays. */
  lemma {:induction false} CompleteKeeps(c: Codec, s: ShardState, ops: seq<SyncOp>, clock: nat -> int64, k: Text)
    requires forall i :: k in s.data ==> !Expired(s.data[k], clock(i))
    ensures Find(Complete(c, s, ops, clock).0.data, k) == Find(s.data, k)
  {
    hide Wants, Fill, Expired;
    if ops != [] {
      CompleteKeeps(c, s, ops[..|ops| - 1], clock, k);
    }
  }

  lemma DrainCounter(c: Codec, s: ShardState, clock: nat -> int64)
    requires ShardOk(s)
    ensures Drain(c, s, clock).0.bytes == s.bytes
  {
    DrainedRingOk(s);
    CompleteOk(c, s.(queue := []), s.queue, clock);
  }

  /** Nothing in d is expired at any reading of the clock. */
  ghost predicate NothingExpires(d: Data, clock: nat -> int64) {
    forall k, i :: k in d ==> !Expired(d[k], clock(i))
  }

  /** An operation as it leaves a store whose data is d, if nothing is expired. */
  function Completed(c: Codec, d: Data, op: SyncOp): SyncOp {
    if op.key in d then Fill(c, Hit(d[op.key]), op) else op
  }

  lemma {:induction false} CompleteCalm(c: Codec, s: ShardState, ops: seq<SyncOp>, clock: nat -> int64, i: nat)
    requires NothingExpires(s.data, clock) && i < |ops|
    ensures var (r, done) := Complete(c, s, ops, clock);
            r.data == s.data && |done| == |ops| && done[i] == Completed(c, s.data, ops[i])
  {
    hide Wants;
    var n := |ops| - 1;
    if n > 0 {
      CompleteCalm(c, s, ops[..n], clock, if i < n then i else 0);
    }
  }

  // ---------------------------------------------------------------- what a drained operation carries

  /** The shard after Sets of items, one after another. */
  function PutAll(c: Codec, s: ShardState, sets: seq<(Text, StoredItem)>, cap: nat): ShardState {
    if sets == [] then s else
      var last := sets[|sets| - 1];
      Put(PutAll(c, s, sets[..|sets| - 1], cap), last.0, Compact(c, last.1), cap)
  }

  /** The j-th Set queued op, and if its version is still the stored one, so is its item. */
  ghost predicate From(c: Codec, d: Data, sets: seq<(Text, StoredItem)>, op: SyncOp, j: nat) {
    j < |sets| &&
    var (key, it) := sets[j];
    && op == SetOp(key, Compact(c, it)) && key in d && it.version <= d[key].version
    && (d[key].version == it.version ==> d[key] == Compact(c, it))
  }

  ghost predicate FromSome(c: Codec, d: Data, sets: seq<(Text, StoredItem)>, op: SyncOp) {
    exists j :: From(c, d, sets, op, j)
  }

  /** Every waiting operation is some Set's. */
  ghost predicate AllFrom(c: Codec, s: ShardState, sets: seq<(Text, StoredItem)>) {
    forall i :: 0 <= i < |s.queue| ==> FromSome(c, s.data, sets, s.queue[i])
  }

  lemma FromNext(c: Codec, d: Data, sets: seq<(Text, StoredItem)>, op: SyncOp, j: nat, last: (Text, StoredItem))
    requires From(c, d, sets, op, j)
    ensures From(c, TryStore(d, last.0, Compact(c, last.1)), sets + [last], op, j)
  {
    assert (sets + [last])[j] == sets[j];
  }

  lemma NewestFrom<T>(q: seq<T>, cap: nat, i: nat) returns (k: nat)
    requires i < |Newest(q, cap)|
    ensures k < |q| && Newest(q, cap)[i] == q[k]
  {
    k := if |q| <= cap then i else |q| - cap + i;
  }

  lemma PutFrom(c: Codec, s: ShardState, sets: seq<(Text, StoredItem)>, last: (Text, StoredItem), cap: nat)
    requires AllFrom(c, s, sets)
    ensures AllFrom(c, Put(s, last.0, Compact(c, last.1), cap), sets + [last])
  {
    var it := Compact(c, last.1);
    var r := Put(s, last.0, it, cap);
    var q := s.queue + [SetOp(last.0, it)];
    forall i | 0 <= i < |r.queue| ensures FromSome(c, r.data, sets + [last], r.queue[i]) {
      var k := i;
      if r != s {
        k := NewestFrom(q, cap, i);
      }
      if k < |s.queue| {
        assert FromSome(c, s.data, sets, s.queue[k]);
        var j :| From(c, s.data, sets, s.queue[k], j);
        FromNext(c, s.data, sets, s.queue[k], j, last);
      } else {
        assert From(c, r.data, sets + [last], r.queue[i], |sets|);
      }
    }
  }

  /** Over every run of Sets from an empty queue, however much the ring drops. */
  lemma {:induction false} SetsQueued(c: Codec, s: ShardState, sets: seq<(Text, StoredItem)>, cap: nat)
    requires s.queue == []
    ensures AllFrom(c, PutAll(c, s, sets, cap), sets)
  {
    if sets != [] {
      var p := sets[..|sets| - 1];
      SetsQueued(c, s, p, cap);
      PutFrom(c, PutAll(c, s, p, cap), p, sets[|sets| - 1], cap);
      assert p + [sets[|sets| - 1]] == sets;
    }
  }

  /** What a drain sends for the i-th waiting operation, after any run of Sets with nothing expired: the change
      of one of those Sets, with the value stored last.  That is the Set's own item exactly when no newer
      version has been stored since, or the newest has the same value; otherwise it is the value of a newer
      version under the older one. */
  lemma DrainedExactly(c: Codec, s: ShardState, sets: seq<(Text, StoredItem)>, cap: nat, clock: nat -> int64, i: nat)
      returns (j: nat)
    requires Faithful(c) && s.queue == []
    requires var r := PutAll(c, s, sets, cap); i < |r.queue| && NothingExpires(r.data, clock)
    requires forall k :: k in s.data ==> Expand(c, s.data[k]).Some?
    ensures j < |sets|
    ensures var r := PutAll(c, s, sets, cap); var (key, it) := sets[j]; var sent := Drain(c, r, clock).1;
            && key in r.data && r.data[key].version >= it.version && Expand(c, r.data[key]).Some?
            && (r.data[key] == Compact(c, it) <==> r.data[key].version == it.version)
            && i < |sent| && sent[i] == SyncOp(key, OpSet, Some(it.(value := Expand(c, r.data[key]).value.value)))
            && (sent[i].item == Some(it) <==>
                r.data[key].version == it.version || Expand(c, r.data[key]).value.value == it.value)
  {
    var r := PutAll(c, s, sets, cap);
    SetsQueued(c, s, sets, cap);
    assert FromSome(c, r.data, sets, r.queue[i]);
    j :| From(c, r.data, sets, r.queue[i], j);
    Readable(c, s, sets, cap, sets[j].0);
    CompleteCalm(c, r.(queue := []), r.queue, clock, i);
    CompactExpand(c, sets[j].1);
  }

  /** Everything stored can be read if it could be at the start. */
  lemma {:induction false} Readable(c: Codec, s: ShardState, sets: seq<(Text, StoredItem)>, cap: nat, k: Text)
    requires Faithful(c) && forall k :: k in s.data ==> Expand(c, s.data[k]).Some?
    ensures k in PutAll(c, s, sets, cap).data ==> Expand(c, PutAll(c, s, sets, cap).data[k]).Some?
  {
    if sets != [] {
      Readable(c, s, sets[..|sets| - 1], cap, k);
      CompactExpand(c, sets[|sets| - 1].1);
    }
  }

  /** The mixed case happens: after two Sets of a key, the first operation leaves with its own version and the
      second one's value. */
  lemma DrainMixesVersions(c: Codec, key: Text, v: Text, w: Text, clock: nat -> int64)
    requires Faithful(c) && v != w
    ensures var r := PutAll(c, EMPTY_SHARD, [(key, StoredItem(1, None, v)), (key, StoredItem(2, None, w))], SYNC_CAPACITY);
            var sent := Drain(c, r, clock).1;
            |sent| == 2 && sent[0] == SyncOp(key, OpSet, Some(StoredItem(1, None, w)))
  {
    var a, b := StoredItem(1, None, v), StoredItem(2, None, w);
    var s1 := Put(EMPTY_SHARD, key, Compact(c, a), SYNC_CAPACITY);
    var s2 := Put(s1, key, Compact(c, b), SYNC_CAPACITY);
    var sets := [(key, a), (key, b)];
    assert sets[..1] == [(key, a)];
    assert PutAll(c, EMPTY_SHARD, sets[..1][..0], SYNC_CAPACITY) == EMPTY_SHARD;
    assert PutAll(c, EMPTY_SHARD, sets[..1], SYNC_CAPACITY) == s1;
    assert s2.queue == [SetOp(key, Compact(c, a)), SetOp(key, Compact(c, b))];
    CompactExpand(c, b);
    CompleteCalm(c, s2.(queue := []), s2.queue, clock, 0);
  }

  // ---------------------------------------------------------------- eviction

  /** Eviction of up to n stored keys from the old end of the list: what is left, and how many keys go. */
  function Evict(s: ShardState, n: nat): (ShardState, nat)
    decreases |s.lru|
  {
    if n == 0 || s.lru == [] then (s, 0) else
      var (r, stored) := EvictOldest(s);
      if stored then
        var (t, m) := Evict(r, n - 1);
        (t, m + 1)
      else Evict(r, n)
  }

  /** The oldest entry leaves the list, and its item the data if there still is one. */
  function EvictOldest(s: ShardState): (ShardState, bool)
    requires s.lru != []
  {
    var m := |s.lru| - 1;
    var k := s.lru[m];
    if k in s.data
    then (s.(lru := s.lru[..m], data := s.data - {k}, bytes := s.bytes - ItemSize(k, s.data[k].bytes)), true)
    else (s.(lru := s.lru[..m]), false)
  }

  lemma EvictStep(s: ShardState, n: nat)
    requires n > 0 && s.lru != []
    ensures var (r, stored) := EvictOldest(s);
            |r.lru| < |s.lru| &&
            Evict(s, n) == if stored then (Evict(r, n - 1).0, Evict(r, n - 1).1 + 1) else Evict(r, n)
  {
  }

  /** t is s without the old end of its list and the stored keys in it, with the counter adjusted. */
  ghost predicate CutTo(s: ShardState, t: ShardState) {
    && t.lru <= s.lru
    && (forall k :: k in t.data <==> k in s.data && k !in s.lru[|t.lru|..])
    && (forall k :: k in t.data ==> t.data[k] == s.data[k])
    && t.queue == s.queue && Drift(t) == Drift(s)
  }

  lemma CutNothing(s: ShardState)
    ensures CutTo(s, s)
  {
    assert s.lru[|s.lru|..] == [];
  }

  lemma CutTrans(s: ShardState, t: ShardState, u: ShardState)
    requires CutTo(s, t) && CutTo(t, u)
    ensures CutTo(s, u)
  {
    hide Drift;
    assert s.lru[|u.lru|..] == t.lru[|u.lru|..] + s.lru[|t.lru|..];
  }

  lemma CutOldest(s: ShardState)
    requires NoDup(s.lru) && s.lru != []
    ensures CutTo(s, EvictOldest(s).0) && NoDup(EvictOldest(s).0.lru)
  {
    hide TotalSize;
    var m := |s.lru| - 1;
    assert s.lru[m..] == [s.lru[m]];
    if s.lru[m] in s.data {
      SizeRemove(s.data, s.lru[m]);
    }
  }

  lemma OldestOk(s: ShardState)
    requires ShardOk(s) && s.lru != []
    ensures ShardOk(EvictOldest(s).0)
  {
    hide TotalSize;
    CutOldest(s);
    CutOk(s, EvictOldest(s).0);
  }

  lemma EvictDone(s: ShardState, n: nat)
    ensures n == 0 || s.lru == [] ==> Evict(s, n) == (s, 0)
  {
  }

  lemma {:induction false} EvictCut(s: ShardState, n: nat)
    requires NoDup(s.lru)
    ensures CutTo(s, Evict(s, n).0)
    decreases |s.lru|
  {
    if n == 0 || s.lru == [] {
      CutNothing(s);
    } else {
      EvictCutStep(s, n);
    }
  }

  lemma {:induction false} EvictCutStep(s: ShardState, n: nat)
    requires NoDup(s.lru) && n > 0 && s.lru != []
    ensures CutTo(s, Evict(s, n).0)
    decreases |s.lru|, 0
  {
    hide CutTo, NoDup, EvictOldest, Evict;
    var (r, stored) := EvictOldest(s);
    EvictStep(s, n);
    CutOldest(s);
    EvictCut(r, if stored then n - 1 else n);
    CutTrans(s, r, Evict(s, n).0);
  }

  lemma {:induction false} EvictCount(s: ShardState, n: nat)
    ensures var (t, m) := Evict(s, n); m == |s.data| - |t.data| <= n && (m < n ==> t.lru == [])
    decreases |s.lru|
  {
    if n > 0 && s.lru != [] {
      var k := s.lru[|s.lru| - 1];
      var (r, stored) := EvictOldest(s);
      if stored {
        CardRemove(s.data, k);
        EvictCount(r, n - 1);
      } else {
        EvictCount(r, n);
      }
    }
  }

  lemma {:induction false} EvictNoDeeper(s: ShardState, n: nat)
    ensures var (t, m) := Evict(s, n);
            t.lru <= s.lru && (|t.lru| == |s.lru| ==> m == 0) && (|t.lru| < |s.lru| && m == n ==> n > 0 && s.lru[|t.lru|] in s.data)
    decreases |s.lru|
  {
    if n > 0 && s.lru != [] {
      var (r, stored) := EvictOldest(s);
      EvictNoDeeper(r, if stored then n - 1 else n);
    }
  }

  /** Eviction cuts the list at its old end: exactly the stored keys behind the cut go, at most n of them;
      fewer than n go only when that empties the list, and the cut is no deeper than n stored keys need. */
  lemma EvictLeastRecent(s: ShardState, n: nat)
    requires NoDup(s.lru)
    ensures var (t, m) := Evict(s, n);
            && CutTo(s, t)
            && m == |s.data| - |t.data| <= n
            && (m < n ==> t.lru == [])
            && (|t.lru| < |s.lru| && m == n ==> n > 0 && s.lru[|t.lru|] in s.data)
  {
    hide CutTo, Evict;
    EvictCut(s, n);
    EvictCount(s, n);
    EvictNoDeeper(s, n);
  }

  lemma PrefixNoDup(all: seq<Text>, l: seq<Text>)
    requires NoDup(all) && l <= all
    ensures NoDup(l)
  {
    forall i, j | 0 <= i < j < |l| ensures l[i] != l[j] {
      assert all[i] == l[i] && all[j] == l[j];
    }
  }

  /** A cut keeps a shard in order, and only an empty shard has nothing to give. */
  lemma CutOk(s: ShardState, t: ShardState)
    requires ShardOk(s) && CutTo(s, t)
    ensures ShardOk(t) && (t.lru == [] ==> t.data == map[])
  {
    hide NoDup, Drift;
    PrefixNoDup(s.lru, t.lru);
    forall k | k in t.data ensures k in t.lru {
      var i := IndexBefore(s.lru, |t.lru|, k);
      assert t.lru[i] == k;
    }
    assert t.lru == [] ==> t.data.Keys == {};
  }

  /** A batch: from the old end, and nothing goes exactly when nothing is stored. */
  lemma BatchOk(s: ShardState, n: nat)
    requires ShardOk(s) && n > 0
    ensures var (t, m) := Evict(s, n);
            ShardOk(t) && CutTo(s, t) && m <= n && (m == 0 <==> s.data == map[]) && (m == 0 ==> t.data == map[])
  {
    hide CutTo, Evict, Drift, NoDup;
    var (t, m) := Evict(s, n);
    EvictLeastRecent(s, n);
    CutOk(s, t);
    EmptyMap(s.data);
    EmptyMap(t.data);
  }

  /** How many keys a batch leaves. */
  lemma BatchCount(s: ShardState, n: nat)
    requires ShardOk(s) && n > 0
    ensures |Evict(s, n).0.data| == if |s.data| <= n then 0 else |s.data| - n
  {
    hide CutTo, Evict, Drift, NoDup;
    EvictCount(s, n);
    BatchOk(s, n);
    EmptyMap(Evict(s, n).0.data);
    Uncovered(Evict(s, n).0);
  }

  lemma Uncovered(s: ShardState)
    requires ShardOk(s)
    ensures s.lru == [] ==> s.data == map[]
  {
  }

  lemma EmptyMap(d: Data)
    ensures |d| == 0 <==> d == map[]
  {
    if |d| == 0 {
      assert d.Keys == {};
    }
  }

  /** After a cut, every key that stayed was touched more recently than every key that went. */
  lemma CutByRecency(s: ShardState, t: ShardState, at: map<Text, nat>, clock: nat, gone: Text, kept: Text)
    requires Recency(s.lru, at, clock) && CutTo(s, t)
    requires kept in s.lru && gone in s.data && gone !in t.data && kept in t.data
    ensures gone in at && kept in at && at[gone] < at[kept]
  {
    var i := IndexBehind(s.lru, |t.lru|, gone);
    var j := IndexBefore(s.lru, |t.lru|, kept);
  }

  lemma IndexBehind(all: seq<Text>, m: nat, k: Text) returns (i: nat)
    requires m <= |all| && k in all[m..]
    ensures m <= i < |all| && all[i] == k
  {
    var t :| 0 <= t < |all[m..]| && all[m..][t] == k;
    i := m + t;
  }

  lemma IndexBefore(all: seq<Text>, m: nat, k: Text) returns (i: nat)
    requires m <= |all| && k in all && k !in all[m..]
    ensures i < m && all[i] == k
  {
    assert all == all[..m] + all[m..];
    assert k in all[..m];
    i :| 0 <= i < |all[..m]| && all[..m][i] == k;
  }
}
