/** Applying received operations (internal/cluster/gossip.go): applyOps, the message framing and the answer to
    a pull, on a store of many shards. */
module Gossips {
  import opened Base
  import opened Bytes
  import opened Clocks
  import opened RingWalks
  import opened HashRings
  import opened SyncBuffers
  import opened SyncCodec
  import opened Storage
  import opened MemStorages
  import opened Convergence

  // ---------------------------------------------------------------- a batch

  /** An operation that applyOps does not skip at once: it has an item and its key belongs here. */
  predicate Applies(mine: Text -> bool, op: Option<SyncOp>) {
    op.Some? && op.value.item.Some? && mine(op.value.key)
  }

  /** One operation: skipped, or read first and skipped if the store has that version, or stored.  The answer is
      whether the batch goes on. */
  function ApplyOp(e: Env, mine: Text -> bool, s: StoreState, op: Option<SyncOp>, now: int64): (r: (StoreState, bool))
    requires s.shards != []
    ensures r.0.shards != []
  {
    if !Applies(mine, op) then (s, true) else
      var key, item := op.value.key, op.value.item.value;
      var (t, existing) := StoreGet(e, s, key, now);
      if existing.Found? && existing.item.version >= item.version then (t, true) else
        var (u, r) := StoreSet(e, t, key, Some(item));
        (u, r == Stored)
  }

  /** A batch from its i-th operation on; it ends at the first one the store refuses. */
  function ApplyBatch(e: Env, mine: Text -> bool, s: StoreState, ops: seq<Option<SyncOp>>, clock: nat -> int64, i: nat)
      : (r: (StoreState, bool))
    requires s.shards != [] && i <= |ops|
    ensures r.0.shards != []
    decreases |ops| - i
  {
    if i == |ops| then (s, true) else
      var (t, ok) := ApplyOp(e, mine, s, ops[i], clock(i));
      if !ok then (t, false) else ApplyBatch(e, mine, t, ops, clock, i + 1)
  }

  lemma ApplyOpOk(e: Env, mine: Text -> bool, s: StoreState, op: Option<SyncOp>, now: int64)
    requires StoreOk(e, s)
    ensures StoreOk(e, ApplyOp(e, mine, s, op, now).0)
  {
    hide StoreOk, StoreGet, StoreSet;
    NonEmpty(e, s);
    if Applies(mine, op) {
      var key, item := op.value.key, op.value.item.value;
      GetOk(e, s, key, now);
      NonEmpty(e, StoreGet(e, s, key, now).0);
      SetOk(e, StoreGet(e, s, key, now).0, key, Some(item));
    }
  }

  lemma {:induction false} ApplyBatchOk(
      e: Env, mine: Text -> bool, s: StoreState, ops: seq<Option<SyncOp>>, clock: nat -> int64, i: nat)
    requires StoreOk(e, s) && i <= |ops|
    ensures s.shards != [] && StoreOk(e, ApplyBatch(e, mine, s, ops, clock, i).0)
    decreases |ops| - i
  {
    hide StoreOk, ApplyOp;
    NonEmpty(e, s);
    if i < |ops| {
      ApplyOpOk(e, mine, s, ops[i], clock(i));
      ApplyBatchOk(e, mine, ApplyOp(e, mine, s, ops[i], clock(i)).0, ops, clock, i + 1);
    }
  }

  // ---------------------------------------------------------------- batches as writes

  /** An operation that applies but has an empty key, which the store refuses. */
  predicate Refused(mine: Text -> bool, op: Option<SyncOp>) {
    Applies(mine, op) && op.value.key == []
  }

  function WriteOf(c: Codec, op: SyncOp): Write
    requires op.item.Some?
  {
    Write(op.key, Compact(c, op.item.value))
  }

  /** The writes a batch amounts to from its i-th operation on: those before the first refused one. */
  function Accepted(c: Codec, mine: Text -> bool, ops: seq<Option<SyncOp>>, i: nat): seq<Write>
    requires i <= |ops|
    decreases |ops| - i
  {
    if i == |ops| || Refused(mine, ops[i]) then []
    else (if Applies(mine, ops[i]) then [WriteOf(c, ops[i].value)] else []) + Accepted(c, mine, ops, i + 1)
  }

  ghost predicate NoneRefused(mine: Text -> bool, ops: seq<Option<SyncOp>>, i: nat) {
    forall j :: i <= j < |ops| ==> !Refused(mine, ops[j])
  }

  /** The item, if any, is not expired at any reading of the clock. */
  ghost predicate Lasts(x: Option<CompItem>, clock: nat -> int64) {
    forall t :: x.Some? ==> !Expired(x.value, clock(t))
  }

  /** A read leaves what is held for a key that is not expired, and the counter. */
  lemma ReadKeeps(e: Env, s: StoreState, x: Text, now: int64, k: Text)
    requires s.shards != [] && (x == k && Holds(e, s, k).Some? ==> !Expired(Holds(e, s, k).value, now))
    ensures var t := StoreGet(e, s, x, now).0;
            |t.shards| == |s.shards| && t.total == s.total && Holds(e, t, k) == Holds(e, s, k)
  {
    hide Touched, Expired, Without, Home;
    if x != [] {
      ReadCounter(s.shards[Home(e, |s.shards|, x)], x, now);
    }
  }

  /** A write with room is last write wins on its key and leaves the other keys. */
  lemma WriteLands(e: Env, s: StoreState, x: Text, item: StoredItem, k: Text)
    requires s.shards != [] && x != [] && Fits(e.limits, s.total, ItemSize(x, Compact(e.codec, item).bytes))
    ensures var (t, r) := StoreSet(e, s, x, Some(item)); var it := Compact(e.codec, item);
            && r == Stored && |t.shards| == |s.shards|
            && Holds(e, t, k) == if x == k then Beaten(Holds(e, s, k), it) else Holds(e, s, k)
  {
    hide Touched, Newest, Compact, Home, EvictNext;
  }

  /** Last write wins on one key. */
  function Beaten(x: Option<CompItem>, it: CompItem): Option<CompItem> {
    if x.Some? && it.version <= x.value.version then x else Some(it)
  }

  /** The read finds the operation's version or a newer one, so that it is skipped. */
  predicate Skips(e: Env, s: StoreState, op: SyncOp, now: int64)
    requires s.shards != [] && op.item.Some?
  {
    var found := StoreGet(e, s, op.key, now).1;
    found.Found? && found.item.version >= op.item.value.version
  }

  /** The operation does not find k expired, and if it is not skipped its item fits. */
  predicate CalmOp(e: Env, mine: Text -> bool, s: StoreState, op: Option<SyncOp>, now: int64, k: Text)
    requires s.shards != []
  {
    Applies(mine, op) ==>
      && (op.value.key == k && Holds(e, s, k).Some? ==> !Expired(Holds(e, s, k).value, now))
      && (Skips(e, s, op.value, now) ||
          Fits(e.limits, s.total, ItemSize(op.value.key, Compact(e.codec, op.value.item.value).bytes)))
  }

  /** One operation of a batch, seen from one key. */
  lemma OpOnKey(e: Env, mine: Text -> bool, s: StoreState, op: Option<SyncOp>, now: int64, k: Text)
    requires s.shards != [] && Applies(mine, op) && op.value.key != [] && CalmOp(e, mine, s, op, now, k)
    ensures var (t, ok) := ApplyOp(e, mine, s, op, now); var w := WriteOf(e.codec, op.value);
            ok && Holds(e, t, k) == if w.key == k then Beaten(Holds(e, s, k), w.it) else Holds(e, s, k)
  {
    hide StoreSet, StoreGet, Holds, Expired, ItemSize, Fits;
    var key, item := op.value.key, op.value.item.value;
    ReadKeeps(e, s, key, now, k);
    FoundIsHeld(e, s, key, now);
    CompactKeeps(e.codec, item);
    if !Skips(e, s, op.value, now) {
      WriteLands(e, StoreGet(e, s, key, now).0, key, item, k);
    }
  }

  lemma FoundIsHeld(e: Env, s: StoreState, key: Text, now: int64)
    requires s.shards != []
    ensures var g := StoreGet(e, s, key, now).1;
            g.Found? ==> Holds(e, s, key).Some? && Holds(e, s, key).value.version == g.item.version
  {
  }

  lemma ApplyCons(d: Data, w: Write, ws: seq<Write>)
    ensures ApplyAll(d, [w] + ws) == ApplyAll(TryStore(d, w.key, w.it), ws)
  {
    ApplyConcat(d, [w], ws);
    assert [w][..0] == [] && ApplyAll(d, []) == d;
  }

  /** The map that holds at most one key. */
  function Only(k: Text, x: Option<CompItem>): Data {
    if x.Some? then map[k := x.value] else map[]
  }

  /** Last write wins seen from one key depends on nothing but what is held for that key. */
  lemma {:induction false} OneKey(d1: Data, d2: Data, ws: seq<Write>, k: Text)
    requires Find(d1, k) == Find(d2, k)
    ensures Find(ApplyAll(d1, ws), k) == Find(ApplyAll(d2, ws), k)
  {
    if ws != [] {
      OneKey(d1, d2, ws[..|ws| - 1], k);
    }
  }

  /** The item of k after writes, from what was held for it. */
  function Wrote(x: Option<CompItem>, ws: seq<Write>, k: Text): Option<CompItem> {
    Find(ApplyAll(Only(k, x), ws), k)
  }

  lemma WroteCons(x: Option<CompItem>, w: Write, ws: seq<Write>, k: Text)
    ensures Wrote(x, [w] + ws, k) == Wrote(if w.key == k then Beaten(x, w.it) else x, ws, k)
  {
    ApplyCons(Only(k, x), w, ws);
    OneKey(TryStore(Only(k, x), w.key, w.it), Only(k, if w.key == k then Beaten(x, w.it) else x), ws, k);
  }

  lemma WroteConcat(x: Option<CompItem>, a: seq<Write>, b: seq<Write>, k: Text)
    ensures Wrote(x, a + b, k) == Wrote(Wrote(x, a, k), b, k)
  {
    ApplyConcat(Only(k, x), a, b);
    OneKey(ApplyAll(Only(k, x), a), Only(k, Wrote(x, a, k)), b, k);
  }

  /** No operation of the batch, from the i-th to the first refused one, meets a full store or finds k expired. */
  ghost predicate CalmBatch(
      e: Env, mine: Text -> bool, s: StoreState, ops: seq<Option<SyncOp>>, clock: nat -> int64, i: nat, k: Text)
    requires s.shards != [] && i <= |ops|
    decreases |ops| - i
  {
    || i == |ops|
    || Refused(mine, ops[i])
    || (CalmOp(e, mine, s, ops[i], clock(i), k) &&
        CalmBatch(e, mine, ApplyOp(e, mine, s, ops[i], clock(i)).0, ops, clock, i + 1, k))
  }

  /** As long as no write meets a full store and k is not found expired, a batch is last write wins on k by the writes
      before the first refused operation, and it ends early exactly at a refused one. */
  lemma {:induction false} BatchOnKey(
      e: Env, mine: Text -> bool, s: StoreState, ops: seq<Option<SyncOp>>, clock: nat -> int64, i: nat, k: Text)
    requires s.shards != [] && i <= |ops| && CalmBatch(e, mine, s, ops, clock, i, k)
    ensures var (t, ok) := ApplyBatch(e, mine, s, ops, clock, i); var ws := Accepted(e.codec, mine, ops, i);
            Holds(e, t, k) == Wrote(Holds(e, s, k), ws, k) && (ok <==> NoneRefused(mine, ops, i))
    decreases |ops| - i
  {
    if i == |ops| || Refused(mine, ops[i]) {
      BatchEnds(e, mine, s, ops, clock, i, k);
    } else {
      BatchGoesOn(e, mine, s, ops, clock, i, k);
    }
  }

  lemma BatchEnds(
      e: Env, mine: Text -> bool, s: StoreState, ops: seq<Option<SyncOp>>, clock: nat -> int64, i: nat, k: Text)
    requires s.shards != [] && i <= |ops| && (i == |ops| || Refused(mine, ops[i]))
    ensures ApplyBatch(e, mine, s, ops, clock, i) == (s, i == |ops|) && Accepted(e.codec, mine, ops, i) == []
    ensures NoneRefused(mine, ops, i) <==> i == |ops|
    ensures Wrote(Holds(e, s, k), [], k) == Holds(e, s, k)
  {
    hide Holds;
  }

  lemma {:induction false} BatchGoesOn(
      e: Env, mine: Text -> bool, s: StoreState, ops: seq<Option<SyncOp>>, clock: nat -> int64, i: nat, k: Text)
    requires s.shards != [] && i < |ops| && !Refused(mine, ops[i]) && CalmBatch(e, mine, s, ops, clock, i, k)
    ensures var (t, ok) := ApplyBatch(e, mine, s, ops, clock, i); var ws := Accepted(e.codec, mine, ops, i);
            Holds(e, t, k) == Wrote(Holds(e, s, k), ws, k) && (ok <==> NoneRefused(mine, ops, i))
    decreases |ops| - i, 0
  {
    hide ApplyOp, CalmOp, Holds, Wrote, Beaten, WriteOf;
    var rest := Accepted(e.codec, mine, ops, i + 1);
    BatchOnKey(e, mine, ApplyOp(e, mine, s, ops[i], clock(i)).0, ops, clock, i + 1, k);
    if Applies(mine, ops[i]) {
      var w := WriteOf(e.codec, ops[i].value);
      assert Accepted(e.codec, mine, ops, i) == [w] + rest;
      WriteIs(e.codec, ops[i].value);
      OpOnKey(e, mine, s, ops[i], clock(i), k);
      WroteCons(Holds(e, s, k), w, rest, k);
    } else {
      assert Accepted(e.codec, mine, ops, i) == [] + rest == rest;
      SkippedOp(e, mine, s, ops[i], clock(i));
    }
  }

  lemma WriteIs(c: Codec, op: SyncOp)
    requires op.item.Some?
    ensures WriteOf(c, op).key == op.key && WriteOf(c, op).it == Compact(c, op.item.value)
  {
  }

  lemma SkippedOp(e: Env, mine: Text -> bool, s: StoreState, op: Option<SyncOp>, now: int64)
    requires s.shards != [] && !Applies(mine, op)
    ensures ApplyOp(e, mine, s, op, now) == (s, true)
  {
  }

  /** The keys a node replicates, by the ring's layout. */
  function Replicates(data: seq<VNode>, config: Config, id: Text, n: nat): Text -> bool {
    k => id in Take(Prefs(data, config.hash(k)), n)
  }

  /** The nodes of the ring that replicate a key. */
  ghost function ReplicaSet(data: seq<VNode>, config: Config, ids: set<Text>, n: nat, k: Text): set<Text> {
    set id | id in ids && Replicates(data, config, id, n)(k)
  }

  /** Who replicates a key, on any ring: exactly min(n, node count) of its nodes, none of the others nearer to the key
      than any of them; so every node does when n reaches the node count. */
  lemma ReplicasExactly(r: HashRing, n: nat, k: Text)
    requires r.Valid()
    ensures var reps, h := ReplicaSet(r.data, r.config, r.Nodes(), n, k), r.config.hash(k);
            && |reps| == (if n < |r.Nodes()| then n else |r.Nodes()|)
            && (forall a, b :: a in reps && b in r.Nodes() && b !in reps ==> Distance(r.config, a, h) <= Distance(r.config, b, h))
            && (n >= |r.Nodes()| ==> reps == r.Nodes())
    ensures forall id :: Replicates(r.data, r.config, id, n)(k) ==> id in r.Nodes()
  {
    hide Prefs, BuiltFrom, Distance;
    var h := r.config.hash(k);
    var full := Prefs(r.data, h);
    r.GetNMeaning(k, n, n);
    FirstAreNearest(r.config, r.Nodes(), h, full, n);
    assert ReplicaSet(r.data, r.config, r.Nodes(), n, k) == Elems(Take(full, n));
    if n >= |r.Nodes()| {
      ByDistanceCount(r.config, r.Nodes(), h, full);
    }
  }

  lemma FirstAreNearest(c: Config, ids: set<Text>, h: uint64, full: seq<Text>, n: nat)
    requires c.vnodes > 0 && ByDistance(c, ids, h, full)
    ensures var first := Take(full, n);
            && |Elems(first)| == |first| && Elems(first) <= ids && (|first| == |full| ==> Elems(first) == ids)
            && forall a, b :: a in Elems(first) && b in ids && b !in Elems(first) ==> Distance(c, a, h) <= Distance(c, b, h)
  {
    hide Distance;
    var first := Take(full, n);
    assert NoDup(first) by {
      forall i, j | 0 <= i < j < |first| ensures first[i] != first[j] {
        assert full[i] == first[i] && full[j] == first[j];
      }
    }
    NoDupCard(first);
    forall a | a in Elems(first) ensures a in ids {
      assert a in full;
    }
    assert forall i :: 0 <= i < |first| ==> full[i] == first[i] && full[i] in Elems(first);
    forall a, b | a in Elems(first) && b in ids && b !in Elems(first) ensures Distance(c, a, h) <= Distance(c, b, h) {
      var i :| 0 <= i < |first| && first[i] == a;
      var j :| 0 <= j < |full| && full[j] == b;
      assert full[i] == a;
    }
  }

  /** A pushed batch changes nothing on a node that replicates none of its keys. */
  lemma OthersKeysIgnored(e: Env, s: StoreState, r: HashRing, id: Text, n: nat, m: Delivery)
    requires r.Valid() && s.shards != [] && m.mine == Replicates(r.data, r.config, id, n) && IsPush(m.data)
    requires forall i :: 0 <= i < |MessageOps(m.data)| && MessageOps(m.data)[i].Some? ==>
                           id !in ReplicaSet(r.data, r.config, r.Nodes(), n, MessageOps(m.data)[i].value.key)
    ensures HandleDelivery(e, s, m) == (s, true, None)
  {
    hide MessageOps, Replicates;
    var ops := MessageOps(m.data);
    forall i | 0 <= i < |ops| ensures !Applies(m.mine, ops[i]) {
      if ops[i].Some? {
        ReplicasExactly(r, n, ops[i].value.key);
      }
    }
    NothingApplies(e, m.mine, s, ops, m.clock, 0);
    assert PULL[2] != PUSH[2];
  }

  lemma {:induction false} NothingApplies(
      e: Env, mine: Text -> bool, s: StoreState, ops: seq<Option<SyncOp>>, clock: nat -> int64, i: nat)
    requires s.shards != [] && i <= |ops| && forall j :: 0 <= j < |ops| ==> !Applies(mine, ops[j])
    ensures ApplyBatch(e, mine, s, ops, clock, i) == (s, true)
    decreases |ops| - i
  {
    if i < |ops| {
      NothingApplies(e, mine, s, ops, clock, i + 1);
    }
  }

  /** The replica cache of a batch says what the ring says. */
  ghost predicate CacheOk(cache: map<Text, bool>, mine: Text -> bool) {
    forall k :: k in cache ==> cache[k] == mine(k)
  }

  // ---------------------------------------------------------------- messages

  const PUSH: Text := [80, 85, 83, 72, 58]
  const PULL: Text := [80, 85, 76, 76, 58]

  /** The operations a message carries: after "PUSH:", or after "PULL:", a node ID and a colon. */
  function MessageOps(data: Text): seq<Option<SyncOp>> {
    if |data| < 5 then []
    else if data[..5] == PUSH then Decode(data[5..])
    else if data[..5] == PULL then
      var payload := data[5..];
      var idx := Colon(payload);
      if idx < |payload| then Decode(payload[idx + 1..]) else []
    else []
  }

  /** Who asks, in a pull: everything up to the colon. */
  function Asker(data: Text): Text
    requires |data| >= 5
  {
    data[5..][..Colon(data[5..])]
  }

  /** A pull from a node whose ID has no colon asks on behalf of that node. */
  lemma AskerIsSender(id: Text, body: Text)
    requires COLON !in id
    ensures var data := PULL + (id + [COLON] + body); |data| >= 5 && Asker(data) == id && IsPull(data) && !IsPush(data)
  {
    Split(PULL, id + [COLON] + body);
    ColonAt(id, body);
    assert PULL[2] != PUSH[2];
  }

  /** A pushed batch arrives as the operations that have an item. */
  lemma PushCarries(ops: seq<SyncOp>)
    requires AllFit(ops) && |ops| < TWO32
    ensures MessageOps(PUSH + Encode(ops)) == Expected(ops)
  {
    Split(PUSH, Encode(ops));
    RoundTrip(ops);
  }

  /** So does a pulled one, from a node whose ID has no colon. */
  lemma PullCarries(id: Text, ops: seq<SyncOp>)
    requires COLON !in id && AllFit(ops) && |ops| < TWO32
    ensures MessageOps(PULL + (id + [COLON] + Encode(ops))) == Expected(ops)
  {
    Split(PULL, id + [COLON] + Encode(ops));
    ColonAt(id, Encode(ops));
    RoundTrip(ops);
  }

  /** A message as it arrives: its bytes, the keys the receiver replicates at that time, the clock at each read
      of the batch and of a drain that may follow, and the nodes whose address is known. */
  datatype Delivery = Delivery(
    data: Text, mine: Text -> bool, clock: nat -> int64, drainClock: nat -> nat -> int64, known: Text -> bool)

  predicate IsPull(data: Text) {
    |data| >= 5 && data[..5] == PULL
  }

  predicate IsPush(data: Text) {
    |data| >= 5 && data[..5] == PUSH
  }

  /** A message and the node it is sent to. */
  datatype Answer = Answer(to: Text, data: Text)

  /** What a drain for a pull sends back: nothing if nothing was waiting, or the asker's address is unknown. */
  function Reply(m: Delivery, sent: seq<SyncOp>): Option<Answer> {
    if |m.data| < 5 || sent == [] || !m.known(Asker(m.data)) then None
    else Some(Answer(Asker(m.data), PUSH + Encode(sent)))
  }

  /** The store after the batch a message carries. */
  function Applied(e: Env, s: StoreState, m: Delivery): (r: (StoreState, bool))
    requires s.shards != []
    ensures r.0.shards != []
  {
    ApplyBatch(e, m.mine, s, MessageOps(m.data), m.clock, 0)
  }

  /** Handling a message: the store afterwards, whether it succeeds, and the answer. */
  ghost function HandleDelivery(e: Env, s: StoreState, m: Delivery): (r: (StoreState, bool, Option<Answer>))
    requires s.shards != []
    ensures r.0.shards != []
  {
    var (t, ok) := Applied(e, s, m);
    if !IsPull(m.data) then (t, !IsPush(m.data) || ok, None)
    else (Swept(e, t, Draining(m.drainClock), |t.shards|), true, Reply(m, Drained(e, t.shards, m.drainClock, |t.shards|)))
  }

  lemma ReceiveOk(e: Env, s: StoreState, m: Delivery)
    requires StoreOk(e, s)
    ensures s.shards != [] && StoreOk(e, HandleDelivery(e, s, m).0)
  {
    hide StoreOk, ApplyBatch, Swept;
    ApplyBatchOk(e, m.mine, s, MessageOps(m.data), m.clock, 0);
    var t := Applied(e, s, m).0;
    SweptOk(e, t, Draining(m.drainClock), |t.shards|);
  }

  /** A pull from a node whose address is not known empties every queue and sends nothing: what was waiting is
      not sent by anyone. */
  lemma PullLosesOps(e: Env, s: StoreState, m: Delivery, h: nat)
    requires StoreOk(e, s) && IsPull(m.data) && !m.known(Asker(m.data)) && h < |s.shards|
    ensures var (t, ok, reply) := HandleDelivery(e, s, m); reply == None && ok && |t.shards| == |s.shards| && t.shards[h].queue == []
  {
    var t := Applied(e, s, m).0;
    ApplyBatchOk(e, m.mine, s, MessageOps(m.data), m.clock, 0);
    BatchShape(e, m.mine, s, MessageOps(m.data), m.clock, 0);
    ShardAt(e, t, h);
    SweptAt(e, t, Draining(m.drainClock), |t.shards|, h);
    DrainedRingOk(t.shards[h]);
    CompleteOk(e.codec, t.shards[h].(queue := []), t.shards[h].queue, m.drainClock(h));
  }

  lemma {:induction false} BatchShape(
      e: Env, mine: Text -> bool, s: StoreState, ops: seq<Option<SyncOp>>, clock: nat -> int64, i: nat)
    requires s.shards != [] && i <= |ops|
    ensures |ApplyBatch(e, mine, s, ops, clock, i).0.shards| == |s.shards|
    decreases |ops| - i
  {
    if i < |ops| {
      BatchShape(e, mine, ApplyOp(e, mine, s, ops[i], clock(i)).0, ops, clock, i + 1);
    }
  }

  lemma ShardAt(e: Env, s: StoreState, i: nat)
    requires StoreOk(e, s) && i < |s.shards|
    ensures ShardOk(s.shards[i])
  {
  }

  /** What the drain for a pull takes out of the store. */
  function TakenOut(e: Env, s: StoreState, m: Delivery): seq<SyncOp>
    requires s.shards != []
  {
    var t := Applied(e, s, m).0;
    Drained(e, t.shards, m.drainClock, |t.shards|)
  }

  lemma {:induction false} WithItemExactly(ops: seq<SyncOp>, op: SyncOp)
    ensures op in WithItem(ops) <==> op in ops && op.item.Some?
  {
    if ops != [] {
      WithItemExactly(ops[1..], op);
      assert ops == [ops[0]] + ops[1..];
    }
  }

  lemma ExpectedExactly(ops: seq<SyncOp>, op: SyncOp)
    ensures Some(op) in Expected(ops) <==> op in ops && op.item.Some?
  {
    WithItemExactly(ops, op);
    var w := WithItem(ops);
    assert Some(op) in Expected(ops) <==> op in w by {
      if op in w {
        var i :| 0 <= i < |w| && w[i] == op;
        assert Expected(ops)[i] == Some(op);
      }
    }
  }

  /** Exactly which operations that a pull takes out of the store reach anyone: those with an item, if the asker's
      address is known.  So a waiting physical delete, which has no item, is taken out and reaches nobody. */
  lemma PullDeliversExactly(e: Env, s: StoreState, m: Delivery, op: SyncOp)
    requires StoreOk(e, s) && IsPull(m.data)
    requires var sent := TakenOut(e, s, m); AllFit(sent) && |sent| < TWO32 && op in sent
    ensures var reply := HandleDelivery(e, s, m).2;
            reply.Some? && Some(op) in MessageOps(reply.value.data) <==> m.known(Asker(m.data)) && op.item.Some?
  {
    hide StoreOk, Applied, Drained, Swept, MessageOps, Encode, Expected;
    NonEmpty(e, s);
    var sent := TakenOut(e, s, m);
    PushCarries(sent);
    ExpectedExactly(sent, op);
  }

  /** So for a pull as it is sent, from a node whose ID has no colon: what was waiting goes to that node and no other. */
  lemma PullAnswersSender(e: Env, s: StoreState, m: Delivery, id: Text, body: Text, op: SyncOp)
    requires StoreOk(e, s) && COLON !in id && m.data == PULL + (id + [COLON] + body)
    requires var sent := TakenOut(e, s, m); AllFit(sent) && |sent| < TWO32 && op in sent
    ensures var reply := HandleDelivery(e, s, m).2;
            && (reply.Some? ==> reply.value.to == id)
            && (reply.Some? && Some(op) in MessageOps(reply.value.data) <==> m.known(id) && op.item.Some?)
  {
    hide StoreOk, Applied, Drained, Swept, MessageOps, Encode, Expected, Asker;
    AskerIsSender(id, body);
    PullDeliversExactly(e, s, m, op);
  }

  function WritesOf(c: Codec, m: Delivery): seq<Write> {
    Accepted(c, m.mine, MessageOps(m.data), 0)
  }

  // ---------------------------------------------------------------- a node

  class Gossip {
    const nodeID: Text
    const store: MemStorage
    const ring: HashRing
    const replicaCount: nat

    /** The ring and the store are in order, and the replica count is as the constructor sets it. */
    ghost predicate Valid()
      reads ring, store, store.repr
    {
      store.Valid() && ring.Valid() && replicaCount > 0 && ring !in store.repr
    }

    constructor (nodeID: Text, store: MemStorage, ring: HashRing, replicaCount: int)
      ensures this.nodeID == nodeID && this.store == store && this.ring == ring
      ensures this.replicaCount == if replicaCount <= 0 then 3 else replicaCount
    {
      this.nodeID, this.store, this.ring := nodeID, store, ring;
      this.replicaCount := if replicaCount <= 0 then 3 else replicaCount;
    }

    /** The keys this node is among the replicas of. */
    ghost function Mine(): Text -> bool
      reads ring
    {
      Replicates(ring.data, ring.config, nodeID, replicaCount)
    }

    /** The replica test with its per-batch cache. */
    method IsReplica(key: Text, cache: map<Text, bool>, ghost mine: Text -> bool) returns (b: bool, cache': map<Text, bool>)
      requires ring.Valid() && replicaCount > 0 && mine == Mine()
      requires CacheOk(cache, mine)
      ensures b == mine(key)
      ensures CacheOk(cache', mine)
    {
      hide Prefs, Take, BuiltFrom;
      if key in cache {
        return cache[key], cache;
      }
      var targets := ring.GetN(key, replicaCount);
      b := nodeID in targets;
      cache' := cache[key := b];
    }

    /** The i-th operation of a batch. */
    method ApplyAt(op: Option<SyncOp>, now: int64, cache: map<Text, bool>, ghost mine: Text -> bool)
      returns (ok: bool, cache': map<Text, bool>)
      requires Valid() && mine == Mine() && CacheOk(cache, mine)
      modifies store, store.repr
      ensures Valid() && CacheOk(cache', mine)
      ensures ApplyOp(store.env, mine, old(store.State()), op, now) == (store.State(), ok)
    {
      hide BuiltFrom, StoreOk, CacheOk, Replicates, StoreGet, StoreSet;
      ok, cache' := true, cache;
      if op.Some? && op.value.item.Some? {
        var b;
        b, cache' := IsReplica(op.value.key, cache, mine);
        if b {
          var existing := store.Get(op.value.key, now);
          if !(existing.Found? && existing.item.version >= op.value.item.value.version) {
            var r := store.Set(op.value.key, op.value.item);
            ok := r == Stored;
          }
        }
      }
    }

    /** Applies a batch. */
    method ApplyOps(ops: seq<Option<SyncOp>>, clock: nat -> int64, ghost mine: Text -> bool) returns (ok: bool)
      requires Valid() && mine == Mine()
      modifies store, store.repr
      ensures Valid() && ApplyBatch(store.env, mine, old(store.State()), ops, clock, 0) == (store.State(), ok)
    {
      hide ApplyOp, Replicates, StoreOk, BuiltFrom;
      var cache: map<Text, bool> := map[];
      var i := 0;
      ok := true;
      ghost var whole := ApplyBatch(store.env, mine, store.State(), ops, clock, 0);
      while i < |ops|
        invariant 0 <= i <= |ops| && Valid() && mine == Mine() && CacheOk(cache, mine) && ok
        invariant whole == ApplyBatch(store.env, mine, store.State(), ops, clock, i)
      {
        ok, cache := ApplyAt(ops[i], clock(i), cache, mine);
        if !ok {
          return;
        }
        i := i + 1;
      }
    }

    /** A received message.  m.data is the message; its other parts say what the node and its clock do then. */
    method HandleMessage(m: Delivery) returns (ok: bool, reply: Option<Answer>)
      requires Valid() && m.mine == Mine()
      modifies store, store.repr
      ensures Valid() && HandleDelivery(store.env, old(store.State()), m) == (store.State(), ok, reply)
    {
      hide ApplyBatch, Decode, StoreOk, Drained, Swept, Replicates, BuiltFrom, Encode;
      ok, reply := true, None;
      var data := m.data;
      var isPush := |data| >= 5 && data[..5] == PUSH;
      var isPull := |data| >= 5 && data[..5] == PULL;
      if isPush {
        var ops := Deserialize(data[5..]);
        ok := ApplyOps(ops, m.clock, m.mine);
      } else if isPull {
        var payload := data[5..];
        var idx := FindColon(payload);
        var ops: seq<Option<SyncOp>> := [];
        if idx < |payload| {
          ops := Deserialize(payload[idx + 1..]);
        }
        var _ := ApplyOps(ops, m.clock, m.mine);
        var sent := store.GetSyncBuffer(m.drainClock);
        if sent != [] && m.known(payload[..idx]) {
          var body := Serialize(sent);
          reply := Some(Answer(payload[..idx], PUSH + body));
        }
      } else {
        EmptyBatch(store.env, m.mine, store.State(), m.clock);
      }
    }
  }

  lemma EmptyBatch(e: Env, mine: Text -> bool, s: StoreState, clock: nat -> int64)
    requires s.shards != []
    ensures ApplyBatch(e, mine, s, [], clock, 0) == (s, true)
  {
  }
}
