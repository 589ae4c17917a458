/** Replication over whole runs: what a node holds for a key after any messages and any operations of its own, and
    when two nodes agree (internal/cluster/gossip.go, internal/cluster/writer.go). */
module Replication {
  import opened Base
  import opened RingWalks
  import opened HashRings
  import opened SyncBuffers
  import opened SyncCodec
  import opened Storage
  import opened MemStorages
  import opened Convergence
  import opened Gossips

  /** What happens to a node's store: a message arrives, or the node itself operates on it - a client's write or
      read, a drain, the cleaner. */
  datatype Input = Deliver(m: Delivery) | Local(op: StoreOp)

  ghost function Next(e: Env, s: StoreState, x: Input): (t: StoreState)
    requires s.shards != []
    ensures t.shards != []
  {
    match x
    case Deliver(m) => HandleDelivery(e, s, m).0
    case Local(op) =>
      StepShape(e, s, op);
      Step(e, s, op)
  }

  ghost function After(e: Env, s: StoreState, xs: seq<Input>): (t: StoreState)
    requires s.shards != []
    ensures t.shards != []
  {
    if xs == [] then s else Next(e, After(e, s, xs[..|xs| - 1]), xs[|xs| - 1])
  }

  /** The writes of an input: those of a message that take effect, or the node's own. */
  function InputWrites(c: Codec, x: Input): seq<Write> {
    match x
    case Deliver(m) => WritesOf(c, m)
    case Local(SetOf(key, item)) => if key != [] && item.Some? then [Write(key, Compact(c, item.value))] else []
    case Local(_) => []
  }

  function AllWrites(c: Codec, xs: seq<Input>): seq<Write> {
    if xs == [] then [] else AllWrites(c, xs[..|xs| - 1]) + InputWrites(c, xs[|xs| - 1])
  }

  // ---------------------------------------------------------------- calm runs

  /** The item held for k, if any, is not expired at this time. */
  predicate Fresh(e: Env, s: StoreState, k: Text, now: int64)
    requires s.shards != []
  {
    Holds(e, s, k).Some? ==> !Expired(Holds(e, s, k).value, now)
  }

  /** One of the node's own operations does not meet a full store, does not find k expired and does not remove it. */
  ghost predicate CalmLocal(e: Env, s: StoreState, op: StoreOp, k: Text)
    requires s.shards != []
  {
    match op
    case SetOf(key, item) =>
      key != [] && item.Some? ==> Fits(e.limits, s.total, ItemSize(key, Compact(e.codec, item.value).bytes))
    case GetOf(key, now) => key == k ==> Fresh(e, s, k, now)
    case DeleteOf(key, _) => key != k
    case EvictionPass => s.total <= e.limits.threshold
    case SweepOf(Cleaning(now)) => Fresh(e, s, k, now)
    case SweepOf(Listed(now)) => Fresh(e, s, k, now)
    case SweepOf(Draining(clock)) => forall i :: Lasts(Holds(e, s, k), clock(i))
    case SweepOf(Clearing) => false
  }

  ghost predicate CalmInput(e: Env, s: StoreState, x: Input, k: Text)
    requires s.shards != []
  {
    match x
    case Deliver(m) =>
      && CalmBatch(e, m.mine, s, MessageOps(m.data), m.clock, 0, k)
      && (IsPull(m.data) ==> forall i :: Lasts(Holds(e, Applied(e, s, m).0, k), m.drainClock(i)))
    case Local(op) => CalmLocal(e, s, op, k)
  }

  /** Throughout the run no write meets a full store, and k is not found expired and not removed. */
  ghost predicate Calm(e: Env, s: StoreState, xs: seq<Input>, k: Text)
    requires s.shards != []
  {
    xs == [] || (Calm(e, s, xs[..|xs| - 1], k) && CalmInput(e, After(e, s, xs[..|xs| - 1]), xs[|xs| - 1], k))
  }

  // ---------------------------------------------------------------- a run, seen from one key

  lemma WroteNone(x: Option<CompItem>, k: Text)
    ensures Wrote(x, [], k) == x
  {
  }

  lemma WroteOne(x: Option<CompItem>, w: Write, k: Text)
    ensures Wrote(x, [w], k) == if w.key == k then Beaten(x, w.it) else x
  {
    hide Wrote;
    assert [w] + [] == [w];
    WroteCons(x, w, [], k);
    WroteNone(x, k);
    WroteNone(Beaten(x, w.it), k);
  }

  lemma DeleteLeaves(e: Env, s: StoreState, x: Text, version: int64, k: Text)
    requires StoreOk(e, s) && x != k
    ensures Holds(e, StoreDelete(e, s, x, version).0, k) == Holds(e, s, k)
  {
    hide ShardOk, Delete, Home;
    if x != [] {
      DeleteOk(s.shards[Home(e, |s.shards|, x)], x, version, e.cap);
    }
  }

  /** A sweep other than a reset leaves what is held for a key that it does not find expired. */
  lemma SweepLeaves(e: Env, s: StoreState, w: Sweep, k: Text)
    requires StoreOk(e, s) && CalmLocal(e, s, SweepOf(w), k)
    ensures Holds(e, Swept(e, s, w, |s.shards|), k) == Holds(e, s, k)
  {
    hide Swept, Complete, Home, Cleaned, Expired;
    var h := Home(e, |s.shards|, k);
    SweptAt(e, s, w, |s.shards|, h);
    match w
    case Cleaning(now) => CleanedFinds(s.shards[h], now, k);
    case Listed(now) => CleanedFinds(s.shards[h], now, k);
    case Draining(clock) =>
      assert Lasts(Holds(e, s, k), clock(h));
      CompleteKeeps(e.codec, s.shards[h].(queue := []), s.shards[h].queue, clock(h), k);
    case Clearing =>
  }

  lemma CleanedFinds(s: ShardState, now: int64, k: Text)
    requires k in s.data ==> !Expired(s.data[k], now)
    ensures Find(Cleaned(s, now).data, k) == Find(s.data, k) && Find(Listing(s, now).data, k) == Find(s.data, k)
  {
  }

  /** One of the node's own operations, seen from one key. */
  lemma LocalOnKey(e: Env, s: StoreState, op: StoreOp, k: Text)
    requires StoreOk(e, s) && CalmLocal(e, s, op, k)
    ensures Holds(e, Next(e, s, Local(op)), k) == Wrote(Holds(e, s, k), InputWrites(e.codec, Local(op)), k)
  {
    hide StoreOk, StoreSet, StoreGet, StoreDelete, Swept, Holds, Wrote, Fits, ItemSize, Pass;
    NonEmpty(e, s);
    WroteNone(Holds(e, s, k), k);
    match op
    case SetOf(key, item) =>
      if key != [] && item.Some? {
        WriteLands(e, s, key, item.value, k);
        WroteOne(Holds(e, s, k), Write(key, Compact(e.codec, item.value)), k);
      } else {
        NothingSet(e, s, key, item);
      }
    case GetOf(key, now) => ReadKeeps(e, s, key, now, k);
    case DeleteOf(key, version) => DeleteLeaves(e, s, key, version, k);
    case EvictionPass =>
    case SweepOf(w) => SweepLeaves(e, s, w, k);
  }

  lemma NothingSet(e: Env, s: StoreState, key: Text, item: Option<StoredItem>)
    requires s.shards != [] && (key == [] || item.None?)
    ensures StoreSet(e, s, key, item).0 == s
  {
  }

  /** A message, seen from one key. */
  lemma DeliveryOnKey(e: Env, s: StoreState, m: Delivery, k: Text)
    requires StoreOk(e, s) && CalmInput(e, s, Deliver(m), k)
    ensures Holds(e, Next(e, s, Deliver(m)), k) == Wrote(Holds(e, s, k), WritesOf(e.codec, m), k)
  {
    hide StoreOk, ApplyBatch, CalmBatch, Swept, Holds, Wrote, Accepted, MessageOps, Lasts;
    ApplyBatchOk(e, m.mine, s, MessageOps(m.data), m.clock, 0);
    BatchOnKey(e, m.mine, s, MessageOps(m.data), m.clock, 0, k);
    if IsPull(m.data) {
      SweepLeaves(e, Applied(e, s, m).0, Draining(m.drainClock), k);
    }
  }

  lemma NextOk(e: Env, s: StoreState, x: Input)
    requires StoreOk(e, s) && e.limits.batch > 0
    ensures StoreOk(e, Next(e, s, x))
  {
    hide StoreOk, Step, HandleDelivery;
    NonEmpty(e, s);
    match x
    case Deliver(m) => ReceiveOk(e, s, m);
    case Local(op) => StepOk(e, s, op);
  }

  lemma {:induction false} AfterOk(e: Env, s: StoreState, xs: seq<Input>)
    requires StoreOk(e, s) && e.limits.batch > 0
    ensures StoreOk(e, After(e, s, xs))
  {
    hide StoreOk, Next;
    NonEmpty(e, s);
    if xs != [] {
      AfterOk(e, s, xs[..|xs| - 1]);
      NextOk(e, After(e, s, xs[..|xs| - 1]), xs[|xs| - 1]);
    }
  }

  /** A calm run of messages and own operations is last write wins on k by the writes it carries, in order. */
  lemma {:induction false} RunIsWrites(e: Env, s: StoreState, xs: seq<Input>, k: Text)
    requires StoreOk(e, s) && e.limits.batch > 0 && Calm(e, s, xs, k)
    ensures Holds(e, After(e, s, xs), k) == Wrote(Holds(e, s, k), AllWrites(e.codec, xs), k)
  {
    hide StoreOk, Next, Holds, Wrote, CalmInput, InputWrites;
    NonEmpty(e, s);
    if xs == [] {
      WroteNone(Holds(e, s, k), k);
    } else {
      var p, x := xs[..|xs| - 1], xs[|xs| - 1];
      RunIsWrites(e, s, p, k);
      AfterOk(e, s, p);
      InputOnKey(e, After(e, s, p), x, k);
      WroteConcat(Holds(e, s, k), AllWrites(e.codec, p), InputWrites(e.codec, x), k);
    }
  }

  lemma InputOnKey(e: Env, s: StoreState, x: Input, k: Text)
    requires StoreOk(e, s) && CalmInput(e, s, x, k)
    ensures Holds(e, Next(e, s, x), k) == Wrote(Holds(e, s, k), InputWrites(e.codec, x), k)
  {
    hide StoreOk, Next, Holds, Wrote, CalmBatch, CalmLocal;
    match x
    case Deliver(m) => DeliveryOnKey(e, s, m, k);
    case Local(op) => LocalOnKey(e, s, op, k);
  }

  // ---------------------------------------------------------------- across compression settings

  /** No compression: an item as it is. */
  const PLAIN: Codec := Codec(_ => None, v => Some(v))

  /** What a read of a held item gives. */
  function Shows(c: Codec, x: Option<CompItem>): Option<StoredItem> {
    if x.None? then None else Expand(c, x.value)
  }

  /** A held item can be read. */
  predicate CanRead(c: Codec, x: Option<CompItem>) {
    x.Some? ==> Expand(c, x.value).Some?
  }

  /** The same writes to the same keys, each compressed by its own codec. */
  ghost predicate SameItems(c: Codec, a: seq<Write>, b: seq<Write>) {
    |a| == |b| && forall i :: 0 <= i < |a| ==> SameItem(c, a[i], b[i])
  }

  predicate SameItem(c: Codec, v: Write, w: Write) {
    v.key == w.key && Expand(c, v.it).Some? && Expand(c, v.it) == Expand(PLAIN, w.it)
  }

  lemma ShowsBeaten(c: Codec, x: Option<CompItem>, y: Option<CompItem>, v: Write, w: Write)
    requires CanRead(c, x) && CanRead(PLAIN, y) && Shows(c, x) == Shows(PLAIN, y) && SameItem(c, v, w)
    ensures CanRead(c, Beaten(x, v.it)) && CanRead(PLAIN, Beaten(y, w.it))
    ensures Shows(c, Beaten(x, v.it)) == Shows(PLAIN, Beaten(y, w.it))
  {
  }

  /** Compression does not show: what is read after writes depends on the items written alone. */
  lemma {:induction false} WroteShows(c: Codec, x: Option<CompItem>, y: Option<CompItem>, a: seq<Write>, b: seq<Write>, k: Text)
    requires CanRead(c, x) && CanRead(PLAIN, y) && Shows(c, x) == Shows(PLAIN, y) && SameItems(c, a, b)
    ensures CanRead(c, Wrote(x, a, k)) && Shows(c, Wrote(x, a, k)) == Shows(PLAIN, Wrote(y, b, k))
    decreases |a|
  {
    hide Wrote, Shows, CanRead, SameItem, Beaten;
    if a == [] {
      WroteNone(x, k);
      WroteNone(y, k);
    } else {
      assert a == [a[0]] + a[1..] && b == [b[0]] + b[1..];
      assert SameItem(c, a[0], b[0]);
      SameKey(c, a[0], b[0]);
      WroteCons(x, a[0], a[1..], k);
      WroteCons(y, b[0], b[1..], k);
      if a[0].key == k {
        ShowsBeaten(c, x, y, a[0], b[0]);
        WroteShows(c, Beaten(x, a[0].it), Beaten(y, b[0].it), a[1..], b[1..], k);
      } else {
        WroteShows(c, x, y, a[1..], b[1..], k);
      }
    }
  }

  lemma SameKey(c: Codec, v: Write, w: Write)
    requires SameItem(c, v, w)
    ensures v.key == w.key
  {
  }

  lemma SameItemsConcat(c: Codec, a: seq<Write>, b: seq<Write>, a': seq<Write>, b': seq<Write>)
    requires SameItems(c, a, b) && SameItems(c, a', b')
    ensures SameItems(c, a + a', b + b')
  {
    hide SameItem;
  }

  lemma CompactSame(c: Codec, key: Text, item: StoredItem)
    requires Faithful(c)
    ensures SameItem(c, Write(key, Compact(c, item)), Write(key, Compact(PLAIN, item)))
  {
    CompactExpand(c, item);
  }

  lemma {:induction false} AcceptedSame(c: Codec, mine: Text -> bool, ops: seq<Option<SyncOp>>, i: nat)
    requires Faithful(c) && i <= |ops|
    ensures SameItems(c, Accepted(c, mine, ops, i), Accepted(PLAIN, mine, ops, i))
    decreases |ops| - i
  {
    hide SameItem, Faithful;
    if i < |ops| && !Refused(mine, ops[i]) {
      AcceptedSame(c, mine, ops, i + 1);
      if Applies(mine, ops[i]) {
        var op := ops[i].value;
        CompactSame(c, op.key, op.item.value);
        SameItemsConcat(c, [WriteOf(c, op)], [WriteOf(PLAIN, op)], Accepted(c, mine, ops, i + 1), Accepted(PLAIN, mine, ops, i + 1));
      }
    }
  }

  lemma {:induction false} WritesSame(c: Codec, xs: seq<Input>)
    requires Faithful(c)
    ensures SameItems(c, AllWrites(c, xs), AllWrites(PLAIN, xs))
  {
    hide SameItem, Faithful, Accepted, MessageOps;
    if xs != [] {
      var p, x := xs[..|xs| - 1], xs[|xs| - 1];
      WritesSame(c, p);
      match x {
        case Deliver(m) => AcceptedSame(c, m.mine, MessageOps(m.data), 0);
        case Local(SetOf(key, item)) => if item.Some? { CompactSame(c, key, item.value); }
        case Local(_) =>
      }
      SameItemsConcat(c, AllWrites(c, p), AllWrites(PLAIN, p), InputWrites(c, x), InputWrites(PLAIN, x));
    }
  }

  /** A repeat needs no room: an operation that was applied is skipped when it comes again, as long as what is held for
      its key has not expired. */
  lemma RepeatIsSkipped(e: Env, mine: Text -> bool, s: StoreState, op: SyncOp, now: int64, again: int64)
    requires s.shards != [] && Faithful(e.codec) && CanRead(e.codec, Holds(e, s, op.key))
    requires op.key != [] && Applies(mine, Some(op)) && CalmOp(e, mine, s, Some(op), now, op.key)
    requires Fresh(e, ApplyOp(e, mine, s, Some(op), now).0, op.key, again)
    ensures var t := ApplyOp(e, mine, s, Some(op), now).0;
            Skips(e, t, op, again) && CalmOp(e, mine, t, Some(op), again, op.key)
  {
    hide ApplyOp, Home, Expired;
    OpOnKey(e, mine, s, Some(op), now, op.key);
    CompactExpand(e.codec, op.item.value);
  }

  // ---------------------------------------------------------------- agreement

  /** An item as it is held without compression. */
  function Plain(x: Option<StoredItem>): Option<CompItem> {
    if x.None? then None else Some(Compact(PLAIN, x.value))
  }

  lemma PlainShows(x: Option<StoredItem>)
    ensures CanRead(PLAIN, Plain(x)) && Shows(PLAIN, Plain(x)) == x
  {
  }

  /** What a node shows for k after a calm run, whatever its compression: last write wins on the items themselves. */
  lemma RunShows(e: Env, s: StoreState, xs: seq<Input>, k: Text, x: Option<StoredItem>)
    requires Faithful(e.codec) && StoreOk(e, s) && e.limits.batch > 0 && Calm(e, s, xs, k)
    requires CanRead(e.codec, Holds(e, s, k)) && Shows(e.codec, Holds(e, s, k)) == x
    ensures CanRead(e.codec, Holds(e, After(e, s, xs), k))
    ensures Shows(e.codec, Holds(e, After(e, s, xs), k)) == Shows(PLAIN, Wrote(Plain(x), AllWrites(PLAIN, xs), k))
  {
    hide *;
    NonEmpty(e, s);
    RunIsWrites(e, s, xs, k);
    WritesSame(e.codec, xs);
    PlainShows(x);
    WroteShows(e.codec, Holds(e, s, k), Plain(x), AllWrites(e.codec, xs), AllWrites(PLAIN, xs), k);
  }

  /** Eventual consistency.  Take two nodes, whatever else they replicate, hold and receive, however their shards are
      laid out and whatever they compress.  If they show the same item of k at first, and their runs of messages and
      own operations carry the same writes to k - batched, ordered and repeated in any way - then they show the same
      item of k in the end, provided that writes tied at the winning version carry one item.  The runs are such that no
      write meets a full store and k is not found expired or removed. */
  lemma EventualConsistency(
      e1: Env, e2: Env, s1: StoreState, s2: StoreState, xs1: seq<Input>, xs2: seq<Input>, k: Text, x: Option<StoredItem>)
    requires Starts(e1, s1, k, x) && Calm(e1, s1, xs1, k)
    requires Starts(e2, s2, k, x) && Calm(e2, s2, xs2, k)
    requires SameWritesTo(AllWrites(PLAIN, xs1), AllWrites(PLAIN, xs2), k)
    requires OneWinner(Only(k, Plain(x)), AllWrites(PLAIN, xs1), k)
    ensures Shows(e1.codec, Holds(e1, After(e1, s1, xs1), k)) == Shows(e2.codec, Holds(e2, After(e2, s2, xs2), k))
  {
    hide Calm, OneWinner, SameWritesTo, AllWrites, StoreOk, Holds, Shows, CanRead, After, Faithful, ApplyAll, Find;
    RunShows(e1, s1, xs1, k, x);
    RunShows(e2, s2, xs2, k, x);
    ConvergesAt(Only(k, Plain(x)), Only(k, Plain(x)), AllWrites(PLAIN, xs1), AllWrites(PLAIN, xs2), k);
  }

  /** What a read of k answers, in terms of what is shown for it. */
  lemma GetShows(e: Env, s: StoreState, k: Text, now: int64)
    requires s.shards != [] && CanRead(e.codec, Holds(e, s, k))
    ensures var r, x := StoreGet(e, s, k, now).1, Shows(e.codec, Holds(e, s, k));
            r == if k == [] then NoKey
                 else if x.None? then NotFound
                 else if x.value.expireAt.Some? && x.value.expireAt.value < now then Stale
                 else Found(x.value)
  {
    hide StoreGet, Holds;
    ReadAnswers(e, s, k, now);
  }

  /** So after a calm run a read answers with what last-write-wins leaves of the items written, value and all. */
  lemma RunReads(e: Env, s: StoreState, xs: seq<Input>, k: Text, x: Option<StoredItem>, now: int64)
    requires Starts(e, s, k, x) && Calm(e, s, xs, k)
    ensures var r, y := StoreGet(e, After(e, s, xs), k, now).1, Shows(PLAIN, Wrote(Plain(x), AllWrites(PLAIN, xs), k));
            r == if k == [] then NoKey
                 else if y.None? then NotFound
                 else if y.value.expireAt.Some? && y.value.expireAt.value < now then Stale
                 else Found(y.value)
  {
    hide *;
    StartsOk(e, s, k, x);
    RunShows(e, s, xs, k, x);
    GetShows(e, After(e, s, xs), k, now);
  }

  /** And clients see the same: a read of k at any time gives one answer on both nodes, the item with its value, or that
      it is missing or expired. */
  lemma ReadsAgree(
      e1: Env, e2: Env, s1: StoreState, s2: StoreState, xs1: seq<Input>, xs2: seq<Input>, k: Text, x: Option<StoredItem>,
      now: int64)
    requires Starts(e1, s1, k, x) && Calm(e1, s1, xs1, k)
    requires Starts(e2, s2, k, x) && Calm(e2, s2, xs2, k)
    requires SameWritesTo(AllWrites(PLAIN, xs1), AllWrites(PLAIN, xs2), k)
    requires OneWinner(Only(k, Plain(x)), AllWrites(PLAIN, xs1), k)
    ensures StoreGet(e1, After(e1, s1, xs1), k, now).1 == StoreGet(e2, After(e2, s2, xs2), k, now).1
  {
    hide *;
    StartsOk(e1, s1, k, x);
    StartsOk(e2, s2, k, x);
    EventualConsistency(e1, e2, s1, s2, xs1, xs2, k, x);
    RunShows(e1, s1, xs1, k, x);
    RunShows(e2, s2, xs2, k, x);
    GetShows(e1, After(e1, s1, xs1), k, now);
    GetShows(e2, After(e2, s2, xs2), k, now);
  }

  lemma StartsOk(e: Env, s: StoreState, k: Text, x: Option<StoredItem>)
    requires Starts(e, s, k, x)
    ensures Faithful(e.codec) && e.limits.batch > 0 && StoreOk(e, s) && s.shards != []
    ensures CanRead(e.codec, Holds(e, s, k)) && Shows(e.codec, Holds(e, s, k)) == x
  {
  }

  /** A store in order whose compression is faithful and which shows x for k. */
  ghost predicate Starts(e: Env, s: StoreState, k: Text, x: Option<StoredItem>) {
    && Faithful(e.codec) && e.limits.batch > 0 && StoreOk(e, s)
    && CanRead(e.codec, Holds(e, s, k)) && Shows(e.codec, Holds(e, s, k)) == x
  }

  /** The push of one write. */
  ghost predicate Pushes(m: Delivery, key: Text, item: StoredItem) {
    var op := SyncOp(key, OpSet, Some(item));
    key != [] && m.mine(key) && AllFit([op]) && m.data == PUSH + Encode([op])
  }

  lemma PushedOps(m: Delivery, key: Text, item: StoredItem)
    requires Pushes(m, key, item)
    ensures MessageOps(m.data) == [Some(SyncOp(key, OpSet, Some(item)))] && !IsPull(m.data)
  {
    hide Encode, MessageOps;
    var op := SyncOp(key, OpSet, Some(item));
    PushCarries([op]);
    assert WithItem([op]) == [op] + WithItem([op][1..]) && [op][1..] == [];
    assert Expected([op]) == [Some(op)];
    assert m.data[..5] == PUSH && PUSH[2] != PULL[2];
  }

  lemma PushedWrites(c: Codec, m: Delivery, key: Text, item: StoredItem)
    requires Pushes(m, key, item)
    ensures AllWrites(c, [Deliver(m)]) == [Write(key, Compact(c, item))]
    ensures AllWrites(c, [Local(SetOf(key, Some(item)))]) == [Write(key, Compact(c, item))]
  {
    hide MessageOps, Encode;
    var ops := [Some(SyncOp(key, OpSet, Some(item)))];
    PushedOps(m, key, item);
    assert Accepted(c, m.mine, ops, 1) == [];
    assert Accepted(c, m.mine, ops, 0) == [WriteOf(c, ops[0].value)] + [];
    AllWritesOne(c, Local(SetOf(key, Some(item))));
    AllWritesOne(c, Deliver(m));
  }

  lemma CalmOne(e: Env, s: StoreState, x: Input, k: Text)
    requires s.shards != [] && CalmInput(e, s, x, k)
    ensures Calm(e, s, [x], k)
  {
    hide CalmInput, Next;
    assert [x][..0] == [];
    assert Calm(e, s, [x][..0], k) && After(e, s, [x][..0]) == s;
  }

  lemma PushIsCalm(e: Env, s: StoreState, m: Delivery, key: Text, item: StoredItem)
    requires s.shards != [] && Pushes(m, key, item) && Fresh(e, s, key, m.clock(0))
    requires Fits(e.limits, s.total, ItemSize(key, Compact(e.codec, item).bytes))
    ensures CalmInput(e, s, Deliver(m), key)
  {
    hide MessageOps, ApplyOp, Holds, Encode;
    PushedOps(m, key, item);
    var ops := [Some(SyncOp(key, OpSet, Some(item)))];
    assert CalmBatch(e, m.mine, ApplyOp(e, m.mine, s, ops[0], m.clock(0)).0, ops, m.clock, 1, key);
  }

  /** A node that writes, and a replica that is pushed the write, show the same item of the key afterwards, if they did
      before and there is room; and it is the item written if that is newer. */
  lemma WriterAndReplica(
      e1: Env, e2: Env, s1: StoreState, s2: StoreState, m: Delivery, key: Text, item: StoredItem, x: Option<StoredItem>)
    requires Pushes(m, key, item) && Starts(e1, s1, key, x) && Starts(e2, s2, key, x) && Fresh(e2, s2, key, m.clock(0))
    requires Fits(e1.limits, s1.total, ItemSize(key, Compact(e1.codec, item).bytes))
    requires Fits(e2.limits, s2.total, ItemSize(key, Compact(e2.codec, item).bytes))
    ensures var r1 := Shows(e1.codec, Holds(e1, After(e1, s1, [Local(SetOf(key, Some(item)))]), key));
            var r2 := Shows(e2.codec, Holds(e2, After(e2, s2, [Deliver(m)]), key));
            r1 == r2 == if x.Some? && item.version <= x.value.version then x else Some(item)
  {
    hide Holds, After, Pushes, Fits, Fresh, ItemSize, AllWrites, StoreOk, Calm, CalmInput, Wrote;
    NonEmpty(e1, s1);
    NonEmpty(e2, s2);
    PushIsCalm(e2, s2, m, key, item);
    CalmOne(e2, s2, Deliver(m), key);
    OwnIsCalm(e1, s1, key, item);
    CalmOne(e1, s1, Local(SetOf(key, Some(item))), key);
    PushedWrites(PLAIN, m, key, item);
    RunShows(e1, s1, [Local(SetOf(key, Some(item)))], key, x);
    RunShows(e2, s2, [Deliver(m)], key, x);
    WroteOne(Plain(x), Write(key, Compact(PLAIN, item)), key);
  }

  /** A write pushed to any replica of its key, by the ring's own choice of replicas, is there to be read: with at least
      as many replicas as nodes, on every node of the ring. */
  lemma PushReachesReplicas(
      e: Env, s: StoreState, r: HashRing, id: Text, n: nat, m: Delivery, key: Text, item: StoredItem, x: Option<StoredItem>,
      now: int64)
    requires r.Valid() && m.mine == Replicates(r.data, r.config, id, n)
    requires id in ReplicaSet(r.data, r.config, r.Nodes(), n, key) || (id in r.Nodes() && n >= |r.Nodes()|)
    requires var op := SyncOp(key, OpSet, Some(item)); key != [] && AllFit([op]) && m.data == PUSH + Encode([op])
    requires Starts(e, s, key, x) && (x.Some? ==> x.value.version < item.version) && Fresh(e, s, key, m.clock(0))
    requires Fits(e.limits, s.total, ItemSize(key, Compact(e.codec, item).bytes))
    ensures var t := HandleDelivery(e, s, m).0;
            StoreGet(e, t, key, now).1 == if item.expireAt.Some? && item.expireAt.value < now then Stale else Found(item)
  {
    hide Holds, Fits, Fresh, ItemSize, AllWrites, StoreOk, Calm, CalmInput, Wrote, Replicates, HandleDelivery, StoreGet, Encode;
    ReplicasExactly(r, n, key);
    assert Pushes(m, key, item);
    StartsOk(e, s, key, x);
    PushIsCalm(e, s, m, key, item);
    CalmOne(e, s, Deliver(m), key);
    PushedWrites(PLAIN, m, key, item);
    RunShows(e, s, [Deliver(m)], key, x);
    WroteOne(Plain(x), Write(key, Compact(PLAIN, item)), key);
    AfterOne(e, s, m);
    GetShows(e, HandleDelivery(e, s, m).0, key, now);
  }

  lemma AfterOne(e: Env, s: StoreState, m: Delivery)
    requires s.shards != []
    ensures After(e, s, [Deliver(m)]) == HandleDelivery(e, s, m).0
  {
    assert [Deliver(m)][..0] == [];
    assert After(e, s, [Deliver(m)][..0]) == s;
  }

  lemma OwnIsCalm(e: Env, s: StoreState, key: Text, item: StoredItem)
    requires s.shards != [] && Fits(e.limits, s.total, ItemSize(key, Compact(e.codec, item).bytes))
    ensures CalmInput(e, s, Local(SetOf(key, Some(item))), key)
  {
  }

  lemma AllWritesOne(c: Codec, x: Input)
    ensures AllWrites(c, [x]) == InputWrites(c, x)
  {
    assert [x][..0] == [] && AllWrites(c, []) + InputWrites(c, x) == InputWrites(c, x);
  }
}
