/** A storage shard in place (internal/mem_storage/mem_storage.go): every method changes the fields as the code
    does, and is proved to compute the function of the shard's value that describes it. */
module Shards {
  import opened Base
  import opened SyncBuffers
  import opened Storage

  class Shard {
    var data: Data
    var lruList: seq<Text>
    var lruKeys: set<Text>
    var byteCount: int
    const ring: SyncRing

    /** When each key was last touched, in touches so far. */
    ghost var touchedAt: map<Text, nat>
    ghost var touches: nat

    /** List and map have the same keys, the list is in order of use, and the value is in order. */
    ghost predicate Valid()
      reads this, ring, ring.slots
    {
      && ring.Valid()
      && (forall k :: k in lruList <==> k in lruKeys)
      && Recency(lruList, touchedAt, touches)
      && ShardOk(State())
    }

    ghost function State(): ShardState
      requires ring.Valid()
      reads this, ring, ring.slots
    {
      ShardState(lruList, data, byteCount, ring.Queue())
    }

    ghost function Repr(): set<object> {
      {this, ring, ring.slots}
    }

    /** The ring's capacity. */
    ghost function Cap(): nat {
      ring.slots.Length
    }

    constructor ()
      ensures Valid() && fresh(ring) && fresh(ring.slots)
      ensures State() == EMPTY_SHARD && Cap() == SYNC_CAPACITY
    {
      data, lruList, lruKeys, byteCount := map[], [], {}, 0;
      ring := new SyncRing(SYNC_CAPACITY);
      touchedAt, touches := map[], 0;
    }

    method TouchLRU(key: Text)
      requires Recency(lruList, touchedAt, touches) && forall k :: k in lruList <==> k in lruKeys
      modifies this`lruList, this`lruKeys, this`touchedAt, this`touches
      ensures lruList == Touched(old(lruList), key)
      ensures Recency(lruList, touchedAt, touches) && forall k :: k in lruList <==> k in lruKeys
    {
      TouchRecency(lruList, touchedAt, touches, key);
      if key in lruKeys {
        lruList := [key] + Without(lruList, key);
      } else {
        WithoutAbsent(lruList, key);
        lruList := [key] + lruList;
        lruKeys := lruKeys + {key};
      }
      touchedAt := touchedAt[key := touches];
      touches := touches + 1;
    }

    method RemoveFromLRU(key: Text)
      requires Recency(lruList, touchedAt, touches) && forall k :: k in lruList <==> k in lruKeys
      modifies this`lruList, this`lruKeys
      ensures lruList == Without(old(lruList), key)
      ensures Recency(lruList, touchedAt, touches) && forall k :: k in lruList <==> k in lruKeys
    {
      WithoutRecency(lruList, touchedAt, touches, key);
      if key in lruKeys {
        lruList := Without(lruList, key);
        lruKeys := lruKeys - {key};
      } else {
        WithoutAbsent(lruList, key);
      }
    }

    /** A Set that meets no concurrent writer; delta is what the global counter moves by. */
    method Store(key: Text, it: CompItem) returns (delta: int)
      requires Valid()
      modifies this, ring, ring.slots
      ensures Valid() && State() == Put(old(State()), key, it, Cap())
      ensures delta == State().bytes - old(State()).bytes
    {
      hide Recency, ShardOk, Newest, Touched, ItemSize;
      PutOk(State(), key, it, Cap());
      delta := 0;
      if key in data && it.version <= data[key].version {
        return;
      }
      var size: int := ItemSize(key, it.bytes);
      if key !in data {
        delta := size;
      } else {
        var oldSize: int := ItemSize([], data[key].bytes);
        delta := size - oldSize;
      }
      data := data[key := it];
      byteCount := byteCount + delta;
      TouchLRU(key);
      ring.Add(SyncOp(key, OpSet, Some(StoredItem(it.version, it.expireAt, []))));
    }

    method Load(key: Text, now: int64) returns (r: Lookup)
      requires Valid()
      modifies this
      ensures Valid() && State() == Read(old(State()), key, now)
      ensures r == Look(old(data), key, now)
    {
      hide Recency, ShardOk, Touched;
      ReadOk(State(), key, now);
      if key !in data {
        return Missing;
      }
      var it := data[key];
      if Expired(it, now) {
        data := data - {key};
        RemoveFromLRU(key);
        return ExpiredNow;
      }
      TouchLRU(key);
      return Hit(it);
    }

    /** Removes a stored key with exact accounting; common to deletes and the cleaner. */
    method RemoveKey(key: Text) returns (delta: int)
      requires Valid()
      modifies this
      ensures Valid() && State() == Remove(old(State()), key)
      ensures delta == State().bytes - old(State()).bytes
    {
      hide Recency, ShardOk, ItemSize;
      RemoveKeeps(State(), key);
      delta := 0;
      if key in data {
        delta := 0 - ItemSize(key, data[key].bytes);
        data := data - {key};
        byteCount := byteCount + delta;
        RemoveFromLRU(key);
      }
    }

    /** A physical delete; ok is false when a newer item stays. */
    method DeleteKey(key: Text, version: int64) returns (ok: bool, delta: int)
      requires Valid()
      modifies this, ring, ring.slots
      ensures Valid() && State() == Delete(old(State()), key, version, Cap())
      ensures ok == !KeepsNewer(old(data), key, version)
      ensures delta == State().bytes - old(State()).bytes
    {
      hide Recency, ShardOk, Newest, ItemSize;
      DeleteOk(State(), key, version, Cap());
      ok, delta := true, 0;
      if key !in data {
        return;
      }
      if version > 0 && data[key].version > version {
        return false, 0;
      }
      delta := RemoveKey(key);
      ring.Add(SyncOp(key, OpDelete, None));
    }

    /** Takes the oldest entry off the list, and its item out of the data if there still is one. */
    method PopOldest() returns (stored: bool, delta: int)
      requires Valid() && lruList != []
      modifies this`data, this`byteCount, this`lruList, this`lruKeys
      ensures Valid() && EvictOldest(old(State())) == (State(), stored)
      ensures delta == State().bytes - old(State()).bytes
    {
      hide ShardOk, ItemSize;
      var m := |lruList| - 1;
      var key := lruList[m];
      OldestOk(State());
      PrefixRecency(lruList, touchedAt, touches, m);
      LastOnce(lruList, touchedAt, touches);
      stored, delta := key in data, 0;
      if stored {
        delta := 0 - ItemSize(key, data[key].bytes);
        data := data - {key};
        byteCount := byteCount + delta;
      }
      lruList := lruList[..m];
      lruKeys := lruKeys - {key};
    }

    /** Eviction of up to n stored keys from the old end of the list. */
    method EvictBatch(n: nat) returns (evicted: nat, delta: int)
      requires Valid()
      modifies this`data, this`byteCount, this`lruList, this`lruKeys
      ensures Valid() && Evict(old(State()), n) == (State(), evicted)
      ensures delta == State().bytes - old(State()).bytes
    {
      hide Recency, ShardOk, Evict, EvictOldest;
      evicted, delta := 0, 0;
      ghost var all := Evict(State(), n);
      while evicted < n && |lruList| > 0
        invariant Valid() && delta == State().bytes - old(State()).bytes
        invariant evicted <= n
        invariant all == (Evict(State(), n - evicted).0, Evict(State(), n - evicted).1 + evicted)
        decreases |lruList|
      {
        EvictStep(State(), n - evicted);
        var stored, d := PopOldest();
        delta := delta + d;
        if stored {
          evicted := evicted + 1;
        }
      }
      EvictDone(State(), n - evicted);
    }

    /** The background cleaner: the expired keys, in whatever order the map yields them. */
    method CleanExpired(now: int64) returns (delta: int)
      requires Valid()
      modifies this
      ensures Valid() && State() == Cleaned(old(State()), now)
      ensures delta == State().bytes - old(State()).bytes
    {
      hide Recency, ShardOk, Remove, Cleaned, NoDup;
      var expired := ListOf(set k | k in data && Expired(data[k], now));
      delta := 0;
      for i := 0 to |expired|
        invariant Valid() && delta == State().bytes - old(State()).bytes
        invariant State() == RemoveAll(old(State()), expired[..i])
      {
        assert expired[..i + 1][..i] == expired[..i];
        var d := RemoveKey(expired[i]);
        delta := delta + d;
      }
      assert expired[..|expired|] == expired;
      RemoveIsClean(old(State()), expired, now);
    }

    /** The key listing. */
    method Keys(now: int64) returns (keys: seq<Text>)
      requires Valid()
      modifies this`data
      ensures Valid() && State() == Listing(old(State()), now)
      ensures NoDup(keys) && forall k :: k in keys <==> k in data
    {
      hide Recency, ShardOk, NoDup;
      ListingOk(State(), now);
      data := Unexpired(data, now);
      keys := ListOf(data.Keys);
    }

    /** Takes the waiting operations and completes each from what is stored now. */
    method DrainSync(c: Codec, clock: nat -> int64) returns (ops: seq<SyncOp>)
      requires Valid()
      modifies this, ring, ring.slots
      ensures Valid() && Drain(c, old(State()), clock) == (State(), ops)
    {
      hide Recency, ShardOk, Wants, Fill, Look, Read;
      DrainedRingOk(State());
      var pending := ring.Drain();
      ops := [];
      ghost var s0 := State();
      for i := 0 to |pending|
        invariant Valid() && Complete(c, s0, pending[..i], clock) == (State(), ops)
      {
        assert pending[..i + 1][..i] == pending[..i];
        var op := CompleteOp(c, pending[i], clock(i));
        ops := ops + [op];
      }
      assert pending[..|pending|] == pending;
    }

    /** One operation of a drain. */
    method CompleteOp(c: Codec, op: SyncOp, now: int64) returns (r: SyncOp)
      requires Valid()
      modifies this
      ensures Valid() && State() == if Wants(op) then Read(old(State()), op.key, now) else old(State())
      ensures r == Fill(c, Look(old(data), op.key, now), op)
    {
      hide Recency, ShardOk, Look, Read;
      r := op;
      if Wants(op) {
        var l := Load(op.key, now);
        r := Fill(c, l, op);
      }
    }

    /** Forgets everything, the waiting operations included. */
    method Clear()
      requires Valid()
      modifies this, ring
      ensures Valid() && State() == EMPTY_SHARD
    {
      data, lruList, lruKeys, byteCount := map[], [], {}, 0;
      ring.Clear();
    }
  }
}
