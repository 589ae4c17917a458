/** The per-shard ring of pending sync operations (internal/mem_storage/mem_storage.go). */
module SyncBuffers {
  import opened Base

  /** The type byte of an operation; only 0 and 1 are ever written. */
  datatype OpType = OpSet | OpDelete | OpUnknown(code: byte)

  /** What an operation says about its item: version, expiry and value. */
  datatype StoredItem = StoredItem(version: int64, expireAt: Option<int64>, value: Text)

  /** A change for replication; a physical delete carries no item. */
  datatype SyncOp = SyncOp(key: Text, opType: OpType, item: Option<StoredItem>)

  const SYNC_CAPACITY: nat := 8192

  /** The last n elements, or all of them when there are fewer. */
  function Newest<T>(s: seq<T>, n: nat): seq<T> {
    if |s| <= n then s else s[|s| - n..]
  }

  // ---------------------------------------------------------------- a ring as a value

  /** The slot of position i; the code masks, because the capacity is a power of two. */
  function At(s: seq<Option<SyncOp>>, i: nat): Option<SyncOp>
    requires s != []
  {
    s[i % |s|]
  }

  /** Positions tail to head, oldest first, of which at most a ring's worth are live. */
  ghost predicate Live(s: seq<Option<SyncOp>>, tail: nat, head: nat) {
    s != [] && tail <= head <= tail + |s| && forall i :: tail <= i < head ==> At(s, i).Some?
  }

  ghost function View(s: seq<Option<SyncOp>>, tail: nat, head: nat): (q: seq<SyncOp>)
    requires Live(s, tail, head)
    ensures |q| == head - tail
    decreases head
  {
    if tail == head then [] else View(s, tail, head - 1) + [At(s, head - 1).value]
  }

  lemma ModDistinct(a: nat, b: nat, n: nat)
    requires n > 0 && a < b < a + n
    ensures a % n != b % n
  {
    var p, q := a / n, b / n;
    assert a == n * p + a % n && b == n * q + b % n;
    if p == q {
    } else if q > p {
      MulAtLeast(n, q - p);
      assert n * q - n * p == n * (q - p);
      assert q == p + 1 || n * (q - p) >= 2 * n;
    } else {
      MulAtLeast(n, p - q);
    }
  }

  lemma MulAtLeast(n: nat, k: nat)
    requires k >= 1
    ensures n * k >= n
    ensures k >= 2 ==> n * k >= 2 * n
  {
  }

  /** Writing at a position whose slot no live position shares changes nothing that is live. */
  lemma {:induction false} PutOutside(s: seq<Option<SyncOp>>, tail: nat, head: nat, k: nat, v: Option<SyncOp>)
    requires Live(s, tail, head)
    requires (k < tail && head <= k + |s|) || (head <= k && k < tail + |s|)
    ensures var s' := s[k % |s| := v]; Live(s', tail, head) && View(s', tail, head) == View(s, tail, head)
    decreases head
  {
    var s' := s[k % |s| := v];
    forall i | tail <= i < head ensures At(s', i) == At(s, i) {
      if i < k {
        ModDistinct(i, k, |s|);
      } else {
        ModDistinct(k, i, |s|);
      }
    }
    SameView(s, s', tail, head);
  }

  lemma {:induction false} SameView(s: seq<Option<SyncOp>>, s': seq<Option<SyncOp>>, tail: nat, head: nat)
    requires Live(s, tail, head) && |s'| == |s|
    requires forall i :: tail <= i < head ==> At(s', i) == At(s, i)
    ensures Live(s', tail, head) && View(s', tail, head) == View(s, tail, head)
    decreases head
  {
    if tail < head {
      SameView(s, s', tail, head - 1);
    }
  }

  lemma {:induction false} DropOldest(s: seq<Option<SyncOp>>, tail: nat, head: nat)
    requires Live(s, tail, head) && tail < head
    ensures View(s, tail, head) == [At(s, tail).value] + View(s, tail + 1, head)
    decreases head
  {
    if tail + 1 < head {
      DropOldest(s, tail, head - 1);
    }
  }

  /** Adding at head: room is left by the caller. */
  lemma PutAtHead(s: seq<Option<SyncOp>>, tail: nat, head: nat, op: SyncOp)
    requires Live(s, tail, head) && head < tail + |s|
    ensures var s' := s[head % |s| := Some(op)];
            Live(s', tail, head + 1) && View(s', tail, head + 1) == View(s, tail, head) + [op]
  {
    PutOutside(s, tail, head, head, Some(op));
    var s' := s[head % |s| := Some(op)];
    assert At(s', head) == Some(op);
  }

  // ---------------------------------------------------------------- the ring object

  class SyncRing {
    const slots: array<Option<SyncOp>>
    var head: nat
    var tail: nat

    ghost predicate Valid()
      reads this, slots
    {
      Live(slots[..], tail, head)
    }

    /** The pending operations, oldest first. */
    ghost function Queue(): (q: seq<SyncOp>)
      requires Valid()
      reads this, slots
    {
      View(slots[..], tail, head)
    }

    constructor (capacity: nat)
      requires capacity > 0
      ensures Valid() && fresh(slots) && slots.Length == capacity && Queue() == []
    {
      slots := new Option<SyncOp>[capacity](_ => None);
      head, tail := 0, 0;
    }

    /** Makes room in a full ring by dropping its oldest operation. */
    method DropForRoom()
      requires Valid() && head - tail >= slots.Length
      modifies this, slots
      ensures Valid() && head == old(head) && head - tail == slots.Length - 1
      ensures Queue() == old(Queue())[1..]
    {
      var newTail := head - slots.Length + 1;
      DropOldest(slots[..], tail, head);
      var i := tail;
      while i < newTail
        invariant tail <= i <= newTail == tail + 1
        invariant Live(slots[..], newTail, head)
        invariant View(slots[..], newTail, head) == old(Queue())[1..]
      {
        ghost var before := slots[..];
        PutOutside(before, newTail, head, i, None);
        slots[i % slots.Length] := None;
        assert slots[..] == before[i % slots.Length := None];
        i := i + 1;
      }
      tail := newTail;
    }

    /** Appends an operation; a full ring first drops its oldest one. */
    method Add(op: SyncOp)
      requires Valid()
      modifies this, slots
      ensures Valid()
      ensures Queue() == Newest(old(Queue()) + [op], slots.Length)
    {
      if head - tail >= slots.Length {
        DropForRoom();
        assert Newest(old(Queue()) + [op], slots.Length) == old(Queue())[1..] + [op];
      }
      ghost var before := slots[..];
      PutAtHead(before, tail, head, op);
      slots[head % slots.Length] := Some(op);
      assert slots[..] == before[head % slots.Length := Some(op)];
      head := head + 1;
    }

    /** Returns every pending operation in order and leaves the ring empty. */
    method Drain() returns (ops: seq<SyncOp>)
      requires Valid()
      modifies this, slots
      ensures Valid()
      ensures ops == old(Queue()) && Queue() == []
    {
      ops := [];
      var i := tail;
      while i < head
        invariant tail <= i <= head && head == old(head) && tail == old(tail)
        invariant Live(slots[..], i, head)
        invariant ops + View(slots[..], i, head) == old(Queue())
      {
        ghost var before := slots[..];
        DropOldest(before, i, head);
        var op := slots[i % slots.Length];
        assert op == At(before, i);
        if op.Some? {
          ops := ops + [op.value];
          PutOutside(before, i + 1, head, i, None);
          slots[i % slots.Length] := None;
          assert slots[..] == before[i % slots.Length := None];
        }
        i := i + 1;
      }
      tail := head;
    }

    /** Forgets all pending operations without touching the slots. */
    method Clear()
      requires Valid()
      modifies this
      ensures Valid() && Queue() == []
    {
      tail := head;
    }
  }

  // ---------------------------------------------------------------- runs of a ring

  /** What the queue is after adding ops one by one. */
  function AddAll(q: seq<SyncOp>, ops: seq<SyncOp>, cap: nat): seq<SyncOp> {
    if ops == [] then q else Newest(AddAll(q, ops[..|ops| - 1], cap) + [ops[|ops| - 1]], cap)
  }

  /** Between two drains the ring holds exactly the newest operations added since, up to its capacity. */
  lemma {:induction false} KeepsNewest(ops: seq<SyncOp>, cap: nat)
    ensures AddAll([], ops, cap) == Newest(ops, cap)
  {
    if ops != [] {
      var p, last := ops[..|ops| - 1], ops[|ops| - 1];
      KeepsNewest(p, cap);
      assert ops == p + [last];
      if |p| >= cap && cap > 0 {
        assert p[|p| - cap..] + [last] == ops[|p| - cap..];
      }
    }
  }
}
