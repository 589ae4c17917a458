/** The wire format of sync operations (internal/cluster/codec.go, SyncOpsCodec). */
module SyncCodec {
  import opened Base
  import opened Bytes
  import opened SyncBuffers

  // ---------------------------------------------------------------- the format

  function TypeByte(t: OpType): byte {
    if t.OpDelete? then 1 else 0
  }

  function ByteType(b: byte): OpType {
    if b == 0 then OpSet else if b == 1 then OpDelete else OpUnknown(b)
  }

  function ExpiryOf(e: Option<int64>): int64 {
    if e.Some? then e.value else 0
  }

  function OfExpiry(x: int64): Option<int64> {
    if x > 0 then Some(x) else None
  }

  /** What follows the key of an encoded operation. */
  function EncodeItem(t: OpType, it: StoredItem): Text {
    Le8(it.version) + ([TypeByte(t)] + (Le8(ExpiryOf(it.expireAt)) + (Le4(|it.value|) + it.value)))
  }

  function EncodeOp(op: SyncOp): Text
    requires op.item.Some?
  {
    Le2(|op.key|) + (op.key + EncodeItem(op.opType, op.item.value))
  }

  /** A payload with its length in front. */
  function Frame(e: Text): Text {
    Le4(|e|) + e
  }

  function Frames(es: seq<Text>): Text {
    if es == [] then [] else Frame(es[0]) + Frames(es[1..])
  }

  /** The operations that have an item, in order; the others are left out of the message. */
  function WithItem(ops: seq<SyncOp>): seq<SyncOp> {
    if ops == [] then []
    else (if ops[0].item.Some? then [ops[0]] else []) + WithItem(ops[1..])
  }

  lemma {:induction false} WithItemFacts(ops: seq<SyncOp>)
    ensures |WithItem(ops)| <= |ops|
    ensures forall i :: 0 <= i < |WithItem(ops)| ==> WithItem(ops)[i].item.Some? && WithItem(ops)[i] in ops
  {
    if ops != [] {
      WithItemFacts(ops[1..]);
      assert ops == [ops[0]] + ops[1..];
    }
  }

  function Payloads(ops: seq<SyncOp>): (es: seq<Text>)
    ensures |es| == |WithItem(ops)|
  {
    WithItemFacts(ops);
    seq(|WithItem(ops)|, i requires 0 <= i < |WithItem(ops)| => EncodeOp(WithItem(ops)[i]))
  }

  /** The whole message; nothing at all for no operations.  The count includes operations left out. */
  function Encode(ops: seq<SyncOp>): Text {
    if ops == [] then [] else Le4(|ops|) + Frames(Payloads(ops))
  }

  function DecodeValue(r: Text): Option<Text> {
    if |r| < 4 then None else
      var n := FromLe(r[..4]);
      if n > |r[4..]| then None else Some(r[4..][..n])
  }

  function DecodeItem(r: Text): Option<(OpType, StoredItem)> {
    if |r| < 8 then None else
      var version := Wrap64(FromLe(r[..8]));
      var r1 := r[8..];
      if |r1| < 1 then None else
        var r2 := r1[1..];
        if |r2| < 8 then None else
          var expiry := OfExpiry(Wrap64(FromLe(r2[..8])));
          var v := DecodeValue(r2[8..]);
          if v.None? then None else Some((ByteType(r1[0]), StoredItem(version, expiry, v.value)))
  }

  /** A single operation; None stands for the nil operation a malformed record yields. */
  function DecodeOp(data: Text): Option<SyncOp> {
    if |data| < 2 then None else
      var n := FromLe(data[..2]);
      var r := data[2..];
      if n > |r| then None else
        var d := DecodeItem(r[n..]);
        if d.None? then None else Some(SyncOp(r[..n], d.value.0, Some(d.value.1)))
  }

  /** The first frame's payload and what follows it, if the frame is complete. */
  function NextFrame(data: Text): Option<(Text, Text)> {
    if |data| < 4 then None else
      var n := FromLe(data[..4]);
      if n > |data[4..]| then None else Some((data[4..][..n], data[4..][n..]))
  }

  /** Up to count payloads; stops at the first incomplete frame. */
  function Unframe(data: Text, count: nat): seq<Text> {
    if count == 0 then [] else
      var r := NextFrame(data);
      if r.None? then [] else [r.value.0] + Unframe(r.value.1, count - 1)
  }

  function DecodeAll(es: seq<Text>): seq<Option<SyncOp>> {
    seq(|es|, i requires 0 <= i < |es| => DecodeOp(es[i]))
  }

  function Decode(data: Text): seq<Option<SyncOp>> {
    if |data| < 4 then [] else DecodeAll(Unframe(data[4..], FromLe(data[..4])))
  }

  // ---------------------------------------------------------------- one operation

  /** What an operation must satisfy to survive: a key length of 16 bits, a value length of 32 bits, a type
      the encoder knows and an expiry that is absent or positive. */
  predicate Encodable(op: SyncOp) {
    && op.item.Some? && |op.key| < TWO16 && |op.item.value.value| < TWO32
    && !op.opType.OpUnknown?
    && (op.item.value.expireAt.Some? ==> op.item.value.expireAt.value > 0)
  }

  lemma ValueShape(h: Text, v: Text)
    requires |h| == 4 && FromLe(h) == |v|
    ensures DecodeValue(h + v) == Some(v)
  {
    Split(h, v);
    assert v[..|v|] == v;
  }

  lemma ItemShape(h: Text, t: byte, e: Text, r: Text)
    requires |h| == 8 && |e| == 8
    ensures DecodeItem(h + ([t] + (e + r))) ==
            if DecodeValue(r).None? then None
            else Some((ByteType(t), StoredItem(Wrap64(FromLe(h)), OfExpiry(Wrap64(FromLe(e))), DecodeValue(r).value)))
  {
    Split(h, [t] + (e + r));
    Split([t], e + r);
    Split(e, r);
  }

  lemma OpShape(h: Text, key: Text, r: Text)
    requires |h| == 2 && FromLe(h) == |key|
    ensures DecodeOp(h + (key + r)) ==
            if DecodeItem(r).None? then None else Some(SyncOp(key, DecodeItem(r).value.0, Some(DecodeItem(r).value.1)))
  {
    Split(h, key + r);
    Split(key, r);
  }

  lemma ItemBack(t: OpType, it: StoredItem)
    requires |it.value| < TWO32
    ensures DecodeItem(EncodeItem(t, it)) ==
            Some((if t.OpDelete? then OpDelete else OpSet, it.(expireAt := OfExpiry(ExpiryOf(it.expireAt)))))
  {
    Le8Back(it.version);
    Le8Back(ExpiryOf(it.expireAt));
    Le4Back(|it.value|);
    ValueShape(Le4(|it.value|), it.value);
    ItemShape(Le8(it.version), TypeByte(t), Le8(ExpiryOf(it.expireAt)), Le4(|it.value|) + it.value);
  }

  /** What comes back for an operation with a key and value of admissible length. */
  lemma OpBack(op: SyncOp)
    requires op.item.Some? && |op.key| < TWO16 && |op.item.value.value| < TWO32
    ensures DecodeOp(EncodeOp(op)) == Some(SyncOp(op.key, if op.opType.OpDelete? then OpDelete else OpSet,
                                       Some(op.item.value.(expireAt := OfExpiry(ExpiryOf(op.item.value.expireAt))))))
  {
    hide Le2, EncodeItem, DecodeItem, DecodeOp, FromLe;
    Le2Back(|op.key|);
    ItemBack(op.opType, op.item.value);
    OpShape(Le2(|op.key|), op.key, EncodeItem(op.opType, op.item.value));
  }

  /** Where everything is: two bytes of key length, the key, eight bytes of version, a type byte that is 1 for a delete,
      eight bytes of expiry that are zero for none, four bytes of value length, the value. */
  lemma OpLayout(op: SyncOp)
    requires op.item.Some?
    ensures var e, k, it := EncodeOp(op), |op.key|, op.item.value;
            && |e| == k + |it.value| + 23
            && e[..2] == [k % 256, k / 256 % 256] && e[2..2 + k] == op.key
            && e[2 + k..10 + k] == Le(it.version % TWO64, 8)
            && e[10 + k] == (if op.opType.OpDelete? then 1 else 0)
            && e[11 + k..19 + k] == Le((if it.expireAt.Some? then it.expireAt.value else 0) % TWO64, 8)
            && e[19 + k..23 + k] == Le(|it.value| % TWO32, 4) && e[23 + k..] == it.value
  {
    hide *;
    var it, k := op.item.value, |op.key|;
    var version, expiry, len := Le8(it.version), Le8(ExpiryOf(it.expireAt)), Le4(|it.value|);
    OpParts(op, version, expiry, len);
    Le2Bytes(k);
    FieldBytes(it.version, |it.value|);
    FieldBytes(ExpiryOf(it.expireAt), |it.value|);
    SevenParts(EncodeOp(op), Le2(k), op.key, version, [TypeByte(op.opType)], expiry, len, it.value);
  }

  lemma OpParts(op: SyncOp, version: Text, expiry: Text, len: Text)
    requires op.item.Some?
    requires var it := op.item.value; version == Le8(it.version) && expiry == Le8(ExpiryOf(it.expireAt)) && len == Le4(|it.value|)
    ensures EncodeOp(op) ==
            Le2(|op.key|) + (op.key + (version + ([TypeByte(op.opType)] + (expiry + (len + op.item.value.value)))))
    ensures TypeByte(op.opType) == if op.opType.OpDelete? then 1 else 0
    ensures ExpiryOf(op.item.value.expireAt) == if op.item.value.expireAt.Some? then op.item.value.expireAt.value else 0
  {
    hide Le8, Le4, Le2;
  }

  lemma SevenParts(e: Text, a: Text, b: Text, c: Text, d: Text, f: Text, g: Text, h: Text)
    requires e == a + (b + (c + (d + (f + (g + h))))) && |a| == 2 && |c| == 8 && |d| == 1 && |f| == 8 && |g| == 4
    ensures var k := |b|;
            && |e| == k + |h| + 23 && e[..2] == a && e[2..2 + k] == b && e[2 + k..10 + k] == c && e[10 + k] == d[0]
            && e[11 + k..19 + k] == f && e[19 + k..23 + k] == g && e[23 + k..] == h
  {
    var k := |b|;
    var r5 := g + h;
    var r4 := f + r5;
    var r3 := d + r4;
    var r2 := c + r3;
    var r1 := b + r2;
    Slices(e, a, r1, 0);
    Slices(e, b, r2, 2);
    Slices(e, c, r3, 2 + k);
    Slices(e, d, r4, 10 + k);
    Slices(e, f, r5, 11 + k);
    Slices(e, g, h, 19 + k);
    assert e[10 + k..][0] == r3[0];
  }

  lemma KeyLength(h: Text, r: Text)
    requires |h| == 2
    ensures DecodeOp(h + r).Some? ==> |DecodeOp(h + r).value.key| == FromLe(h)
  {
    Split(h, r);
  }

  /** A key of 2^16 bytes or more comes back shorter, if at all. */
  lemma LongKeyLost(op: SyncOp)
    requires op.item.Some? && |op.key| >= TWO16
    ensures DecodeOp(EncodeOp(op)) != Some(op)
  {
    Le2Back(|op.key|);
    KeyLength(Le2(|op.key|), op.key + EncodeItem(op.opType, op.item.value));
  }

  /** For values of admissible length an operation survives exactly when it is encodable. */
  lemma SurvivesExactly(op: SyncOp)
    requires op.item.Some? && |op.item.value.value| < TWO32
    ensures DecodeOp(EncodeOp(op)) == Some(op) <==> Encodable(op)
  {
    if |op.key| >= TWO16 {
      LongKeyLost(op);
    } else {
      OpBack(op);
    }
  }

  // ---------------------------------------------------------------- frames

  ghost predicate Short(es: seq<Text>) {
    forall i :: 0 <= i < |es| ==> |es[i]| < TWO32
  }

  lemma NextShape(h: Text, e: Text, rest: Text)
    requires |h| == 4 && FromLe(h) == |e|
    ensures NextFrame(h + e + rest) == Some((e, rest))
  {
    assert h + e + rest == h + (e + rest);
    Split(h, e + rest);
    Split(e, rest);
  }

  lemma NextBack(e: Text, rest: Text)
    requires |e| < TWO32
    ensures NextFrame(Frame(e) + rest) == Some((e, rest))
  {
    Le4Back(|e|);
    NextShape(Le4(|e|), e, rest);
  }

  lemma CutShape(h: Text, e: Text, p: Text)
    requires |h| == 4 && FromLe(h) == |e| && p <= h + e && |p| < |h + e|
    ensures NextFrame(p) == None
  {
    if |p| >= 4 {
      assert p[..4] == h;
    }
  }

  /** Prefixes of a concatenation: a proper prefix of the first part, or all of it and a prefix of the rest. */
  lemma PrefixOfConcat(p: Text, a: Text, b: Text) returns (q: Text)
    requires p <= a + b
    ensures if |p| < |a| then p <= a else q <= b && p == a + q
  {
    if |p| < |a| {
      assert p == (a + b)[..|p|] == a[..|p|];
      q := [];
    } else {
      q := p[|a|..];
      assert p == (a + b)[..|p|];
      assert p[..|a|] == a;
      assert p == p[..|a|] + q;
    }
  }

  /** Cutting a stream inside or after its first frame. */
  lemma NextPrefix(e: Text, rest: Text, p: Text) returns (q: Text)
    requires |e| < TWO32 && p <= Frame(e) + rest
    ensures NextFrame(p).Some? ==> q <= rest && NextFrame(p) == Some((e, q))
  {
    q := PrefixOfConcat(p, Frame(e), rest);
    if |p| < |Frame(e)| {
      Le4Back(|e|);
      CutShape(Le4(|e|), e, p);
    } else {
      NextBack(e, q);
    }
  }

  lemma UnframeStep(data: Text, count: nat)
    requires count > 0
    ensures Unframe(data, count) == if NextFrame(data).None? then []
                                    else [NextFrame(data).value.0] + Unframe(NextFrame(data).value.1, count - 1)
  {
    hide NextFrame;
  }

  lemma FramesStep(es: seq<Text>)
    requires es != []
    ensures Frames(es) == Frame(es[0]) + Frames(es[1..])
  {
    hide Frame;
  }

  lemma {:induction false} FramesBack(es: seq<Text>, count: nat)
    requires Short(es) && count >= |es|
    ensures Unframe(Frames(es), count) == es
    decreases |es|, 1
  {
    if es == [] {
      NothingFramed(count);
    } else {
      FramesBackStep(es, count);
    }
  }

  lemma NothingFramed(count: nat)
    ensures Frames([]) == [] && Unframe([], count) == []
  {
  }

  lemma {:induction false} FramesBackStep(es: seq<Text>, count: nat)
    requires es != [] && Short(es) && count >= |es|
    ensures Unframe(Frames(es), count) == es
    decreases |es|, 0
  {
    hide NextFrame, Frame, Frames, Unframe;
    FramesStep(es);
    UnframeStep(Frames(es), count);
    NextBack(es[0], Frames(es[1..]));
    FramesBack(es[1..], count - 1);
  }

  lemma {:induction false} FramesPrefix(es: seq<Text>, p: Text, count: nat)
    requires Short(es) && p <= Frames(es)
    ensures Unframe(p, count) <= es
    decreases |es|, 1
  {
    if es == [] {
      NothingFramed(count);
    } else if count > 0 {
      FramesPrefixStep(es, p, count);
    }
  }

  lemma {:induction false} FramesPrefixStep(es: seq<Text>, p: Text, count: nat)
    requires es != [] && count > 0 && Short(es) && p <= Frames(es)
    ensures Unframe(p, count) <= es
    decreases |es|, 0
  {
    hide NextFrame, Frame, Frames, Unframe;
    FramesStep(es);
    UnframeStep(p, count);
    var q := NextPrefix(es[0], Frames(es[1..]), p);
    if NextFrame(p).Some? {
      FramesPrefix(es[1..], q, count - 1);
    }
  }

  // ---------------------------------------------------------------- a batch

  /** Each operation with an item is encodable and its payload's length fits 32 bits. */
  ghost predicate AllFit(ops: seq<SyncOp>) {
    forall i :: 0 <= i < |ops| && ops[i].item.Some? ==> Encodable(ops[i]) && |EncodeOp(ops[i])| < TWO32
  }

  /** What decoding should give: the operations that have an item, in order. */
  function Expected(ops: seq<SyncOp>): seq<Option<SyncOp>> {
    seq(|WithItem(ops)|, i requires 0 <= i < |WithItem(ops)| => Some(WithItem(ops)[i]))
  }

  lemma PayloadAt(ops: seq<SyncOp>, i: nat)
    requires AllFit(ops) && i < |WithItem(ops)|
    ensures |Payloads(ops)[i]| < TWO32 && DecodeOp(Payloads(ops)[i]) == Some(WithItem(ops)[i])
  {
    WithItemFacts(ops);
    var op := WithItem(ops)[i];
    var j :| 0 <= j < |ops| && ops[j] == op;
    SurvivesExactly(op);
  }

  lemma PayloadsBack(ops: seq<SyncOp>)
    requires AllFit(ops)
    ensures Short(Payloads(ops)) && DecodeAll(Payloads(ops)) == Expected(ops)
  {
    forall i | 0 <= i < |Payloads(ops)|
      ensures |Payloads(ops)[i]| < TWO32 && DecodeOp(Payloads(ops)[i]) == Some(WithItem(ops)[i])
    {
      PayloadAt(ops, i);
    }
  }

  lemma DecodeShape(h: Text, r: Text)
    requires |h| == 4
    ensures Decode(h + r) == DecodeAll(Unframe(r, FromLe(h)))
  {
    Split(h, r);
  }

  lemma MessageBack(n: nat, es: seq<Text>)
    requires Short(es) && |es| <= n < TWO32
    ensures Decode(Le4(n) + Frames(es)) == DecodeAll(es)
  {
    hide *;
    Le4Exact(n);
    DecodeShape(Le4(n), Frames(es));
    FramesBack(es, n);
  }

  /** Round trip: decoding an encoded batch gives exactly the operations that have an item, in order. */
  lemma RoundTrip(ops: seq<SyncOp>)
    requires AllFit(ops) && |ops| < TWO32
    ensures Decode(Encode(ops)) == Expected(ops)
  {
    if ops == [] {
      assert Expected(ops) == [];
    } else {
      WithItemFacts(ops);
      PayloadsBack(ops);
      MessageBack(|ops|, Payloads(ops));
    }
  }

  lemma HeaderPrefix(h: Text, r: Text, p: Text) returns (q: Text)
    requires |h| == 4 && |p| >= 4 && p <= h + r
    ensures q <= r && Decode(p) == DecodeAll(Unframe(q, FromLe(h)))
  {
    q := PrefixOfConcat(p, h, r);
    DecodeShape(h, q);
  }

  lemma DecodeAllPrefix(a: seq<Text>, b: seq<Text>)
    requires a <= b
    ensures DecodeAll(a) <= DecodeAll(b)
  {
  }

  /** Truncation is harmless: any byte prefix of an encoded batch decodes to a prefix of the batch. */
  lemma TruncationSafe(ops: seq<SyncOp>, p: Text)
    requires AllFit(ops) && p <= Encode(ops)
    ensures Decode(p) <= Expected(ops)
  {
    if |p| < 4 {
      assert Decode(p) == [];
    } else {
      Le4Back(|ops|);
      var q := HeaderPrefix(Le4(|ops|), Frames(Payloads(ops)), p);
      var count := FromLe(Le4(|ops|));
      PayloadsBack(ops);
      FramesPrefix(Payloads(ops), q, count);
      DecodeAllPrefix(Unframe(q, count), Payloads(ops));
    }
  }

  // ---------------------------------------------------------------- the encoder

  /** Overwrites bytes in place. */
  function Put(buf: Text, at: nat, bytes: Text): Text
    requires at + |bytes| <= |buf|
  {
    buf[..at] + bytes + buf[at + |bytes|..]
  }

  lemma PutAtEnd(buf: Text, zeros: Text, bytes: Text, rest: Text)
    requires |zeros| == |bytes|
    ensures Put(buf + zeros + rest, |buf|, bytes) == buf + bytes + rest
  {
  }

  /** Appends zeros and overwrites them, as the code reserves space for an integer. */
  method AppendBytes(buf: Text, bytes: Text) returns (r: Text)
    ensures r == buf + bytes
  {
    var zeros := seq(|bytes|, _ => 0);
    r := buf + zeros;
    PutAtEnd(buf, zeros, bytes, []);
    assert buf + zeros + [] == r && buf + bytes + [] == buf + bytes;
    r := Put(r, |r| - |bytes|, bytes);
  }

  method EncodeOpStreaming(op: SyncOp, buf: Text) returns (r: Text)
    requires op.item.Some?
    ensures r == buf + EncodeOp(op)
  {
    var it := op.item.value;
    Le2Bytes(|op.key|);
    r := buf + [|op.key| % 256, |op.key| / 256 % 256];
    r := r + op.key;
    r := AppendBytes(r, Le8(it.version));
    r := r + [TypeByte(op.opType)];
    r := AppendBytes(r, Le8(ExpiryOf(it.expireAt)));
    r := AppendBytes(r, Le4(|it.value|));
    if |it.value| > 0 {
      r := r + it.value;
    }
    Flatten(buf, Le2(|op.key|), op.key, Le8(it.version), [TypeByte(op.opType)], Le8(ExpiryOf(it.expireAt)), Le4(|it.value|), it.value);
  }

  lemma Flatten(b: Text, k: Text, key: Text, v: Text, t: Text, e: Text, l: Text, x: Text)
    ensures b + k + key + v + t + e + l + x == b + (k + (key + (v + (t + (e + (l + x))))))
    ensures x == [] ==> b + k + key + v + t + e + l + x == b + k + key + v + t + e + l
  {
    var r5 := l + x;
    var r4 := e + r5;
    var r3 := t + r4;
    var r2 := v + r3;
    var r1 := key + r2;
    assert b + k + key + v + t + e + l + x == b + k + key + v + t + e + r5;
    assert b + k + key + v + t + e + r5 == b + k + key + v + t + r4;
    assert b + k + key + v + t + r4 == b + k + key + v + r3;
    assert b + k + key + v + r3 == b + k + key + r2;
    assert b + k + key + r2 == b + k + r1;
    assert b + k + r1 == b + (k + r1);
  }

  /** Appends one frame: room for the length first, the length itself once the payload is there. */
  method AppendFrame(op: SyncOp, buf: Text) returns (r: Text)
    requires op.item.Some?
    ensures r == buf + Frame(EncodeOp(op))
  {
    var start := |buf|;
    var zeros: Text := [0, 0, 0, 0];
    r := EncodeOpStreaming(op, buf + zeros);
    var n := |r| - start - 4;
    PutAtEnd(buf, zeros, Le4(n), EncodeOp(op));
    r := Put(r, start, Le4(n));
    assert buf + Le4(n) + EncodeOp(op) == buf + (Le4(n) + EncodeOp(op));
  }

  lemma {:induction false} FramesSnoc(es: seq<Text>, e: Text)
    ensures Frames(es + [e]) == Frames(es) + Frame(e)
  {
    if es == [] {
      assert es + [e] == [e] && [e][1..] == [];
      assert Frames([e]) == Frame(e) + [];
    } else {
      assert (es + [e])[1..] == es[1..] + [e];
      FramesSnoc(es[1..], e);
    }
  }

  lemma {:induction false} WithItemSnoc(ops: seq<SyncOp>, op: SyncOp)
    ensures WithItem(ops + [op]) == WithItem(ops) + (if op.item.Some? then [op] else [])
  {
    if ops == [] {
      assert ops + [op] == [op] && [op][1..] == [];
    } else {
      assert (ops + [op])[1..] == ops[1..] + [op];
      WithItemSnoc(ops[1..], op);
      var h, w, t := if ops[0].item.Some? then [ops[0]] else [], WithItem(ops[1..]), if op.item.Some? then [op] else [];
      assert h + (w + t) == (h + w) + t;
      assert WithItem(ops + [op]) == h + (w + t);
    }
  }

  lemma StreamSnoc(ops: seq<SyncOp>, op: SyncOp)
    ensures Frames(Payloads(ops + [op])) == Frames(Payloads(ops)) + (if op.item.Some? then Frame(EncodeOp(op)) else [])
  {
    WithItemSnoc(ops, op);
    if op.item.Some? {
      assert Payloads(ops + [op]) == Payloads(ops) + [EncodeOp(op)];
      FramesSnoc(Payloads(ops), EncodeOp(op));
    } else {
      assert Payloads(ops + [op]) == Payloads(ops);
    }
  }

  /** The frames of the operations among the first i that have an item, after a header. */
  ghost predicate StreamedTo(buf: Text, head: Text, ops: seq<SyncOp>, i: nat) {
    i <= |ops| && buf == head + Frames(Payloads(ops[..i]))
  }

  lemma StreamStep(buf: Text, head: Text, ops: seq<SyncOp>, i: nat)
    requires i < |ops| && StreamedTo(buf, head, ops, i)
    ensures StreamedTo(if ops[i].item.Some? then buf + Frame(EncodeOp(ops[i])) else buf, head, ops, i + 1)
  {
    hide Frames, Payloads, Frame, EncodeOp;
    assert ops[..i + 1] == ops[..i] + [ops[i]];
    StreamSnoc(ops[..i], ops[i]);
    assert head + (Frames(Payloads(ops[..i])) + []) == buf;
  }

  lemma StreamStart(head: Text, ops: seq<SyncOp>)
    ensures StreamedTo(head, head, ops, 0)
  {
    assert ops[..0] == [];
  }

  /** The encoder of the code. */
  method Serialize(ops: seq<SyncOp>) returns (buf: Text)
    ensures buf == Encode(ops)
  {
    hide Frames, Payloads, Frame, EncodeOp, Le4;
    if |ops| == 0 {
      return [];
    }
    buf := AppendBytes([], Le4(|ops|));
    ghost var head := buf;
    StreamStart(head, ops);
    for i := 0 to |ops|
      invariant StreamedTo(buf, head, ops, i)
    {
      StreamStep(buf, head, ops, i);
      if ops[i].item.Some? {
        buf := AppendFrame(ops[i], buf);
      }
    }
    assert ops[..|ops|] == ops;
  }

  // ---------------------------------------------------------------- the decoder

  /** Decodes one payload, advancing an offset. */
  method DecodeOne(data: Text) returns (r: Option<SyncOp>)
    ensures r == DecodeOp(data)
  {
    if |data| < 2 {
      return None;
    }
    var offset := 0;
    var keyLen := FromLe(data[offset..offset + 2]);
    offset := offset + 2;
    if offset + keyLen > |data| {
      return None;
    }
    var key := data[offset..offset + keyLen];
    assert key == data[2..][..keyLen];
    offset := offset + keyLen;
    assert data[2..][keyLen..] == data[offset..];
    var d := DecodeRest(data, offset);
    r := if d.None? then None else Some(SyncOp(key, d.value.0, Some(d.value.1)));
  }

  method DecodeRest(data: Text, from: nat) returns (r: Option<(OpType, StoredItem)>)
    requires from <= |data|
    ensures r == DecodeItem(data[from..])
  {
    ghost var s := data[from..];
    var offset := from;
    if offset + 8 > |data| {
      return None;
    }
    var version := Wrap64(FromLe(data[offset..offset + 8]));
    assert data[offset..offset + 8] == s[..8];
    offset := offset + 8;
    if offset >= |data| {
      return None;
    }
    var opType := ByteType(data[offset]);
    assert data[offset] == s[8..][0];
    offset := offset + 1;
    if offset + 8 > |data| {
      return None;
    }
    var expiry := OfExpiry(Wrap64(FromLe(data[offset..offset + 8])));
    assert data[offset..offset + 8] == s[8..][1..][..8];
    offset := offset + 8;
    assert data[offset..] == s[8..][1..][8..];
    var v := DecodeTail(data, offset);
    r := if v.None? then None else Some((opType, StoredItem(version, expiry, v.value)));
  }

  method DecodeTail(data: Text, from: nat) returns (r: Option<Text>)
    requires from <= |data|
    ensures r == DecodeValue(data[from..])
  {
    ghost var s := data[from..];
    var offset := from;
    if offset + 4 > |data| {
      return None;
    }
    var n := FromLe(data[offset..offset + 4]);
    assert data[offset..offset + 4] == s[..4];
    offset := offset + 4;
    var value: Text := [];
    if n > 0 {
      if offset + n > |data| {
        return None;
      }
      value := data[offset..offset + n];
      assert value == s[4..][..n];
    }
    r := Some(value);
  }

  /** The decoder of the code: stops at the first incomplete frame, keeps a nil operation for a frame whose
      payload is malformed. */
  method Deserialize(data: Text) returns (ops: seq<Option<SyncOp>>)
    ensures ops == Decode(data)
  {
    hide DecodeOp, FromLe, DecodeAll, Unframe;
    ops := [];
    if |data| < 4 {
      return;
    }
    var count := FromLe(data[..4]);
    var offset := 4;
    var i := 0;
    while i < count
      invariant 0 <= i <= count && 4 <= offset <= |data|
      invariant DecodeAll(Unframe(data[4..], count)) == ops + DecodeAll(Unframe(data[offset..], count - i))
    {
      ghost var rest := data[offset..];
      UnframeStep(rest, count - i);
      DecodeNothing();
      if offset + 4 > |data| {
        break;
      }
      var n := FromLe(data[offset..offset + 4]);
      assert data[offset..offset + 4] == rest[..4];
      offset := offset + 4;
      assert data[offset..] == rest[4..];
      if offset + n > |data| {
        break;
      }
      var e := data[offset..offset + n];
      assert e == rest[4..][..n];
      var op := DecodeOne(e);
      offset := offset + n;
      assert data[offset..] == rest[4..][n..];
      DecodeAllCons(e, Unframe(data[offset..], count - i - 1));
      ops := ops + [op];
      i := i + 1;
    }
    if i == count {
      NoMoreFrames(data[offset..]);
    }
  }

  lemma DecodeNothing()
    ensures DecodeAll([]) == []
  {
  }

  lemma NoMoreFrames(data: Text)
    ensures DecodeAll(Unframe(data, 0)) == []
  {
  }

  lemma DecodeAllCons(e: Text, es: seq<Text>)
    ensures DecodeAll([e] + es) == [DecodeOp(e)] + DecodeAll(es)
  {
  }
}
