/** Member messages (internal/cluster/codec.go, MemberMsgCodec), which share tags: above all a connect
    message and a cluster-sync message, told apart only by their content. */
module MemberCodec {
  import opened Base
  import opened Bytes

  type int32 = x: int | -0x8000_0000 <= x < 0x8000_0000

  /** A cluster member as it is sent. */
  datatype NodeInfo = NodeInfo(nodeID: Text, address: Text, state: int32, incarnation: int64, lastActive: int64)

  datatype Message =
    | Connect(nodeID: Text, address: Text, incarnation: int64)
    | ClusterSync(from: Text, members: seq<NodeInfo>)

  const MAX_MEMBERS: nat := 1000

  // ---------------------------------------------------------------- the format

  function EncodeString(s: Text): Text {
    Le2(|s|) + s
  }

  function State32(x: int32): nat {
    if x < 0 then x + TWO32 else x
  }

  function OfState32(n: nat): int32 {
    var u := n % TWO32;
    if u < 0x8000_0000 then u else u - TWO32
  }

  function EncodeInfo(i: NodeInfo): Text {
    EncodeString(i.nodeID) + (EncodeString(i.address) + (Le4(State32(i.state)) + (Le8(i.incarnation) + Le8(i.lastActive))))
  }

  function EncodeInfos(ms: seq<NodeInfo>): Text {
    if ms == [] then [] else EncodeInfo(ms[0]) + EncodeInfos(ms[1..])
  }

  function Encode(m: Message): Text {
    match m
    case Connect(id, addr, inc) => EncodeString(id) + (EncodeString(addr) + Le8(inc))
    case ClusterSync(from, ms) => EncodeString(from) + (Le4(|ms|) + EncodeInfos(ms))
  }

  /** A string at the front of the data and what follows it. */
  function DecodeString(d: Text): Option<(Text, Text)> {
    if |d| < 2 then None else
      var n := FromLe(d[..2]);
      if n > |d[2..]| then None else Some((d[2..][..n], d[2..][n..]))
  }

  predicate GoodAddress(a: Text) {
    |a| >= 3 && a[0] != 0
  }

  function DecodeConnect(d: Text): Option<Message> {
    var s := DecodeString(d);
    if s.None? || s.value.0 == [] then None else
      var a := DecodeString(s.value.1);
      if a.None? || !GoodAddress(a.value.0) || |a.value.1| < 8 then None
      else Some(Connect(s.value.0, a.value.0, Wrap64(FromLe(a.value.1[..8]))))
  }

  /** The fixed-size fields of a member. */
  function DecodeTail(id: Text, address: Text, d: Text): Option<(NodeInfo, Text)> {
    if |d| < 20 then None
    else Some((NodeInfo(id, address, OfState32(FromLe(d[..4])), Wrap64(FromLe(d[4..][..8])), Wrap64(FromLe(d[4..][8..][..8]))),
               d[4..][8..][8..]))
  }

  function DecodeInfo(d: Text): Option<(NodeInfo, Text)> {
    var s := DecodeString(d);
    if s.None? then None else
      var a := DecodeString(s.value.1);
      if a.None? then None else DecodeTail(s.value.0, a.value.0, a.value.1)
  }

  function DecodeInfos(d: Text, n: nat): Option<seq<NodeInfo>> {
    if n == 0 then Some([]) else
      var i := DecodeInfo(d);
      if i.None? || !GoodAddress(i.value.0.address) then None else
        var rest := DecodeInfos(i.value.1, n - 1);
        if rest.None? then None else Some([i.value.0] + rest.value)
  }

  function DecodeClusterSync(d: Text): Option<Message> {
    var s := DecodeString(d);
    if s.None? || |s.value.1| < 4 then None else
      var n := FromLe(s.value.1[..4]);
      if n > MAX_MEMBERS then None else
        var ms := DecodeInfos(s.value.1[4..], n);
        if ms.None? then None else Some(ClusterSync(s.value.0, ms.value))
  }

  /** The guess: at least 10 bytes, and after the first string a 32-bit value of at most 1000. */
  predicate LooksLikeSync(d: Text) {
    |d| >= 10 &&
    var s := DecodeString(d);
    s.Some? && |s.value.1| >= 4 && FromLe(s.value.1[..4]) <= MAX_MEMBERS
  }

  /** Decoding a message with the shared tag. */
  function Decode(d: Text): Option<Message> {
    if LooksLikeSync(d) then DecodeClusterSync(d)
    else
      var c := DecodeConnect(d);
      if c.Some? then c else DecodeClusterSync(d)
  }

  // ---------------------------------------------------------------- fields back

  lemma StringShape(h: Text, s: Text, rest: Text)
    requires |h| == 2 && FromLe(h) == |s|
    ensures DecodeString(h + s + rest) == Some((s, rest))
  {
    assert h + s + rest == h + (s + rest);
    Split(h, s + rest);
    Split(s, rest);
  }

  lemma StringBack(s: Text, rest: Text)
    requires |s| < TWO16
    ensures DecodeString(EncodeString(s) + rest) == Some((s, rest))
  {
    Le2Back(|s|);
    StringShape(Le2(|s|), s, rest);
  }

  lemma StateBack(x: int32)
    ensures OfState32(FromLe(Le4(State32(x)))) == x
  {
    Le4Back(State32(x));
  }

  lemma TailShape(id: Text, address: Text, st: Text, inc: Text, act: Text, rest: Text)
    requires |st| == 4 && |inc| == 8 && |act| == 8
    ensures DecodeTail(id, address, st + (inc + (act + rest))) ==
            Some((NodeInfo(id, address, OfState32(FromLe(st)), Wrap64(FromLe(inc)), Wrap64(FromLe(act))), rest))
  {
    Split(st, inc + (act + rest));
    Split(inc, act + rest);
    Split(act, rest);
  }

  /** Lengths that fit the format. */
  predicate Fits(i: NodeInfo) {
    |i.nodeID| < TWO16 && |i.address| < TWO16
  }

  lemma TailBack(i: NodeInfo, rest: Text)
    ensures DecodeTail(i.nodeID, i.address, Le4(State32(i.state)) + (Le8(i.incarnation) + (Le8(i.lastActive) + rest)))
            == Some((i, rest))
  {
    StateBack(i.state);
    Le4Back(State32(i.state));
    Le8Back(i.incarnation);
    Le8Back(i.lastActive);
    TailShape(i.nodeID, i.address, Le4(State32(i.state)), Le8(i.incarnation), Le8(i.lastActive), rest);
  }

  lemma Regroup(a: Text, b: Text, c: Text, d: Text, e: Text, rest: Text)
    ensures (a + (b + (c + (d + e)))) + rest == a + (b + (c + (d + (e + rest))))
  {
    var r4 := e + rest;
    assert (d + e) + rest == d + r4;
    var r3 := d + r4;
    assert (c + (d + e)) + rest == c + r3;
    var r2 := c + r3;
    assert (b + (c + (d + e))) + rest == b + r2;
    var r1 := b + r2;
    assert (a + (b + (c + (d + e)))) + rest == a + r1;
  }

  lemma InfoBack(i: NodeInfo, rest: Text)
    requires Fits(i)
    ensures DecodeInfo(EncodeInfo(i) + rest) == Some((i, rest))
  {
    var a, b, c, d, e := EncodeString(i.nodeID), EncodeString(i.address), Le4(State32(i.state)), Le8(i.incarnation), Le8(i.lastActive);
    Regroup(a, b, c, d, e, rest);
    var r2 := c + (d + (e + rest));
    StringBack(i.nodeID, b + r2);
    StringBack(i.address, r2);
    TailBack(i, rest);
  }

  ghost predicate AllFit(ms: seq<NodeInfo>) {
    forall i :: 0 <= i < |ms| ==> Fits(ms[i])
  }

  ghost predicate AllGood(ms: seq<NodeInfo>) {
    forall i :: 0 <= i < |ms| ==> GoodAddress(ms[i].address)
  }

  lemma Unsnoc(ms: seq<NodeInfo>)
    requires ms != []
    ensures AllFit(ms) ==> Fits(ms[0]) && AllFit(ms[1..])
    ensures AllGood(ms) <==> GoodAddress(ms[0].address) && AllGood(ms[1..])
  {
    assert ms == [ms[0]] + ms[1..];
  }

  lemma EncodeStep(ms: seq<NodeInfo>)
    requires ms != []
    ensures EncodeInfos(ms) == EncodeInfo(ms[0]) + EncodeInfos(ms[1..])
  {
  }

  lemma DecodeStep(d: Text, n: nat, i: NodeInfo, rest: Text)
    requires n > 0 && DecodeInfo(d) == Some((i, rest))
    ensures DecodeInfos(d, n) ==
            if !GoodAddress(i.address) || DecodeInfos(rest, n - 1).None? then None
            else Some([i] + DecodeInfos(rest, n - 1).value)
  {
  }

  lemma {:induction false} InfosBack(ms: seq<NodeInfo>)
    requires AllFit(ms)
    ensures DecodeInfos(EncodeInfos(ms), |ms|) == if AllGood(ms) then Some(ms) else None
  {
    hide *;
    if ms == [] {
      InfosNone(ms);
    } else {
      Unsnoc(ms);
      InfosBack(ms[1..]);
      InfosStep(ms);
    }
  }

  lemma InfosNone(ms: seq<NodeInfo>)
    requires ms == []
    ensures DecodeInfos(EncodeInfos(ms), |ms|) == Some(ms) && AllGood(ms)
  {
  }

  lemma InfosStep(ms: seq<NodeInfo>)
    requires ms != [] && Fits(ms[0])
    requires DecodeInfos(EncodeInfos(ms[1..]), |ms| - 1) == if AllGood(ms[1..]) then Some(ms[1..]) else None
    ensures DecodeInfos(EncodeInfos(ms), |ms|) == if AllGood(ms) then Some(ms) else None
  {
    hide *;
    Unsnoc(ms);
    EncodeStep(ms);
    InfoBack(ms[0], EncodeInfos(ms[1..]));
    DecodeStep(EncodeInfos(ms), |ms|, ms[0], EncodeInfos(ms[1..]));
    assert ms == [ms[0]] + ms[1..];
  }

  lemma InfosLength(ms: seq<NodeInfo>)
    ensures ms != [] ==> |EncodeInfos(ms)| >= 24
  {
    if ms != [] {
      assert |EncodeInfo(ms[0])| >= 24;
    }
  }

  /** Where everything is in an encoded member: each string behind two bytes of length, then four bytes of state, eight
      of incarnation and eight of the last activity. */
  lemma InfoLayout(i: NodeInfo)
    ensures var e, n, a := EncodeInfo(i), |i.nodeID|, |i.address|;
            && |e| == n + a + 24
            && e[..2] == [n % 256, n / 256 % 256] && e[2..2 + n] == i.nodeID
            && e[2 + n..4 + n] == [a % 256, a / 256 % 256] && e[4 + n..4 + n + a] == i.address
            && e[4 + n + a..8 + n + a] == Le(i.state % TWO32, 4)
            && e[8 + n + a..16 + n + a] == Le(i.incarnation % TWO64, 8) && e[16 + n + a..] == Le(i.lastActive % TWO64, 8)
  {
    hide *;
    var n, a := |i.nodeID|, |i.address|;
    var state, inc, act := Le4(State32(i.state)), Le8(i.incarnation), Le8(i.lastActive);
    InfoParts(i, state, inc, act);
    Le2Bytes(n);
    Le2Bytes(a);
    FieldBytes(i.incarnation, State32(i.state));
    FieldBytes(i.lastActive, State32(i.state));
    FiveParts(EncodeInfo(i), i.nodeID, i.address, state, inc, act);
  }

  lemma InfoParts(i: NodeInfo, state: Text, inc: Text, act: Text)
    requires state == Le4(State32(i.state)) && inc == Le8(i.incarnation) && act == Le8(i.lastActive)
    ensures EncodeInfo(i) == EncodeString(i.nodeID) + (EncodeString(i.address) + (state + (inc + act)))
    ensures State32(i.state) % TWO32 == i.state % TWO32
  {
    hide EncodeString, Le4, Le8;
  }

  lemma FiveParts(e: Text, id: Text, address: Text, state: Text, inc: Text, act: Text)
    requires e == EncodeString(id) + (EncodeString(address) + (state + (inc + act)))
    requires |state| == 4 && |inc| == 8 && |act| == 8
    ensures var n, a := |id|, |address|;
            && |e| == n + a + 24 && e[..2] == Le2(n) && e[2..2 + n] == id
            && e[2 + n..4 + n] == Le2(a) && e[4 + n..4 + n + a] == address
            && e[4 + n + a..8 + n + a] == state && e[8 + n + a..16 + n + a] == inc && e[16 + n + a..] == act
  {
    hide *;
    var n, a := |id|, |address|;
    var r3 := inc + act;
    var r2 := state + r3;
    var r1 := EncodeString(address) + r2;
    assert e[0..] == e;
    StringLayout(e, id, r1, 0);
    StringLayout(e, address, r2, 2 + n);
    Slices(e, state, r3, 4 + n + a);
    Slices(e, inc, act, 8 + n + a);
  }

  lemma StringLayout(e: Text, s: Text, rest: Text, at: nat)
    requires at <= |e| && e[at..] == EncodeString(s) + rest
    ensures at + 2 + |s| <= |e|
    ensures e[at..at + 2] == Le2(|s|) && e[at + 2..at + 2 + |s|] == s && e[at + 2 + |s|..] == rest
  {
    assert e[at..] == Le2(|s|) + (s + rest);
    Slices(e, Le2(|s|), s + rest, at);
    Slices(e, s, rest, at + 2);
  }

  // ---------------------------------------------------------------- telling them apart

  /** The first four bytes after the node ID of a connect message: the address length below the address. */
  lemma AddressIsLarge(a: Text)
    requires |a| >= 2 && |a| < TWO16 && a[0] != 0
    ensures |EncodeString(a)| >= 4 && FromLe(EncodeString(a)[..4]) > MAX_MEMBERS
  {
    Le2Back(|a|);
    var h := Le2(|a|);
    var f := (h + a)[..4];
    assert f == [h[0], h[1], a[0], a[1]];
    FourBytes(h[0], h[1], a[0], a[1]);
  }

  lemma FourBytes(w: byte, x: byte, y: byte, z: byte)
    ensures FromLe([w, x, y, z]) == w + 256 * x + 65536 * y + 16777216 * z
  {
    var s := [w, x, y, z];
    assert s[1..] == [x, y, z] && s[1..][1..] == [y, z] && s[1..][1..][1..] == [z] && s[1..][1..][1..][1..] == [];
    assert FromLe([z]) == z;
    assert FromLe([y, z]) == y + 256 * z;
    assert FromLe([x, y, z]) == x + 256 * (y + 256 * z);
  }

  /** Only the connect branch yields a connect message, and it checks these three things. */
  lemma ConnectNeeds(d: Text)
    ensures Decode(d).Some? && Decode(d).value.Connect? ==>
              Decode(d).value.nodeID != [] && GoodAddress(Decode(d).value.address)
  {
  }

  lemma ConnectNotSync(id: Text, addr: Text, inc: Text)
    requires |id| < TWO16 && |addr| < TWO16 && GoodAddress(addr)
    ensures !LooksLikeSync(EncodeString(id) + (EncodeString(addr) + inc))
  {
    var r := EncodeString(addr) + inc;
    StringBack(id, r);
    AddressIsLarge(addr);
    assert r[..4] == EncodeString(addr)[..4];
  }

  lemma ConnectBack(id: Text, addr: Text, inc: int64)
    requires |id| < TWO16 && |addr| < TWO16 && id != [] && GoodAddress(addr)
    ensures DecodeConnect(EncodeString(id) + (EncodeString(addr) + Le8(inc))) == Some(Connect(id, addr, inc))
  {
    StringBack(id, EncodeString(addr) + Le8(inc));
    StringBack(addr, Le8(inc));
    Le8Back(inc);
    assert Le8(inc)[..8] == Le8(inc);
  }

  /** A connect message is read back as itself exactly when its node ID is not empty and its address has at
      least three bytes, the first not zero. */
  lemma ConnectExactly(id: Text, addr: Text, inc: int64)
    requires |id| < TWO16 && |addr| < TWO16
    ensures Decode(Encode(Connect(id, addr, inc))) == Some(Connect(id, addr, inc)) <==> id != [] && GoodAddress(addr)
  {
    var d := Encode(Connect(id, addr, inc));
    if id != [] && GoodAddress(addr) {
      ConnectNotSync(id, addr, Le8(inc));
      ConnectBack(id, addr, inc);
    } else {
      ConnectNeeds(d);
    }
  }

  lemma SyncBack(from: Text, ms: seq<NodeInfo>)
    requires |from| < TWO16 && AllFit(ms) && |ms| < TWO32
    ensures DecodeClusterSync(Encode(ClusterSync(from, ms))) ==
            if |ms| <= MAX_MEMBERS && AllGood(ms) then Some(ClusterSync(from, ms)) else None
  {
    Le4Exact(|ms|);
    StringBack(from, Le4(|ms|) + EncodeInfos(ms));
    Split(Le4(|ms|), EncodeInfos(ms));
    InfosBack(ms);
  }

  /** A sync short enough to skip the guess has no members, and the connect decoder rejects it. */
  lemma ShortSyncIsNoConnect(from: Text, ms: seq<NodeInfo>)
    requires |from| < TWO16 && |ms| <= MAX_MEMBERS && |Encode(ClusterSync(from, ms))| < 10
    ensures DecodeConnect(Encode(ClusterSync(from, ms))) == None
  {
    var r := Le4(|ms|) + EncodeInfos(ms);
    Le4Exact(|ms|);
    StringBack(from, r);
    InfosLength(ms);
    assert ms == [] && r == Le4(0);
    ZeroCount();
    EmptyAddress(Encode(ClusterSync(from, ms)), from, r);
  }

  lemma ZeroCount()
    ensures Le4(0) == [0, 0, 0, 0]
  {
    assert Le(0, 1) == [0];
    assert Le(0, 2) == [0, 0];
    assert Le(0, 3) == [0, 0, 0];
  }

  lemma EmptyAddress(d: Text, from: Text, r: Text)
    requires DecodeString(d) == Some((from, r)) && r == [0, 0, 0, 0]
    ensures DecodeConnect(d) == None
  {
    assert r[..2] == [0, 0] && [0, 0][1..] == [0] && [0][1..] == [];
    assert FromLe(r[..2]) == 0;
  }

  lemma LongSyncLooksIt(from: Text, ms: seq<NodeInfo>)
    requires |from| < TWO16 && |ms| <= MAX_MEMBERS && |Encode(ClusterSync(from, ms))| >= 10
    ensures LooksLikeSync(Encode(ClusterSync(from, ms)))
  {
    Le4Exact(|ms|);
    StringBack(from, Le4(|ms|) + EncodeInfos(ms));
    Split(Le4(|ms|), EncodeInfos(ms));
  }

  /** A cluster-sync message is read back as itself exactly when it has at most 1000 members and every
      member's address has at least three bytes, the first not zero. */
  lemma ClusterSyncExactly(from: Text, ms: seq<NodeInfo>)
    requires |from| < TWO16 && AllFit(ms) && |ms| < TWO32
    ensures var m := ClusterSync(from, ms);
            Decode(Encode(m)) == Some(m) <==> |ms| <= MAX_MEMBERS && AllGood(ms)
  {
    hide Encode, DecodeClusterSync, DecodeConnect, LooksLikeSync, AllGood, AllFit;
    var m := ClusterSync(from, ms);
    SyncBack(from, ms);
    if |ms| <= MAX_MEMBERS {
      if |Encode(m)| < 10 {
        ShortSyncIsNoConnect(from, ms);
        TooShort(Encode(m));
      } else {
        LongSyncLooksIt(from, ms);
      }
    } else {
      ConnectIsConnect(Encode(m));
    }
  }

  lemma TooShort(d: Text)
    requires |d| < 10
    ensures !LooksLikeSync(d)
  {
  }

  lemma ConnectIsConnect(d: Text)
    ensures DecodeConnect(d).Some? ==> DecodeConnect(d).value.Connect?
  {
  }

  /** So the shared tag is never ambiguous: distinct well-formed messages have distinct encodings. */
  ghost predicate WellFormed(m: Message) {
    match m
    case Connect(id, addr, _) => 0 < |id| < TWO16 && |addr| < TWO16 && GoodAddress(addr)
    case ClusterSync(from, ms) => |from| < TWO16 && AllFit(ms) && AllGood(ms) && |ms| <= MAX_MEMBERS
  }

  lemma Unambiguous(m: Message, n: Message)
    requires WellFormed(m) && WellFormed(n) && Encode(m) == Encode(n)
    ensures m == n
  {
    WellFormedBack(m);
    WellFormedBack(n);
  }

  lemma WellFormedBack(m: Message)
    requires WellFormed(m)
    ensures Decode(Encode(m)) == Some(m)
  {
    match m
    case Connect(id, addr, inc) => ConnectExactly(id, addr, inc);
    case ClusterSync(from, ms) => ClusterSyncExactly(from, ms);
  }

  // ---------------------------------------------------------------- the decoder

  /** A string at an offset; next is 0 when there is none. */
  method ReadString(data: Text, offset: nat) returns (s: Text, next: nat)
    requires offset <= |data|
    ensures next == 0 ==> DecodeString(data[offset..]) == None
    ensures next > 0 ==> offset + 2 <= next <= |data| && DecodeString(data[offset..]) == Some((s, data[next..]))
  {
    s := [];
    if offset + 2 > |data| {
      return s, 0;
    }
    var d := data[offset..];
    var n := FromLe(data[offset..offset + 2]);
    assert data[offset..offset + 2] == d[..2];
    next := offset + 2;
    if next + n > |data| {
      return s, 0;
    }
    s := data[next..next + n];
    assert s == d[2..][..n] && data[next + n..] == d[2..][n..];
    next := next + n;
  }

  method ReadConnect(data: Text) returns (m: Option<Message>)
    ensures m == DecodeConnect(data)
  {
    hide DecodeString;
    assert data[0..] == data;
    var id, o1 := ReadString(data, 0);
    if o1 == 0 || id == [] {
      return None;
    }
    var addr, o2 := ReadString(data, o1);
    if o2 == 0 || !GoodAddress(addr) || o2 + 8 > |data| {
      return None;
    }
    assert data[o2..o2 + 8] == data[o2..][..8];
    m := Some(Connect(id, addr, Wrap64(FromLe(data[o2..o2 + 8]))));
  }

  /** A member at an offset and the offset after it. */
  method ReadInfo(data: Text, offset: nat) returns (info: Option<NodeInfo>, next: nat)
    requires offset <= |data|
    ensures info.None? ==> DecodeInfo(data[offset..]) == None
    ensures info.Some? ==> next <= |data| && DecodeInfo(data[offset..]) == Some((info.value, data[next..]))
  {
    hide DecodeString;
    var id, o1 := ReadString(data, offset);
    if o1 == 0 {
      return None, 0;
    }
    var addr, o2 := ReadString(data, o1);
    if o2 == 0 {
      return None, 0;
    }
    if o2 + 20 > |data| {
      return None, 0;
    }
    var d := data[o2..];
    assert data[o2..o2 + 4] == d[..4] && data[o2 + 4..o2 + 12] == d[4..][..8] && data[o2 + 12..o2 + 20] == d[4..][8..][..8];
    next := o2 + 20;
    assert data[next..] == d[4..][8..][8..];
    info := Some(NodeInfo(id, addr, OfState32(FromLe(data[o2..o2 + 4])),
                          Wrap64(FromLe(data[o2 + 4..o2 + 12])), Wrap64(FromLe(data[o2 + 12..o2 + 20]))));
  }

  /** The result of prepending members already read. */
  function Prepend(ms: seq<NodeInfo>, rest: Option<seq<NodeInfo>>): Option<seq<NodeInfo>> {
    if rest.None? then None else Some(ms + rest.value)
  }

  lemma PrependStep(ms: seq<NodeInfo>, d: Text, n: nat, i: NodeInfo, rest: Text)
    requires n > 0 && DecodeInfo(d) == Some((i, rest))
    ensures Prepend(ms, DecodeInfos(d, n)) ==
            if GoodAddress(i.address) then Prepend(ms + [i], DecodeInfos(rest, n - 1)) else None
  {
    DecodeStep(d, n, i, rest);
    if GoodAddress(i.address) && DecodeInfos(rest, n - 1).Some? {
      assert ms + ([i] + DecodeInfos(rest, n - 1).value) == (ms + [i]) + DecodeInfos(rest, n - 1).value;
    }
  }

  lemma PrependNone(o: Option<seq<NodeInfo>>)
    ensures Prepend([], o) == o
  {
    if o.Some? {
      assert [] + o.value == o.value;
    }
  }

  lemma PrependAll(ms: seq<NodeInfo>, d: Text)
    ensures Prepend(ms, DecodeInfos(d, 0)) == Some(ms)
  {
    assert ms + [] == ms;
  }

  lemma DecodeFails(ms: seq<NodeInfo>, d: Text, n: nat)
    requires n > 0 && DecodeInfo(d) == None
    ensures Prepend(ms, DecodeInfos(d, n)) == None
  {
  }

  method ReadInfos(data: Text, offset: nat, count: nat) returns (ms: Option<seq<NodeInfo>>)
    requires offset <= |data|
    ensures ms == DecodeInfos(data[offset..], count)
  {
    hide *;
    var members: seq<NodeInfo> := [];
    var at: nat, i: nat := offset, 0;
    PrependNone(DecodeInfos(data[offset..], count));
    ghost var all := DecodeInfos(data[offset..], count);
    while i < count
      invariant 0 <= i <= count && at <= |data|
      invariant all == Prepend(members, DecodeInfos(data[at..], count - i))
    {
      var info, next := ReadInfo(data, at);
      if info.None? {
        DecodeFails(members, data[at..], count - i);
        return None;
      }
      PrependStep(members, data[at..], count - i, info.value, data[next..]);
      if !GoodAddress(info.value.address) {
        return None;
      }
      members := members + [info.value];
      at, i := next, i + 1;
    }
    PrependAll(members, data[at..]);
    ms := Some(members);
  }

  method ReadClusterSync(data: Text) returns (m: Option<Message>)
    ensures m == DecodeClusterSync(data)
  {
    hide DecodeString, DecodeInfos;
    assert data[0..] == data;
    var from, o := ReadString(data, 0);
    if o == 0 || o + 4 > |data| {
      return None;
    }
    assert data[o..o + 4] == data[o..][..4];
    var n := FromLe(data[o..o + 4]);
    if n > MAX_MEMBERS {
      return None;
    }
    assert data[o + 4..] == data[o..][4..];
    var ms := ReadInfos(data, o + 4, n);
    m := if ms.None? then None else Some(ClusterSync(from, ms.value));
  }

  /** Decoding with the shared tag, as the code does it. */
  method ReadMessage(data: Text) returns (m: Option<Message>)
    ensures m == Decode(data)
  {
    hide DecodeString, DecodeConnect, DecodeClusterSync;
    if |data| >= 10 {
      assert data[0..] == data;
      var _, o := ReadString(data, 0);
      if o > 0 && o + 4 <= |data| {
        assert data[o..o + 4] == data[o..][..4];
        if FromLe(data[o..o + 4]) <= MAX_MEMBERS {
          m := ReadClusterSync(data);
          return;
        }
      }
    }
    var c := ReadConnect(data);
    if c.Some? {
      return c;
    }
    m := ReadClusterSync(data);
  }

  // ---------------------------------------------------------------- the ping tag

  /** The three messages sent with the ping tag; all have the same layout. */
  datatype Probe =
    | Ping(from: Text, to: Text, incarnation: int64)
    | Ack(from: Text, to: Text, incarnation: int64)
    | IndirectProbe(from: Text, to: Text, incarnation: int64)

  function EncodeProbe(m: Probe): Text {
    EncodeString(m.from) + (EncodeString(m.to) + Le8(m.incarnation))
  }

  function DecodeFields(d: Text): Option<(Text, Text, int64)> {
    var s := DecodeString(d);
    if s.None? then None else
      var t := DecodeString(s.value.1);
      if t.None? || |t.value.1| < 8 then None
      else Some((s.value.0, t.value.0, Wrap64(FromLe(t.value.1[..8]))))
  }

  datatype Kind = PingKind | AckKind | IndirectKind

  function Build(kind: Kind, f: Option<(Text, Text, int64)>): Option<Probe> {
    if f.None? then None else
      var (from, to, inc) := f.value;
      Some(match kind
        case PingKind => Ping(from, to, inc)
        case AckKind => Ack(from, to, inc)
        case IndirectKind => IndirectProbe(from, to, inc))
  }

  predicate Addressed(m: Option<Probe>) {
    m.Some? && m.value.to != []
  }

  /** Decoding with the ping tag: as a ping if it has a recipient, else as an acknowledgement if it has one,
      else as an indirect probe. */
  function DecodeProbe(d: Text): Option<Probe> {
    var ping, ack := Build(PingKind, DecodeFields(d)), Build(AckKind, DecodeFields(d));
    if Addressed(ping) then ping else if Addressed(ack) then ack else Build(IndirectKind, DecodeFields(d))
  }

  lemma FieldsBack(from: Text, to: Text, inc: int64)
    requires |from| < TWO16 && |to| < TWO16
    ensures DecodeFields(EncodeString(from) + (EncodeString(to) + Le8(inc))) == Some((from, to, inc))
  {
    hide DecodeString, EncodeString, FromLe, Le8;
    StringBack(from, EncodeString(to) + Le8(inc));
    StringBack(to, Le8(inc));
    Le8Back(inc);
    assert Le8(inc)[..8] == Le8(inc);
  }

  /** A message with the ping tag is read back as itself exactly when it is a ping with a recipient or a probe
      without a target: acknowledgements and proper probes are read as pings. */
  lemma ProbeExactly(m: Probe)
    requires |m.from| < TWO16 && |m.to| < TWO16
    ensures DecodeProbe(EncodeProbe(m)) == Some(m) <==> (m.Ping? && m.to != []) || (m.IndirectProbe? && m.to == [])
    ensures m.to != [] ==> DecodeProbe(EncodeProbe(m)) == Some(Ping(m.from, m.to, m.incarnation))
  {
    hide DecodeFields, EncodeString, Le8;
    FieldsBack(m.from, m.to, m.incarnation);
  }

  /** The decoders of the three messages, which read the same fields. */
  method ReadFields(data: Text) returns (r: Option<(Text, Text, int64)>)
    ensures r == DecodeFields(data)
  {
    hide DecodeString;
    assert data[0..] == data;
    var from, o1 := ReadString(data, 0);
    if o1 == 0 {
      return None;
    }
    var to, o2 := ReadString(data, o1);
    if o2 == 0 || o2 + 8 > |data| {
      return None;
    }
    assert data[o2..o2 + 8] == data[o2..][..8];
    r := Some((from, to, Wrap64(FromLe(data[o2..o2 + 8]))));
  }

  method ReadProbe(data: Text) returns (m: Option<Probe>)
    ensures m == DecodeProbe(data)
    ensures m.Some? ==> !m.value.Ack?
  {
    hide DecodeFields;
    var f := ReadFields(data);
    m := Build(PingKind, f);
    if Addressed(m) {
      return;
    }
    f := ReadFields(data);
    m := Build(AckKind, f);
    if Addressed(m) {
      return;
    }
    f := ReadFields(data);
    m := Build(IndirectKind, f);
  }
}
