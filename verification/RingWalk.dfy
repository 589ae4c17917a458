/** Consistent hash ring with virtual nodes (internal/cluster/hashring.go).

    The preference list of a key is what the clockwise walk of the code yields.  It is characterised
    here by a definition that mentions neither the ring's layout nor its construction order: the node
    set listed by clockwise distance from the key's hash.  Replica agreement and minimal disruption
    are consequences of that characterisation. */
module RingWalks {
  import opened Base

  datatype VNode = VNode(hash: uint64, node: Text)

  /** What a ring is built from: the hash function (abstract) and the number of virtual nodes. */
  datatype Config = Config(hash: Text -> uint64, vnodes: nat)

  /** `string(rune(i))`: the UTF-8 form of code point i, U+FFFD for values that are not code points. */
  function RuneText(i: nat): Text {
    if i < 0x80 then [i]
    else if i < 0x800 then [0xC0 + i / 0x40, 0x80 + i % 0x40]
    else if 0xD800 <= i < 0xE000 || i > 0x10FFFF then [0xEF, 0xBF, 0xBD]
    else if i < 0x10000 then [0xE0 + i / 0x1000, 0x80 + i / 0x40 % 0x40, 0x80 + i % 0x40]
    else [0xF0 + i / 0x40000, 0x80 + i / 0x1000 % 0x40, 0x80 + i / 0x40 % 0x40, 0x80 + i % 0x40]
  }

  /** The name of the i-th virtual node of a node, and its position. */
  function VName(id: Text, i: nat): Text {
    id + [COLON] + RuneText(i)
  }

  function VHash(c: Config, id: Text, i: nat): uint64 {
    c.hash(VName(id, i))
  }

  // ---------------------------------------------------------------- names of virtual nodes

  /** The number in the payload bits of a UTF-8 sequence. */
  function CodePoint(t: Text): int {
    if |t| == 1 then t[0]
    else if |t| == 2 then Payload(t[0], 0xC0) * 0x40 + Payload(t[1], 0x80)
    else if |t| == 3 then Payload(t[0], 0xE0) * 0x1000 + Payload(t[1], 0x80) * 0x40 + Payload(t[2], 0x80)
    else if |t| == 4 then
      Payload(t[0], 0xF0) * 0x40000 + Payload(t[1], 0x80) * 0x1000 + Payload(t[2], 0x80) * 0x40 + Payload(t[3], 0x80)
    else -1
  }

  function Payload(b: int, mark: int): int {
    b - mark
  }

  predicate NotARune(i: nat) {
    0xD800 <= i < 0xE000 || i > 0x10FFFF
  }

  /** The number can be read back from the text; only what is no code point is replaced. */
  lemma RuneBack(i: nat)
    ensures CodePoint(RuneText(i)) == if NotARune(i) then 0xFFFD else i
  {
    SixBits(i);
  }

  /** A number in groups of six bits. */
  lemma SixBits(i: nat)
    ensures i == i / 0x40 * 0x40 + i % 0x40
    ensures i / 0x40 == i / 0x1000 * 0x40 + i / 0x40 % 0x40
    ensures i / 0x1000 == i / 0x40000 * 0x40 + i / 0x1000 % 0x40
  {
  }

  /** A rune of several bytes has none that could be taken for a colon. */
  lemma RuneBytes(i: nat)
    ensures 1 <= |RuneText(i)| <= 4
    ensures |RuneText(i)| > 1 ==> forall k :: 0 <= k < |RuneText(i)| ==> RuneText(i)[k] >= 0x80
  {
  }

  lemma NameEnds(s: Text, a: Text, t: Text)
    requires s == a + [COLON] + t
    ensures |s| == |a| + 1 + |t| && s[|s| - |t|..] == t && s[..|s| - |t| - 1] == a && s[|s| - |t| - 1] == COLON
  {
  }

  lemma ShorterEnd(s: Text, a: Text, t: Text, b: Text, u: Text)
    requires s == a + [COLON] + t && s == b + [COLON] + u && |t| < |u|
    ensures COLON in u
  {
    NameEnds(s, a, t);
    NameEnds(s, b, u);
    assert s[|s| - |u|..][|u| - |t| - 1] == COLON;
  }

  /** A virtual node's name says whose it is and which, whatever colons the node IDs have. */
  lemma NamesDistinct(a: Text, i: nat, b: Text, j: nat)
    requires VName(a, i) == VName(b, j)
    ensures a == b && RuneText(i) == RuneText(j)
  {
    hide RuneText;
    var s, t, u := VName(a, i), RuneText(i), RuneText(j);
    RuneBytes(i);
    RuneBytes(j);
    NameEnds(s, a, t);
    NameEnds(s, b, u);
    if |t| < |u| {
      ShorterEnd(s, a, t, b, u);
    } else if |u| < |t| {
      ShorterEnd(s, b, u, a, t);
    }
  }

  /** So virtual nodes meet only where the hash function itself does: two of different nodes, or two of one node below
      the surrogates, at one position are two different texts with one hash. */
  lemma MeetOnlyByHash(c: Config, a: Text, i: nat, b: Text, j: nat) returns (s: Text, t: Text)
    requires VHash(c, a, i) == VHash(c, b, j) && (a != b || (i != j && i < 0xD800 && j < 0xD800))
    ensures s != t && c.hash(s) == c.hash(t) && a + [COLON] <= s && b + [COLON] <= t
  {
    hide RuneText;
    s, t := VName(a, i), VName(b, j);
    RuneBack(i);
    RuneBack(j);
    if s == t {
      NamesDistinct(a, i, b, j);
    }
  }

  // ---------------------------------------------------------------- construction

  /** The first k virtual nodes of a node, in the order the inner loop appends them. */
  function NodeVNodes(c: Config, id: Text, k: nat): seq<VNode> {
    if k == 0 then [] else NodeVNodes(c, id, k - 1) + [VNode(VHash(c, id, k - 1), id)]
  }

  /** The virtual nodes of a list of nodes, before sorting. */
  function AllVNodes(c: Config, ids: seq<Text>): seq<VNode> {
    if ids == [] then []
    else AllVNodes(c, ids[..|ids| - 1]) + NodeVNodes(c, ids[|ids| - 1], c.vnodes)
  }

  ghost predicate Sorted(s: seq<VNode>) {
    forall i, j :: 0 <= i < j < |s| ==> s[i].hash <= s[j].hash
  }

  /** The data of a ring built from ids: some sorted arrangement of their virtual nodes.  The sort the
      code calls is not stable, so every arrangement with this property is a possible ring. */
  ghost predicate BuiltFrom(c: Config, ids: seq<Text>, data: seq<VNode>) {
    Sorted(data) && multiset(data) == multiset(AllVNodes(c, ids))
  }

  /** v is the i-th virtual node of its node, for some i in use. */
  ghost predicate Genuine(c: Config, v: VNode) {
    exists i :: 0 <= i < c.vnodes && v.hash == VHash(c, v.node, i)
  }

  /** What the proofs use of a ring of the node set ids. */
  ghost predicate IsRing(c: Config, ids: set<Text>, data: seq<VNode>) {
    && Sorted(data)
    && forall v :: v in data <==> v.node in ids && Genuine(c, v)
  }

  lemma {:induction false} NodeVNodesMembers(c: Config, id: Text, k: nat, v: VNode)
    ensures v in NodeVNodes(c, id, k) <==> v.node == id && exists i :: 0 <= i < k && v.hash == VHash(c, id, i)
  {
    if k > 0 {
      NodeVNodesMembers(c, id, k - 1, v);
    }
  }

  lemma {:induction false} AllVNodesMembers(c: Config, ids: seq<Text>, v: VNode)
    ensures v in AllVNodes(c, ids) <==> v.node in ids && Genuine(c, v)
  {
    if ids != [] {
      var p, last := ids[..|ids| - 1], ids[|ids| - 1];
      AllVNodesMembers(c, p, v);
      NodeVNodesMembers(c, last, c.vnodes, v);
      assert ids == p + [last];
      assert v.node in ids <==> v.node in p || v.node == last;
    }
  }

  lemma BuiltIsRing(c: Config, ids: seq<Text>, data: seq<VNode>)
    requires BuiltFrom(c, ids, data)
    ensures IsRing(c, Elems(ids), data)
  {
    forall v ensures v in data <==> v.node in Elems(ids) && Genuine(c, v) {
      AllVNodesMembers(c, ids, v);
      assert v in data <==> v in multiset(data);
    }
  }

  /** A ring of ids mentions exactly the nodes of ids. */
  lemma RingNodes(c: Config, ids: set<Text>, data: seq<VNode>)
    requires c.vnodes > 0 && IsRing(c, ids, data)
    ensures (set v | v in data :: v.node) == ids
  {
    forall id | id in ids ensures id in (set v | v in data :: v.node) {
      var v := VNode(VHash(c, id, 0), id);
      assert Genuine(c, v);
      assert v in data;
    }
  }

  lemma SortedConcat(a: seq<VNode>, b: seq<VNode>)
    requires Sorted(a) && Sorted(b)
    requires forall i, j :: 0 <= i < |a| && 0 <= j < |b| ==> a[i].hash <= b[j].hash
    ensures Sorted(a + b)
  {
    forall i, j | 0 <= i < j < |a + b| ensures (a + b)[i].hash <= (a + b)[j].hash {
      if i < |a| <= j {
        assert (a + b)[j] == b[j - |a|];
      }
    }
  }

  /** One insertion of the sort. */
  method InsertByHash(s: seq<VNode>, v: VNode) returns (r: seq<VNode>)
    requires Sorted(s)
    ensures Sorted(r)
    ensures multiset(r) == multiset(s) + multiset{v}
    decreases |s|
  {
    if s == [] || s[|s| - 1].hash <= v.hash {
      SortedConcat(s, [v]);
      return s + [v];
    }
    var p, last := s[..|s| - 1], s[|s| - 1];
    assert s == p + [last];
    var q := InsertByHash(p, v);
    forall i | 0 <= i < |q| ensures q[i].hash <= last.hash {
      assert q[i] in multiset(q);
      assert q[i] in p || q[i] == v;
    }
    SortedConcat(q, [last]);
    r := q + [last];
  }

  /** The sort of the code, of which only this contract is used. */
  method SortByHash(s: seq<VNode>) returns (r: seq<VNode>)
    ensures Sorted(r)
    ensures multiset(r) == multiset(s)
  {
    r := [];
    for i := 0 to |s|
      invariant Sorted(r)
      invariant multiset(r) == multiset(s[..i])
    {
      assert s[..i + 1] == s[..i] + [s[i]];
      r := InsertByHash(r, s[i]);
    }
    assert s[..|s|] == s;
  }

  // ---------------------------------------------------------------- lookup

  /** The first position from i on at or after h, the length of the ring if there is none. */
  function ScanFrom(data: seq<VNode>, h: uint64, i: nat): (k: nat)
    requires i <= |data|
    ensures i <= k <= |data|
    decreases |data| - i
  {
    if i == |data| || data[i].hash >= h then i else ScanFrom(data, h, i + 1)
  }

  /** Where the lookup of h starts: the first virtual node at or after h, else the first one. */
  function Start(data: seq<VNode>, h: uint64): (idx: nat)
    requires data != []
    ensures idx < |data|
  {
    var k := ScanFrom(data, h, 0);
    if k < |data| then k else 0
  }

  lemma {:induction false} ScanIs(data: seq<VNode>, h: uint64, i: nat, k: nat)
    requires i <= k <= |data|
    requires forall j :: i <= j < k ==> data[j].hash < h
    requires k < |data| ==> data[k].hash >= h
    ensures ScanFrom(data, h, i) == k
    decreases k - i
  {
    if i < k {
      ScanIs(data, h, i + 1, k);
    }
  }

  lemma {:induction false} ScanFacts(data: seq<VNode>, h: uint64, i: nat)
    requires i <= |data|
    ensures forall j :: i <= j < ScanFrom(data, h, i) ==> data[j].hash < h
    ensures ScanFrom(data, h, i) < |data| ==> data[ScanFrom(data, h, i)].hash >= h
    decreases |data| - i
  {
    if i < |data| && data[i].hash < h {
      ScanFacts(data, h, i + 1);
    }
  }

  /** The ring read clockwise from position k. */
  function Rotate(data: seq<VNode>, k: nat): (w: seq<VNode>)
    requires k <= |data|
    ensures |w| == |data|
  {
    data[k..] + data[..k]
  }

  /** The virtual nodes in the order the walk of a key with hash h meets them. */
  function Walk(data: seq<VNode>, h: uint64): (w: seq<VNode>)
    ensures |w| == |data|
  {
    if data == [] then [] else Rotate(data, Start(data, h))
  }

  lemma WalkMembers(data: seq<VNode>, h: uint64, v: VNode)
    ensures v in Walk(data, h) <==> v in data
  {
    if data != [] {
      var k := Start(data, h);
      assert data == data[..k] + data[k..];
      assert v in data <==> v in data[..k] || v in data[k..];
    }
  }

  lemma ModWrap(a: nat, n: nat)
    requires n > 0 && a < 2 * n
    ensures a % n == if a < n then a else a - n
  {
    if a >= n {
      assert a % n == (a - n) % n;
    }
  }

  /** The walk of the code, position by position. */
  lemma WalkAt(data: seq<VNode>, h: uint64, i: nat)
    requires i < |data|
    ensures Walk(data, h)[i] == data[(Start(data, h) + i) % |data|]
  {
    ModWrap(Start(data, h) + i, |data|);
  }

  /** Distinct nodes of a walk, in order of first appearance. */
  function Dedup(w: seq<VNode>): (r: seq<Text>) {
    if w == [] then [] else
      var p := Dedup(w[..|w| - 1]);
      var id := w[|w| - 1].node;
      if id in p then p else p + [id]
  }

  /** The full clockwise preference list of a key with hash h. */
  function Prefs(data: seq<VNode>, h: uint64): seq<Text> {
    Dedup(Walk(data, h))
  }

  lemma DedupNone(w: seq<VNode>)
    ensures Dedup(w[..0]) == []
  {
  }

  lemma DedupSnoc(w: seq<VNode>, i: nat)
    requires i < |w|
    ensures Dedup(w[..i + 1]) == if w[i].node in Dedup(w[..i]) then Dedup(w[..i]) else Dedup(w[..i]) + [w[i].node]
  {
    assert w[..i + 1][..i] == w[..i];
  }

  lemma {:induction false} DedupPrefix(w: seq<VNode>, k: nat)
    requires k <= |w|
    ensures Dedup(w[..k]) <= Dedup(w)
  {
    if k < |w| {
      DedupPrefix(w[..|w| - 1], k);
      assert w[..|w| - 1][..k] == w[..k];
    } else {
      assert w[..k] == w;
    }
  }

  /** The walk may stop as soon as it has n nodes. */
  lemma TakeDedup(w: seq<VNode>, i: nat, n: nat)
    requires i <= |w| && |Dedup(w[..i])| <= n
    requires i == |w| || |Dedup(w[..i])| == n
    ensures Take(Dedup(w), n) == Dedup(w[..i])
  {
    DedupPrefix(w, i);
    if i == |w| {
      assert w[..i] == w;
    }
  }

  /** Where a node first appears in a walk; the length of the walk if it does not. */
  function First(w: seq<VNode>, id: Text): (p: nat)
    ensures p <= |w|
  {
    if w == [] then 0 else
      var p := First(w[..|w| - 1], id);
      if p < |w| - 1 then p else if w[|w| - 1].node == id then |w| - 1 else |w|
  }

  lemma {:induction false} FirstFacts(w: seq<VNode>, id: Text)
    ensures First(w, id) < |w| ==> w[First(w, id)].node == id
    ensures forall q :: 0 <= q < First(w, id) ==> w[q].node != id
  {
    if w != [] {
      FirstFacts(w[..|w| - 1], id);
    }
  }

  lemma FirstIs(w: seq<VNode>, id: Text, p: nat)
    requires p < |w| && w[p].node == id && forall q :: 0 <= q < p ==> w[q].node != id
    ensures First(w, id) == p
  {
    FirstFacts(w, id);
  }

  /** Dedup lists the nodes of the walk, once each, in the order of their first appearance. */
  lemma {:induction false} DedupFacts(w: seq<VNode>)
    ensures NoDup(Dedup(w))
    ensures forall id :: id in Dedup(w) <==> First(w, id) < |w|
    ensures forall i, j :: 0 <= i < j < |Dedup(w)| ==> First(w, Dedup(w)[i]) < First(w, Dedup(w)[j])
  {
    if w != [] {
      var v := w[..|w| - 1];
      DedupFacts(v);
      assert forall id :: id in Dedup(v) ==> First(w, id) == First(v, id) < |v|;
    }
  }

  // ---------------------------------------------------------------- clockwise distance

  /** How far position p is from h, going clockwise. */
  function Dist(h: uint64, p: uint64): uint64 {
    if p >= h then p - h else p - h + TWO64
  }

  /** The distance from h to the nearest of a node's first k virtual nodes. */
  function Nearest(c: Config, id: Text, h: uint64, k: nat): uint64
    requires k > 0
  {
    var e := Dist(h, VHash(c, id, k - 1));
    if k == 1 then e else Min(Nearest(c, id, h, k - 1), e)
  }

  /** The distance from h to a node. */
  function Distance(c: Config, id: Text, h: uint64): uint64
    requires c.vnodes > 0
  {
    Nearest(c, id, h, c.vnodes)
  }

  lemma {:induction false} NearestAt(c: Config, id: Text, h: uint64, k: nat) returns (i: nat)
    requires k > 0
    ensures i < k && Nearest(c, id, h, k) == Dist(h, VHash(c, id, i))
  {
    if k == 1 || Nearest(c, id, h, k) == Dist(h, VHash(c, id, k - 1)) {
      i := k - 1;
    } else {
      i := NearestAt(c, id, h, k - 1);
    }
  }

  lemma {:induction false} NearestLeast(c: Config, id: Text, h: uint64, k: nat, i: nat)
    requires i < k
    ensures Nearest(c, id, h, k) <= Dist(h, VHash(c, id, i))
  {
    if i < k - 1 {
      NearestLeast(c, id, h, k - 1, i);
    }
  }

  /** Where on the ring the walk is after i steps. */
  function WalkIndex(n: nat, k: nat, i: nat): (a: nat)
    requires k < n && i < n
    ensures a < n
  {
    if i < n - k then k + i else k + i - n
  }

  lemma WalkPosition(data: seq<VNode>, h: uint64, i: nat)
    requires i < |data|
    ensures Walk(data, h)[i] == data[WalkIndex(|data|, Start(data, h), i)]
  {
    hide Start, ScanFrom;
  }

  /** Everything before the start is below h and, unless all of it is, the rest is not. */
  lemma StartSplits(data: seq<VNode>, h: uint64, a: nat)
    requires Sorted(data) && a < |data|
    ensures var k := Start(data, h);
            (a < k ==> data[a].hash < h) && (k <= a && data[k].hash >= h ==> data[a].hash >= h)
    ensures var k := Start(data, h);
            data[k].hash < h ==> k == 0 && data[a].hash < h
  {
    ScanFacts(data, h, 0);
  }

  /** The walk meets the virtual nodes of the ring nearest first. */
  lemma WalkSorted(data: seq<VNode>, h: uint64, i: nat, j: nat)
    requires Sorted(data) && i <= j < |data|
    ensures Dist(h, Walk(data, h)[i].hash) <= Dist(h, Walk(data, h)[j].hash)
  {
    hide Start, ScanFrom, Walk, Rotate;
    WalkPosition(data, h, i);
    WalkPosition(data, h, j);
    StartSplits(data, h, WalkIndex(|data|, Start(data, h), i));
    StartSplits(data, h, WalkIndex(|data|, Start(data, h), j));
  }

  /** s lists ids once each, nearest first. */
  ghost predicate ByDistance(c: Config, ids: set<Text>, h: uint64, s: seq<Text>)
    requires c.vnodes > 0
  {
    && NoDup(s)
    && (forall id :: id in s <==> id in ids)
    && forall i, j :: 0 <= i < j < |s| ==> Distance(c, s[i], h) <= Distance(c, s[j], h)
  }

  /** The first virtual node of a node on the walk is the nearest one. */
  lemma FirstIsNearest(c: Config, ids: set<Text>, data: seq<VNode>, h: uint64, x: Text)
    requires c.vnodes > 0 && IsRing(c, ids, data) && x in ids
    ensures First(Walk(data, h), x) < |data|
    ensures Dist(h, Walk(data, h)[First(Walk(data, h), x)].hash) == Distance(c, x, h)
  {
    var w := Walk(data, h);
    var p := First(w, x);
    var i := NearestAt(c, x, h, c.vnodes);
    var v := VNode(VHash(c, x, i), x);
    assert v in w by {
      assert Genuine(c, v);
      WalkMembers(data, h, v);
    }
    var q :| 0 <= q < |w| && w[q] == v;
    FirstFacts(w, x);
    WalkSorted(data, h, p, q);
    assert Genuine(c, w[p]) by {
      assert w[p] in w;
      WalkMembers(data, h, w[p]);
    }
    var j :| 0 <= j < c.vnodes && w[p].hash == VHash(c, x, j);
    NearestLeast(c, x, h, c.vnodes, j);
  }

  lemma PrefsElems(c: Config, ids: set<Text>, data: seq<VNode>, h: uint64, id: Text)
    requires c.vnodes > 0 && IsRing(c, ids, data)
    ensures id in Prefs(data, h) <==> id in ids
  {
    var w := Walk(data, h);
    DedupFacts(w);
    if id in ids {
      FirstIsNearest(c, ids, data, h, id);
    } else {
      FirstFacts(w, id);
      if First(w, id) < |w| {
        WalkMembers(data, h, w[First(w, id)]);
      }
    }
  }

  /** Characterisation: whatever order the nodes were given in and however the sort broke ties, the
      walk of the code lists the node set by clockwise distance. */
  lemma PrefsByDistance(c: Config, ids: set<Text>, data: seq<VNode>, h: uint64)
    requires c.vnodes > 0 && IsRing(c, ids, data)
    ensures ByDistance(c, ids, h, Prefs(data, h))
  {
    forall id ensures id in Prefs(data, h) <==> id in ids {
      PrefsElems(c, ids, data, h, id);
    }
    var w, r := Walk(data, h), Prefs(data, h);
    DedupFacts(w);
    forall i, j | 0 <= i < j < |r| ensures Distance(c, r[i], h) <= Distance(c, r[j], h) {
      FirstIsNearest(c, ids, data, h, r[i]);
      FirstIsNearest(c, ids, data, h, r[j]);
      WalkSorted(data, h, First(w, r[i]), First(w, r[j]));
    }
  }

  lemma ByDistanceCount(c: Config, ids: set<Text>, h: uint64, s: seq<Text>)
    requires c.vnodes > 0 && ByDistance(c, ids, h, s)
    ensures |s| == |ids|
  {
    assert Elems(s) == ids;
    NoDupCard(s);
  }

  /** The first n entries of a preference list: exactly min(n, node count) distinct nodes, nearest
      first, and a prefix of every longer request. */
  lemma PrefsMeaning(c: Config, ids: set<Text>, data: seq<VNode>, h: uint64, n: nat, m: nat)
    requires c.vnodes > 0 && IsRing(c, ids, data) && n <= m
    ensures ByDistance(c, ids, h, Prefs(data, h))
    ensures |Take(Prefs(data, h), n)| == Min(n, |ids|)
    ensures Take(Prefs(data, h), n) <= Take(Prefs(data, h), m)
  {
    PrefsByDistance(c, ids, data, h);
    ByDistanceCount(c, ids, h, Prefs(data, h));
  }
}
