/** When rings of the same nodes agree, and what a change of one node does to their answers
    (internal/cluster/hashring.go). */
module RingAgreement {
  import opened Base
  import opened RingWalks
  import opened HashRings

  // ---------------------------------------------------------------- agreement

  /** No two different nodes are equally near to h. */
  ghost predicate TieFree(c: Config, ids: set<Text>, h: uint64)
    requires c.vnodes > 0
  {
    forall x, y :: x in ids && y in ids && x != y ==> Distance(c, x, h) != Distance(c, y, h)
  }

  /** The i-th virtual node of x and the j-th of y share a hash. */
  ghost predicate Clash(c: Config, x: Text, i: nat, y: Text, j: nat) {
    i < c.vnodes && j < c.vnodes && VHash(c, x, i) == VHash(c, y, j)
  }

  /** Virtual nodes of different nodes never share a hash. */
  ghost predicate NoCollision(c: Config, ids: set<Text>) {
    forall x, y, i: nat, j: nat :: x in ids && y in ids && x != y ==> !Clash(c, x, i, y, j)
  }

  lemma NoCollisionNoTie(c: Config, ids: set<Text>, h: uint64)
    requires c.vnodes > 0 && NoCollision(c, ids)
    ensures TieFree(c, ids, h)
  {
    forall x, y | x in ids && y in ids && x != y ensures Distance(c, x, h) != Distance(c, y, h) {
      var i := NearestAt(c, x, h, c.vnodes);
      var j := NearestAt(c, y, h, c.vnodes);
      assert !Clash(c, x, i, y, j);
    }
  }

  lemma ClashIsTie(c: Config, x: Text, i: nat, y: Text, j: nat)
    requires c.vnodes > 0 && Clash(c, x, i, y, j)
    ensures Distance(c, x, VHash(c, x, i)) == Distance(c, y, VHash(c, x, i))
  {
    NearestLeast(c, x, VHash(c, x, i), c.vnodes, i);
    NearestLeast(c, y, VHash(c, x, i), c.vnodes, j);
  }

  lemma HeadNearest(c: Config, ids: set<Text>, h: uint64, s: seq<Text>, x: Text)
    requires c.vnodes > 0 && ByDistance(c, ids, h, s) && x in ids
    ensures s != [] && s[0] in ids && Distance(c, s[0], h) <= Distance(c, x, h)
  {
    var i :| 0 <= i < |s| && s[i] == x;
  }

  lemma TailByDistance(c: Config, ids: set<Text>, h: uint64, s: seq<Text>)
    requires c.vnodes > 0 && ByDistance(c, ids, h, s) && s != []
    ensures ByDistance(c, ids - {s[0]}, h, s[1..])
  {
    var t := s[1..];
    forall x ensures x in t <==> x in ids - {s[0]} {
      assert x in s <==> x == s[0] || x in t by { assert s == [s[0]] + t; }
    }
  }

  lemma TieFreeLess(c: Config, ids: set<Text>, h: uint64, x: Text)
    requires c.vnodes > 0 && TieFree(c, ids, h)
    ensures TieFree(c, ids - {x}, h)
  {
  }

  lemma {:induction false} ByDistanceUnique(c: Config, ids: set<Text>, h: uint64, a: seq<Text>, b: seq<Text>)
    requires c.vnodes > 0 && TieFree(c, ids, h)
    requires ByDistance(c, ids, h, a) && ByDistance(c, ids, h, b)
    ensures a == b
    decreases |a|
  {
    hide ByDistance, TieFree;
    ByDistanceCount(c, ids, h, a);
    ByDistanceCount(c, ids, h, b);
    if a != [] {
      SameHead(c, ids, h, a, b);
      TailByDistance(c, ids, h, a);
      TailByDistance(c, ids, h, b);
      TieFreeLess(c, ids, h, a[0]);
      ByDistanceUnique(c, ids - {a[0]}, h, a[1..], b[1..]);
      assert a == [a[0]] + a[1..] && b == [b[0]] + b[1..];
    }
  }

  lemma SameHead(c: Config, ids: set<Text>, h: uint64, a: seq<Text>, b: seq<Text>)
    requires c.vnodes > 0 && TieFree(c, ids, h)
    requires ByDistance(c, ids, h, a) && ByDistance(c, ids, h, b) && a != [] && b != []
    ensures a[0] == b[0]
  {
    assert a[0] in ids && b[0] in ids;
    HeadNearest(c, ids, h, b, a[0]);
    HeadNearest(c, ids, h, a, b[0]);
  }

  lemma RingsAgree(c: Config, ids: set<Text>, d1: seq<VNode>, d2: seq<VNode>, h: uint64)
    requires c.vnodes > 0 && TieFree(c, ids, h)
    requires IsRing(c, ids, d1) && IsRing(c, ids, d2)
    ensures Prefs(d1, h) == Prefs(d2, h)
  {
    PrefsByDistance(c, ids, d1, h);
    PrefsByDistance(c, ids, d2, h);
    ByDistanceUnique(c, ids, h, Prefs(d1, h), Prefs(d2, h));
  }

  lemma RotateSame(data: seq<VNode>, k: nat)
    requires k <= |data|
    ensures multiset(Rotate(data, k)) == multiset(data)
  {
    assert data == data[..k] + data[k..];
  }

  lemma RotateBack(w: seq<VNode>, k: nat)
    requires k <= |w|
    ensures Rotate(Rotate(w, |w| - k), k) == w
  {
    var d := Rotate(w, |w| - k);
    assert d[k..] == w[..|w| - k] && d[..k] == w[|w| - k..];
  }

  function Swap(w: seq<VNode>, p: nat, q: nat): (w': seq<VNode>)
    requires p < q < |w|
    ensures |w'| == |w|
  {
    w[p := w[q]][q := w[p]]
  }

  lemma SwapSame(w: seq<VNode>, p: nat, q: nat)
    requires p < q < |w|
    ensures multiset(Swap(w, p, q)) == multiset(w)
  {
  }

  lemma SameHashes(data: seq<VNode>, w': seq<VNode>, k: nat, i: nat)
    requires k <= |data| && |w'| == |data| && i < |data|
    requires forall j :: 0 <= j < |w'| ==> w'[j].hash == Rotate(data, k)[j].hash
    ensures Rotate(w', |data| - k)[i].hash == data[i].hash
  {
    var j := if i < k then |data| - k + i else i - k;
    assert Rotate(w', |data| - k)[i] == w'[j] && Rotate(data, k)[j] == data[i];
  }

  lemma {:induction false} SameScan(data: seq<VNode>, d: seq<VNode>, h: uint64, i: nat)
    requires |d| == |data| && i <= |data|
    requires forall j :: 0 <= j < |data| ==> d[j].hash == data[j].hash
    ensures ScanFrom(d, h, i) == ScanFrom(data, h, i)
    decreases |data| - i
  {
    if i < |data| {
      SameScan(data, d, h, i + 1);
    }
  }

  /** Swapping two equally placed virtual nodes of a walk gives another ring of the same nodes. */
  lemma SwapInWalk(c: Config, ids: seq<Text>, data: seq<VNode>, h: uint64, p: nat, q: nat) returns (d: seq<VNode>)
    requires BuiltFrom(c, ids, data)
    requires p < q < |data| && Walk(data, h)[p].hash == Walk(data, h)[q].hash
    ensures BuiltFrom(c, ids, d)
    ensures Walk(d, h) == Swap(Walk(data, h), p, q)
  {
    var k := Start(data, h);
    var w := Rotate(data, k);
    var w' := Swap(w, p, q);
    d := Rotate(w', |data| - k);
    Rearranged(data, w', k, h);
    RotateBack(w', k);
    SwapSame(w, p, q);
    RotateSame(data, k);
  }

  lemma Rearranged(data: seq<VNode>, w': seq<VNode>, k: nat, h: uint64)
    requires k <= |data| && |w'| == |data| && Sorted(data)
    requires forall j :: 0 <= j < |w'| ==> w'[j].hash == Rotate(data, k)[j].hash
    ensures var d := Rotate(w', |data| - k);
            && Sorted(d)
            && ScanFrom(d, h, 0) == ScanFrom(data, h, 0)
            && multiset(d) == multiset(w')
  {
    var d := Rotate(w', |data| - k);
    assert forall i :: 0 <= i < |data| ==> d[i].hash == data[i].hash by {
      forall i | 0 <= i < |data| ensures d[i].hash == data[i].hash {
        SameHashes(data, w', k, i);
      }
    }
    SortedLike(data, d, h);
    RotateSame(w', |data| - k);
  }

  lemma SortedLike(data: seq<VNode>, d: seq<VNode>, h: uint64)
    requires |d| == |data| && Sorted(data)
    requires forall i :: 0 <= i < |data| ==> d[i].hash == data[i].hash
    ensures Sorted(d)
    ensures ScanFrom(d, h, 0) == ScanFrom(data, h, 0)
  {
    SameScan(data, d, h, 0);
  }

  lemma FirstAfterSwap(w: seq<VNode>, x: Text, y: Text)
    requires First(w, x) < First(w, y) < |w|
    ensures var w' := Swap(w, First(w, x), First(w, y)); First(w', y) < First(w', x)
  {
    var p, q := First(w, x), First(w, y);
    var w' := Swap(w, p, q);
    FirstFacts(w, x);
    FirstFacts(w, y);
    FirstIs(w', y, p);
    FirstFacts(w', x);
    assert forall k :: 0 <= k < p ==> w'[k] == w[k];
  }

  lemma OrderDiffers(w: seq<VNode>, w': seq<VNode>, x: Text, y: Text)
    requires First(w, x) < First(w, y) < |w| && First(w', y) < First(w', x)
    ensures Dedup(w) != Dedup(w')
  {
    DedupFacts(w);
    DedupFacts(w');
    var r := Dedup(w);
    assert x in r && y in r;
    var a :| 0 <= a < |r| && r[a] == x;
    var b :| 0 <= b < |r| && r[b] == y;
    assert a < b;
  }

  lemma SwapFirsts(c: Config, ids: seq<Text>, data: seq<VNode>, h: uint64, x: Text, y: Text) returns (d: seq<VNode>)
    requires BuiltFrom(c, ids, data)
    requires var w := Walk(data, h);
             First(w, x) < First(w, y) < |w| && w[First(w, x)].hash == w[First(w, y)].hash
    ensures BuiltFrom(c, ids, d) && Prefs(d, h) != Prefs(data, h)
  {
    var w := Walk(data, h);
    d := SwapInWalk(c, ids, data, h, First(w, x), First(w, y));
    FirstAfterSwap(w, x, y);
    OrderDiffers(w, Walk(d, h), x, y);
  }

  lemma TiedFirsts(c: Config, ids: set<Text>, data: seq<VNode>, h: uint64, x: Text, y: Text)
    requires c.vnodes > 0 && IsRing(c, ids, data)
    requires x in ids && y in ids && x != y && Distance(c, x, h) == Distance(c, y, h)
    ensures var w := Walk(data, h); var p, q := First(w, x), First(w, y);
            p < |w| && q < |w| && p != q && w[p].hash == w[q].hash
  {
    FirstIsNearest(c, ids, data, h, x);
    FirstIsNearest(c, ids, data, h, y);
    FirstFacts(Walk(data, h), x);
    FirstFacts(Walk(data, h), y);
  }

  /** When two nodes tie, the order they come in is decided by the sort, not by the node set. */
  lemma TieIsArbitrary(c: Config, ids: seq<Text>, data: seq<VNode>, h: uint64, x: Text, y: Text) returns (d: seq<VNode>)
    requires c.vnodes > 0 && BuiltFrom(c, ids, data)
    requires x in ids && y in ids && x != y && Distance(c, x, h) == Distance(c, y, h)
    ensures BuiltFrom(c, ids, d) && Prefs(d, h) != Prefs(data, h)
  {
    BuiltIsRing(c, ids, data);
    TiedFirsts(c, Elems(ids), data, h, x, y);
    if First(Walk(data, h), x) < First(Walk(data, h), y) {
      d := SwapFirsts(c, ids, data, h, x, y);
    } else {
      d := SwapFirsts(c, ids, data, h, y, x);
    }
  }

  /** Rings of the same node list give a key with hash h the same preference list, whatever the sort
      did with equal hashes. */
  ghost predicate AllRingsAgree(c: Config, ids: seq<Text>, h: uint64) {
    forall d1, d2 :: BuiltFrom(c, ids, d1) && BuiltFrom(c, ids, d2) ==> Prefs(d1, h) == Prefs(d2, h)
  }

  /** They do exactly when no two nodes tie at h. */
  lemma AgreementExactly(c: Config, ids: seq<Text>, h: uint64, data: seq<VNode>)
    requires c.vnodes > 0 && BuiltFrom(c, ids, data)
    ensures AllRingsAgree(c, ids, h) <==> TieFree(c, Elems(ids), h)
  {
    if TieFree(c, Elems(ids), h) {
      forall d1, d2 | BuiltFrom(c, ids, d1) && BuiltFrom(c, ids, d2) ensures Prefs(d1, h) == Prefs(d2, h) {
        BuiltIsRing(c, ids, d1);
        BuiltIsRing(c, ids, d2);
        RingsAgree(c, Elems(ids), d1, d2, h);
      }
    } else {
      var x, y :| x in Elems(ids) && y in Elems(ids) && x != y && Distance(c, x, h) == Distance(c, y, h);
      var d := TieIsArbitrary(c, ids, data, h, x, y);
    }
  }

  /** Replica agreement over all key hashes holds exactly when virtual nodes of different nodes never
      share a hash. */
  lemma AgreementForAllKeys(c: Config, ids: seq<Text>, data: seq<VNode>)
    requires c.vnodes > 0 && BuiltFrom(c, ids, data)
    ensures (forall h :: AllRingsAgree(c, ids, h)) <==> NoCollision(c, Elems(ids))
  {
    if NoCollision(c, Elems(ids)) {
      forall h: uint64 ensures AllRingsAgree(c, ids, h) {
        NoCollisionNoTie(c, Elems(ids), h);
        AgreementExactly(c, ids, h, data);
      }
    } else {
      var x, y, i: nat, j: nat :| x in Elems(ids) && y in Elems(ids) && x != y && Clash(c, x, i, y, j);
      ClashIsTie(c, x, i, y, j);
      AgreementExactly(c, ids, VHash(c, x, i), data);
    }
  }

  /** Two replicas that learnt of the same nodes in different orders, even with repeats, answer alike. */
  lemma OrderDoesNotMatter(c: Config, ids1: seq<Text>, ids2: seq<Text>, d1: seq<VNode>, d2: seq<VNode>, h: uint64)
    requires c.vnodes > 0 && Elems(ids1) == Elems(ids2) && TieFree(c, Elems(ids1), h)
    requires BuiltFrom(c, ids1, d1) && BuiltFrom(c, ids2, d2)
    ensures Prefs(d1, h) == Prefs(d2, h)
  {
    BuiltIsRing(c, ids1, d1);
    BuiltIsRing(c, ids2, d2);
    RingsAgree(c, Elems(ids1), d1, d2, h);
  }

  // ---------------------------------------------------------------- minimal disruption

  lemma DropMiddle(c: Config, ids: set<Text>, h: uint64, a: seq<Text>, x: Text, b: seq<Text>)
    requires c.vnodes > 0 && ByDistance(c, ids, h, a + [x] + b)
    ensures ByDistance(c, ids - {x}, h, a + b)
  {
    var s, r := a + [x] + b, a + b;
    forall i, j | 0 <= i < j < |r| ensures r[i] != r[j] && Distance(c, r[i], h) <= Distance(c, r[j], h) {
      var i', j' := if i < |a| then i else i + 1, if j < |a| then j else j + 1;
      assert s[i'] == r[i] && s[j'] == r[j];
    }
    assert s[|a|] == x;
    forall id ensures id in r <==> id in ids - {x} {
      assert id in s <==> id in a || id == x || id in b;
      if id in a { var i :| 0 <= i < |a| && a[i] == id; assert s[i] == id; }
      if id in b { var i :| 0 <= i < |b| && b[i] == id; assert s[|a| + 1 + i] == id; }
    }
  }

  /** The order of the other nodes does not depend on x. */
  lemma OrderWithout(c: Config, ids: set<Text>, x: Text, h: uint64, s: seq<Text>, t: seq<Text>)
    requires c.vnodes > 0 && TieFree(c, ids, h) && ByDistance(c, ids, h, s) && ByDistance(c, ids - {x}, h, t)
    ensures t == Without(s, x)
  {
    hide ByDistance, TieFree, NoDup;
    TieFreeLess(c, ids, h, x);
    Listed(c, ids, h, s);
    if x in s {
      var a, b := SplitAt(s, x);
      DropMiddle(c, ids, h, a, x, b);
      WithoutPresent(a, x, b);
      ByDistanceUnique(c, ids - {x}, h, t, a + b);
    } else {
      WithoutAbsent(s, x);
      assert ids - {x} == ids;
      ByDistanceUnique(c, ids, h, t, s);
    }
  }

  lemma Listed(c: Config, ids: set<Text>, h: uint64, s: seq<Text>)
    requires c.vnodes > 0 && ByDistance(c, ids, h, s)
    ensures NoDup(s) && forall id :: id in s <==> id in ids
  {
  }

  /** Minimal disruption: removing node x deletes x from the preference list of every key at whose hash no two
      nodes tie, and changes nothing else.  Read right to left it is the same statement about x joining. */
  lemma MinimalDisruption(c: Config, ids: seq<Text>, ids': seq<Text>, x: Text, d: seq<VNode>, d': seq<VNode>, h: uint64)
    requires c.vnodes > 0 && TieFree(c, Elems(ids), h)
    requires Elems(ids') == Elems(ids) - {x}
    requires BuiltFrom(c, ids, d) && BuiltFrom(c, ids', d')
    ensures Prefs(d', h) == Without(Prefs(d, h), x)
  {
    hide *;
    BuiltIsRing(c, ids, d);
    BuiltIsRing(c, ids', d');
    PrefsByDistance(c, Elems(ids), d, h);
    PrefsByDistance(c, Elems(ids'), d', h);
    OrderWithout(c, Elems(ids), x, h, Prefs(d, h), Prefs(d', h));
  }

  /** The first n of a list without x, in terms of the first n of the list. */
  lemma TakeWithout(full: seq<Text>, x: Text, n: nat)
    requires NoDup(full)
    ensures x !in Take(full, n) ==> Take(Without(full, x), n) == Take(full, n)
    ensures x in Take(full, n) ==>
              Take(Without(full, x), n) == Without(Take(full, n), x) + (if n < |full| then [full[n]] else [])
    ensures full != [] && full[0] != x ==> Without(full, x) != [] && Without(full, x)[0] == full[0]
  {
    if x !in full {
      WithoutAbsent(full, x);
    } else {
      var a, b := SplitAt(full, x);
      WithoutPresent(a, x, b);
      if |a| < n {
        InsideTake(a, x, b, n);
      } else {
        assert Take(full, n) == a[..n];
      }
    }
  }

  lemma InsideTake(a: seq<Text>, x: Text, b: seq<Text>, n: nat)
    requires |a| < n && x !in a && x !in b
    ensures var full := a + [x] + b;
            && x in Take(full, n)
            && Take(a + b, n) == Without(Take(full, n), x) + (if n < |full| then [full[n]] else [])
  {
    var full := a + [x] + b;
    var m := n - |a| - 1;
    if n < |full| {
      assert Take(full, n) == a + [x] + b[..m];
      WithoutPresent(a, x, b[..m]);
      assert full[n] == b[m];
      assert Take(a + b, n) == a + b[..m] + [b[m]];
    } else {
      WithoutPresent(a, x, b);
      assert Take(full, n) == full;
      assert Take(a + b, n) == a + b + [];
    }
    assert Take(full, n)[|a|] == x;
  }

  /** The element at n as a list, nothing if there is none. */
  function Nth(s: seq<Text>, n: nat): seq<Text> {
    if n < |s| then [s[n]] else []
  }

  /** What a leave of x does to the answers of two rings that differ in x alone, for every key at whose hash no two
      nodes tie: a replica list without x is unchanged; from one with x, x drops out, at most one node comes in -
      the next in the old order - and the others stay; a key that x did not own keeps its owner.  Read from left to
      full it says the same of a join. */
  lemma ReplicaListChange(full: HashRing, left: HashRing, x: Text, h: uint64, n: nat)
    requires full.Valid() && left.Valid() && left.config == full.config && left.Nodes() == full.Nodes() - {x}
    requires TieFree(full.config, full.Nodes(), h)
    ensures var was, now := Replicas(full.data, h, n), Replicas(left.data, h, n);
            now == if x in was then Without(was, x) + Nth(Replicas(full.data, h, n + 1), n) else was
    ensures full.Nodes() != {} && Owner(full.data, h) != x ==> Owner(left.data, h) == Owner(full.data, h)
  {
    hide Prefs, BuiltFrom, Take, Distance;
    RingSets(full);
    RingSets(left);
    MinimalDisruption(full.config, full.members, left.members, x, full.data, left.data, h);
    PrefsMeaning(full.config, full.Nodes(), full.data, h, n, n);
    TakeWithout(Prefs(full.data, h), x, n);
    TakeAt(Prefs(full.data, h), n);
  }

  lemma RingSets(r: HashRing)
    requires r.Valid()
    ensures r.Nodes() == Elems(r.members) && IsRing(r.config, r.Nodes(), r.data)
  {
    BuiltIsRing(r.config, r.members, r.data);
    RingNodes(r.config, Elems(r.members), r.data);
  }

  lemma TakeAt(s: seq<Text>, n: nat)
    ensures Nth(Take(s, n + 1), n) == if n < |s| then [s[n]] else []
    ensures n == 0 ==> Take(s, n) == []
  {
  }
}
