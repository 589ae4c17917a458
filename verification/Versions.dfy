/** Versions of stored items: packing a clock stamp into an int64 and assigning versions to writes
    (internal/cluster/writer.go). */
module Versions {
  import opened Base
  import opened Clocks

  const MAX_INT64: int64 := 0x7FFF_FFFF_FFFF_FFFF
  const MAX_PACKED_CTR: int := 65535

  function Saturate(ctr: uint64): int {
    if ctr > MAX_PACKED_CTR then MAX_PACKED_CTR else ctr
  }

  /** The low 48 bits of the time above 16 bits of counter, read as a signed 64-bit integer. */
  function Pack(s: Stamp): int64 {
    Wrap64(s.ts % TWO48 * TWO16 + Saturate(s.ctr))
  }

  /** The version of a printed stamp; text that does not parse falls back to a clock reading. */
  function HlcToInt64(text: Text, clock: int64): int64 {
    if Parse(text).Some? then Pack(Parse(text).value) else clock
  }

  method PackText(text: Text, clock: int64) returns (v: int64)
    ensures v == HlcToInt64(text, clock)
  {
    var r := ParseText(text);
    v := if r.None? then clock else Pack(r.value);
  }

  // ---------------------------------------------------------------- order preservation

  /** Timestamps fall into windows of 2^48 nanoseconds, [k*2^48 - 2^47, k*2^48 + 2^47). */
  function Window(ts: int): int {
    (ts + TWO47) / TWO48
  }

  /** What is left of a timestamp: its offset from the centre of its window. */
  function Offset(ts: int): int {
    ts - Window(ts) * TWO48
  }

  lemma OffsetRange(ts: int)
    ensures -TWO47 <= Offset(ts) < TWO47
    ensures ts % TWO48 == if Offset(ts) >= 0 then Offset(ts) else Offset(ts) + TWO48
  {
  }

  lemma PackShape(s: Stamp)
    ensures Pack(s) == Offset(s.ts) * TWO16 + Saturate(s.ctr)
  {
    OffsetRange(s.ts);
    var x := s.ts % TWO48 * TWO16 + Saturate(s.ctr);
    assert 0 <= x < TWO64;
  }

  /** The order of packed versions, in terms of the stamps. */
  lemma PackOrder(a: Stamp, b: Stamp)
    ensures Pack(a) < Pack(b) <==>
            Offset(a.ts) < Offset(b.ts) || (Offset(a.ts) == Offset(b.ts) && Saturate(a.ctr) < Saturate(b.ctr))
  {
    PackShape(a);
    PackShape(b);
  }

  /** For stamps less than 2^48 nanoseconds (about 3.3 days) apart whose counters fit 16 bits, packing
      keeps the clock order exactly when both lie in one window. */
  lemma PackKeepsOrder(a: Stamp, b: Stamp)
    requires Less(a, b) && b.ts - a.ts < TWO48
    requires a.ctr <= MAX_PACKED_CTR && b.ctr <= MAX_PACKED_CTR
    ensures Pack(a) < Pack(b) <==> Window(a.ts) == Window(b.ts)
  {
    PackOrder(a, b);
    OffsetRange(a.ts);
    OffsetRange(b.ts);
    WindowStep(a.ts, b.ts);
  }

  lemma WindowStep(x: int, y: int)
    requires x <= y < x + TWO48
    ensures Window(y) == Window(x) || Window(y) == Window(x) + 1
  {
  }

  /** One nanosecond across a window edge turns the largest version into the smallest. */
  lemma WindowEdgeExample(k: int)
    requires 0 <= k < 0x7FFF
    ensures var t := k * TWO48 + TWO47;
            Pack(Stamp(t, 0)) < Pack(Stamp(t - 1, 0))
  {
    var t := k * TWO48 + TWO47;
    assert Window(t) == k + 1 && Window(t - 1) == k;
    PackOrder(Stamp(t, 0), Stamp(t - 1, 0));
  }

  /** Within one nanosecond, distinct counters give distinct versions exactly below 65535. */
  lemma SaturationExactly(ts: int64, c: uint64, d: uint64)
    requires c < d
    ensures Pack(Stamp(ts, c)) < Pack(Stamp(ts, d)) <==> c < MAX_PACKED_CTR
  {
    PackOrder(Stamp(ts, c), Stamp(ts, d));
  }

  /** Versions taken from one clock increase along any run, as long as the clock stays in one window and
      its counter within 16 bits; the wall clock may do anything. */
  lemma IssuedVersionsIncrease(s: Stamp, es: seq<Event>, m: nat, n: nat)
    requires NoWrap(s, es) && m < n < |es| && es[n].Local?
    requires var a, b := After(s, es, m + 1), After(s, es, n + 1);
             Window(a.ts) == Window(b.ts) && a.ctr <= MAX_PACKED_CTR && b.ctr <= MAX_PACKED_CTR
    ensures Pack(After(s, es, m + 1)) < Pack(After(s, es, n + 1))
  {
    Causality(s, es, m + 1, n);
    OneWindow(After(s, es, m + 1), After(s, es, n + 1));
  }

  lemma OneWindow(a: Stamp, b: Stamp)
    requires Less(a, b) && Window(a.ts) == Window(b.ts)
    requires a.ctr <= MAX_PACKED_CTR && b.ctr <= MAX_PACKED_CTR
    ensures Pack(a) < Pack(b)
  {
    PackOrder(a, b);
  }

  /** The version a node takes from its own clock is the packed stamp, if the text form carries it. */
  lemma OwnVersion(id: Text, s: Stamp, clock: int64)
    requires COLON !in id && s.ts >= 0 && s.ctr < TWO63
    ensures HlcToInt64(Print(id, s), clock) == Pack(s)
  {
    PrintParse(id, s);
  }

  /** A node whose ID has one colon, followed by something other than digits, never reads its own stamps: its versions
      are readings of the wall clock, whatever its logical clock says. */
  lemma VersionFallsBack(a: Text, t: Text, s: Stamp, clock: int64)
    requires COLON !in a && COLON !in t && exists i :: 0 <= i < |t| && !IsDigit(t[i])
    ensures HlcToInt64(Print(a + [COLON] + t, s), clock) == clock
  {
    var c := PrintThroughId(a + [COLON] + t, a, t, t, [], s);
    ColonAt(a, t + [COLON] + c);
    ColonAt(t, c);
    DigitPrefixAll(t);
  }

  // ---------------------------------------------------------------- assignment

  type Memory = map<Text, int64>

  /** The version given to a write: the packed stamp, or one more than the last version when that is not
      below it; the addition is 64-bit. */
  function Assign(m: Memory, key: Text, packed: int64): int64 {
    if key in m && packed <= m[key] then Wrap64(m[key] as int + 1) else packed
  }

  /** A remembered key gets a greater version, except at the largest int64. */
  lemma AssignAdvances(m: Memory, key: Text, packed: int64)
    requires key in m
    ensures Assign(m, key, packed) > m[key] <==> m[key] < MAX_INT64
    ensures m[key] < MAX_INT64 ==> Assign(m, key, packed) >= packed
  {
  }

  /** What a write gets: the least version that is not below the clock's and above the last one remembered; after the
      largest int64 the count starts over at the smallest. */
  lemma AssignsLeast(m: Memory, key: Text, packed: int64, w: int64)
    ensures var v := Assign(m, key, packed);
            if key in m && m[key] == MAX_INT64 then v == -TWO63
            else && v >= packed && (key in m ==> v > m[key])
                 && (w >= packed && (key in m ==> w > m[key]) ==> v <= w)
  {
  }

  /** m' keeps some of the entries of m and adds none. */
  ghost predicate Kept(m: Memory, m': Memory) {
    forall k :: k in m' ==> k in m && m'[k] == m[k]
  }

  const MAX_VERSIONS: nat := 10000
  const CLEANUP_FRACTION: nat := 5

  /** How many keys are remembered when there would be n: past 10000 it is cut back to 8000. */
  function Trimmed(n: nat): nat {
    if n <= MAX_VERSIONS then n else MAX_VERSIONS - MAX_VERSIONS / CLEANUP_FRACTION
  }

  /** m' is what may be remembered after key gets version v: this write recorded, and if that is too much any
      keys may go, the one just written included. */
  ghost predicate Remembers(m: Memory, key: Text, v: int64, m': Memory) {
    Kept(m[key := v], m') && |m'| == Trimmed(|m[key := v]|)
  }

  /** A run of writes: before[i] is what is remembered before the i-th write, which gets version vs[i]. */
  ghost predicate WriteRun(before: seq<Memory>, keys: seq<Text>, packed: seq<int64>, vs: seq<int64>) {
    && |before| == |keys| + 1 && |packed| == |keys| && |vs| == |keys|
    && (forall i :: 0 <= i < |keys| ==> vs[i] == Assign(before[i], keys[i], packed[i]))
    && forall i :: 0 <= i < |keys| ==> Remembers(before[i], keys[i], vs[i], before[i + 1])
  }

  lemma {:induction false} MemoryOnlyGrows(before: seq<Memory>, keys: seq<Text>, packed: seq<int64>, vs: seq<int64>, i: nat, t: nat)
    requires WriteRun(before, keys, packed, vs) && i < t <= |keys|
    requires forall u :: i < u <= t ==> keys[i] in before[u] && before[u][keys[i]] < MAX_INT64
    ensures before[t][keys[i]] >= vs[i]
    decreases t
  {
    var u := t - 1;
    assert Remembers(before[u], keys[u], vs[u], before[t]);
    if u > i {
      MemoryOnlyGrows(before, keys, packed, vs, i, u);
      AssignAdvances(before[u], keys[i], packed[u]);
    }
  }

  /** Across any window edge and any clock: two writes of a key that stayed remembered in between get
      strictly increasing versions, barring the largest int64. */
  lemma RememberedVersionsIncrease(before: seq<Memory>, keys: seq<Text>, packed: seq<int64>, vs: seq<int64>, i: nat, j: nat)
    requires WriteRun(before, keys, packed, vs) && i < j < |keys| && keys[i] == keys[j]
    requires forall u :: i < u <= j ==> keys[i] in before[u] && before[u][keys[i]] < MAX_INT64
    ensures vs[i] < vs[j]
  {
    MemoryOnlyGrows(before, keys, packed, vs, i, j);
    AssignAdvances(before[j], keys[j], packed[j]);
  }

  /** A key still remembered at its next write is remembered with its last version. */
  lemma {:induction false} LastRemembered(
      before: seq<Memory>, keys: seq<Text>, packed: seq<int64>, vs: seq<int64>, i: nat, t: nat)
    requires WriteRun(before, keys, packed, vs) && i < t <= |keys|
    requires keys[i] in before[t] && forall u :: i < u < t ==> keys[u] != keys[i]
    ensures before[t][keys[i]] == vs[i]
    decreases t
  {
    var u := t - 1;
    assert Remembers(before[u], keys[u], vs[u], before[t]);
    if u > i {
      LastRemembered(before, keys, packed, vs, i, u);
    }
  }

  /** Exactly when two successive writes of a key get increasing versions, over every run: if the key is still
      remembered, always but at the largest int64; if it was forgotten, when the clock's own version is greater. */
  lemma NextWriteIncreasesExactly(
      before: seq<Memory>, keys: seq<Text>, packed: seq<int64>, vs: seq<int64>, i: nat, j: nat)
    requires WriteRun(before, keys, packed, vs) && i < j < |keys| && keys[i] == keys[j]
    requires forall u :: i < u < j ==> keys[u] != keys[i]
    ensures vs[i] < vs[j] <==> if keys[j] in before[j] then vs[i] < MAX_INT64 else vs[i] < packed[j]
  {
    if keys[j] in before[j] {
      LastRemembered(before, keys, packed, vs, i, j);
      AssignAdvances(before[j], keys[j], packed[j]);
    }
  }

  /** n other keys, remembered. */
  function Others(key: Text, n: nat): Memory {
    if n == 0 then map[] else Others(key, n - 1)[key + seq(n, _ => 0) := 0]
  }

  lemma {:induction false} OthersFacts(key: Text, n: nat)
    ensures |Others(key, n)| == n
    ensures forall k :: k in Others(key, n) ==> |key| < |k| <= |key| + n && Others(key, n)[k] == 0
  {
    if n > 0 {
      OthersFacts(key, n - 1);
      var p, k := Others(key, n - 1), key + seq(n, _ => 0);
      assert k !in p;
      assert p[k := 0].Keys == p.Keys + {k};
    }
  }

  lemma {:induction false} FewerOthers(key: Text, m: nat, n: nat)
    requires m <= n
    ensures Kept(Others(key, n), Others(key, m))
    decreases n
  {
    if m < n {
      FewerOthers(key, m, n - 1);
      OthersFacts(key, m);
    }
  }

  /** The memory grows by a new key. */
  lemma OneMore(m: Memory, key: Text, v: int64)
    requires key !in m
    ensures |m[key := v]| == |m| + 1
  {
    assert m[key := v].Keys == m.Keys + {key};
  }

  /** The forgotten case happens: with 10000 other keys remembered, a write of key can be forgotten at once, and
      a write one nanosecond later, across a window edge, then gets a smaller version. */
  lemma ForgottenExample(key: Text) returns (m: Memory, m': Memory)
    ensures |m| == MAX_VERSIONS && key !in m
    ensures var p, q := Pack(Stamp(TWO47 - 1, 0)), Pack(Stamp(TWO47, 0));
            WriteRun([m, m', m'[key := q]], [key, key], [p, q], [p, q]) && q < p
  {
    WindowEdgeExample(0);
    var p, q := Pack(Stamp(TWO47 - 1, 0)), Pack(Stamp(TWO47, 0));
    var few := MAX_VERSIONS - MAX_VERSIONS / CLEANUP_FRACTION;
    m, m' := Others(key, MAX_VERSIONS), Others(key, few);
    FullMemory(key, MAX_VERSIONS, few, m, m', p);
    OneMore(m', key, q);
    assert Remembers(m, key, p, m') && Remembers(m', key, q, m'[key := q]);
    assert Assign(m, key, p) == p && Assign(m', key, q) == q;
  }

  lemma FullMemory(key: Text, n: nat, few: nat, m: Memory, m': Memory, p: int64)
    requires few <= n && m == Others(key, n) && m' == Others(key, few)
    ensures |m| == n && |m'| == few && key !in m && key !in m' && |m[key := p]| == n + 1 && Kept(m[key := p], m')
  {
    OthersFacts(key, n);
    OthersFacts(key, few);
    FewerOthers(key, few, n);
    OneMore(m, key, p);
  }

  /** The version of a tombstone. */
  function DeleteVersion(packed: int64, version: int64): int64 {
    var v := if packed <= version then Wrap64(version + 1) else packed;
    if v <= 0 then 1 else v
  }

  /** A tombstone's version is always positive, and beats the version given unless that is the largest. */
  lemma TombstoneWins(packed: int64, version: int64)
    ensures DeleteVersion(packed, version) > 0
    ensures DeleteVersion(packed, version) > version <==> version < MAX_INT64
    ensures version < MAX_INT64 ==> DeleteVersion(packed, version) >= packed
  {
  }

  /** It is the least such version: positive, not below the clock's, above the one given; 1 after the largest. */
  lemma TombstoneLeast(packed: int64, version: int64, w: int64)
    ensures version == MAX_INT64 ==> DeleteVersion(packed, version) == 1
    ensures w > 0 && w >= packed && w > version ==> DeleteVersion(packed, version) <= w
  {
  }

  // ---------------------------------------------------------------- the writer

  class Writer {
    const hlc: HLC
    var lastVersions: Memory

    constructor (hlc: HLC)
      ensures this.hlc == hlc && lastVersions == map[]
    {
      this.hlc := hlc;
      lastVersions := map[];
    }

    /** The versioning part of Set. */
    method NextVersion(key: Text, wall: int64, clock: int64) returns (version: int64)
      modifies this, hlc
      ensures hlc.Shown() == Tick(old(hlc.Shown()), wall)
      ensures version == Assign(old(lastVersions), key, HlcToInt64(Print(hlc.nodeID, hlc.Shown()), clock))
      ensures Remembers(old(lastVersions), key, version, lastVersions)
    {
      var text := hlc.Now(wall);
      version := PackText(text, clock);
      if key in lastVersions && version <= lastVersions[key] {
        version := Wrap64(lastVersions[key] as int + 1);
      }
      lastVersions := lastVersions[key := version];
      if |lastVersions| > MAX_VERSIONS {
        var toRemove := |lastVersions| - MAX_VERSIONS + MAX_VERSIONS / CLEANUP_FRACTION;
        lastVersions := Forget(lastVersions, toRemove);
      }
    }

    /** Removes n entries, in an order the caller cannot predict. */
    static method Forget(m: Memory, n: nat) returns (r: Memory)
      requires n <= |m|
      ensures Kept(m, r) && |r| == |m| - n
    {
      r := m;
      for count := 0 to n
        invariant Kept(m, r) && |r| == |m| - count
      {
        var k :| k in r;
        assert r.Keys == (r - {k}).Keys + {k};
        r := r - {k};
      }
    }

    /** The versioning part of Delete; the memory is not consulted and not changed. */
    method NextTombstone(version: int64, wall: int64, clock: int64) returns (v: int64)
      modifies hlc
      ensures hlc.Shown() == Tick(old(hlc.Shown()), wall)
      ensures v == DeleteVersion(HlcToInt64(Print(hlc.nodeID, hlc.Shown()), clock), version)
    {
      var text := hlc.Now(wall);
      v := PackText(text, clock);
      if v <= version {
        v := Wrap64(version + 1);
      }
      if v <= 0 {
        v := 1;
      }
    }
  }
}
