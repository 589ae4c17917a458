/** Anti-entropy digests (internal/cluster/entropy.go): a Bloom filter and a version table of one store,
    and the comparison of a store with another's digest. */
module Entropy {
  import opened Base

  const BLOOM_BITS: nat := 1024 * 8

  /** What a store answers: the keys it lists and, per key, the version of the item Get returns. */
  datatype Store = Store(keys: seq<Text>, got: map<Text, int64>)

  /** Nothing expires or fails to decode between the listing and the reads. */
  ghost predicate Steady(s: Store) {
    NoDup(s.keys) && forall k :: k in s.keys <==> k in s.got
  }

  // ---------------------------------------------------------------- bits

  function Mask(bit: nat): bv8
    requires bit < 8
  {
    1 << bit
  }

  predicate HasBit(b: bv8, bit: nat)
    requires bit < 8
  {
    b & Mask(bit) != 0
  }

  function WithBit(b: bv8, bit: nat): bv8
    requires bit < 8
  {
    b | Mask(bit)
  }

  predicate BitAt(bloom: seq<bv8>, i: nat, bit: nat)
    requires bit < 8
  {
    i < |bloom| && HasBit(bloom[i], bit)
  }

  predicate Bit(bloom: seq<bv8>, p: nat) {
    BitAt(bloom, p / 8, p % 8)
  }

  lemma MaskIs(i: nat)
    requires i < 8
    ensures Mask(i) == if i == 0 then 1 else if i == 1 then 2 else if i == 2 then 4 else if i == 3 then 8
                       else if i == 4 then 16 else if i == 5 then 32 else if i == 6 then 64 else 128
  {
  }

  lemma OrMask(b: bv8, m: bv8, n: bv8)
    requires m in {1, 2, 4, 8, 16, 32, 64, 128} && n in {1, 2, 4, 8, 16, 32, 64, 128}
    ensures (b | m) & n != 0 <==> m == n || b & n != 0
  {
  }

  lemma OrBit(b: bv8, i: nat, j: nat)
    requires i < 8 && j < 8
    ensures HasBit(WithBit(b, i), j) <==> i == j || HasBit(b, j)
  {
    hide Mask;
    MaskIs(i);
    MaskIs(j);
    OrMask(b, Mask(i), Mask(j));
  }

  lemma SamePlace(p: nat, q: nat)
    ensures p / 8 == q / 8 && p % 8 == q % 8 <==> p == q
  {
  }

  lemma SetBitAt(bloom: seq<bv8>, i: nat, bit: nat, j: nat, other: nat)
    requires i < |bloom| && bit < 8 && other < 8
    ensures BitAt(bloom[i := WithBit(bloom[i], bit)], j, other) <==> (j == i && other == bit) || BitAt(bloom, j, other)
  {
    hide Mask, HasBit, WithBit;
    if j == i {
      OrBit(bloom[i], bit, other);
    }
  }

  /** Setting a bit sets that bit and no other. */
  lemma SetBit(bloom: seq<bv8>, q: nat, p: nat)
    requires q / 8 < |bloom|
    ensures Bit(bloom[q / 8 := WithBit(bloom[q / 8], q % 8)], p) <==> p == q || Bit(bloom, p)
  {
    hide Mask, HasBit, WithBit, BitAt;
    SetBitAt(bloom, q / 8, q % 8, p / 8, p % 8);
    SamePlace(p, q);
  }

  // ---------------------------------------------------------------- digests

  predicate InRange(key: Text, rangeKey: Text) {
    |key| >= |rangeKey| && key[..|rangeKey|] == rangeKey
  }

  function KeysInRange(keys: seq<Text>, rangeKey: Text): seq<Text> {
    if keys == [] then [] else
      var last := keys[|keys| - 1];
      KeysInRange(keys[..|keys| - 1], rangeKey) + if InRange(last, rangeKey) then [last] else []
  }

  lemma {:induction false} EverythingInRange(keys: seq<Text>)
    ensures KeysInRange(keys, []) == keys
  {
    if keys != [] {
      EverythingInRange(keys[..|keys| - 1]);
      assert keys == keys[..|keys| - 1] + [keys[|keys| - 1]];
    }
  }

  /** The keys in a range are the listed ones that begin with the range key, each once if listed once. */
  lemma {:induction false} RangeExactly(keys: seq<Text>, rangeKey: Text, k: Text)
    ensures k in KeysInRange(keys, rangeKey) <==> k in keys && rangeKey <= k
    ensures NoDup(keys) ==> NoDup(KeysInRange(keys, rangeKey))
  {
    if keys != [] {
      var p, last := keys[..|keys| - 1], keys[|keys| - 1];
      assert keys == p + [last];
      RangeExactly(p, rangeKey, k);
      RangeExactly(p, rangeKey, last);
      assert NoDup(keys) ==> last !in p;
    }
  }

  /** The bits of some keys in a filter of the given size. */
  ghost function Marks(keys: seq<Text>, hash: Text -> uint64): set<nat> {
    set k | k in keys :: hash(k) as int % BLOOM_BITS
  }

  lemma MarksSnoc(keys: seq<Text>, key: Text, hash: Text -> uint64)
    ensures Marks(keys + [key], hash) == Marks(keys, hash) + {hash(key) as int % BLOOM_BITS}
  {
  }

  ghost predicate Filters(bloom: seq<bv8>, keys: seq<Text>, hash: Text -> uint64) {
    |bloom| == BLOOM_BITS / 8 && forall p: nat :: Bit(bloom, p) <==> p in Marks(keys, hash)
  }

  lemma FiltersNext(bloom: seq<bv8>, keys: seq<Text>, key: Text, hash: Text -> uint64, q: nat)
    requires Filters(bloom, keys, hash) && q == hash(key) as int % BLOOM_BITS
    ensures Filters(bloom[q / 8 := WithBit(bloom[q / 8], q % 8)], keys + [key], hash)
  {
    hide Bit, WithBit, Marks;
    MarksSnoc(keys, key, hash);
    forall p: nat ensures Bit(bloom[q / 8 := WithBit(bloom[q / 8], q % 8)], p) <==> p in Marks(keys + [key], hash) {
      SetBit(bloom, q, p);
    }
  }

  /** The table has the positive versions of the keys. */
  ghost predicate Versions(vv: map<Text, int64>, keys: seq<Text>, got: map<Text, int64>) {
    forall k :: (k in vv <==> k in keys && k in got && got[k] > 0) && (k in vv ==> vv[k] == got[k])
  }

  lemma VersionsNext(vv: map<Text, int64>, next: map<Text, int64>, keys: seq<Text>, key: Text, got: map<Text, int64>)
    requires Versions(vv, keys, got)
    requires next == if key in got && got[key] > (if key in vv then vv[key] else 0) then vv[key := got[key]] else vv
    ensures Versions(next, keys + [key], got)
  {
  }

  method FilterKeys(keys: seq<Text>, rangeKey: Text) returns (r: seq<Text>)
    ensures r == KeysInRange(keys, rangeKey)
  {
    if rangeKey == [] {
      EverythingInRange(keys);
      return keys;
    }
    r := [];
    for i := 0 to |keys|
      invariant r == KeysInRange(keys[..i], rangeKey)
    {
      assert keys[..i + 1][..i] == keys[..i];
      if |keys[i]| >= |rangeKey| && keys[i][..|rangeKey|] == rangeKey {
        r := r + [keys[i]];
      }
    }
    assert keys[..|keys|] == keys;
  }

  method Digest(s: Store, hash: Text -> uint64, rangeKey: Text) returns (bloom: array<bv8>, vv: map<Text, int64>)
    ensures fresh(bloom)
    ensures Filters(bloom[..], KeysInRange(s.keys, rangeKey), hash)
    ensures Versions(vv, KeysInRange(s.keys, rangeKey), s.got)
  {
    hide Bit, Mask, HasBit, WithBit, KeysInRange, Filters, Versions;
    var keys := FilterKeys(s.keys, rangeKey);
    bloom := new bv8[BLOOM_BITS / 8](_ => 0);
    vv := map[];
    EmptyDigest(bloom[..], s.got, hash);
    for i := 0 to |keys|
      invariant Filters(bloom[..], keys[..i], hash)
      invariant Versions(vv, keys[..i], s.got)
    {
      var key := keys[i];
      assert keys[..i + 1] == keys[..i] + [key];
      var q := hash(key) as int % BLOOM_BITS;
      ghost var was := bloom[..];
      FiltersNext(was, keys[..i], key, hash, q);
      bloom[q / 8] := WithBit(bloom[q / 8], q % 8);
      assert bloom[..] == was[q / 8 := WithBit(was[q / 8], q % 8)];
      ghost var before := vv;
      if key in s.got && s.got[key] > (if key in vv then vv[key] else 0) {
        vv := vv[key := s.got[key]];
      }
      VersionsNext(before, vv, keys[..i], key, s.got);
    }
    assert keys[..|keys|] == keys;
  }

  lemma EmptyDigest(bloom: seq<bv8>, got: map<Text, int64>, hash: Text -> uint64)
    requires |bloom| == BLOOM_BITS / 8 && forall i :: 0 <= i < |bloom| ==> bloom[i] == 0
    ensures Filters(bloom, [], hash) && Versions(map[], [], got)
  {
    hide Mask, HasBit;
    forall p: nat ensures !Bit(bloom, p) {
      if p / 8 < |bloom| {
        ZeroBit(p % 8);
      }
    }
  }

  lemma ZeroBit(bit: nat)
    requires bit < 8
    ensures !HasBit(0, bit)
  {
  }

  /** Which bits of the filter are set: bit b of byte i is when some key's hash ends in them. */
  lemma FilterBits(bloom: seq<bv8>, keys: seq<Text>, hash: Text -> uint64, i: nat, b: nat)
    requires Filters(bloom, keys, hash) && i < 1024 && b < 8
    ensures |bloom| == 1024
    ensures bloom[i] & (1 << b) != 0 <==>
            exists k :: k in keys && hash(k) as int / 8 % 1024 == i && hash(k) as int % 8 == b
  {
    var p := 8 * i + b;
    BitPlace(i, b);
    assert Bit(bloom, p) <==> bloom[i] & (1 << b) != 0;
    forall k | k in keys
      ensures hash(k) as int % BLOOM_BITS == p <==> hash(k) as int / 8 % 1024 == i && hash(k) as int % 8 == b
    {
      HashPlace(hash(k) as int);
    }
  }

  lemma BitPlace(i: nat, b: nat)
    requires b < 8
    ensures (8 * i + b) / 8 == i && (8 * i + b) % 8 == b
  {
  }

  lemma HashPlace(h: nat)
    ensures h % 8192 == 8 * (h / 8 % 1024) + h % 8
  {
  }

  // ---------------------------------------------------------------- comparison

  /** Whether a listed key is reported: the filters disagree about it, or the remote version is newer, or the
      remote filter has it and the remote table does not, or it can no longer be read but the remote has it. */
  ghost predicate Reported(s: Store, hash: Text -> uint64, bloom: seq<bv8>, vv: map<Text, int64>, key: Text) {
    bloom == [] ||
    (var p := hash(key) as int % (|bloom| * 8);
     || Bit(bloom, p) != (p in Marks(s.keys, hash))
     || (if key in s.got then (if key in vv then s.got[key] < vv[key] else Bit(bloom, p)) else key in vv))
  }

  ghost function ReportedKeys(s: Store, hash: Text -> uint64, bloom: seq<bv8>, vv: map<Text, int64>, n: nat): seq<Text>
    requires n <= |s.keys|
  {
    if n == 0 then [] else
      ReportedKeys(s, hash, bloom, vv, n - 1) +
      if Reported(s, hash, bloom, vv, s.keys[n - 1]) then [s.keys[n - 1]] else []
  }

  /** The answer of Sync: reported local keys in order, then the remote table's keys that cannot be read here. */
  ghost predicate IsDiff(diff: seq<Text>, s: Store, hash: Text -> uint64, bloom: seq<bv8>, vv: map<Text, int64>) {
    var own := ReportedKeys(s, hash, bloom, vv, |s.keys|);
    && own <= diff
    && NoDup(diff[|own|..])
    && forall k :: k in diff[|own|..] <==> k in vv && k !in s.got
  }

  method Sync(s: Store, hash: Text -> uint64, bloom: seq<bv8>, vv: map<Text, int64>) returns (diff: seq<Text>)
    ensures IsDiff(diff, s, hash, bloom, vv)
  {
    hide Bit, Mask, Marks, KeysInRange;
    diff := [];
    var localBloom, _ := Digest(s, hash, []);
    EverythingInRange(s.keys);
    for i := 0 to |s.keys|
      invariant Filters(localBloom[..], s.keys, hash)
      invariant diff == ReportedKeys(s, hash, bloom, vv, i)
    {
      var key := s.keys[i];
      if |bloom| == 0 {
        diff := diff + [key];
        continue;
      }
      var p := hash(key) as int % (|bloom| * 8);
      var hasKey := Bit(bloom, p);
      var localHasKey := Bit(localBloom[..], p);
      if hasKey != localHasKey {
        diff := diff + [key];
      } else if key in s.got {
        if key in vv {
          if s.got[key] < vv[key] {
            diff := diff + [key];
          }
        } else if hasKey {
          diff := diff + [key];
        }
      } else if key in vv {
        diff := diff + [key];
      }
    }
    diff := AppendMissing(diff, s.got, vv);
  }

  /** The remote table's keys that cannot be read here, after what is already reported. */
  method AppendMissing(own: seq<Text>, got: map<Text, int64>, vv: map<Text, int64>) returns (diff: seq<Text>)
    ensures own <= diff
    ensures NoDup(diff[|own|..]) && forall k :: k in diff[|own|..] <==> k in vv && k !in got
  {
    diff := own;
    ghost var rest := [];
    var remote := ListOf(vv.Keys);
    for j := 0 to |remote|
      invariant diff == own + rest
      invariant NoDup(rest) && forall k :: k in rest <==> k in remote[..j] && k !in got
    {
      assert remote[..j + 1] == remote[..j] + [remote[j]];
      assert remote[j] !in remote[..j];
      if remote[j] !in got {
        diff := diff + [remote[j]];
        rest := rest + [remote[j]];
      }
    }
    assert diff[|own|..] == rest;
    assert remote[..|remote|] == remote;
  }

  // ---------------------------------------------------------------- what the comparison finds

  /** A store's full digest. */
  ghost predicate IsDigest(bloom: seq<bv8>, vv: map<Text, int64>, s: Store, hash: Text -> uint64) {
    Filters(bloom, s.keys, hash) && Versions(vv, s.keys, s.got)
  }

  /** The key is on one side only, or the local version is older. */
  ghost predicate Differs(local: Store, remote: Store, k: Text) {
    || (k in local.got) != (k in remote.got)
    || (k in local.got && k in remote.got && local.got[k] < remote.got[k])
  }

  lemma {:induction false} ReportedMembers(
      s: Store, hash: Text -> uint64, bloom: seq<bv8>, vv: map<Text, int64>, n: nat, k: Text)
    requires n <= |s.keys|
    ensures k in ReportedKeys(s, hash, bloom, vv, n) <==> k in s.keys[..n] && Reported(s, hash, bloom, vv, k)
  {
    hide Reported;
    if n > 0 {
      ReportedMembers(s, hash, bloom, vv, n - 1, k);
      assert s.keys[..n] == s.keys[..n - 1] + [s.keys[n - 1]];
    }
  }

  lemma {:induction false} ReportedOnce(s: Store, hash: Text -> uint64, bloom: seq<bv8>, vv: map<Text, int64>, n: nat)
    requires n <= |s.keys| && NoDup(s.keys)
    ensures NoDup(ReportedKeys(s, hash, bloom, vv, n))
  {
    hide Reported;
    if n > 0 {
      ReportedOnce(s, hash, bloom, vv, n - 1);
      ReportedMembers(s, hash, bloom, vv, n - 1, s.keys[n - 1]);
    }
  }

  lemma DiffMembers(diff: seq<Text>, s: Store, hash: Text -> uint64, bloom: seq<bv8>, vv: map<Text, int64>, k: Text)
    requires IsDiff(diff, s, hash, bloom, vv)
    ensures k in diff <==> (k in s.keys && Reported(s, hash, bloom, vv, k)) || (k in vv && k !in s.got)
  {
    hide Reported;
    var own := ReportedKeys(s, hash, bloom, vv, |s.keys|);
    ReportedMembers(s, hash, bloom, vv, |s.keys|, k);
    assert s.keys[..|s.keys|] == s.keys;
    assert diff == own + diff[|own|..];
  }

  /** Whatever the hash, a local key is reported exactly when the other store does not have it, has it newer,
      or has it at a version that is not positive. */
  lemma CollisionsDoNotMatter(
      local: Store, remote: Store, hash: Text -> uint64, bloom: seq<bv8>, vv: map<Text, int64>, k: Text)
    requires Steady(local) && Steady(remote) && IsDigest(bloom, vv, remote, hash) && k in local.keys
    ensures Reported(local, hash, bloom, vv, k) <==>
            k !in remote.got || remote.got[k] <= 0 || local.got[k] < remote.got[k]
  {
    hide Bit;
    var p := hash(k) as int % BLOOM_BITS;
    assert |bloom| * 8 == BLOOM_BITS;
    assert p in Marks(local.keys, hash);
    if k in remote.keys {
      assert p in Marks(remote.keys, hash);
    }
  }

  /** Sync answers wrongly about a key exactly when the other store has it at a version that is not positive
      and the local one is missing or not older. */
  lemma SyncExactlyAt(
      diff: seq<Text>, local: Store, remote: Store, hash: Text -> uint64, bloom: seq<bv8>, vv: map<Text, int64>, k: Text)
    requires Steady(local) && Steady(remote) && IsDigest(bloom, vv, remote, hash) && IsDiff(diff, local, hash, bloom, vv)
    ensures (k in diff <==> Differs(local, remote, k)) <==>
            !(k in remote.got && remote.got[k] <= 0 && (k in local.got ==> local.got[k] >= remote.got[k]))
  {
    hide Reported, Bit, Filters;
    DiffMembers(diff, local, hash, bloom, vv, k);
    if k in local.keys {
      CollisionsDoNotMatter(local, remote, hash, bloom, vv, k);
    }
  }

  /** Given another store's digest, Sync finds exactly the differing keys, if and only if every version the
      other store holds is positive, or newer than a local one. */
  lemma SyncExactly(
      diff: seq<Text>, local: Store, remote: Store, hash: Text -> uint64, bloom: seq<bv8>, vv: map<Text, int64>)
    requires Steady(local) && Steady(remote) && IsDigest(bloom, vv, remote, hash) && IsDiff(diff, local, hash, bloom, vv)
    ensures (forall k :: k in diff <==> Differs(local, remote, k)) <==>
            (forall k :: k in remote.got ==> remote.got[k] > 0 || (k in local.got && local.got[k] < remote.got[k]))
  {
    hide IsDigest, IsDiff, Steady, Differs;
    forall k
      ensures (k in diff <==> Differs(local, remote, k)) <==>
              (k in remote.got ==> remote.got[k] > 0 || (k in local.got && local.got[k] < remote.got[k]))
    {
      SyncExactlyAt(diff, local, remote, hash, bloom, vv, k);
    }
  }

  /** No key is reported twice, if and only if every listed key that the other store has can still be read. */
  lemma NoRepeats(diff: seq<Text>, s: Store, hash: Text -> uint64, bloom: seq<bv8>, vv: map<Text, int64>)
    requires NoDup(s.keys) && IsDiff(diff, s, hash, bloom, vv)
    ensures NoDup(diff) <==> forall k :: k in s.keys && k in vv ==> k in s.got
  {
    hide Bit, Marks;
    var own := ReportedKeys(s, hash, bloom, vv, |s.keys|);
    var rest := diff[|own|..];
    assert diff == own + rest;
    assert s.keys[..|s.keys|] == s.keys;
    ReportedOnce(s, hash, bloom, vv, |s.keys|);
    if k :| k in s.keys && k in vv && k !in s.got {
      ReportedMembers(s, hash, bloom, vv, |s.keys|, k);
      Twice(own, rest, k);
    } else {
      forall k ensures !(k in own && k in rest) {
        ReportedMembers(s, hash, bloom, vv, |s.keys|, k);
      }
      NoDupConcat(own, rest);
    }
  }

  lemma Twice(a: seq<Text>, b: seq<Text>, k: Text)
    requires k in a && k in b
    ensures !NoDup(a + b)
  {
    var i :| 0 <= i < |a| && a[i] == k;
    var j :| 0 <= j < |b| && b[j] == k;
    assert (a + b)[i] == (a + b)[|a| + j];
  }

  lemma FirstIn(s: seq<Text>)
    ensures s == [] || s[0] in s
  {
  }

  /** The periodic pass compares a store with its own filter and an empty table: it reports every key. */
  lemma OneWayReportsAll(diff: seq<Text>, s: Store, hash: Text -> uint64, bloom: seq<bv8>)
    requires Steady(s) && Filters(bloom, s.keys, hash) && IsDiff(diff, s, hash, bloom, map[])
    ensures diff == s.keys
  {
    AllReported(s, hash, bloom, |s.keys|);
    var own := ReportedKeys(s, hash, bloom, map[], |s.keys|);
    FirstIn(diff[|own|..]);
    assert diff == own + diff[|own|..];
    assert s.keys[..|s.keys|] == s.keys;
  }

  lemma {:induction false} AllReported(s: Store, hash: Text -> uint64, bloom: seq<bv8>, n: nat)
    requires Steady(s) && Filters(bloom, s.keys, hash) && n <= |s.keys|
    ensures ReportedKeys(s, hash, bloom, map[], n) == s.keys[..n]
  {
    hide Bit;
    if n > 0 {
      AllReported(s, hash, bloom, n - 1);
      assert s.keys[n - 1] in s.keys;
      assert hash(s.keys[n - 1]) as int % BLOOM_BITS in Marks(s.keys, hash);
      assert |bloom| * 8 == BLOOM_BITS;
    }
  }

  /** A key stored with version 0 on the other side only is not found. */
  lemma ZeroVersionMissed(diff: seq<Text>, hash: Text -> uint64, bloom: seq<bv8>, vv: map<Text, int64>, k: Text)
    requires IsDigest(bloom, vv, Store([k], map[k := 0]), hash) && IsDiff(diff, Store([], map[]), hash, bloom, vv)
    ensures k !in diff && Differs(Store([], map[]), Store([k], map[k := 0]), k)
  {
    hide Filters;
    DiffMembers(diff, Store([], map[]), hash, bloom, vv, k);
  }
}
