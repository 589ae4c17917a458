/** The hot-key cache of one shard (internal/utils/cache/ttl_cache.go): a map, a doubly linked list in order
    of use, expiry on read and an eviction that spares keys used more often than the newcomer. */
module TtlCaches {
  import opened Base
  import Sketches

  // ---------------------------------------------------------------- contents

  /** A cached value; expireAt is 0 for none. */
  datatype Slot<V> = Slot(key: Text, value: V, expireAt: int64)

  predicate Stale<V>(x: Slot<V>, now: int64) {
    x.expireAt > 0 && now > x.expireAt
  }

  /** Where a key stands in the order of use; the length if it is not cached. */
  function IndexOf<V>(s: seq<Slot<V>>, key: Text): (i: nat)
    ensures i <= |s|
  {
    if s == [] || s[0].key == key then 0 else 1 + IndexOf(s[1..], key)
  }

  function RemoveAt<T>(s: seq<T>, i: nat): (r: seq<T>)
    requires i < |s|
    ensures |r| == |s| - 1
  {
    s[..i] + s[i + 1..]
  }

  /** Contents most recently used first, after a read. */
  function GetView<V>(s: seq<Slot<V>>, key: Text, now: int64): seq<Slot<V>> {
    var i := IndexOf(s, key);
    if i == |s| then s
    else if Stale(s[i], now) then RemoveAt(s, i)
    else [s[i]] + RemoveAt(s, i)
  }

  function GetResult<V>(s: seq<Slot<V>>, key: Text, now: int64): Option<V> {
    var i := IndexOf(s, key);
    if i == |s| || Stale(s[i], now) then None else Some(s[i].value)
  }

  function DeleteView<V>(s: seq<Slot<V>>, key: Text): seq<Slot<V>> {
    var i := IndexOf(s, key);
    if i == |s| then s else RemoveAt(s, i)
  }

  /** The last entry in front of position i, but behind the head, that is colder than the newcomer. */
  function Colder<V>(s: seq<Slot<V>>, freq: Text -> nat, bar: nat, i: nat): Option<nat>
    requires i < |s|
  {
    if i == 0 then None else if freq(s[i].key) < bar then Some(i) else Colder(s, freq, bar, i - 1)
  }

  /** Who makes room: the least recently used entry, unless it is used more often than the newcomer; then
      the one nearest the end that is used less often, if there is one behind the head. */
  function Victim<V>(s: seq<Slot<V>>, freq: Text -> nat, key: Text): (i: nat)
    requires s != []
    ensures i < |s|
  {
    var last := |s| - 1;
    if freq(s[last].key) <= freq(key) then last else
      var c := Colder(s, freq, freq(key), last);
      if c.Some? && c.value < |s| then c.value else last
  }

  function SetView<V>(s: seq<Slot<V>>, x: Slot<V>, freq: Text -> nat, maxSize: nat): seq<Slot<V>> {
    var i := IndexOf(s, x.key);
    if i < |s| then [x] + RemoveAt(s, i)
    else if maxSize > 0 && |s| >= maxSize && s != [] then [x] + RemoveAt(s, Victim(s, freq, x.key))
    else [x] + s
  }

  // ---------------------------------------------------------------- facts about contents

  ghost predicate DistinctKeys<V>(s: seq<Slot<V>>) {
    forall i, j :: 0 <= i < j < |s| ==> s[i].key != s[j].key
  }

  lemma {:induction false} IndexFacts<V>(s: seq<Slot<V>>, key: Text)
    ensures IndexOf(s, key) < |s| ==> s[IndexOf(s, key)].key == key
    ensures forall j :: 0 <= j < IndexOf(s, key) ==> s[j].key != key
  {
    if s != [] && s[0].key != key {
      IndexFacts(s[1..], key);
    }
  }

  lemma IndexIs<V>(s: seq<Slot<V>>, key: Text, i: nat)
    requires DistinctKeys(s) && i < |s| && s[i].key == key
    ensures IndexOf(s, key) == i
  {
    IndexFacts(s, key);
  }

  lemma IndexNone<V>(s: seq<Slot<V>>, key: Text)
    requires forall j :: 0 <= j < |s| ==> s[j].key != key
    ensures IndexOf(s, key) == |s|
  {
    IndexFacts(s, key);
  }

  /** Where an element of the shortened list was before. */
  lemma RemoveAtIndex<T>(s: seq<T>, i: nat, j: nat)
    requires i < |s| && j < |s| - 1
    ensures RemoveAt(s, i)[j] == s[if j < i then j else j + 1]
  {
  }

  lemma RemoveDistinct<V>(s: seq<Slot<V>>, i: nat)
    requires DistinctKeys(s) && i < |s|
    ensures DistinctKeys(RemoveAt(s, i)) && forall j :: 0 <= j < |s| - 1 ==> RemoveAt(s, i)[j].key != s[i].key
  {
    forall j | 0 <= j < |s| - 1 ensures RemoveAt(s, i)[j] == s[if j < i then j else j + 1] {
      RemoveAtIndex(s, i, j);
    }
  }

  lemma ConsDistinct<V>(x: Slot<V>, s: seq<Slot<V>>)
    requires DistinctKeys(s) && forall j :: 0 <= j < |s| ==> s[j].key != x.key
    ensures DistinctKeys([x] + s)
  {
  }

  lemma {:induction false} ColderFacts<V>(s: seq<Slot<V>>, freq: Text -> nat, bar: nat, i: nat)
    requires i < |s|
    ensures var c := Colder(s, freq, bar, i);
            && (c.Some? ==> 0 < c.value <= i && freq(s[c.value].key) < bar && forall j :: c.value < j <= i ==> freq(s[j].key) >= bar)
            && (c.None? ==> forall j :: 0 < j <= i ==> freq(s[j].key) >= bar)
  {
    if i > 0 {
      ColderFacts(s, freq, bar, i - 1);
    }
  }

  /** The victim is the end of the list, or strictly colder than the newcomer with everything behind it at
      least as hot as the newcomer; it is never the head unless the head is all there is. */
  lemma VictimMeaning<V>(s: seq<Slot<V>>, freq: Text -> nat, key: Text)
    requires s != []
    ensures var v, last := Victim(s, freq, key), |s| - 1;
            && (v == last || freq(s[v].key) < freq(key))
            && (v != last ==> freq(s[last].key) > freq(key) && forall j :: v < j <= last ==> freq(s[j].key) >= freq(key))
            && (v == last && freq(s[last].key) > freq(key) ==> forall j :: 0 < j <= last ==> freq(s[j].key) >= freq(key))
            && (|s| > 1 ==> v > 0)
  {
    ColderFacts(s, freq, freq(key), |s| - 1);
  }

  /** A Set keeps keys distinct and the size within bounds, puts the newcomer first, and costs at most one
      other entry. */
  lemma SetKeeps<V>(s: seq<Slot<V>>, x: Slot<V>, freq: Text -> nat, maxSize: nat)
    requires DistinctKeys(s) && maxSize > 0 && |s| <= maxSize
    ensures var r := SetView(s, x, freq, maxSize);
            DistinctKeys(r) && |r| <= maxSize && r != [] && r[0] == x && |r| >= |s|
  {
    IndexFacts(s, x.key);
    var i := IndexOf(s, x.key);
    if i < |s| {
      RemoveDistinct(s, i);
      ConsDistinct(x, RemoveAt(s, i));
    } else if |s| >= maxSize {
      var v := Victim(s, freq, x.key);
      RemoveDistinct(s, v);
      forall j | 0 <= j < |s| - 1 ensures RemoveAt(s, v)[j].key != x.key {
        RemoveAtIndex(s, v, j);
      }
      ConsDistinct(x, RemoveAt(s, v));
    } else {
      ConsDistinct(x, s);
    }
  }

  /** In the shortened list, every element but the removed one. */
  lemma RemoveOnly<V>(s: seq<Slot<V>>, i: nat, j: nat)
    requires DistinctKeys(s) && i < |s| && j < |s|
    ensures s[j] in RemoveAt(s, i) <==> j != i
  {
    RemoveDistinct(s, i);
    if j != i {
      RemoveAtIndex(s, i, if j < i then j else j - 1);
    }
  }

  /** Exactly what a Set costs another key: its place, if the cache is full of other keys and it is the
      victim; nothing otherwise. */
  lemma SetCosts<V>(s: seq<Slot<V>>, x: Slot<V>, freq: Text -> nat, maxSize: nat, j: nat)
    requires DistinctKeys(s) && 0 < maxSize && j < |s| && s[j].key != x.key
    ensures s[j] in SetView(s, x, freq, maxSize) <==>
            !(|s| >= maxSize && (forall k :: 0 <= k < |s| ==> s[k].key != x.key) && j == Victim(s, freq, x.key))
  {
    IndexFacts(s, x.key);
    var i := IndexOf(s, x.key);
    if i < |s| {
      RemoveOnly(s, i, j);
    } else if |s| >= maxSize {
      RemoveOnly(s, Victim(s, freq, x.key), j);
    }
  }

  lemma GetKeeps<V>(s: seq<Slot<V>>, key: Text, now: int64)
    requires DistinctKeys(s)
    ensures DistinctKeys(GetView(s, key, now)) && |GetView(s, key, now)| <= |s|
  {
    IndexFacts(s, key);
    var i := IndexOf(s, key);
    if i < |s| {
      RemoveDistinct(s, i);
      ConsDistinct(s[i], RemoveAt(s, i));
    }
  }

  lemma DeleteKeeps<V>(s: seq<Slot<V>>, key: Text)
    requires DistinctKeys(s)
    ensures DistinctKeys(DeleteView(s, key)) && |DeleteView(s, key)| <= |s|
  {
    var i := IndexOf(s, key);
    if i < |s| {
      RemoveDistinct(s, i);
    }
  }

  // ---------------------------------------------------------------- runs

  /** Operations on a cache; freq stands for the frequency sketch at that moment. */
  datatype Op<!V> =
    | Get(key: Text, now: int64)
    | Set(slot: Slot<V>, freq: Text -> nat)
    | Delete(key: Text)
    | Clear

  function Apply<V>(s: seq<Slot<V>>, op: Op<V>, maxSize: nat): seq<Slot<V>> {
    match op
    case Get(key, now) => GetView(s, key, now)
    case Set(x, freq) => SetView(s, x, freq, maxSize)
    case Delete(key) => DeleteView(s, key)
    case Clear => []
  }

  function Run<V>(ops: seq<Op<V>>, maxSize: nat): seq<Slot<V>> {
    if ops == [] then [] else Apply(Run(ops[..|ops| - 1], maxSize), ops[|ops| - 1], maxSize)
  }

  /** What the operations say about a key: its latest Set, unless it was deleted or cleared since. */
  function Latest<V>(ops: seq<Op<V>>, key: Text): Option<Slot<V>> {
    if ops == [] then None else
      var before := Latest(ops[..|ops| - 1], key);
      match ops[|ops| - 1]
      case Get(_, _) => before
      case Set(x, _) => if x.key == key then Some(x) else before
      case Delete(k) => if k == key then None else before
      case Clear => None
  }

  /** Everything cached is the latest Set of its key. */
  ghost predicate Current<V>(s: seq<Slot<V>>, ops: seq<Op<V>>) {
    forall i :: 0 <= i < |s| ==> Latest(ops, s[i].key) == Some(s[i])
  }

  /** Every slot of r is a slot of s. */
  ghost predicate Within<V>(r: seq<Slot<V>>, s: seq<Slot<V>>) {
    forall i :: 0 <= i < |r| ==> r[i] in s
  }

  lemma RemoveWithin<V>(s: seq<Slot<V>>, i: nat)
    requires i < |s|
    ensures Within(RemoveAt(s, i), s) && Within([s[i]] + RemoveAt(s, i), s)
  {
    forall j | 0 <= j < |s| - 1 ensures RemoveAt(s, i)[j] in s {
      RemoveAtIndex(s, i, j);
    }
  }

  /** What an operation leaves comes from before, apart from a Set's own slot. */
  lemma ApplyWithin<V>(s: seq<Slot<V>>, op: Op<V>, maxSize: nat)
    ensures !op.Set? ==> Within(Apply(s, op, maxSize), s)
    ensures op.Set? ==> Apply(s, op, maxSize) != [] && Apply(s, op, maxSize)[0] == op.slot && Within(Apply(s, op, maxSize)[1..], s)
  {
    match op
    case Get(key, now) =>
      if IndexOf(s, key) < |s| {
        RemoveWithin(s, IndexOf(s, key));
      }
    case Set(x, freq) =>
      var i := IndexOf(s, x.key);
      if i < |s| {
        RemoveWithin(s, i);
        assert ([x] + RemoveAt(s, i))[1..] == RemoveAt(s, i);
      } else if maxSize > 0 && |s| >= maxSize && s != [] {
        RemoveWithin(s, Victim(s, freq, x.key));
        assert ([x] + RemoveAt(s, Victim(s, freq, x.key)))[1..] == RemoveAt(s, Victim(s, freq, x.key));
      } else {
        assert ([x] + s)[1..] == s;
      }
    case Delete(key) =>
      if IndexOf(s, key) < |s| {
        RemoveWithin(s, IndexOf(s, key));
      }
    case Clear =>
  }

  /** Keys stay distinct and the size within bounds, over every run. */
  lemma {:induction false} RunShape<V>(ops: seq<Op<V>>, maxSize: nat)
    requires maxSize > 0
    ensures DistinctKeys(Run(ops, maxSize)) && |Run(ops, maxSize)| <= maxSize
  {
    if ops != [] {
      var s, op := Run(ops[..|ops| - 1], maxSize), ops[|ops| - 1];
      RunShape(ops[..|ops| - 1], maxSize);
      match op
      case Get(key, now) => GetKeeps(s, key, now);
      case Set(x, freq) => SetKeeps(s, x, freq, maxSize);
      case Delete(key) => DeleteKeeps(s, key);
      case Clear =>
    }
  }

  /** After a deletion no slot has the key. */
  lemma DeletedGone<V>(s: seq<Slot<V>>, key: Text)
    requires DistinctKeys(s)
    ensures forall i :: 0 <= i < |DeleteView(s, key)| ==> DeleteView(s, key)[i].key != key
  {
    IndexFacts(s, key);
    if IndexOf(s, key) < |s| {
      RemoveDistinct(s, IndexOf(s, key));
    }
  }

  lemma {:induction false} RunCurrent<V>(ops: seq<Op<V>>, maxSize: nat)
    requires maxSize > 0
    ensures Current(Run(ops, maxSize), ops)
  {
    if ops != [] {
      var p, op := ops[..|ops| - 1], ops[|ops| - 1];
      RunCurrent(p, maxSize);
      RunShape(p, maxSize);
      RunShape(ops, maxSize);
      CurrentStep(Run(p, maxSize), p, ops, maxSize);
    }
  }

  lemma CurrentStep<V>(s: seq<Slot<V>>, p: seq<Op<V>>, ops: seq<Op<V>>, maxSize: nat)
    requires ops != [] && p == ops[..|ops| - 1]
    requires Current(s, p) && DistinctKeys(s) && DistinctKeys(Apply(s, ops[|ops| - 1], maxSize))
    ensures Current(Apply(s, ops[|ops| - 1], maxSize), ops)
  {
    var op := ops[|ops| - 1];
    var r := Apply(s, op, maxSize);
    ApplyWithin(s, op, maxSize);
    if op.Delete? {
      DeletedGone(s, op.key);
    }
    forall i | 0 <= i < |r| ensures Latest(ops, r[i].key) == Some(r[i]) {
      if op.Set? {
        if i > 0 {
          assert r[1..][i - 1] == r[i];
          assert r[i].key != r[0].key;
        }
      } else if !op.Clear? {
        assert r[i] in s;
      }
    }
  }

  /** A read returns only the latest Set of its key that has not been deleted, cleared or expired since. */
  lemma ReadsLatest<V>(ops: seq<Op<V>>, maxSize: nat, key: Text, now: int64)
    requires maxSize > 0
    ensures var r := GetResult(Run(ops, maxSize), key, now);
            r.Some? ==> Latest(ops, key).Some? && Latest(ops, key).value.value == r.value && !Stale(Latest(ops, key).value, now)
  {
    RunCurrent(ops, maxSize);
    IndexFacts(Run(ops, maxSize), key);
  }

  // ---------------------------------------------------------------- hits

  ghost predicate Listed<V>(s: seq<Slot<V>>, key: Text) {
    exists i :: 0 <= i < |s| && s[i].key == key
  }

  /** A read hits exactly when the key is listed with no expiry or one that is not past, and answers the value listed. */
  lemma HitsExactly<V>(s: seq<Slot<V>>, key: Text, now: int64, v: V)
    requires DistinctKeys(s)
    ensures GetResult(s, key, now) == Some(v) <==>
            exists i :: 0 <= i < |s| && s[i].key == key && s[i].value == v && (s[i].expireAt <= 0 || now <= s[i].expireAt)
  {
    IndexFacts(s, key);
    forall i | 0 <= i < |s| && s[i].key == key ensures IndexOf(s, key) == i {
      IndexIs(s, key, i);
    }
  }

  /** What a read does to the order of use: a hit puts the key first, an expired key is dropped, a miss changes nothing;
      the others keep their order. */
  lemma ReadReorders<V>(s: seq<Slot<V>>, key: Text, now: int64, i: nat)
    requires DistinctKeys(s)
    ensures !Listed(s, key) ==> GetView(s, key, now) == s
    ensures i < |s| && s[i].key == key ==>
              var r, front := GetView(s, key, now), if s[i].expireAt > 0 && now > s[i].expireAt then 0 else 1;
              && |r| == |s| - 1 + front && (front == 1 ==> r[0] == s[i])
              && forall j :: 0 <= j < |s| && j != i ==> s[j] == r[(if j < i then j else j - 1) + front]
  {
    IndexFacts(s, key);
    if i < |s| && s[i].key == key {
      IndexIs(s, key, i);
    }
  }

  /** Set then Get, over every run: the value comes back until now + ttl, and for good if ttl is not positive; a sum
      past 63 bits, or not after the epoch, never expires either. */
  lemma SetThenGet<V>(ops: seq<Op<V>>, maxSize: nat, key: Text, v: V, ttl: int64, now: int64, freq: Text -> nat, t: int64)
    requires maxSize > 0
    ensures var s := Run(ops + [Op.Set(Slot(key, v, Expiry(ttl, now)), freq)], maxSize);
            GetResult(s, key, t) == if ttl > 0 && 0 < now + ttl < TWO63 && t > now + ttl then None else Some(v)
  {
    var x := Slot(key, v, Expiry(ttl, now));
    RunSnoc(ops, Op.Set(x, freq), maxSize);
    RunShape(ops, maxSize);
    SetKeeps(Run(ops, maxSize), x, freq, maxSize);
    IndexIs(SetView(Run(ops, maxSize), x, freq, maxSize), key, 0);
  }

  /** The operation does not cost a listed key its place: it is not a Clear, a Delete of the key or a read of it past
      its expiry, nor a Set of an unlisted key in a full cache that picks it as the victim. */
  ghost predicate Spares<V>(s: seq<Slot<V>>, op: Op<V>, maxSize: nat, key: Text) {
    match op
    case Get(k, now) => k == key ==> forall i :: 0 <= i < |s| && s[i].key == key ==> s[i].expireAt <= 0 || now <= s[i].expireAt
    case Set(x, freq) => Listed(s, x.key) || |s| < maxSize || s == [] || s[Victim(s, freq, x.key)].key != key
    case Delete(k) => k != key
    case Clear => false
  }

  lemma RemoveLists<V>(s: seq<Slot<V>>, i: nat, key: Text)
    requires DistinctKeys(s) && i < |s| && Listed(s, key)
    ensures Listed(RemoveAt(s, i), key) <==> s[i].key != key
  {
    RemoveDistinct(s, i);
    if s[i].key != key {
      var j :| 0 <= j < |s| && s[j].key == key;
      RemoveAtIndex(s, i, if j < i then j else j - 1);
    }
  }

  lemma ConsLists<V>(x: Slot<V>, s: seq<Slot<V>>, key: Text)
    ensures Listed([x] + s, key) <==> x.key == key || Listed(s, key)
  {
    assert ([x] + s)[0] == x;
    forall j | 0 <= j < |s| ensures ([x] + s)[j + 1] == s[j] {
    }
  }

  lemma ListedAt<V>(s: seq<Slot<V>>, key: Text)
    ensures Listed(s, key) <==> IndexOf(s, key) < |s|
    ensures IndexOf(s, key) < |s| ==> s[IndexOf(s, key)].key == key
  {
    IndexFacts(s, key);
  }

  /** A listed key stays listed through an operation exactly when the operation spares it. */
  lemma StaysListed<V>(s: seq<Slot<V>>, op: Op<V>, maxSize: nat, key: Text)
    requires DistinctKeys(s) && maxSize > 0 && Listed(s, key)
    ensures Listed(Apply(s, op, maxSize), key) <==> Spares(s, op, maxSize, key)
  {
    match op
    case Get(k, now) => ReadLists(s, k, now, key);
    case Set(x, freq) => SetLists(s, x, freq, maxSize, key);
    case Delete(k) =>
      ListedAt(s, k);
      if Listed(s, k) {
        RemoveLists(s, IndexOf(s, k), key);
      }
    case Clear =>
  }

  lemma ReadLists<V>(s: seq<Slot<V>>, k: Text, now: int64, key: Text)
    requires DistinctKeys(s) && Listed(s, key)
    ensures Listed(GetView(s, k, now), key) <==> Spares(s, Op.Get(k, now), 1, key)
  {
    hide RemoveAt;
    ListedAt(s, k);
    if Listed(s, k) {
      var i := IndexOf(s, k);
      RemoveLists(s, i, key);
      ConsLists(s[i], RemoveAt(s, i), key);
      forall j | 0 <= j < |s| && s[j].key == k ensures j == i {
        IndexIs(s, k, j);
      }
    }
  }

  lemma SetLists<V>(s: seq<Slot<V>>, x: Slot<V>, freq: Text -> nat, maxSize: nat, key: Text)
    requires DistinctKeys(s) && maxSize > 0 && Listed(s, key)
    ensures Listed(SetView(s, x, freq, maxSize), key) <==> Spares(s, Op.Set(x, freq), maxSize, key)
  {
    hide RemoveAt, Victim;
    ListedAt(s, x.key);
    if Listed(s, x.key) {
      var i := IndexOf(s, x.key);
      RemoveLists(s, i, key);
      ConsLists(x, RemoveAt(s, i), key);
    } else {
      var v := Victim(s, freq, x.key);
      RemoveLists(s, v, key);
      ConsLists(x, RemoveAt(s, v), key);
      ConsLists(x, s, key);
    }
  }

  /** So over every run: a key listed after n operations and spared by all that follow is still listed. */
  lemma {:induction false} StaysCached<V>(ops: seq<Op<V>>, n: nat, maxSize: nat, key: Text)
    requires maxSize > 0 && n <= |ops| && Listed(Run(ops[..n], maxSize), key)
    requires forall m :: n <= m < |ops| ==> Spares(Run(ops[..m], maxSize), ops[m], maxSize, key)
    ensures Listed(Run(ops, maxSize), key)
    decreases |ops|
  {
    hide Apply, Spares, Listed;
    if n == |ops| {
      assert ops[..n] == ops;
    } else {
      var p := ops[..|ops| - 1];
      assert p[..n] == ops[..n];
      forall m | n <= m < |p| ensures Spares(Run(p[..m], maxSize), p[m], maxSize, key) {
        assert p[..m] == ops[..m];
      }
      StaysCached(p, n, maxSize, key);
      RunShape(p, maxSize);
      StaysListed(Run(p, maxSize), ops[|ops| - 1], maxSize, key);
    }
  }

  /** And what a read of a listed key answers is the value of its latest Set, unless that has expired. */
  lemma ListedIsRead<V>(ops: seq<Op<V>>, maxSize: nat, key: Text, now: int64)
    requires maxSize > 0
    ensures var r, x := GetResult(Run(ops, maxSize), key, now), Latest(ops, key);
            if !Listed(Run(ops, maxSize), key) then r == None
            else x.Some? && r == if x.value.expireAt > 0 && now > x.value.expireAt then None else Some(x.value.value)
  {
    hide Run, Latest;
    RunCurrent(ops, maxSize);
    ListedAt(Run(ops, maxSize), key);
  }

  // ---------------------------------------------------------------- the map follows the list

  lemma IndexCons<V>(x: Slot<V>, s: seq<Slot<V>>, key: Text)
    ensures IndexOf([x] + s, key) == if x.key == key then 0 else 1 + IndexOf(s, key)
  {
    assert ([x] + s)[1..] == s;
  }

  lemma IndexRemoved<V>(s: seq<Slot<V>>, i: nat, key: Text)
    requires DistinctKeys(s) && i < |s|
    ensures var k := IndexOf(s, key);
            IndexOf(RemoveAt(s, i), key) == if key == s[i].key then |s| - 1 else if k < i then k else k - 1
  {
    IndexFacts(s, key);
    RemoveDistinct(s, i);
    var k, r := IndexOf(s, key), RemoveAt(s, i);
    if k == |s| || k == i {
      IndexNone(r, key);
    } else {
      RemoveAtIndex(s, i, if k < i then k else k - 1);
      IndexIs(r, key, if k < i then k else k - 1);
    }
  }

  /** The map has exactly the listed keys, each leading to its own element. */
  ghost predicate Mapped<V, E>(items: map<Text, E>, list: seq<E>, view: seq<Slot<V>>) {
    && |list| == |view| == |items|
    && forall k :: (k in items <==> IndexOf(view, k) < |view|) && (k in items ==> items[k] == list[IndexOf(view, k)])
  }

  lemma MappedAt<V, E>(items: map<Text, E>, list: seq<E>, view: seq<Slot<V>>, key: Text)
    requires Mapped(items, list, view)
    ensures key in items <==> IndexOf(view, key) < |view|
    ensures key in items ==> items[key] == list[IndexOf(view, key)]
    ensures |list| == |view| == |items|
  {
  }

  lemma MappedRemove<V, E>(items: map<Text, E>, list: seq<E>, view: seq<Slot<V>>, i: nat)
    requires Mapped(items, list, view) && DistinctKeys(view) && i < |view|
    ensures Mapped(items - {view[i].key}, RemoveAt(list, i), RemoveAt(view, i))
  {
    var key := view[i].key;
    IndexIs(view, key, i);
    assert key in items;
    var less := items - {key};
    assert less.Keys == items.Keys - {key};
    assert |less| == |less.Keys|;
    forall k ensures (k in less <==> IndexOf(RemoveAt(view, i), k) < |view| - 1)
      ensures k in less ==> less[k] == RemoveAt(list, i)[IndexOf(RemoveAt(view, i), k)]
    {
      IndexRemoved(view, i, k);
      IndexFacts(view, k);
    }
  }

  lemma MappedCons<V, E>(items: map<Text, E>, list: seq<E>, view: seq<Slot<V>>, x: Slot<V>, e: E)
    requires Mapped(items, list, view) && x.key !in items
    ensures Mapped(items[x.key := e], [e] + list, [x] + view)
  {
    var more := items[x.key := e];
    assert more.Keys == items.Keys + {x.key};
    assert |more| == |more.Keys|;
    forall k ensures (k in more <==> IndexOf([x] + view, k) < |view| + 1)
      ensures k in more ==> more[k] == ([e] + list)[IndexOf([x] + view, k)]
    {
      IndexCons(x, view, k);
    }
  }

  /** Taking an element out and putting it in front, with a new slot for the same key. */
  lemma MappedFront<V, E>(items: map<Text, E>, list: seq<E>, view: seq<Slot<V>>, i: nat, x: Slot<V>)
    requires Mapped(items, list, view) && DistinctKeys(view) && i < |view| && x.key == view[i].key
    ensures Mapped(items, [list[i]] + RemoveAt(list, i), [x] + RemoveAt(view, i))
  {
    MappedRemove(items, list, view, i);
    MappedCons(items - {x.key}, RemoveAt(list, i), RemoveAt(view, i), x, list[i]);
    IndexIs(view, x.key, i);
    assert (items - {x.key})[x.key := list[i]] == items;
  }

  // ---------------------------------------------------------------- the linked list in place

  const DEFAULT_SHARDS: nat := 256
  const DEFAULT_SIZE: nat := 10000

  /** The size of a shard: an even share of the cache's size among a power of two of shards, at least one entry;
      sizes and shard counts that are not positive stand for the defaults. */
  function ShardSize(size: int, shards: int): (n: nat)
    ensures n >= 1
  {
    var count := RoundUp(if shards <= 0 then DEFAULT_SHARDS else shards, 1);
    var total := if size <= 0 then DEFAULT_SIZE else size;
    if total / count < 1 then 1 else total / count
  }

  /** A shard's even share, with the number of shards the smallest power of two that covers what is asked for. */
  lemma ShardSizeMeaning(size: nat, shards: nat) returns (k: nat)
    requires size > 0 && shards > 0
    ensures shards <= Pow2(k) && (k > 0 ==> Pow2(k - 1) < shards)
    ensures var n := ShardSize(size, shards); if size < Pow2(k) then n == 1 else Pow2(k) * n <= size < Pow2(k) * (n + 1)
  {
    k := RoundUpIsPower(shards);
    ShareOf(size, Pow2(k));
  }

  lemma ShareOf(size: nat, count: nat)
    requires count > 0
    ensures size < count ==> size / count == 0
    ensures size >= count ==> size / count >= 1
    ensures count * (size / count) <= size < count * (size / count + 1)
  {
    hide *;
    if size < count {
      assert size / count == 0;
    }
  }

  lemma DefaultShardSize()
    ensures ShardSize(0, 0) == 39
  {
    assert RoundUp(256, 256) == 256;
    assert RoundUp(256, 32) == 256;
    assert RoundUp(256, 4) == 256;
  }

  class Entry<V> {
    var key: Text
    var value: V
    var expireAt: int64
    var next: Entry?<V>
    var prev: Entry?<V>

    constructor (key: Text, value: V, expireAt: int64)
      ensures Content() == Slot(key, value, expireAt) && next == null && prev == null
    {
      this.key, this.value, this.expireAt := key, value, expireAt;
      next, prev := null, null;
    }

    function Content(): Slot<V>
      reads this`key, this`value, this`expireAt
    {
      Slot(key, value, expireAt)
    }
  }

  class CacheShard<V> {
    var items: map<Text, Entry<V>>
    var head: Entry?<V>
    var tail: Entry?<V>
    const maxSize: nat
    const sketch: Sketches.CountMinSketch
    var closed: bool
    ghost var list: seq<Entry<V>>
    ghost var view: seq<Slot<V>>
    ghost var ops: seq<Op<V>>

    ghost predicate Valid()
      reads this, list, sketch, sketch.counts
    {
      && Held()
      && 0 < maxSize && view == Run(ops, maxSize)
      && sketch.Valid()
    }

    /** Links, contents and map agree. */
    ghost predicate Held()
      reads this, list
    {
      Linked() && Shows() && Mapped(items, list, view) && DistinctKeys(view)
    }

    /** The view lists what the entries hold. */
    ghost predicate Shows()
      reads this`list, this`view, list`key, list`value, list`expireAt
    {
      |view| == |list| && forall i :: 0 <= i < |list| ==> view[i] == list[i].Content()
    }

    /** head, tail and the two links of every entry describe one list in both directions. */
    ghost predicate Linked()
      reads this`head, this`tail, this`list, list`next, list`prev
    {
      && NoDup(list)
      && head == (if list == [] then null else list[0])
      && tail == (if list == [] then null else list[|list| - 1])
      && forall i :: 0 <= i < |list| ==> LinkedAt(list, i)
    }

    static ghost predicate LinkedAt(l: seq<Entry<V>>, i: nat)
      requires i < |l|
      reads l`next, l`prev
    {
      && l[i].prev == (if i == 0 then null else l[i - 1])
      && l[i].next == (if i == |l| - 1 then null else l[i + 1])
    }

    method AddToFront(e: Entry<V>)
      requires Linked() && e !in list
      modifies this`head, this`tail, this`list, e`next, e`prev, list`prev
      ensures Linked() && list == [e] + old(list)
    {
      ghost var was := list;
      assert was != [] ==> LinkedAt(was, 0);
      e.next := head;
      e.prev := null;
      if head != null {
        head.prev := e;
      }
      head := e;
      if tail == null {
        tail := e;
      }
      list := [e] + list;
      forall j | 0 <= j < |list| ensures LinkedAt(list, j) {
        if j > 0 {
          assert old(LinkedAt(was, j - 1));
        }
      }
    }

    /** The removed entry keeps its own links. */
    method RemoveEntry(e: Entry<V>, ghost i: nat)
      requires Linked() && i < |list| && list[i] == e
      modifies this`head, this`tail, this`list, list`next, list`prev
      ensures Linked() && list == RemoveAt(old(list), i)
    {
      ghost var was := list;
      assert LinkedAt(was, i);
      if e.prev != null {
        e.prev.next := e.next;
      } else {
        head := e.next;
      }
      if e.next != null {
        e.next.prev := e.prev;
      } else {
        tail := e.prev;
      }
      list := RemoveAt(list, i);
      forall j | 0 <= j < |list| ensures LinkedAt(list, j) {
        assert old(LinkedAt(was, if j < i then j else j + 1));
        RemoveAtIndex(was, i, j);
      }
    }

    method MoveToFront(e: Entry<V>, ghost i: nat)
      requires Linked() && i < |list| && list[i] == e
      modifies this`head, this`tail, this`list, list`next, list`prev
      ensures Linked() && list == [e] + RemoveAt(old(list), i)
    {
      if head == e {
        return;
      }
      RemoveEntry(e, i);
      AddToFront(e);
    }

    /** A shard of a cache asked for with this size and number of shards. */
    constructor (size: int, shards: int, sketch: Sketches.CountMinSketch)
      requires sketch.Valid()
      ensures Valid() && ops == [] && !closed && this.sketch == sketch
      ensures maxSize == ShardSize(size, shards)
    {
      items, head, tail := map[], null, null;
      maxSize := ShardSize(size, shards);
      this.sketch := sketch;
      closed := false;
      list, view, ops := [], [], [];
      new;
      EmptyMapped<V, Entry<V>>();
    }

    /** How often the sketch thinks each key was used. */
    ghost function Freq(): Text -> nat
      requires sketch.Valid()
      reads sketch, sketch.counts
    {
      var t, g := sketch.table, sketch.g;
      (k: Text) => Sketches.Estimate(t, g, k)
    }

    /** Takes an entry out of the list. */
    method Unlink(e: Entry<V>, ghost i: nat)
      requires Linked() && Shows() && i < |list| && list[i] == e
      modifies this`head, this`tail, this`list, this`view, list`next, list`prev
      ensures Linked() && Shows() && list == RemoveAt(old(list), i) && view == RemoveAt(old(view), i)
    {
      hide Linked, LinkedAt, NoDup, RemoveAt;
      ghost var wasList, wasView := list, view;
      RemoveEntry(e, i);
      view := RemoveAt(view, i);
      forall j | 0 <= j < |list| ensures view[j] == list[j].Content() {
        RemoveAtIndex(wasList, i, j);
        RemoveAtIndex(wasView, i, j);
      }
    }

    /** Takes an entry out of the map and the list. */
    method Discard(e: Entry<V>, ghost i: nat)
      requires Held() && i < |list| && list[i] == e
      modifies this`items, this`head, this`tail, this`list, this`view, list`next, list`prev
      ensures Held() && list == RemoveAt(old(list), i) && view == RemoveAt(old(view), i)
      ensures items == old(items) - {old(e.key)} && forall j :: 0 <= j < |list| ==> list[j] in old(list)
    {
      hide Mapped, DistinctKeys, IndexOf, Linked, LinkedAt, NoDup, RemoveAt;
      MappedRemove(items, list, view, i);
      RemoveDistinct(view, i);
      RemoveMember(list, i);
      items := items - {e.key};
      Unlink(e, i);
    }

    /** Moves an entry to the front of the list. */
    method Advance(e: Entry<V>, ghost i: nat)
      requires Linked() && Shows() && i < |list| && list[i] == e
      modifies this`head, this`tail, this`list, this`view, list`next, list`prev
      ensures Linked() && Shows() && list == [e] + RemoveAt(old(list), i) && view == [old(view)[i]] + RemoveAt(old(view), i)
    {
      hide Linked, LinkedAt, NoDup, RemoveAt;
      ghost var wasList, wasView := list, view;
      MoveToFront(e, i);
      view := [view[i]] + RemoveAt(view, i);
      forall j | 0 <= j < |list| ensures view[j] == list[j].Content() {
        if j > 0 {
          RemoveAtIndex(wasList, i, j - 1);
          RemoveAtIndex(wasView, i, j - 1);
        }
      }
    }

    method Promote(e: Entry<V>, ghost i: nat)
      requires Held() && i < |list| && list[i] == e
      modifies this`head, this`tail, this`list, this`view, list`next, list`prev
      ensures Held() && list == [e] + RemoveAt(old(list), i) && view == [old(view)[i]] + RemoveAt(old(view), i)
    {
      hide Mapped, DistinctKeys, IndexOf, Linked, LinkedAt, NoDup, RemoveAt;
      MappedFront(items, list, view, i, view[i]);
      RemoveDistinct(view, i);
      ConsDistinct(view[i], RemoveAt(view, i));
      Advance(e, i);
    }

    method Get(key: Text, now: int64) returns (r: Option<V>)
      requires Valid()
      modifies this, list, sketch, sketch.counts
      ensures Valid() && closed == old(closed)
      ensures ops == old(ops) + if closed || key == [] then [] else [Op.Get(key, now)]
      ensures r == if closed || key == [] then None else GetResult(old(view), key, now)
      ensures sketch.table == if r.Some? then Sketches.Increment(old(sketch.table), sketch.g, key) else old(sketch.table)
      ensures r.Some? ==> var x := Latest(old(ops), key); x.Some? && x.value.value == r.value && !Stale(x.value, now)
    {
      hide Mapped, DistinctKeys, IndexOf, Linked, LinkedAt, NoDup, RemoveAt, Run, Latest;
      r := None;
      if closed || key == [] {
        return;
      }
      ReadsLatest(ops, maxSize, key, now);
      MappedAt(items, list, view, key);
      RunSnoc(ops, Op.Get(key, now), maxSize);
      ops := ops + [Op.Get(key, now)];
      if key !in items {
        return;
      }
      var e := items[key];
      ghost var i := IndexOf(view, key);
      if e.expireAt > 0 && now > e.expireAt {
        Discard(e, i);
        return;
      }
      r := Some(e.value);
      Promote(e, i);
      sketch.IncrementKey(key);
    }

    lemma FreqIs(key: Text)
      requires sketch.Valid()
      ensures Freq()(key) == Sketches.Estimate(sketch.table, sketch.g, key)
    {
    }

    /** The entry of a position, its links and its contents. */
    lemma EntryAt(i: nat)
      requires Held() && i < |list|
      ensures list[i].prev == (if i == 0 then null else list[i - 1]) && view[i] == list[i].Content()
      ensures i > 0 ==> list[i] != list[0]
    {
      assert LinkedAt(list, i);
    }

    /** Walks from the tail towards the head, which it does not look at, for the first entry used less often
        than the newcomer. */
    method ScanVictim(ghost f: Text -> nat, newFreq: uint64) returns (victim: Entry?<V>, ghost i: nat)
      requires Valid() && tail != null && f == Freq() && f(view[|view| - 1].key) > newFreq
      ensures victim == null ==> Colder(view, f, newFreq, |view| - 1) == None
      ensures victim != null ==> i < |list| && list[i] == victim && Colder(view, f, newFreq, |view| - 1) == Some(i)
    {
      hide Mapped, DistinctKeys, IndexOf, Linked, LinkedAt, Shows, NoDup, RemoveAt, Freq;
      Ends();
      i := |list| - 1;
      var current := tail;
      while true
        invariant i < |list| && current != null && list[i] == current
        invariant i == 0 ==> |list| == 1
        invariant Colder(view, f, newFreq, |view| - 1) == Colder(view, f, newFreq, i)
        decreases i
      {
        EntryAt(i);
        FreqIs(current.key);
        var freq := sketch.EstimateKey(current.key);
        if freq < newFreq {
          return current, i;
        }
        if i > 0 {
          EntryAt(i - 1);
        }
        current := current.prev;
        if current == null || current == head {
          return null, i;
        }
        i := i - 1;
      }
    }

    lemma TailPresent()
      requires Held()
      ensures tail == null <==> list == []
    {
    }

    lemma Ends()
      requires Held() && tail != null
      ensures list != [] && |view| == |list| && head == list[0] && tail == list[|list| - 1]
      ensures view[|view| - 1] == list[|list| - 1].Content()
    {
    }

    method PickVictim(key: Text) returns (victim: Entry<V>, ghost i: nat)
      requires Valid() && tail != null
      ensures list != [] && |view| == |list| && i == Victim(view, Freq(), key)
      ensures victim == list[Victim(view, Freq(), key)]
    {
      hide Mapped, DistinctKeys, IndexOf, Linked, LinkedAt, Shows, NoDup, RemoveAt, Freq, Colder;
      Ends();
      i := |list| - 1;
      victim := tail;
      var newFreq := sketch.EstimateKey(key);
      var oldFreq := sketch.EstimateKey(victim.key);
      FreqIs(key);
      FreqIs(victim.key);
      if oldFreq > newFreq {
        var colder, at := ScanVictim(Freq(), newFreq);
        if colder != null {
          victim, i := colder, at;
        }
      }
    }

    /** Overwrites an entry in place and moves it to the front. */
    method Replace(e: Entry<V>, ghost i: nat, value: V, expireAt: int64)
      requires Held() && i < |list| && list[i] == e
      modifies this`head, this`tail, this`list, this`view, list
      ensures Held() && list == [e] + RemoveAt(old(list), i)
      ensures view == [Slot(old(view)[i].key, value, expireAt)] + RemoveAt(old(view), i)
    {
      hide Mapped, DistinctKeys, IndexOf, LinkedAt, RemoveAt;
      ghost var x := Slot(view[i].key, value, expireAt);
      MappedFront(items, list, view, i, x);
      RemoveDistinct(view, i);
      ConsDistinct(x, RemoveAt(view, i));
      RemoveUpdated(view, i, x);
      e.value := value;
      e.expireAt := expireAt;
      view := view[i := x];
      Advance(e, i);
    }

    /** Puts an entry in front of the list. */
    method Prepend(e: Entry<V>)
      requires Linked() && Shows() && e !in list
      modifies this`head, this`tail, this`list, this`view, e`next, e`prev, list`prev
      ensures Linked() && Shows() && list == [e] + old(list) && view == [e.Content()] + old(view)
    {
      hide Linked, LinkedAt, NoDup;
      ghost var was := list;
      AddToFront(e);
      view := [e.Content()] + view;
      assert forall j :: 0 < j < |list| ==> list[j] == was[j - 1];
    }

    /** Puts a new entry in front. */
    method Insert(key: Text, value: V, expireAt: int64)
      requires Held() && key !in items
      modifies this`items, this`head, this`tail, this`list, this`view, list`prev
      ensures Held() && view == [Slot(key, value, expireAt)] + old(view)
    {
      hide IndexOf, Linked, LinkedAt, NoDup, Mapped, DistinctKeys;
      ghost var x := Slot(key, value, expireAt);
      var e := new Entry<V>(key, value, expireAt);
      MappedCons(items, list, view, x, e);
      KeyAbsent(items, list, view, key);
      ConsDistinct(x, view);
      items := items[key := e];
      Prepend(e);
    }

    /** Makes room for a new key if there is none, and puts it in front. */
    method Admit(key: Text, value: V, expireAt: int64)
      requires Valid() && key !in items
      modifies this`items, this`head, this`tail, this`list, this`view, list`next, list`prev
      ensures Held() && view == SetView(old(view), Slot(key, value, expireAt), Freq(), maxSize)
    {
      hide Mapped, DistinctKeys, IndexOf, Linked, LinkedAt, NoDup, RemoveAt, Shows, Victim, Freq, Run;
      MappedAt(items, list, view, key);
      TailPresent();
      if maxSize > 0 && |items| >= maxSize && tail != null {
        var victim, i := PickVictim(key);
        Discard(victim, i);
      }
      Insert(key, value, expireAt);
    }

    /** Stores a value for ttl nanoseconds, or for good when ttl is not positive. */
    method Set(key: Text, value: V, ttl: int64, now: int64)
      requires Valid()
      modifies this, list, sketch, sketch.counts
      ensures Valid() && closed == old(closed)
      ensures ops == old(ops) +
                     if closed || key == [] then [] else [Op.Set(Slot(key, value, Expiry(ttl, now)), old(Freq()))]
      ensures sketch.table == if closed || key == [] || old(key in items) then old(sketch.table)
                              else Sketches.Increment(old(sketch.table), sketch.g, key)
    {
      hide Mapped, DistinctKeys, IndexOf, Linked, LinkedAt, NoDup, RemoveAt, Shows, Victim, Freq, Run, Colder;
      if closed || key == [] {
        return;
      }
      var expireAt := Expiry(ttl, now);
      ghost var op := Op.Set(Slot(key, value, expireAt), Freq());
      RunSnoc(ops, op, maxSize);
      MappedAt(items, list, view, key);
      if key in items {
        IndexFacts(view, key);
        Replace(items[key], IndexOf(view, key), value, expireAt);
        ops := ops + [op];
        return;
      }
      Admit(key, value, expireAt);
      ops := ops + [op];
      sketch.IncrementKey(key);
    }

    /** The cache never holds more than its share. */
    lemma Bounded()
      requires Valid()
      ensures |items| == |view| <= maxSize
    {
      RunShape(ops, maxSize);
    }

    method Delete(key: Text) returns (found: bool)
      requires Valid()
      modifies this, list
      ensures Valid() && closed == old(closed)
      ensures ops == old(ops) + if closed || key == [] then [] else [Op.Delete(key)]
      ensures found <==> !closed && key != [] && old(key in items)
    {
      hide Mapped, DistinctKeys, IndexOf, Linked, LinkedAt, NoDup, RemoveAt, Shows, Run;
      if closed || key == [] {
        return false;
      }
      MappedAt(items, list, view, key);
      RunSnoc(ops, Op.Delete(key), maxSize);
      found := key in items;
      if found {
        Discard(items[key], IndexOf(view, key));
      }
      ops := ops + [Op.Delete(key)];
    }

    /** Works on a closed cache too. */
    method Clear()
      requires Valid()
      modifies this
      ensures Valid() && closed == old(closed) && items == map[] && ops == old(ops) + [Op.Clear]
    {
      hide Mapped, DistinctKeys, IndexOf, Run;
      EmptyMapped<V, Entry<V>>();
      RunSnoc(ops, Op.Clear, maxSize);
      items, head, tail := map[], null, null;
      list, view := [], [];
      ops := ops + [Op.Clear];
    }

    method Close()
      requires Valid()
      modifies this`closed
      ensures Valid() && closed
    {
      closed := true;
    }
  }

  lemma RunSnoc<V>(ops: seq<Op<V>>, op: Op<V>, maxSize: nat)
    ensures Run(ops + [op], maxSize) == Apply(Run(ops, maxSize), op, maxSize)
  {
    assert (ops + [op])[..|ops|] == ops;
  }

  function Expiry(ttl: int64, now: int64): int64 {
    if ttl > 0 then Wrap64(now + ttl) else 0
  }

  lemma RemoveMember<T>(s: seq<T>, i: nat)
    requires i < |s|
    ensures forall j :: 0 <= j < |s| - 1 ==> RemoveAt(s, i)[j] in s
  {
  }

  lemma RemoveUpdated<T>(s: seq<T>, i: nat, x: T)
    requires i < |s|
    ensures RemoveAt(s[i := x], i) == RemoveAt(s, i)
  {
  }

  lemma KeyAbsent<V, E>(items: map<Text, E>, list: seq<E>, view: seq<Slot<V>>, key: Text)
    requires Mapped(items, list, view) && key !in items
    ensures forall j :: 0 <= j < |view| ==> view[j].key != key
  {
    IndexFacts(view, key);
  }

  lemma EmptyMapped<V, E>()
    ensures Mapped<V, E>(map[], [], []) && DistinctKeys<V>([])
  {
  }

}
