/** The frequency sketch behind the cache (internal/utils/cache/tinylfu.go): a matrix of saturating
    counters, one cell per row for each key, read as the smallest of them and halved to age. */
module Sketches {
  import opened Base

  const SEED := 0x12345678

  /** The two hashes of a key and the number of cells in a row. */
  datatype Hashing = Hashing(hash: Text -> uint64, mix: uint64 -> uint64, width: nat)

  /** The key's cell in row i. */
  function Cell(g: Hashing, key: Text, i: nat): (j: nat)
    requires g.width > 0
    ensures j < g.width
  {
    var h1 := g.hash(key) as int;
    (h1 + i * (g.mix(g.hash(key)) as int) + SEED * i) % TWO64 % g.width
  }

  function Saturated(c: uint64): uint64 {
    if c < TWO64 - 1 then c + 1 else c
  }

  type Table = seq<seq<uint64>>

  ghost predicate Shaped(t: Table, depth: nat, width: nat) {
    |t| == depth && forall i :: 0 <= i < depth ==> |t[i]| == width
  }

  function Zeros(depth: nat, width: nat): Table {
    seq(depth, _ => seq(width, _ => 0))
  }

  function BumpRow(r: seq<uint64>, j: nat): seq<uint64>
    requires j < |r|
  {
    r[j := Saturated(r[j])]
  }

  function HalfRow(r: seq<uint64>): seq<uint64> {
    seq(|r|, j requires 0 <= j < |r| => r[j] / 2)
  }

  ghost function Increment(t: Table, g: Hashing, key: Text): Table
    requires g.width > 0 && Shaped(t, |t|, g.width)
  {
    seq(|t|, i requires 0 <= i < |t| => BumpRow(t[i], Cell(g, key, i)))
  }

  function Halve(t: Table): Table {
    seq(|t|, i requires 0 <= i < |t| => HalfRow(t[i]))
  }

  /** The smallest of the key's cells in the first n rows. */
  ghost function Lowest(t: Table, g: Hashing, key: Text, n: nat): nat
    requires g.width > 0 && Shaped(t, |t|, g.width) && n <= |t|
  {
    if n == 0 then 0 else
      var c, rest := t[n - 1][Cell(g, key, n - 1)], Lowest(t, g, key, n - 1);
      if n == 1 || c < rest then c else rest
  }

  ghost function Estimate(t: Table, g: Hashing, key: Text): nat
    requires g.width > 0 && Shaped(t, |t|, g.width)
  {
    Lowest(t, g, key, |t|)
  }

  // ---------------------------------------------------------------- where a key is counted

  /** Two numbers that differ by a multiple of w. */
  lemma SameRemainder(a: int, b: int, k: int, w: nat)
    requires w > 0 && a == b + w * k
    ensures a % w == b % w
  {
    var q := b / w;
    assert w * (q + k) == w * q + w * k;
    RemainderIs(a, w, q + k, b % w);
  }

  /** Taking the low 64 bits first does not matter to a width that divides 2^64. */
  lemma LowBits(x: int, w: nat)
    requires w > 0 && TWO64 % w == 0
    ensures x % TWO64 % w == x % w
  {
    var k, q := TWO64 / w, x / TWO64;
    assert TWO64 == w * k && TWO64 * q == w * (k * q);
    SameRemainder(x, x % TWO64, k * q, w);
  }

  /** The first row uses the hash itself; each further row is a fixed stride away, given by the second hash. */
  lemma CellsInStride(g: Hashing, key: Text, i: nat)
    requires g.width > 0 && TWO64 % g.width == 0
    ensures Cell(g, key, 0) == g.hash(key) as int % g.width
    ensures Cell(g, key, i + 1) == (Cell(g, key, i) + g.mix(g.hash(key)) as int + SEED) % g.width
  {
    var h, d, w := g.hash(key) as int, g.mix(g.hash(key)) as int + SEED, g.width;
    Strides(h, d, i);
    LowBits(h, w);
    LowBits(h + i * d, w);
    LowBits(h + i * d + d, w);
    NextRow(h + i * d, d, w);
  }

  lemma Strides(h: int, d: int, i: nat)
    ensures h + i * (d - SEED) + SEED * i == h + i * d && h + (i + 1) * (d - SEED) + SEED * (i + 1) == h + i * d + d
  {
    assert i * (d - SEED) == i * d - SEED * i;
    assert (i + 1) * (d - SEED) == i * (d - SEED) + (d - SEED);
  }

  lemma NextRow(x: int, d: int, w: nat)
    requires w > 0
    ensures (x + d) % w == (x % w + d) % w
  {
    SameRemainder(x + d, x % w + d, x / w, w);
  }

  /** Two keys are counted together in every row if and only if they are in the first two. */
  lemma {:induction false} TogetherExactly(g: Hashing, a: Text, b: Text, n: nat)
    requires g.width > 0 && TWO64 % g.width == 0 && n >= 2
    ensures (forall i :: 0 <= i < n ==> Cell(g, a, i) == Cell(g, b, i)) <==>
            Cell(g, a, 0) == Cell(g, b, 0) && Cell(g, a, 1) == Cell(g, b, 1)
  {
    hide Cell;
    if Cell(g, a, 0) == Cell(g, b, 0) && Cell(g, a, 1) == Cell(g, b, 1) {
      forall i: nat | i < n ensures Cell(g, a, i) == Cell(g, b, i) {
        TogetherAt(g, a, b, i);
      }
    }
  }

  lemma {:induction false} TogetherAt(g: Hashing, a: Text, b: Text, i: nat)
    requires g.width > 0 && TWO64 % g.width == 0
    requires Cell(g, a, 0) == Cell(g, b, 0) && Cell(g, a, 1) == Cell(g, b, 1)
    ensures Cell(g, a, i) == Cell(g, b, i)
  {
    hide Cell;
    if i > 0 {
      TogetherAt(g, a, b, i - 1);
      CellsInStride(g, a, 0);
      CellsInStride(g, b, 0);
      CellsInStride(g, a, i - 1);
      CellsInStride(g, b, i - 1);
      SameStride(Cell(g, a, 0), Cell(g, a, i - 1), g.mix(g.hash(a)) as int + SEED, g.mix(g.hash(b)) as int + SEED, g.width);
    }
  }

  lemma SameStride(x: int, y: int, d: int, e: int, w: nat)
    requires w > 0 && (x + d) % w == (x + e) % w
    ensures (y + d) % w == (y + e) % w
  {
    var k := (x + d) / w - (x + e) / w;
    assert w * k == w * ((x + d) / w) - w * ((x + e) / w);
    SameRemainder(y + d, y + e, k, w);
  }

  // ---------------------------------------------------------------- what it measures

  datatype Event = Access(key: Text) | Age

  /** The exact aged count of one key: one more for each access, halved by each ageing, never past the top. */
  function Exact(events: seq<Event>, key: Text): uint64 {
    if events == [] then 0 else
      var before := Exact(events[..|events| - 1], key);
      match events[|events| - 1]
      case Access(k) => if k == key then Saturated(before) else before
      case Age => before / 2
  }

  /** The aged count of every key that lands in cell j of row i. */
  function Shared(events: seq<Event>, g: Hashing, i: nat, j: nat): uint64
    requires g.width > 0
  {
    if events == [] then 0 else
      var before := Shared(events[..|events| - 1], g, i, j);
      match events[|events| - 1]
      case Access(k) => if Cell(g, k, i) == j then Saturated(before) else before
      case Age => before / 2
  }

  /** The aged count of everything. */
  function Total(events: seq<Event>): uint64 {
    if events == [] then 0 else
      var before := Total(events[..|events| - 1]);
      if events[|events| - 1].Access? then Saturated(before) else before / 2
  }

  ghost function Run(events: seq<Event>, g: Hashing, depth: nat): (t: Table)
    requires g.width > 0
    ensures Shaped(t, depth, g.width)
  {
    if events == [] then Zeros(depth, g.width) else
      var before := Run(events[..|events| - 1], g, depth);
      match events[|events| - 1]
      case Access(k) => Increment(before, g, k)
      case Age => Halve(before)
  }

  /** Every cell holds exactly the aged count of the keys that share it. */
  lemma {:induction false} CellsExact(events: seq<Event>, g: Hashing, depth: nat, i: nat, j: nat)
    requires g.width > 0 && i < depth && j < g.width
    ensures Run(events, g, depth)[i][j] == Shared(events, g, i, j)
  {
    if events != [] {
      CellsExact(events[..|events| - 1], g, depth, i, j);
    }
  }

  lemma {:induction false} SharedBounds(events: seq<Event>, g: Hashing, i: nat, key: Text)
    requires g.width > 0
    ensures Exact(events, key) <= Shared(events, g, i, Cell(g, key, i)) <= Total(events)
  {
    if events != [] {
      SharedBounds(events[..|events| - 1], g, i, key);
    }
  }

  /** No other accessed key shares this key's cell in row i. */
  ghost predicate Alone(events: seq<Event>, g: Hashing, i: nat, key: Text)
    requires g.width > 0
  {
    forall e :: 0 <= e < |events| ==> events[e].Access? && events[e].key != key ==> Cell(g, events[e].key, i) != Cell(g, key, i)
  }

  lemma {:induction false} AloneExact(events: seq<Event>, g: Hashing, i: nat, key: Text)
    requires g.width > 0 && Alone(events, g, i, key)
    ensures Shared(events, g, i, Cell(g, key, i)) == Exact(events, key)
  {
    if events != [] {
      var p := events[..|events| - 1];
      assert Alone(p, g, i, key) by {
        forall e | 0 <= e < |p| ensures p[e] == events[e] {
        }
      }
      AloneExact(p, g, i, key);
    }
  }

  /** The estimate is one of the key's cells and no larger than any. */
  lemma {:induction false} LowestIsMin(t: Table, g: Hashing, key: Text, n: nat) returns (w: nat)
    requires g.width > 0 && Shaped(t, |t|, g.width) && 0 < n <= |t|
    ensures w < n && Lowest(t, g, key, n) == t[w][Cell(g, key, w)]
    ensures forall i :: 0 <= i < n ==> Lowest(t, g, key, n) <= t[i][Cell(g, key, i)]
  {
    if n == 1 {
      w := 0;
    } else {
      w := LowestIsMin(t, g, key, n - 1);
      if t[n - 1][Cell(g, key, n - 1)] < Lowest(t, g, key, n - 1) {
        w := n - 1;
      }
    }
  }

  /** Over every run, the estimate never falls below the exact aged count and never exceeds the aged count
      of everything; it is exact as soon as one row keeps the key apart from every other accessed key. */
  lemma NeverUnderestimates(events: seq<Event>, g: Hashing, depth: nat, key: Text)
    requires g.width > 0 && depth > 0
    ensures var e := Estimate(Run(events, g, depth), g, key);
            && Exact(events, key) <= e <= Total(events)
            && ((exists i | 0 <= i < depth :: Alone(events, g, i, key)) ==> e == Exact(events, key))
  {
    var t := Run(events, g, depth);
    var w := LowestIsMin(t, g, key, depth);
    CellsExact(events, g, depth, w, Cell(g, key, w));
    SharedBounds(events, g, w, key);
    if i :| 0 <= i < depth && Alone(events, g, i, key) {
      CellsExact(events, g, depth, i, Cell(g, key, i));
      AloneExact(events, g, i, key);
    }
  }

  /** The estimate is exact exactly when in some row the keys that share the cell add nothing. */
  lemma ExactExactly(events: seq<Event>, g: Hashing, depth: nat, key: Text)
    requires g.width > 0 && depth > 0
    ensures Estimate(Run(events, g, depth), g, key) == Exact(events, key) <==>
            exists i | 0 <= i < depth :: Shared(events, g, i, Cell(g, key, i)) == Exact(events, key)
  {
    NeverUnderestimates(events, g, depth, key);
    var w := LowestIsMin(Run(events, g, depth), g, key, depth);
    CellsExact(events, g, depth, w, Cell(g, key, w));
    if i :| 0 <= i < depth && Shared(events, g, i, Cell(g, key, i)) == Exact(events, key) {
      CellsExact(events, g, depth, i, Cell(g, key, i));
    }
  }

  /** Accesses of other keys that share the key's cell in row i. */
  function Strangers(events: seq<Event>, g: Hashing, i: nat, key: Text): nat
    requires g.width > 0
  {
    if events == [] then 0 else
      var e := events[|events| - 1];
      Strangers(events[..|events| - 1], g, i, key) +
      if e.Access? && e.key != key && Cell(g, e.key, i) == Cell(g, key, i) then 1 else 0
  }

  lemma {:induction false} StrangersNone(events: seq<Event>, g: Hashing, i: nat, key: Text)
    requires g.width > 0
    ensures Strangers(events, g, i, key) == 0 <==> Alone(events, g, i, key)
  {
    if events != [] {
      var p, e := events[..|events| - 1], events[|events| - 1];
      StrangersNone(p, g, i, key);
      assert Alone(events, g, i, key) <==>
        Alone(p, g, i, key) && !(e.Access? && e.key != key && Cell(g, e.key, i) == Cell(g, key, i)) by {
        assert events == p + [e];
      }
    }
  }

  /** Before any ageing and saturation a shared cell counts the strangers on top of the key. */
  lemma {:induction false} SharedCounts(events: seq<Event>, g: Hashing, i: nat, key: Text)
    requires g.width > 0 && |events| < TWO64 && forall e :: 0 <= e < |events| ==> events[e].Access?
    ensures Shared(events, g, i, Cell(g, key, i)) == Exact(events, key) + Strangers(events, g, i, key) <= |events|
  {
    if events != [] {
      SharedCounts(events[..|events| - 1], g, i, key);
    }
  }

  /** Until the first ageing the estimate is exact if and only if some row keeps the key apart from every other
      accessed key. */
  lemma ExactUntilAged(events: seq<Event>, g: Hashing, depth: nat, key: Text)
    requires g.width > 0 && depth > 0 && |events| < TWO64 && forall e :: 0 <= e < |events| ==> events[e].Access?
    ensures Estimate(Run(events, g, depth), g, key) == Exact(events, key) <==>
            exists i | 0 <= i < depth :: Alone(events, g, i, key)
  {
    ExactExactly(events, g, depth, key);
    forall i | 0 <= i < depth
      ensures Shared(events, g, i, Cell(g, key, i)) == Exact(events, key) <==> Alone(events, g, i, key)
    {
      SharedCounts(events, g, i, key);
      StrangersNone(events, g, i, key);
    }
  }

  // ---------------------------------------------------------------- the matrix in place

  class CountMinSketch {
    const g: Hashing
    const depth: nat
    const counts: array2<uint64>
    ghost var table: Table

    ghost predicate Valid()
      reads this, counts
    {
      && g.width > 0
      && counts.Length0 == depth && counts.Length1 == g.width
      && Shaped(table, depth, g.width)
      && forall i, j :: 0 <= i < depth && 0 <= j < g.width ==> table[i][j] == counts[i, j]
    }

    constructor (g: Hashing, depth: nat)
      requires g.width > 0
      ensures Valid() && fresh(counts)
      ensures this.g == g && this.depth == depth && table == Run([], g, depth)
    {
      this.g, this.depth := g, depth;
      counts := new uint64[depth, g.width]((_, _) => 0);
      table := Zeros(depth, g.width);
    }

    method EstimateKey(key: Text) returns (low: uint64)
      requires Valid()
      ensures low == Estimate(table, g, key)
    {
      low := 0;
      for i := 0 to depth
        invariant low == Lowest(table, g, key, i)
      {
        var count := counts[i, Cell(g, key, i)];
        if i == 0 || count < low {
          low := count;
        }
      }
    }

    method IncrementKey(key: Text)
      requires Valid()
      modifies this`table, counts
      ensures Valid() && table == Increment(old(table), g, key)
    {
      for i := 0 to depth
        modifies counts
        invariant forall r, j :: 0 <= r < i && 0 <= j < g.width ==> counts[r, j] == BumpRow(table[r], Cell(g, key, r))[j]
        invariant forall r, j :: i <= r < depth && 0 <= j < g.width ==> counts[r, j] == table[r][j]
      {
        var j := Cell(g, key, i);
        if counts[i, j] < TWO64 - 1 {
          counts[i, j] := counts[i, j] + 1;
        }
      }
      table := Increment(table, g, key);
    }

    method Reset()
      requires Valid()
      modifies this`table, counts
      ensures Valid() && table == Halve(old(table))
    {
      for i := 0 to depth
        modifies counts
        invariant forall r, j :: 0 <= r < i && 0 <= j < g.width ==> counts[r, j] == table[r][j] / 2
        invariant forall r, j :: i <= r < depth && 0 <= j < g.width ==> counts[r, j] == table[r][j]
      {
        for k := 0 to g.width
          modifies counts
          invariant forall r, j :: 0 <= r < i && 0 <= j < g.width ==> counts[r, j] == table[r][j] / 2
          invariant forall j :: 0 <= j < k ==> counts[i, j] == table[i][j] / 2
          invariant forall j :: k <= j < g.width ==> counts[i, j] == table[i][j]
          invariant forall r, j :: i < r < depth && 0 <= j < g.width ==> counts[r, j] == table[r][j]
        {
          counts[i, k] := counts[i, k] / 2;
        }
      }
      table := Halve(table);
    }
  }
}
