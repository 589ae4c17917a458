/** Shared vocabulary: bytes, Go strings, optional values and fixed-width integers. */
module Base {

  type byte = x: int | 0 <= x < 256

  /** A Go string is a sequence of bytes; keys, node IDs and addresses are all of this type. */
  type Text = seq<byte>

  const COLON: byte := 58
  const ZERO: byte := 48
  const NINE: byte := 57
  const MINUS: byte := 45

  const TWO16: int := 0x1_0000
  const TWO32: int := 0x1_0000_0000
  const TWO47: int := 0x8000_0000_0000
  const TWO48: int := 0x1_0000_0000_0000
  const TWO63: int := 0x8000_0000_0000_0000
  const TWO64: int := 0x1_0000_0000_0000_0000

  type uint64 = x: int | 0 <= x < 0x1_0000_0000_0000_0000
  type int64 = x: int | -0x8000_0000_0000_0000 <= x < 0x8000_0000_0000_0000

  datatype Option<+T> = None | Some(value: T)

  /** The value an int64 variable holds after a computation whose exact result is x. */
  function Wrap64(x: int): int64 {
    var u := x % TWO64;
    if u < TWO63 then u else u - TWO64
  }

  /** No element occurs twice. */
  ghost predicate NoDup<T>(s: seq<T>) {
    forall i, j :: 0 <= i < j < |s| ==> s[i] != s[j]
  }

  /** The elements of a sequence, as a set. */
  ghost function Elems<T>(s: seq<T>): set<T> {
    set x | x in s
  }

  /** The first n elements, or all of them when there are fewer. */
  function Take<T>(s: seq<T>, n: nat): seq<T> {
    if n <= |s| then s[..n] else s
  }

  /** The first of p, 2p, 4p, ... that is at least n. */
  function RoundUp(n: nat, p: nat): (r: nat)
    requires p > 0
    ensures n <= r && p <= r && (p < n ==> r < 2 * n)
    decreases n - p
  {
    if p >= n then p else RoundUp(n, 2 * p)
  }

  function Pow2(k: nat): nat {
    if k == 0 then 1 else 2 * Pow2(k - 1)
  }

  /** From 1, it is the smallest power of two that is at least n. */
  lemma RoundUpIsPower(n: nat) returns (k: nat)
    ensures RoundUp(n, 1) == Pow2(k) && n <= Pow2(k) && (k > 0 ==> Pow2(k - 1) < n)
  {
    k := RoundUpFrom(n, 0);
  }

  lemma {:induction false} RoundUpFrom(n: nat, j: nat) returns (k: nat)
    requires Pow2(j) > 0
    ensures j <= k && RoundUp(n, Pow2(j)) == Pow2(k) && n <= Pow2(k) && (k > j ==> Pow2(k - 1) < n)
    decreases n - Pow2(j)
  {
    k := j;
    if Pow2(j) < n {
      k := RoundUpFrom(n, j + 1);
    }
  }

  function Min(a: int, b: int): int {
    if a < b then a else b
  }

  lemma ElemsSnoc<T>(p: seq<T>, x: T)
    ensures Elems(p + [x]) == Elems(p) + {x}
  {
  }

  lemma NoDupParts<T>(p: seq<T>, x: T)
    requires NoDup(p + [x])
    ensures NoDup(p) && x !in Elems(p)
  {
    var s := p + [x];
    forall i, j | 0 <= i < j < |p| ensures p[i] != p[j] {
      assert s[i] == p[i] && s[j] == p[j];
    }
    forall i | 0 <= i < |p| ensures p[i] != x {
      assert s[i] == p[i] && s[|p|] == x;
    }
  }

  lemma NoDupConcat<T>(a: seq<T>, b: seq<T>)
    requires NoDup(a) && NoDup(b) && forall x :: !(x in a && x in b)
    ensures NoDup(a + b)
  {
    var s := a + b;
    forall i, j | 0 <= i < j < |s| ensures s[i] != s[j] {
      if i < |a| && |a| <= j {
        assert s[i] in a && s[j] in b;
      }
    }
  }

  lemma {:induction false} NoDupCard<T>(s: seq<T>)
    requires NoDup(s)
    ensures |Elems(s)| == |s|
    decreases |s|, 1
  {
    if s == [] {
      assert Elems(s) == {};
    } else {
      NoDupCardStep(s[..|s| - 1], s[|s| - 1], s);
    }
  }

  lemma {:induction false} NoDupCardStep<T>(p: seq<T>, x: T, s: seq<T>)
    requires s == p + [x] && NoDup(s)
    ensures |Elems(s)| == |s|
    decreases |s|, 0
  {
    hide *;
    NoDupParts(p, x);
    NoDupCard(p);
    ElemsSnoc(p, x);
  }

  /** s without its occurrences of x. */
  function Without<T(==)>(s: seq<T>, x: T): seq<T> {
    if s == [] then []
    else Without(s[..|s| - 1], x) + (if s[|s| - 1] == x then [] else [s[|s| - 1]])
  }

  lemma {:induction false} WithoutAbsent<T>(s: seq<T>, x: T)
    requires x !in s
    ensures Without(s, x) == s
  {
    if s != [] {
      WithoutAbsent(s[..|s| - 1], x);
      assert s == s[..|s| - 1] + [s[|s| - 1]];
    }
  }

  lemma {:induction false} WithoutPresent<T>(a: seq<T>, x: T, b: seq<T>)
    requires x !in a && x !in b
    ensures Without(a + [x] + b, x) == a + b
    decreases |b|
  {
    var s := a + [x] + b;
    if b == [] {
      assert s[..|s| - 1] == a && a + b == a;
      WithoutAbsent(a, x);
    } else {
      var b', last := b[..|b| - 1], b[|b| - 1];
      assert s[..|s| - 1] == a + [x] + b';
      WithoutPresent(a, x, b');
      assert a + b == (a + b') + [last];
    }
  }

  /** A repeat-free list is cut in two by one of its elements. */
  lemma SplitAt<T>(s: seq<T>, x: T) returns (a: seq<T>, b: seq<T>)
    requires NoDup(s) && x in s
    ensures s == a + [x] + b && x !in a && x !in b
  {
    var k :| 0 <= k < |s| && s[k] == x;
    a, b := s[..k], s[k + 1..];
  }

  /** The elements of a set in some order. */
  method ListOf<T(==)>(s: set<T>) returns (l: seq<T>)
    ensures NoDup(l) && forall x :: x in l <==> x in s
  {
    l := [];
    var rest := s;
    while rest != {}
      invariant rest <= s
      invariant NoDup(l) && forall x :: x in l <==> x in s - rest
      decreases |rest|
    {
      var x :| x in rest;
      assert x !in l;
      l := l + [x];
      rest := rest - {x};
    }
  }

  /** A remainder is known by its range and a quotient. */
  lemma RemainderIs(x: int, n: nat, q: int, r: nat)
    requires r < n && x == n * q + r
    ensures x % n == r
  {
    var k := x / n - q;
    assert x % n - r == -(n * k);
    Multiples(n, k);
  }

  lemma Multiples(n: nat, k: int)
    ensures (k > 0 ==> n * k >= n) && (k < 0 ==> n * k <= 0 - n)
  {
  }
}
