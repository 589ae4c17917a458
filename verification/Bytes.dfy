/** Little-endian integers in byte strings, as both wire formats of the cluster use them. */
module Bytes {
  import opened Base

  function Pow256(k: nat): nat {
    if k == 0 then 1 else 256 * Pow256(k - 1)
  }

  /** The low k bytes of n, lowest first. */
  function Le(n: nat, k: nat): (s: Text)
    ensures |s| == k
  {
    if k == 0 then [] else [n % 256] + Le(n / 256, k - 1)
  }

  function FromLe(s: Text): nat {
    if s == [] then 0 else s[0] + 256 * FromLe(s[1..])
  }

  lemma {:induction false} LeFromLe(n: nat, k: nat)
    requires n < Pow256(k)
    ensures FromLe(Le(n, k)) == n
  {
    if k > 0 {
      LeFromLe(n / 256, k - 1);
      assert Le(n, k)[1..] == Le(n / 256, k - 1);
    }
  }

  lemma PowPositive(k: nat)
    ensures Pow256(k) > 0
  {
  }

  /** Dropping a byte and then i more drops i + 1. */
  lemma DropBytes(n: nat, p: nat)
    requires p > 0
    ensures n / 256 / p == n / (256 * p)
  {
    var q, r := n / (256 * p), n % (256 * p);
    assert n == 256 * (p * q) + r;
    assert n / 256 == p * q + r / 256;
    assert r / 256 < p;
    QuotientIs(n / 256, p, q, r / 256);
  }

  lemma QuotientIs(x: nat, n: nat, q: nat, r: nat)
    requires r < n && x == n * q + r
    ensures x / n == q
  {
    RemainderIs(x, n, q, r);
    assert n * (x / n - q) == 0;
    Multiples(n, x / n - q);
  }

  /** The i-th byte has weight 256^i. */
  lemma {:induction false} ByteAt(n: nat, k: nat, i: nat)
    requires i < k
    ensures Pow256(i) > 0 && Le(n, k)[i] == n / Pow256(i) % 256
  {
    PowPositive(i);
    if i > 0 {
      ByteAt(n / 256, k - 1, i - 1);
      DropBytes(n, Pow256(i - 1));
    }
  }

  lemma Pow256Values()
    ensures Pow256(2) == TWO16 && Pow256(4) == TWO32 && Pow256(8) == TWO64
  {
    assert Pow256(2) == 0x1_0000;
    assert Pow256(4) == 0x1_0000_0000;
    assert Pow256(6) == 0x1_0000_0000_0000;
  }

  /** The 64 bits of a signed integer, as an unsigned one. */
  function Unsigned(x: int64): uint64 {
    if x < 0 then x + TWO64 else x
  }

  lemma UnsignedBack(x: int64)
    ensures Wrap64(Unsigned(x)) == x
  {
  }

  const SHORT: nat := 2
  const WORD: nat := 4
  const LONG: nat := 8

  function Le2(n: nat): Text {
    Le(n % TWO16, SHORT)
  }

  function Le4(n: nat): Text {
    Le(n % TWO32, WORD)
  }

  function Le8(x: int64): Text {
    Le(Unsigned(x), LONG)
  }

  lemma Le2Back(n: nat)
    ensures |Le2(n)| == 2 && FromLe(Le2(n)) == n % TWO16
  {
    Pow256Values();
    LeFromLe(n % TWO16, 2);
  }

  lemma Le4Back(n: nat)
    ensures |Le4(n)| == 4 && FromLe(Le4(n)) == n % TWO32
  {
    Pow256Values();
    LeFromLe(n % TWO32, 4);
  }

  lemma Le4Exact(n: nat)
    requires n < TWO32
    ensures |Le4(n)| == 4 && FromLe(Le4(n)) == n
  {
    Le4Back(n);
  }

  lemma Le8Back(x: int64)
    ensures |Le8(x)| == 8 && Wrap64(FromLe(Le8(x))) == x
  {
    Pow256Values();
    LeFromLe(Unsigned(x), 8);
    UnsignedBack(x);
  }

  /** The bytes of the fixed-size fields. */
  lemma FieldBytes(x: int64, n: nat)
    ensures |Le8(x)| == 8 && Le8(x) == Le(x % TWO64, 8) && |Le4(n)| == 4 && Le4(n) == Le(n % TWO32, 4)
  {
    hide Le;
  }

  lemma Split<T>(a: seq<T>, b: seq<T>)
    ensures (a + b)[..|a|] == a && (a + b)[|a|..] == b
  {
  }

  lemma Le2Bytes(n: nat)
    ensures Le2(n) == [n % 256, n / 256 % 256]
  {
    var m := n % TWO16;
    assert m % 256 == n % 256 && m / 256 == n / 256 % 256;
    assert Le(m, 2) == [m % 256] + Le(m / 256, 1);
    assert Le(m / 256, 1) == [m / 256 % 256] + Le(m / 256 / 256, 0);
  }

  /** A part of a text that stands at an offset. */
  lemma Slices(e: Text, a: Text, b: Text, at: nat)
    requires at <= |e| && e[at..] == a + b
    ensures at + |a| <= |e| && e[at..at + |a|] == a && e[at + |a|..] == b
  {
    assert e[at..at + |a|] == e[at..][..|a|];
    assert e[at + |a|..] == e[at..][|a|..];
  }
}
