/** Hybrid logical clock and its text form (internal/utils/hlc/hlc.go). */
module Clocks {
  import opened Base

  /** What a clock shows: physical nanoseconds and a logical counter. */
  datatype Stamp = Stamp(ts: int64, ctr: uint64)

  /** Lexicographic order. */
  predicate Less(a: Stamp, b: Stamp) {
    a.ts < b.ts || (a.ts == b.ts && a.ctr < b.ctr)
  }

  predicate AtMost(a: Stamp, b: Stamp) {
    a == b || Less(a, b)
  }

  const MAX_CTR: uint64 := 0xFFFF_FFFF_FFFF_FFFF

  /** One local event at the given wall-clock reading; the counter is a uint64 and wraps. */
  function Tick(s: Stamp, wall: int64): Stamp {
    if wall > s.ts then Stamp(wall, 0)
    else Stamp(s.ts, if s.ctr == MAX_CTR then 0 else s.ctr + 1)
  }

  /** Merging a remote stamp. */
  function Merge(s: Stamp, r: Stamp): Stamp {
    if r.ts > s.ts then r
    else if r.ts == s.ts && r.ctr > s.ctr then Stamp(s.ts, r.ctr)
    else s
  }

  // ---------------------------------------------------------------- decimal text

  predicate IsDigit(c: byte) {
    ZERO <= c <= NINE
  }

  ghost predicate AllDigits(s: Text) {
    forall i :: 0 <= i < |s| ==> IsDigit(s[i])
  }

  /** The digits of a positive number; nothing for zero. */
  function Digits(n: nat): Text {
    if n == 0 then [] else Digits(n / 10) + [ZERO + n % 10]
  }

  /** The decimal form of an integer. */
  function Decimal(i: int): Text {
    if i == 0 then [ZERO] else if i < 0 then [MINUS] + Digits(-i) else Digits(i)
  }

  /** The number a digit string denotes. */
  function Value(s: Text): nat
    requires AllDigits(s)
  {
    if s == [] then 0 else Value(s[..|s| - 1]) * 10 + (s[|s| - 1] - ZERO)
  }

  lemma {:induction false} DigitsValue(n: nat)
    ensures AllDigits(Digits(n)) && Value(Digits(n)) == n
    ensures n > 0 ==> Digits(n) != []
  {
    if n > 0 {
      DigitsValue(n / 10);
      assert Digits(n)[..|Digits(n)| - 1] == Digits(n / 10);
    }
  }

  lemma DecimalValue(n: nat)
    ensures Decimal(n) != [] && AllDigits(Decimal(n)) && Value(Decimal(n)) == n
  {
    DigitsValue(n);
  }

  function Pow10(k: nat): nat {
    if k == 0 then 1 else 10 * Pow10(k - 1)
  }

  const MIN_INT64_TEXT: Text := [45, 57, 50, 50, 51, 51, 55, 50, 48, 51, 54, 56, 53, 52, 55, 55, 53, 56, 48, 56]

  lemma {:induction false} ValueDigits(s: Text)
    requires AllDigits(s) && s != [] && s[0] != ZERO
    ensures Value(s) > 0 && Digits(Value(s)) == s
  {
    var p := s[..|s| - 1];
    assert s == p + [s[|s| - 1]];
    var d := s[|s| - 1] - ZERO;
    if p != [] {
      ValueDigits(p);
      DigitsSnoc(Value(p), d);
    } else {
      assert Value(s) == d && d / 10 == 0 && d % 10 == d;
      assert Digits(0) == [];
    }
  }

  lemma DigitsSnoc(n: nat, d: nat)
    requires n > 0 && d < 10
    ensures Digits(n * 10 + d) == Digits(n) + [ZERO + d]
  {
    assert (n * 10 + d) / 10 == n && (n * 10 + d) % 10 == d;
  }

  lemma ValueSnoc(s: Text, k: nat)
    requires k < |s| && AllDigits(s[..k]) && IsDigit(s[k])
    ensures AllDigits(s[..k + 1]) && Value(s[..k + 1]) == Value(s[..k]) * 10 + (s[k] - ZERO)
  {
    assert s[..k + 1][..k] == s[..k];
  }

  lemma PrefixDigits(s: Text, k: nat)
    requires AllDigits(s) && k <= |s|
    ensures AllDigits(s[..k]) && (k < |s| ==> IsDigit(s[k]))
  {
  }

  /** Three more digits of a number read from the left. */
  lemma ThreeMore(s: Text, k: nat)
    requires AllDigits(s) && k + 3 <= |s|
    ensures AllDigits(s[..k]) && AllDigits(s[..k + 3])
    ensures Value(s[..k + 3]) == Value(s[..k]) * 1000 + (s[k] - ZERO) * 100 + (s[k + 1] - ZERO) * 10 + (s[k + 2] - ZERO)
  {
    hide Value, AllDigits, IsDigit;
    PrefixDigits(s, k);
    PrefixDigits(s, k + 1);
    PrefixDigits(s, k + 2);
    ValueSnoc(s, k);
    ValueSnoc(s, k + 1);
    ValueSnoc(s, k + 2);
  }

  /** The nineteen digits of 2^63. */
  lemma MinInt64Value(s: Text)
    requires |s| == 19 && AllDigits(s) && s == MIN_INT64_TEXT[1..]
    ensures Value(s) == TWO63
  {
    hide Value, AllDigits, IsDigit;
    PrefixDigits(s, 0);
    ValueSnoc(s, 0);
    NoValue(s);
    ThreeMore(s, 1);
    ThreeMore(s, 4);
    ThreeMore(s, 7);
    ThreeMore(s, 10);
    ThreeMore(s, 13);
    ThreeMore(s, 16);
    assert s[..19] == s;
  }

  lemma NoValue(s: Text)
    ensures AllDigits(s[..0]) && Value(s[..0]) == 0
  {
  }

  lemma MinInt64Text()
    ensures Decimal(-TWO63) == MIN_INT64_TEXT
  {
    hide Value, Digits;
    var s := MIN_INT64_TEXT[1..];
    MinInt64Value(s);
    ValueDigits(s);
    assert MIN_INT64_TEXT == [MINUS] + s;
  }

  lemma Pow10Of20()
    ensures Pow10(20) >= TWO63
  {
    assert Pow10(2) == 100;
    assert Pow10(4) == 10000;
    assert Pow10(6) == 1000000;
    assert Pow10(8) == 100000000;
    assert Pow10(10) == 10000000000;
    assert Pow10(12) == 1000000000000;
    assert Pow10(14) == 100000000000000;
    assert Pow10(16) == 10000000000000000;
    assert Pow10(18) == 1000000000000000000;
  }

  /** The last digit of a number, and what is left of a bound on it. */
  lemma LastDigit(i: nat, k: nat)
    requires 0 < i < Pow10(k)
    ensures k > 0 && i / 10 < Pow10(k - 1) && Digits(i) == Digits(i / 10) + [ZERO + i % 10]
  {
  }

  lemma NoDigits()
    ensures Digits(0) == []
  {
  }

  /** The digit loop: fills a 20-byte buffer from the right. */
  method FillDigits(n: nat) returns (d: Text)
    requires n < TWO63
    ensures d == Digits(n)
  {
    hide Pow10, Digits;
    var tmp := new byte[20];
    var idx, i := 20, n;
    Pow10Of20();
    NoDigits();
    while i > 0
      invariant 0 <= idx <= 20 && 0 <= i < Pow10(idx)
      invariant Digits(n) == Digits(i) + tmp[idx..]
    {
      LastDigit(i, idx);
      idx := idx - 1;
      tmp[idx] := ZERO + i % 10;
      assert tmp[idx..] == [tmp[idx]] + tmp[idx + 1..];
      i := i / 10;
    }
    d := tmp[idx..];
  }

  /** Appends the decimal form of a 64-bit integer. */
  method AppendInt(buf: Text, value: int64) returns (r: Text)
    ensures r == buf + Decimal(value)
  {
    if value == 0 {
      return buf + [ZERO];
    }
    if value < 0 {
      if value == -TWO63 {
        MinInt64Text();
        return buf + MIN_INT64_TEXT;
      }
      var d := FillDigits(-value);
      return buf + [MINUS] + d;
    }
    var d := FillDigits(value);
    r := buf + d;
  }

  /** The printed form of a stamp: the counter is converted to a signed integer first. */
  function Print(id: Text, s: Stamp): Text {
    id + [COLON] + Decimal(s.ts) + [COLON] + Decimal(Wrap64(s.ctr))
  }

  // ---------------------------------------------------------------- parsing

  /** Position of the first colon, the length if there is none. */
  function Colon(s: Text): (k: nat)
    ensures k <= |s|
  {
    if s == [] || s[0] == COLON then 0 else 1 + Colon(s[1..])
  }

  /** The leading digits of a text. */
  function DigitPrefix(s: Text): (r: Text) {
    if s == [] || !IsDigit(s[0]) then [] else [s[0]] + DigitPrefix(s[1..])
  }

  lemma {:induction false} DigitPrefixAll(s: Text)
    ensures AllDigits(DigitPrefix(s))
  {
    if s != [] && IsDigit(s[0]) {
      DigitPrefixAll(s[1..]);
    }
  }

  /** The number at the start of a text. */
  function Leading(s: Text): nat {
    DigitPrefixAll(s);
    Value(DigitPrefix(s))
  }

  /** The stamp a text denotes, as both readers of the format parse it: "id:ts:ctr", a digit-only ts, and
      a counter that ends at its first non-digit; both numbers accumulate in 64 bits. */
  function Parse(s: Text): Option<Stamp> {
    var i := Colon(s);
    if i + 1 >= |s| then None else ParseTail(s[i + 1..])
  }

  /** The part after the node ID. */
  function ParseTail(u: Text): Option<Stamp> {
    var j := Colon(u);
    if j + 1 >= |u| then None else ParseFields(u[..j], u[j + 1..])
  }

  function ParseFields(t: Text, c: Text): Option<Stamp> {
    if DigitPrefix(t) != t then None else Some(Stamp(Wrap64(Leading(t)), Leading(c) % TWO64))
  }

  lemma {:induction false} ColonAt(a: Text, b: Text)
    requires COLON !in a
    ensures Colon(a + [COLON] + b) == |a|
    ensures (a + [COLON] + b)[..|a|] == a && (a + [COLON] + b)[|a| + 1..] == b
  {
    var s := a + [COLON] + b;
    assert s[..|a|] == a && s[|a| + 1..] == b;
    if a != [] {
      assert s[1..] == a[1..] + [COLON] + b;
      ColonAt(a[1..], b);
    }
  }

  lemma {:induction false} ColonIs(s: Text, k: nat)
    requires k <= |s|
    requires forall j :: 0 <= j < k ==> s[j] != COLON
    requires k < |s| ==> s[k] == COLON
    ensures Colon(s) == k
  {
    if k > 0 {
      ColonIs(s[1..], k - 1);
    }
  }

  lemma {:induction false} DigitPrefixIs(s: Text, k: nat)
    requires k <= |s| && AllDigits(s[..k])
    requires k < |s| ==> !IsDigit(s[k])
    ensures DigitPrefix(s) == s[..k]
    decreases k
  {
    if k > 0 {
      assert s[..k][0] == s[0];
      assert s[1..][..k - 1] == s[..k][1..];
      DigitPrefixIs(s[1..], k - 1);
      assert s[..k] == [s[0]] + s[1..][..k - 1];
    } else {
      assert s[..k] == [];
    }
  }

  lemma WrapStep(v: int, d: int)
    ensures Wrap64(Wrap64(v) * 10 + d) == Wrap64(v * 10 + d)
    ensures (v % TWO64 * 10 + d) % TWO64 == (v * 10 + d) % TWO64
  {
    var u := v % TWO64;
    var q := v / TWO64;
    assert v == q * TWO64 + u;
    assert (u * 10 + d + 10 * q * TWO64) % TWO64 == (u * 10 + d) % TWO64 by { AddMultiple(u * 10 + d, 10 * q); }
    if u >= TWO63 {
      assert (u * 10 + d + (-10) * TWO64) % TWO64 == (u * 10 + d) % TWO64 by { AddMultiple(u * 10 + d, -10); }
    }
  }

  lemma AddMultiple(x: int, k: int)
    ensures (x + k * TWO64) % TWO64 == x % TWO64
  {
  }

  /** Both digit loops of the parser: the value of the leading digits, and how many there are. */
  method ReadDigits(s: Text) returns (signed: int64, unsigned: uint64, k: nat)
    ensures k <= |s| && (k == |s| <==> DigitPrefix(s) == s)
    ensures signed == Wrap64(Leading(s)) && unsigned == Leading(s) % TWO64
  {
    signed, unsigned, k := 0, 0, 0;
    while k < |s| && IsDigit(s[k])
      invariant k <= |s| && AllDigits(s[..k])
      invariant signed == Wrap64(Value(s[..k])) && unsigned == Value(s[..k]) % TWO64
    {
      var d := s[k] - ZERO;
      ValueSnoc(s, k);
      WrapStep(Value(s[..k]), d);
      signed := Wrap64(signed * 10 + d);
      unsigned := (unsigned * 10 + d) % TWO64;
      k := k + 1;
    }
    DigitPrefixIs(s, k);
  }

  method FindColon(s: Text) returns (k: nat)
    ensures k == Colon(s)
  {
    k := 0;
    while k < |s| && s[k] != COLON
      invariant k <= |s|
      invariant forall j :: 0 <= j < k ==> s[j] != COLON
    {
      k := k + 1;
    }
    ColonIs(s, k);
  }

  method ParseText(s: Text) returns (r: Option<Stamp>)
    ensures r == Parse(s)
  {
    var i := FindColon(s);
    if i + 1 >= |s| {
      return None;
    }
    var u := s[i + 1..];
    var j := FindColon(u);
    if j + 1 >= |u| {
      return None;
    }
    var ts, _, k := ReadDigits(u[..j]);
    if k < j {
      return None;
    }
    var _, ctr, _ := ReadDigits(u[j + 1..]);
    r := Some(Stamp(ts, ctr));
  }

  // ---------------------------------------------------------------- round trip

  lemma DigitPrefixFull(t: Text)
    requires AllDigits(t)
    ensures DigitPrefix(t) == t
  {
    assert t[..|t|] == t;
    DigitPrefixIs(t, |t|);
  }

  lemma {:induction false} NoColonInDigits(t: Text)
    requires AllDigits(t)
    ensures COLON !in t
  {
  }

  /** What the parser makes of a colon-free id, a digit string and a counter field. */
  lemma ParseOf(a: Text, t: Text, c: Text)
    requires COLON !in a && COLON !in t && c != []
    ensures Parse(a + [COLON] + (t + [COLON] + c)) == ParseFields(t, c)
  {
    ColonAt(a, t + [COLON] + c);
    ColonAt(t, c);
  }

  lemma LeadingDecimal(n: nat)
    ensures Decimal(n) != [] && DigitPrefix(Decimal(n)) == Decimal(n) && COLON !in Decimal(n)
    ensures Leading(Decimal(n)) == n
  {
    DecimalValue(n);
    DigitPrefixFull(Decimal(n));
    NoColonInDigits(Decimal(n));
  }

  lemma LeadingMinus(s: Text)
    requires s != [] && s[0] == MINUS
    ensures Leading(s) == 0
  {
    assert DigitPrefix(s) == [];
  }

  /** The counter field of a printed stamp, read back. */
  lemma CounterField(ctr: uint64)
    ensures Decimal(Wrap64(ctr)) != []
    ensures Leading(Decimal(Wrap64(ctr))) == if ctr < TWO63 then ctr else 0
  {
    if ctr < TWO63 {
      assert Wrap64(ctr) == ctr;
      LeadingDecimal(ctr);
    } else {
      assert Wrap64(ctr) < 0;
      LeadingMinus(Decimal(Wrap64(ctr)));
    }
  }

  lemma PrintSplits(id: Text, s: Stamp)
    ensures Print(id, s) == id + [COLON] + (Decimal(s.ts) + [COLON] + Decimal(Wrap64(s.ctr)))
  {
  }

  /** A printed stamp is read back exactly when its counter fits a signed integer. */
  lemma PrintParse(id: Text, s: Stamp)
    requires COLON !in id && s.ts >= 0
    ensures Parse(Print(id, s)) == Some(Stamp(s.ts, if s.ctr < TWO63 then s.ctr else 0))
    ensures Parse(Print(id, s)) == Some(s) <==> s.ctr < TWO63
  {
    LeadingDecimal(s.ts);
    CounterField(s.ctr);
    PrintSplits(id, s);
    ParseOf(id, Decimal(s.ts), Decimal(Wrap64(s.ctr)));
    FieldsOf(s, Decimal(s.ts), Decimal(Wrap64(s.ctr)));
  }

  lemma FieldsOf(s: Stamp, t: Text, c: Text)
    requires s.ts >= 0 && DigitPrefix(t) == t && Leading(t) == s.ts
    requires Leading(c) == if s.ctr < TWO63 then s.ctr else 0
    ensures ParseFields(t, c) == Some(Stamp(s.ts, if s.ctr < TWO63 then s.ctr else 0))
  {
  }

  /** The readable node IDs: with a colon in the ID, the parser reads part of the ID as the time. */
  ghost predicate Readable(id: Text) {
    forall ts: int64, ctr: uint64 :: ts >= 0 && ctr < TWO63 ==> Parse(Print(id, Stamp(ts, ctr))) == Some(Stamp(ts, ctr))
  }

  lemma {:induction false} ColonSplits(s: Text) returns (a: Text, b: Text)
    requires COLON in s
    ensures s == a + [COLON] + b && COLON !in a
  {
    if s[0] == COLON {
      a, b := [], s[1..];
    } else {
      a, b := ColonSplits(s[1..]);
      a := [s[0]] + a;
    }
  }

  /** With a colon in the ID, the time read back comes from the ID. */
  lemma TimeFromId(a: Text, t: Text, b: Text)
    requires COLON !in a && COLON !in t
    requires Parse(a + [COLON] + (t + [COLON] + b)).Some?
    ensures Parse(a + [COLON] + (t + [COLON] + b)).value.ts == Wrap64(Leading(t))
  {
    ColonAt(a, t + [COLON] + b);
    ColonAt(t, b);
  }

  lemma ColonInIdFixesTime(id: Text, s1: Stamp, s2: Stamp)
    requires COLON in id
    requires Parse(Print(id, s1)).Some? && Parse(Print(id, s2)).Some?
    ensures Parse(Print(id, s1)).value.ts == Parse(Print(id, s2)).value.ts
  {
    var a, rest := ColonSplits(id);
    assert COLON in rest + [COLON] by { assert (rest + [COLON])[|rest|] == COLON; }
    var t, b := ColonSplits(rest + [COLON]);
    var c1 := PrintThroughId(id, a, rest, t, b, s1);
    var c2 := PrintThroughId(id, a, rest, t, b, s2);
    TimeFromId(a, t, c1);
    TimeFromId(a, t, c2);
  }

  lemma PrintThroughId(id: Text, a: Text, rest: Text, t: Text, b: Text, s: Stamp) returns (c: Text)
    requires id == a + [COLON] + rest && rest + [COLON] == t + [COLON] + b
    ensures Print(id, s) == a + [COLON] + (t + [COLON] + c)
  {
    PrintSplits(id, s);
    var tail := Decimal(s.ts) + [COLON] + Decimal(Wrap64(s.ctr));
    Regroup(a, rest, t, b, tail);
    c := b + tail;
  }

  lemma Regroup(a: Text, rest: Text, t: Text, b: Text, tail: Text)
    requires rest + [COLON] == t + [COLON] + b
    ensures (a + [COLON] + rest) + [COLON] + tail == a + [COLON] + (t + [COLON] + (b + tail))
  {
    assert (a + [COLON] + rest) + [COLON] + tail == a + [COLON] + ((rest + [COLON]) + tail);
    assert (t + [COLON] + b) + tail == t + [COLON] + (b + tail);
  }

  /** Every stamp a clock can issue is recovered from its text exactly when the node ID has no colon. */
  lemma ReadableExactly(id: Text)
    ensures Readable(id) <==> COLON !in id
  {
    if COLON !in id {
      forall ts: int64, ctr: uint64 | ts >= 0 && ctr < TWO63
        ensures Parse(Print(id, Stamp(ts, ctr))) == Some(Stamp(ts, ctr)) {
        PrintParse(id, Stamp(ts, ctr));
      }
    } else if Readable(id) {
      assert Parse(Print(id, Stamp(1, 0))) == Some(Stamp(1, 0));
      assert Parse(Print(id, Stamp(2, 0))) == Some(Stamp(2, 0));
      ColonInIdFixesTime(id, Stamp(1, 0), Stamp(2, 0));
    }
  }

  // ---------------------------------------------------------------- runs

  /** What can happen to a clock: a local event at some wall time, or a received text, of
      which only the stamp it denotes matters. */
  datatype Event = Local(wall: int64) | Receive(remote: Option<Stamp>)

  function Step(s: Stamp, e: Event): Stamp {
    match e
    case Local(w) => Tick(s, w)
    case Receive(r) => if r.Some? then Merge(s, r.value) else s
  }

  /** The clock after the first n events. */
  function After(s: Stamp, es: seq<Event>, n: nat): Stamp
    requires n <= |es|
  {
    if n == 0 then s else Step(After(s, es, n - 1), es[n - 1])
  }

  /** A local event advances the clock unless the counter wraps. */
  lemma TickAdvances(s: Stamp, wall: int64)
    ensures Less(s, Tick(s, wall)) <==> wall > s.ts || s.ctr < MAX_CTR
  {
  }

  /** No local event of the run meets a full counter with the wall clock behind. */
  ghost predicate NoWrap(s: Stamp, es: seq<Event>) {
    forall n :: 0 <= n < |es| && es[n].Local? ==> es[n].wall > After(s, es, n).ts || After(s, es, n).ctr < MAX_CTR
  }

  lemma {:induction false} NeverBackwards(s: Stamp, es: seq<Event>, m: nat, n: nat)
    requires NoWrap(s, es) && m <= n <= |es|
    ensures AtMost(After(s, es, m), After(s, es, n))
    decreases n
  {
    if m < n {
      NeverBackwards(s, es, m, n - 1);
      StepForward(After(s, es, n - 1), es[n - 1]);
    }
  }

  lemma StepForward(s: Stamp, e: Event)
    requires e.Local? ==> e.wall > s.ts || s.ctr < MAX_CTR
    ensures AtMost(s, Step(s, e))
    ensures e.Local? ==> Less(s, Step(s, e))
    ensures e.Receive? && e.remote.Some? ==> AtMost(e.remote.value, Step(s, e))
  {
  }

  /** Causality: a stamp issued by the n-th event is after everything the clock showed before, and after
      every remote stamp merged before, whatever the wall clock did. */
  lemma Causality(s: Stamp, es: seq<Event>, m: nat, n: nat)
    requires NoWrap(s, es) && m <= n < |es| && es[n].Local?
    ensures Less(After(s, es, m), After(s, es, n + 1))
    ensures forall k :: 0 <= k < n && es[k].Receive? && es[k].remote.Some? ==>
                          Less(es[k].remote.value, After(s, es, n + 1))
  {
    NeverBackwards(s, es, m, n);
    StepForward(After(s, es, n), es[n]);
    forall k | 0 <= k < n && es[k].Receive? && es[k].remote.Some?
      ensures Less(es[k].remote.value, After(s, es, n + 1)) {
      AfterMerge(s, es, k, n);
    }
  }

  lemma AfterMerge(s: Stamp, es: seq<Event>, k: nat, n: nat)
    requires NoWrap(s, es) && k < n < |es| && es[n].Local? && es[k].Receive? && es[k].remote.Some?
    ensures Less(es[k].remote.value, After(s, es, n + 1))
  {
    StepForward(After(s, es, k), es[k]);
    NeverBackwards(s, es, k + 1, n);
    StepForward(After(s, es, n), es[n]);
  }

  /** Strict increase of the issued stamps holds for a run exactly when no event of it wraps. */
  ghost predicate EachLocalAdvances(s: Stamp, es: seq<Event>) {
    forall n :: 0 <= n < |es| && es[n].Local? ==> Less(After(s, es, n), After(s, es, n + 1))
  }

  lemma AdvancesExactly(s: Stamp, es: seq<Event>)
    ensures EachLocalAdvances(s, es) <==> NoWrap(s, es)
  {
    forall n | 0 <= n < |es| && es[n].Local?
      ensures Less(After(s, es, n), After(s, es, n + 1)) <==>
              es[n].wall > After(s, es, n).ts || After(s, es, n).ctr < MAX_CTR {
      TickAdvances(After(s, es, n), es[n].wall);
    }
    if EachLocalAdvances(s, es) {
      forall n | 0 <= n < |es| && es[n].Local?
        ensures es[n].wall > After(s, es, n).ts || After(s, es, n).ctr < MAX_CTR {
        assert Less(After(s, es, n), After(s, es, n + 1));
      }
    }
  }

  /** Every counter received, and the starting one, is at most b. */
  ghost predicate CountersWithin(s: Stamp, es: seq<Event>, b: nat) {
    && s.ctr <= b
    && forall k :: 0 <= k < |es| && es[k].Receive? && es[k].remote.Some? ==> es[k].remote.value.ctr <= b
  }

  lemma {:induction false} CounterBound(s: Stamp, es: seq<Event>, b: nat, n: nat)
    requires CountersWithin(s, es, b) && n <= |es|
    ensures After(s, es, n).ctr <= b + n
  {
    if n > 0 {
      CounterBound(s, es, b, n - 1);
    }
  }

  /** A check on the inputs that rules wrapping out. */
  lemma SmallCountersNoWrap(s: Stamp, es: seq<Event>, b: nat)
    requires CountersWithin(s, es, b) && b + |es| <= MAX_CTR
    ensures NoWrap(s, es)
  {
    forall n | 0 <= n < |es| && es[n].Local? ensures After(s, es, n).ctr < MAX_CTR {
      CounterBound(s, es, b, n);
    }
  }

  /** Every time and every counter can be written down by a peer. */
  lemma TextOf(id: Text, t: int64, ctr: uint64)
    requires t >= 0 && COLON !in id
    ensures Parse(id + [COLON] + (Decimal(t) + [COLON] + Decimal(ctr))) == Some(Stamp(t, ctr))
  {
    hide Decimal, Parse, Leading, DigitPrefix;
    LeadingDecimal(t);
    LeadingDecimal(ctr);
    ParseOf(id, Decimal(t), Decimal(ctr));
  }

  /** Without it a peer can push the clock back: a text that says a counter of 2^64-1, taken in while the wall
      clock stands still. */
  lemma WrapExample(id: Text, t: int64)
    requires t >= 0 && COLON !in id
    ensures var remote := id + [COLON] + (Decimal(t) + [COLON] + Decimal(MAX_CTR));
            && Parse(remote) == Some(Stamp(t, MAX_CTR))
            && Less(After(Stamp(t, 7), [Receive(Parse(remote)), Local(t)], 2), Stamp(t, 7))
  {
    hide Decimal, Parse;
    TextOf(id, t, MAX_CTR);
    var es := [Receive(Some(Stamp(t, MAX_CTR))), Local(t)];
    assert After(Stamp(t, 7), es, 1) == Stamp(t, MAX_CTR);
  }

  /** Bounded drift: the clock never shows a time later than the latest wall or remote time seen. */
  lemma {:induction false} NeverAhead(s: Stamp, es: seq<Event>, n: nat, top: int)
    requires n <= |es| && s.ts <= top
    requires forall k :: 0 <= k < n && es[k].Local? ==> es[k].wall <= top
    requires forall k :: 0 <= k < n && es[k].Receive? && es[k].remote.Some? ==> es[k].remote.value.ts <= top
    ensures s.ts <= After(s, es, n).ts <= top
  {
    if n > 0 {
      NeverAhead(s, es, n - 1, top);
    }
  }

  /** The times a clock has seen: its own at the start, the wall clock at each local event, and each remote time. */
  ghost predicate Saw(s: Stamp, es: seq<Event>, n: nat, t: int64)
    requires n <= |es|
  {
    || t == s.ts
    || (exists k :: 0 <= k < n && es[k] == Local(t))
    || exists k :: 0 <= k < n && es[k].Receive? && es[k].remote.Some? && es[k].remote.value.ts == t
  }

  /** The clock follows the wall: after every event its time is the largest one it has seen. */
  lemma {:induction false} TimeIsLatestSeen(s: Stamp, es: seq<Event>, n: nat)
    requires n <= |es|
    ensures Saw(s, es, n, After(s, es, n).ts)
    ensures forall t: int64 :: Saw(s, es, n, t) ==> t <= After(s, es, n).ts
  {
    if n > 0 {
      TimeIsLatestSeen(s, es, n - 1);
      var before, now := After(s, es, n - 1).ts, After(s, es, n).ts;
      LatestOfTwo(After(s, es, n - 1), es[n - 1]);
      SawMore(s, es, n, before);
      SawMore(s, es, n, now);
      forall t: int64 | Saw(s, es, n, t) ensures t <= now {
        SawMore(s, es, n, t);
      }
    }
  }

  /** One event's part of it. */
  ghost predicate Brings(e: Event, t: int64) {
    e == Local(t) || (e.Receive? && e.remote.Some? && e.remote.value.ts == t)
  }

  lemma SawMore(s: Stamp, es: seq<Event>, n: nat, t: int64)
    requires 0 < n <= |es|
    ensures Saw(s, es, n, t) <==> Saw(s, es, n - 1, t) || Brings(es[n - 1], t)
  {
    if Brings(es[n - 1], t) {
      assert es[n - 1] == Local(t) || es[n - 1].remote.value.ts == t;
    }
  }

  lemma LatestOfTwo(s: Stamp, e: Event)
    ensures Step(s, e).ts == s.ts || Brings(e, Step(s, e).ts)
    ensures s.ts <= Step(s, e).ts && forall t: int64 :: Brings(e, t) ==> t <= Step(s, e).ts
  {
  }

  /** What a local event issues, counter and all: the least stamp that is after the one shown and not behind the wall
      clock, unless the counter is full and the wall clock behind; then the counter starts over. */
  lemma IssuesLeast(s: Stamp, wall: int64)
    ensures var t := Step(s, Local(wall));
            if wall > s.ts || s.ctr < MAX_CTR
            then && Less(s, t) && t.ts >= wall
                 && forall u: Stamp :: Less(s, u) && u.ts >= wall ==> AtMost(t, u)
            else t == Stamp(s.ts, 0)
  {
  }

  /** So over a run: an event that moves the time issues counter 0, one that does not issues the next counter. */
  lemma CounterRestarts(s: Stamp, es: seq<Event>, n: nat)
    requires n < |es| && es[n].Local?
    ensures var before, after := After(s, es, n), After(s, es, n + 1);
            && after.ts >= es[n].wall
            && (after.ts != before.ts ==> after == Stamp(es[n].wall, 0))
            && (after.ts == before.ts ==> after.ctr == (before.ctr + 1) % TWO64)
  {
  }

  /** A merge shows the later of the two stamps, whole. */
  lemma MergeIsLater(s: Stamp, r: Stamp)
    ensures var t := Step(s, Receive(Some(r)));
            (t == s || t == r) && AtMost(s, t) && AtMost(r, t)
  {
  }

  // ---------------------------------------------------------------- the clock object

  class HLC {
    const nodeID: Text
    var lastTs: int64
    var counter: uint64

    function Shown(): Stamp
      reads this
    {
      Stamp(lastTs, counter)
    }

    constructor (nodeID: Text)
      ensures this.nodeID == nodeID && Shown() == Stamp(0, 0)
    {
      this.nodeID := nodeID;
      lastTs, counter := 0, 0;
    }

    /** Issues a stamp and prints it. */
    method Now(wall: int64) returns (text: Text)
      modifies this
      ensures Shown() == Step(old(Shown()), Local(wall))
      ensures text == Print(nodeID, Shown())
    {
      if wall > lastTs {
        lastTs := wall;
        counter := 0;
      } else {
        counter := if counter == MAX_CTR then 0 else counter + 1;
      }
      text := nodeID + [COLON];
      text := AppendInt(text, lastTs);
      text := text + [COLON];
      text := AppendInt(text, Wrap64(counter));
    }

    /** Merges a remote text; anything unparsable changes nothing. */
    method Update(remote: Text)
      modifies this
      ensures Shown() == Step(old(Shown()), Receive(Parse(remote)))
    {
      var r := ParseText(remote);
      if r.None? {
        return;
      }
      if r.value.ts > lastTs {
        lastTs := r.value.ts;
        counter := r.value.ctr;
      } else if r.value.ts == lastTs && r.value.ctr > counter {
        counter := r.value.ctr;
      }
    }
  }
}
