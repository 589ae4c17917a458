/** Last-write-wins replication of a store's data: what a replica holds after any stream of writes. */
module Convergence {
  import opened Base
  import opened Storage

  /** A replicated write: a key and the item as it would be stored. */
  datatype Write = Write(key: Text, it: CompItem)

  /** The data after writes are applied one by one. */
  function ApplyAll(d: Data, ws: seq<Write>): Data {
    if ws == [] then d else TryStore(ApplyAll(d, ws[..|ws| - 1]), ws[|ws| - 1].key, ws[|ws| - 1].it)
  }

  lemma {:induction false} ApplyConcat(d: Data, a: seq<Write>, b: seq<Write>)
    ensures ApplyAll(d, a + b) == ApplyAll(ApplyAll(d, a), b)
    decreases |b|
  {
    if b == [] {
      assert a + b == a;
    } else {
      var c := b[..|b| - 1];
      assert (a + b)[..|a + b| - 1] == a + c;
      ApplyConcat(d, a, c);
    }
  }

  /** What was stored stays, unless a strictly newer item replaces it. */
  lemma {:induction false} Keeps(d: Data, ws: seq<Write>, k: Text)
    requires k in d
    ensures var r := ApplyAll(d, ws);
            k in r && (r[k] == d[k] || r[k].version > d[k].version)
  {
    if ws != [] {
      Keeps(d, ws[..|ws| - 1], k);
    }
  }

  /** Every write is covered by what is stored in the end. */
  lemma {:induction false} Covers(d: Data, ws: seq<Write>, w: Write)
    requires w in ws
    ensures var r := ApplyAll(d, ws);
            w.key in r && w.it.version <= r[w.key].version
  {
    var p, last := ws[..|ws| - 1], ws[|ws| - 1];
    assert ws == p + [last];
    if w in p {
      Covers(d, p, w);
    }
  }

  /** w is one of the writes to k. */
  predicate WritesTo(w: Write, k: Text, ws: seq<Write>) {
    w in ws && w.key == k
  }

  /** What is stored in the end was there from the start or was written, and then beat what was there. */
  lemma {:induction false} ComesFrom(d: Data, ws: seq<Write>, k: Text)
    requires k in ApplyAll(d, ws)
    ensures var r := ApplyAll(d, ws);
            (k in d && r[k] == d[k]) || exists w :: WritesTo(w, k, ws) && r[k] == w.it && (k in d ==> w.it.version > d[k].version)
  {
    if ws != [] {
      var p, last := ws[..|ws| - 1], ws[|ws| - 1];
      assert ws == p + [last];
      var q, r := ApplyAll(d, p), ApplyAll(d, ws);
      if last.key == k && r[k] == last.it && (k in q ==> last.it.version > q[k].version) {
        if k in d {
          Keeps(d, p, k);
        }
        assert WritesTo(last, k, ws);
      } else {
        ComesFrom(d, p, k);
        if !(k in d && q[k] == d[k]) {
          var w :| WritesTo(w, k, p) && q[k] == w.it && (k in d ==> w.it.version > d[k].version);
          assert WritesTo(w, k, ws);
        }
      }
    }
  }

  // ---------------------------------------------------------------- one key

  /** Write w would win key k: nothing written to k is newer, and it is newer than what d holds. */
  ghost predicate Wins(d: Data, ws: seq<Write>, k: Text, w: Write) {
    && WritesTo(w, k, ws)
    && (forall v :: WritesTo(v, k, ws) ==> v.it.version <= w.it.version)
    && (k in d ==> w.it.version > d[k].version)
  }

  /** All winners of k carry the same item. */
  ghost predicate OneWinner(d: Data, ws: seq<Write>, k: Text) {
    forall v, w :: Wins(d, ws, k, v) && Wins(d, ws, k, w) ==> v.it == w.it
  }

  /** The final item of k is a winner if there is one, else what was there. */
  lemma Final(d: Data, ws: seq<Write>, k: Text)
    ensures var r := ApplyAll(d, ws);
            if exists w :: Wins(d, ws, k, w)
            then k in r && exists w :: Wins(d, ws, k, w) && r[k] == w.it
            else Find(r, k) == Find(d, k)
  {
    var r := ApplyAll(d, ws);
    forall w | WritesTo(w, k, ws) ensures k in r && w.it.version <= r[k].version {
      Covers(d, ws, w);
    }
    if k in d {
      Keeps(d, ws, k);
    }
    if k in r {
      ComesFrom(d, ws, k);
      if !(k in d && r[k] == d[k]) {
        var w :| WritesTo(w, k, ws) && r[k] == w.it && (k in d ==> w.it.version > d[k].version);
        assert Wins(d, ws, k, w);
      }
    }
  }

  /** The same writes to k, in any order, each any positive number of times; other keys may differ. */
  ghost predicate SameWritesTo(a: seq<Write>, b: seq<Write>, k: Text) {
    forall w :: WritesTo(w, k, a) <==> WritesTo(w, k, b)
  }

  lemma SameWinners(d1: Data, d2: Data, a: seq<Write>, b: seq<Write>, k: Text, w: Write)
    requires Find(d1, k) == Find(d2, k) && SameWritesTo(a, b, k)
    ensures Wins(d1, a, k, w) <==> Wins(d2, b, k, w)
  {
  }

  /** Convergence of one key on two replicas: they may hold different other keys and see different other writes.
      If they start with the same item of k, see the same writes to k in whatever order and however often, and
      the winning writes carry one item, they end with the same item of k. */
  lemma ConvergesAt(d1: Data, d2: Data, a: seq<Write>, b: seq<Write>, k: Text)
    requires Find(d1, k) == Find(d2, k) && SameWritesTo(a, b, k) && OneWinner(d1, a, k)
    ensures Find(ApplyAll(d1, a), k) == Find(ApplyAll(d2, b), k)
  {
    Final(d1, a, k);
    Final(d2, b, k);
    forall w ensures Wins(d1, a, k, w) <==> Wins(d2, b, k, w) {
      SameWinners(d1, d2, a, b, k, w);
    }
  }

  /** Every replica that starts with the same item of k and sees the same writes to it ends with the same. */
  ghost predicate OrderFree(d: Data, ws: seq<Write>, k: Text) {
    forall b :: SameWritesTo(ws, b, k) ==> Find(ApplyAll(d, b), k) == Find(ApplyAll(d, ws), k)
  }

  /** Of the winners the one that comes first in the stream stays. */
  lemma FirstWinnerStays(d: Data, ws: seq<Write>, k: Text, i: nat)
    requires i < |ws| && Wins(d, ws, k, ws[i]) && forall j :: 0 <= j < i ==> !Wins(d, ws, k, ws[j])
    ensures Find(ApplyAll(d, ws), k) == Some(ws[i].it)
  {
    var p, w, rest := ws[..i], ws[i], ws[i + 1..];
    assert ws == p + [w] + rest && ws[..i + 1] == p + [w];
    var before := ApplyAll(d, p);
    if k in before {
      ComesFrom(d, p, k);
      OlderBefore(d, ws, k, i);
    }
    var at := ApplyAll(d, p + [w]);
    assert (p + [w])[..i] == p;
    assert at == TryStore(before, k, w.it) && k in at && at[k] == w.it;
    ApplyConcat(d, p + [w], rest);
    NothingNewer(at, rest, k, w.it.version);
  }

  /** Everything written to k before the first winner is older than it. */
  lemma OlderBefore(d: Data, ws: seq<Write>, k: Text, i: nat)
    requires i < |ws| && Wins(d, ws, k, ws[i]) && forall j :: 0 <= j < i ==> !Wins(d, ws, k, ws[j])
    ensures forall v :: WritesTo(v, k, ws[..i]) ==> v.it.version < ws[i].it.version
  {
    forall v | WritesTo(v, k, ws[..i]) ensures v.it.version < ws[i].it.version {
      var j :| 0 <= j < i && ws[..i][j] == v;
      assert ws[j] == v && WritesTo(v, k, ws) && !Wins(d, ws, k, ws[j]);
    }
  }

  lemma NothingNewer(d: Data, ws: seq<Write>, k: Text, version: int)
    requires k in d && d[k].version == version && forall w :: WritesTo(w, k, ws) ==> w.it.version <= version
    ensures Find(ApplyAll(d, ws), k) == Some(d[k])
  {
    Keeps(d, ws, k);
    ComesFrom(d, ws, k);
  }

  /** Convergence holds for a key exactly when the writes tied at the winning version carry one item. */
  lemma ConvergesExactly(d: Data, ws: seq<Write>, k: Text)
    ensures OrderFree(d, ws, k) <==> OneWinner(d, ws, k)
  {
    if OneWinner(d, ws, k) {
      forall b | SameWritesTo(ws, b, k) ensures Find(ApplyAll(d, b), k) == Find(ApplyAll(d, ws), k) {
        ConvergesAt(d, d, ws, b, k);
      }
    }
    if OrderFree(d, ws, k) {
      forall v, w | Wins(d, ws, k, v) && Wins(d, ws, k, w) ensures v.it == w.it {
        PutFirst(d, ws, k, v);
        PutFirst(d, ws, k, w);
      }
    }
  }

  lemma PutFirst(d: Data, ws: seq<Write>, k: Text, w: Write)
    requires Wins(d, ws, k, w)
    ensures SameWritesTo(ws, [w] + ws, k) && Find(ApplyAll(d, [w] + ws), k) == Some(w.it)
  {
    assert SameWritesTo(ws, [w] + ws, k);
    assert Wins(d, [w] + ws, k, w);
    FirstWinnerStays(d, [w] + ws, k, 0);
  }

  // ---------------------------------------------------------------- whole stores

  /** Two replicas that start equal and get the same writes in any order, with any duplication, end equal. */
  lemma ReplicasConverge(d: Data, a: seq<Write>, b: seq<Write>)
    requires forall w :: w in a <==> w in b
    requires forall k :: OneWinner(d, a, k)
    ensures ApplyAll(d, a) == ApplyAll(d, b)
  {
    forall k ensures Find(ApplyAll(d, a), k) == Find(ApplyAll(d, b), k) {
      ConvergesAt(d, d, a, b, k);
    }
    SameMaps(ApplyAll(d, a), ApplyAll(d, b));
  }

  lemma SameMaps(r: Data, s: Data)
    requires forall k :: Find(r, k) == Find(s, k)
    ensures r == s
  {
    forall k ensures k in r <==> k in s {
      assert Find(r, k) == Find(s, k);
    }
    forall k | k in r ensures r[k] == s[k] {
      assert Find(r, k) == Find(s, k);
    }
  }

  /** Applying a batch again changes nothing, ties or not. */
  lemma {:induction false} Idempotent(d: Data, ws: seq<Write>, again: seq<Write>)
    requires forall w :: w in again ==> w in ws
    ensures ApplyAll(ApplyAll(d, ws), again) == ApplyAll(d, ws)
    decreases |again|
  {
    if again != [] {
      var p, last := again[..|again| - 1], again[|again| - 1];
      Idempotent(d, ws, p);
      Covers(d, ws, last);
    }
  }
}
