/** Concurrent Sets of one key (internal/mem_storage/mem_storage.go, the compare-and-swap loop), as a
    state machine whose steps are the atomic operations on the shared map: Load, LoadOrStore, the second
    Load and CompareAndSwap.  Any number of Sets run, interleaved in any way; nothing deletes the key. */
module CasRegister {
  import opened Base
  import opened Storage
  import opened Convergence

  /** The versions written by the Sets 0, 1, ..., and the version already stored, if any. */
  datatype Config = Config(versions: seq<int>, initial: Option<int>)

  /** A stored item is a pointer: INITIAL for the one present at the start, else the Set that allocated it. */
  const INITIAL: int := -1

  /** Where a Set is in its loop.  existing is the pointer it loaded. */
  datatype Pc =
    | AtLoad
    | AtLoadOrStore
    | AtSecondLoad(existing: int)
    | AtCas(existing: int)
    | Returned

  /** The shared slot and the Sets.  The rest is history, on which no step depends: which Sets have stored,
      and per Set how often it retried, how many steps it took, how many stores there had been when it
      last loaded. */
  datatype State = State(
    slot: Option<int>,
    pcs: seq<Pc>,
    stored: set<nat>,
    retries: seq<nat>,
    steps: seq<nat>,
    seen: seq<nat>)

  predicate IsItem(c: Config, p: int) {
    (p == INITIAL && c.initial.Some?) || 0 <= p < |c.versions|
  }

  function Version(c: Config, p: int): int
    requires IsItem(c, p)
  {
    if p == INITIAL then c.initial.value else c.versions[p]
  }

  function Init(c: Config): State {
    var n := |c.versions|;
    State(if c.initial.Some? then Some(INITIAL) else None,
          seq(n, _ => AtLoad), {}, seq(n, _ => 0), seq(n, _ => 0), seq(n, _ => 0))
  }

  predicate Shaped(c: Config, s: State) {
    && |s.pcs| == |c.versions| && |s.retries| == |c.versions| && |s.steps| == |c.versions| && |s.seen| == |c.versions|
    && (s.slot.Some? ==> IsItem(c, s.slot.value))
    && forall i :: 0 <= i < |s.pcs| ==> PcShaped(c, s.pcs[i])
  }

  predicate PcShaped(c: Config, pc: Pc) {
    (pc.AtSecondLoad? || pc.AtCas?) ==> IsItem(c, pc.existing)
  }

  // ---------------------------------------------------------------- the steps of Set i

  function Goto(s: State, i: nat, pc: Pc): State
    requires i < |s.pcs| && i < |s.steps|
  {
    s.(pcs := s.pcs[i := pc], steps := s.steps[i := s.steps[i] + 1])
  }

  function Retry(s: State, i: nat): State
    requires i < |s.pcs| && i < |s.steps| && i < |s.retries|
  {
    Goto(s, i, AtLoad).(retries := s.retries[i := s.retries[i] + 1])
  }

  function Store(s: State, i: nat): State
    requires i < |s.pcs| && i < |s.steps|
  {
    Goto(s, i, Returned).(slot := Some(i), stored := s.stored + {i})
  }

  /** Load, and for an existing item the version comparison on what was loaded. */
  function Load(c: Config, s: State, i: nat): (s': State)
    requires Shaped(c, s) && i < |s.pcs|
    ensures Shaped(c, s')
  {
    var t := s.(seen := s.seen[i := |s.stored|]);
    if s.slot.None? then Goto(t, i, AtLoadOrStore)
    else if c.versions[i] <= Version(c, s.slot.value) then Goto(t, i, Returned)
    else Goto(t, i, AtSecondLoad(s.slot.value))
  }

  function LoadOrStore(c: Config, s: State, i: nat): (s': State)
    requires Shaped(c, s) && i < |s.pcs|
    ensures Shaped(c, s')
  {
    if s.slot.None? then Store(s, i) else Retry(s, i)
  }

  function SecondLoad(c: Config, s: State, i: nat): (s': State)
    requires Shaped(c, s) && i < |s.pcs| && s.pcs[i].AtSecondLoad?
    ensures Shaped(c, s')
  {
    var existing := s.pcs[i].existing;
    if s.slot.None? || Version(c, s.slot.value) != Version(c, existing) then Retry(s, i)
    else Goto(s, i, AtCas(existing))
  }

  function Cas(c: Config, s: State, i: nat): (s': State)
    requires Shaped(c, s) && i < |s.pcs| && s.pcs[i].AtCas?
    ensures Shaped(c, s')
  {
    if s.slot == Some(s.pcs[i].existing) then Store(s, i) else Retry(s, i)
  }

  /** One step of Set i; scheduling a Set that has returned does nothing. */
  function Step(c: Config, s: State, i: nat): (s': State)
    requires Shaped(c, s)
    ensures Shaped(c, s')
  {
    if i >= |s.pcs| then s else
      match s.pcs[i]
      case AtLoad => Load(c, s, i)
      case AtLoadOrStore => LoadOrStore(c, s, i)
      case AtSecondLoad(_) => SecondLoad(c, s, i)
      case AtCas(_) => Cas(c, s, i)
      case Returned => s
  }

  /** The state after a schedule: which Set takes each step. */
  function Run(c: Config, schedule: seq<nat>): (s: State)
    ensures Shaped(c, s)
  {
    if schedule == [] then Init(c)
    else Step(c, Run(c, schedule[..|schedule| - 1]), schedule[|schedule| - 1])
  }

  // ---------------------------------------------------------------- the invariant

  /** What holds of Set i in every reachable state. */
  ghost predicate SetInv(c: Config, s: State, i: nat)
    requires Shaped(c, s) && i < |s.pcs|
  {
    var n := |s.stored|;
    && s.steps[i] <= 3 * s.retries[i] + Rank(s.pcs[i])
    && s.retries[i] <= |s.stored - {i}|
    && match s.pcs[i]
       case AtLoad => i !in s.stored
       case AtLoadOrStore => i !in s.stored && s.retries[i] <= s.seen[i] <= n && (s.slot.Some? ==> s.seen[i] < n)
       case AtSecondLoad(e) => Holding(c, s, i, e)
       case AtCas(e) => Holding(c, s, i, e)
       case Returned => s.slot.Some? && c.versions[i] <= Version(c, s.slot.value)
  }

  /** Set i has loaded e, which it beats; if the slot has changed since, someone has stored since. */
  ghost predicate Holding(c: Config, s: State, i: nat, e: int)
    requires Shaped(c, s) && i < |s.pcs|
  {
    && IsItem(c, e) && c.versions[i] > Version(c, e)
    && i !in s.stored && s.slot.Some?
    && s.retries[i] <= s.seen[i] <= |s.stored|
    && (s.slot != Some(e) ==> s.seen[i] < |s.stored|)
  }

  /** Steps a Set can take within one turn of its loop before reaching pc. */
  function Rank(pc: Pc): nat {
    match pc
    case AtLoad => 0
    case AtLoadOrStore => 1
    case AtSecondLoad(_) => 1
    case AtCas(_) => 2
    case Returned => 3
  }

  ghost predicate Inv(c: Config, s: State)
    requires Shaped(c, s)
  {
    && (forall i :: 0 <= i < |s.pcs| ==> SetInv(c, s, i))
    && (forall i :: i in s.stored ==> i < |s.pcs|)
  }

  /** The slot only moves forward: it is never emptied and its version never drops. */
  ghost predicate Forward(c: Config, s: State, s': State)
    requires Shaped(c, s) && Shaped(c, s')
  {
    s.slot.Some? ==> s'.slot.Some? && Version(c, s.slot.value) <= Version(c, s'.slot.value)
  }

  /** A step that leaves the shared slot alone, seen by another Set. */
  lemma QuietForOthers(c: Config, s: State, s': State, i: nat, j: nat)
    requires Shaped(c, s) && Shaped(c, s') && i < |s.pcs| && j < |s.pcs| && i != j && SetInv(c, s, j)
    requires s'.slot == s.slot && s'.stored == s.stored
    requires s'.pcs[j] == s.pcs[j] && s'.retries[j] == s.retries[j] && s'.steps[j] == s.steps[j] && s'.seen[j] == s.seen[j]
    ensures SetInv(c, s', j)
  {
  }

  /** A store, seen by another Set. */
  lemma StoreForOthers(c: Config, s: State, i: nat, j: nat)
    requires Shaped(c, s) && i < |s.pcs| && j < |s.pcs| && i != j && SetInv(c, s, j)
    requires i !in s.stored && Forward(c, s, Store(s, i))
    ensures SetInv(c, Store(s, i), j)
  {
    assert |s.stored + {i}| == |s.stored| + 1;
    assert |s.stored - {j} + {i}| == |s.stored - {j}| + 1;
    assert s.stored + {i} - {j} == s.stored - {j} + {i};
  }

  lemma StoreForSelf(c: Config, s: State, i: nat)
    requires Shaped(c, s) && i < |s.pcs| && SetInv(c, s, i)
    requires i !in s.stored && Rank(s.pcs[i]) <= 2
    ensures SetInv(c, Store(s, i), i)
  {
    assert s.stored + {i} - {i} == s.stored - {i};
  }

  /** The stepping Set keeps its own invariant, and the slot moves forward. */
  lemma StepForSelf(c: Config, s: State, i: nat)
    requires Shaped(c, s) && i < |s.pcs| && SetInv(c, s, i)
    ensures SetInv(c, Step(c, s, i), i)
    ensures Forward(c, s, Step(c, s, i))
  {
    hide Shaped, Forward;
    StepForward(c, s, i);
    if s.pcs[i].AtLoad? {
      LoadForSelf(c, s, i);
    } else if s.pcs[i].AtLoadOrStore? && s.slot.None? {
      StoreForSelf(c, s, i);
    } else if s.pcs[i].AtCas? && s.slot == Some(s.pcs[i].existing) {
      StoreForSelf(c, s, i);
    } else if !s.pcs[i].Returned? {
      QuietForSelf(c, s, i);
    }
  }

  lemma StepForward(c: Config, s: State, i: nat)
    requires Shaped(c, s) && i < |s.pcs| && SetInv(c, s, i)
    ensures Forward(c, s, Step(c, s, i))
  {
  }

  lemma LoadForSelf(c: Config, s: State, i: nat)
    requires Shaped(c, s) && i < |s.pcs| && SetInv(c, s, i) && s.pcs[i].AtLoad?
    ensures SetInv(c, Load(c, s, i), i)
  {
    assert s.stored - {i} == s.stored;
  }

  /** The retries, and the second load that goes on. */
  lemma QuietForSelf(c: Config, s: State, i: nat)
    requires Shaped(c, s) && i < |s.pcs| && SetInv(c, s, i)
    requires s.pcs[i].AtSecondLoad? || (s.pcs[i].AtLoadOrStore? && s.slot.Some?) || (s.pcs[i].AtCas? && s.slot != Some(s.pcs[i].existing))
    ensures SetInv(c, Step(c, s, i), i)
  {
    assert s.stored - {i} == s.stored;
  }

  lemma StepForOthers(c: Config, s: State, i: nat, j: nat)
    requires Shaped(c, s) && i < |s.pcs| && j < |s.pcs| && i != j
    requires SetInv(c, s, i) && SetInv(c, s, j)
    ensures SetInv(c, Step(c, s, i), j)
  {
    StepForSelf(c, s, i);
    if s.pcs[i].AtLoadOrStore? && s.slot.None? {
      StoreForOthers(c, s, i, j);
    } else if s.pcs[i].AtCas? && s.slot == Some(s.pcs[i].existing) {
      StoreForOthers(c, s, i, j);
    } else {
      QuietForOthers(c, s, Step(c, s, i), i, j);
    }
  }

  lemma StepInv(c: Config, s: State, i: nat)
    requires Shaped(c, s) && Inv(c, s)
    ensures Inv(c, Step(c, s, i))
    ensures Forward(c, s, Step(c, s, i))
  {
    if i < |s.pcs| {
      StepForSelf(c, s, i);
      forall j | 0 <= j < |s.pcs| ensures SetInv(c, Step(c, s, i), j) {
        if j != i {
          StepForOthers(c, s, i, j);
        }
      }
    }
  }

  /** Every reachable state satisfies the invariant, whatever the interleaving. */
  lemma {:induction false} RunInv(c: Config, schedule: seq<nat>)
    ensures Inv(c, Run(c, schedule))
  {
    if schedule != [] {
      RunInv(c, schedule[..|schedule| - 1]);
      StepInv(c, Run(c, schedule[..|schedule| - 1]), schedule[|schedule| - 1]);
    }
  }

  // ---------------------------------------------------------------- the theorems

  /** In every interleaving the stored version never decreases. */
  lemma {:induction false} VersionNeverDecreases(c: Config, schedule: seq<nat>, k: nat)
    requires k <= |schedule|
    ensures Forward(c, Run(c, schedule[..k]), Run(c, schedule))
  {
    if k == |schedule| {
      assert schedule[..k] == schedule;
    } else {
      var p := schedule[..|schedule| - 1];
      assert schedule[..k] == p[..k];
      VersionNeverDecreases(c, p, k);
      RunInv(c, p);
      StepInv(c, Run(c, p), schedule[|schedule| - 1]);
    }
  }

  /** A Set that has returned finds its version, or a greater one, stored from then on. */
  lemma ReturnedIsCovered(c: Config, schedule: seq<nat>, i: nat)
    requires i < |c.versions| && Run(c, schedule).pcs[i].Returned?
    ensures var s := Run(c, schedule); s.slot.Some? && c.versions[i] <= Version(c, s.slot.value)
  {
    RunInv(c, schedule);
    assert SetInv(c, Run(c, schedule), i);
  }

  /** p is an item of greatest version among the initial one and all the Sets. */
  ghost predicate IsMaximum(c: Config, p: int) {
    && IsItem(c, p)
    && forall q :: IsItem(c, q) ==> Version(c, q) <= Version(c, p)
  }

  /** When all Sets have returned, what is stored is an item of greatest version. */
  lemma MaximumStored(c: Config, schedule: seq<nat>)
    requires c.versions != []
    requires forall i :: 0 <= i < |c.versions| ==> Run(c, schedule).pcs[i].Returned?
    ensures Run(c, schedule).slot.Some? && IsMaximum(c, Run(c, schedule).slot.value)
  {
    var s := Run(c, schedule);
    ReturnedIsCovered(c, schedule, 0);
    forall q | IsItem(c, q) ensures Version(c, q) <= Version(c, s.slot.value) {
      if q == INITIAL {
        VersionNeverDecreases(c, schedule, 0);
        assert schedule[..0] == [];
      } else {
        ReturnedIsCovered(c, schedule, q);
      }
    }
  }

  lemma {:induction false} SetsBelow(s: set<nat>, n: nat)
    requires forall i :: i in s ==> i < n
    ensures |s| <= n
  {
    if n > 0 {
      SetsBelow(s - {n - 1}, n - 1);
      if n - 1 in s {
        assert |s| == |s - {n - 1}| + 1;
      } else {
        assert s - {n - 1} == s;
      }
    } else {
      assert s == {};
    }
  }

  /** In any interleaving of N Sets each Set retries at most N - 1 times, once per store of another Set,
      and takes at most 3N steps. */
  lemma RetriesBounded(c: Config, schedule: seq<nat>, i: nat)
    requires i < |c.versions|
    ensures Run(c, schedule).retries[i] <= |Run(c, schedule).stored - {i}| <= |c.versions| - 1
    ensures Run(c, schedule).steps[i] <= 3 * |c.versions|
  {
    var s := Run(c, schedule);
    RunInv(c, schedule);
    assert SetInv(c, s, i);
    OthersBelow(s.stored - {i}, i, |c.versions|);
  }

  lemma OthersBelow(s: set<nat>, i: nat, n: nat)
    requires i < n && i !in s && forall j :: j in s ==> j < n
    ensures |s| <= n - 1
  {
    assert |s + {i}| == |s| + 1;
    SetsBelow(s + {i}, n);
  }

  /** How often Set i is scheduled. */
  function Turns(schedule: seq<nat>, i: nat): nat {
    if schedule == [] then 0
    else Turns(schedule[..|schedule| - 1], i) + (if schedule[|schedule| - 1] == i then 1 else 0)
  }

  lemma {:induction false} EveryTurnIsAStep(c: Config, schedule: seq<nat>, i: nat)
    requires i < |c.versions|
    ensures !Run(c, schedule).pcs[i].Returned? ==> Run(c, schedule).steps[i] == Turns(schedule, i)
  {
    if schedule != [] {
      EveryTurnIsAStep(c, schedule[..|schedule| - 1], i);
      StepCounts(c, Run(c, schedule[..|schedule| - 1]), schedule[|schedule| - 1], i);
    }
  }

  /** A step counts for the Set that takes it and for no other, and no Set goes back on its return. */
  lemma StepCounts(c: Config, s: State, j: nat, i: nat)
    requires Shaped(c, s) && i < |s.pcs|
    ensures var s' := Step(c, s, j);
            && (!s'.pcs[i].Returned? ==> !s.pcs[i].Returned? && s'.steps[i] == s.steps[i] + (if i == j then 1 else 0))
            && (s.pcs[i].Returned? ==> s'.pcs[i].Returned?)
            && (i != j ==> s'.pcs[i] == s.pcs[i])
  {
  }

  /** Wait-freedom: a Set scheduled 3N times has returned, whatever the others did. */
  lemma WaitFree(c: Config, schedule: seq<nat>, i: nat)
    requires i < |c.versions| && Turns(schedule, i) >= 3 * |c.versions|
    ensures Run(c, schedule).pcs[i].Returned?
  {
    EveryTurnIsAStep(c, schedule, i);
    RetriesBounded(c, schedule, i);
    RunInv(c, schedule);
    assert SetInv(c, Run(c, schedule), i);
  }

  // ---------------------------------------------------------------- linearizability

  /** An atomic Set: last write wins on the slot. */
  function LastWins(c: Config, slot: Option<int>, i: nat): Option<int> {
    if slot.Some? && IsItem(c, slot.value) && i < |c.versions| && c.versions[i] <= Version(c, slot.value) then slot else Some(i)
  }

  /** Atomic Sets, one after another. */
  function Atomic(c: Config, order: seq<nat>): Option<int> {
    if order == [] then Init(c).slot else LastWins(c, Atomic(c, order[..|order| - 1]), order[|order| - 1])
  }

  /** Whether Set i returns at its next step. */
  predicate Returns(c: Config, s: State, i: nat)
    requires Shaped(c, s)
  {
    i < |s.pcs| && !s.pcs[i].Returned? && Step(c, s, i).pcs[i].Returned?
  }

  /** The Sets in the order in which they return. */
  function ReturnOrder(c: Config, schedule: seq<nat>): seq<nat> {
    if schedule == [] then [] else
      var p, i := schedule[..|schedule| - 1], schedule[|schedule| - 1];
      if Returns(c, Run(c, p), i) then ReturnOrder(c, p) + [i] else ReturnOrder(c, p)
  }

  predicate HasReturned(c: Config, schedule: seq<nat>, i: nat) {
    i < |c.versions| && Run(c, schedule).pcs[i].Returned?
  }

  /** The step at which a Set returns is where it takes effect; no other step touches the slot. */
  lemma StepIsAtomic(c: Config, s: State, i: nat)
    requires Shaped(c, s) && Inv(c, s)
    ensures Step(c, s, i).slot == if Returns(c, s, i) then LastWins(c, s.slot, i) else s.slot
  {
    if i < |s.pcs| {
      assert SetInv(c, s, i);
    }
  }

  /** The order lists exactly the Sets that have returned, once each. */
  lemma {:induction false} OrderLists(c: Config, schedule: seq<nat>)
    ensures NoDup(ReturnOrder(c, schedule))
    ensures forall i: nat :: i in ReturnOrder(c, schedule) <==> HasReturned(c, schedule, i)
  {
    if schedule != [] {
      var p, j := schedule[..|schedule| - 1], schedule[|schedule| - 1];
      OrderLists(c, p);
      forall i: nat ensures HasReturned(c, schedule, i) <==> HasReturned(c, p, i) || (i == j && Returns(c, Run(c, p), j)) {
        if i < |c.versions| {
          StepCounts(c, Run(c, p), j, i);
        }
      }
      if Returns(c, Run(c, p), j) {
        assert !HasReturned(c, p, j);
        NoDupConcat(ReturnOrder(c, p), [j]);
      }
    }
  }

  /** Linearizability: in every interleaving the slot is what atomic Sets would leave, performed in the order in
      which the Sets return; that order lists each Set that has returned once. */
  lemma {:induction false} Linearizable(c: Config, schedule: seq<nat>)
    ensures Run(c, schedule).slot == Atomic(c, ReturnOrder(c, schedule))
    ensures NoDup(ReturnOrder(c, schedule))
    ensures forall i: nat :: i in ReturnOrder(c, schedule) <==> HasReturned(c, schedule, i)
  {
    OrderLists(c, schedule);
    if schedule != [] {
      var p, i := schedule[..|schedule| - 1], schedule[|schedule| - 1];
      Linearizable(c, p);
      RunInv(c, p);
      StepIsAtomic(c, Run(c, p), i);
    }
  }

  /** The Sets of items, as versions. */
  function Versions(items: seq<CompItem>): seq<int> {
    seq(|items|, i requires 0 <= i < |items| => items[i].version as int)
  }

  function ConfigOf(d: Data, key: Text, items: seq<CompItem>): Config {
    Config(Versions(items), if key in d then Some(d[key].version as int) else None)
  }

  /** The item a slot stands for. */
  function ItemOf(d: Data, key: Text, items: seq<CompItem>, slot: Option<int>): Option<CompItem> {
    if slot.None? then None
    else if 0 <= slot.value < |items| then Some(items[slot.value])
    else Find(d, key)
  }

  /** The Sets of one key as writes, in some order. */
  function InOrder(key: Text, items: seq<CompItem>, order: seq<nat>): seq<Write>
    requires forall n :: 0 <= n < |order| ==> order[n] < |items|
  {
    seq(|order|, n requires 0 <= n < |order| => Write(key, items[order[n]]))
  }

  lemma {:induction false} AtomicIsStore(d: Data, key: Text, items: seq<CompItem>, order: seq<nat>)
    requires forall n :: 0 <= n < |order| ==> order[n] < |items|
    ensures var c := ConfigOf(d, key, items);
            && (Atomic(c, order).Some? ==> IsItem(c, Atomic(c, order).value))
            && ItemOf(d, key, items, Atomic(c, order)) == Find(ApplyAll(d, InOrder(key, items, order)), key)
  {
    if order != [] {
      var p := order[..|order| - 1];
      AtomicIsStore(d, key, items, p);
      assert InOrder(key, items, order)[..|p|] == InOrder(key, items, p);
    }
  }

  /** So concurrent Sets of a key, in every interleaving, leave the item that the same Sets leave when they run one
      after another in the order in which they return. */
  lemma ConcurrentSetsAreAtomic(d: Data, key: Text, items: seq<CompItem>, schedule: seq<nat>)
    ensures var c := ConfigOf(d, key, items); var order := ReturnOrder(c, schedule);
            && (forall n :: 0 <= n < |order| ==> order[n] < |items|)
            && ItemOf(d, key, items, Run(c, schedule).slot) == Find(ApplyAll(d, InOrder(key, items, order)), key)
  {
    var c := ConfigOf(d, key, items);
    var order := ReturnOrder(c, schedule);
    Linearizable(c, schedule);
    forall n | 0 <= n < |order| ensures order[n] < |items| {
      assert order[n] in order && HasReturned(c, schedule, order[n]);
    }
    AtomicIsStore(d, key, items, order);
  }
}
