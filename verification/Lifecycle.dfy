/** Component dependency ordering (internal/utils/lifecycle/lifecycle.go). */
module Lifecycle {
  import opened Base

  /** Registered component names in registration order, and the dependencies declared per name. */
  datatype Graph = Graph(components: seq<Text>, dependencies: map<Text, seq<Text>>)

  datatype Outcome =
    | Resolved(order: seq<Text>)
    | NotFound(name: Text, dep: Text)
    | Circular(at: Text)

  function Deps(g: Graph, name: Text): seq<Text> {
    if name in g.dependencies then g.dependencies[name] else []
  }

  /** b declares a as a dependency. */
  predicate Edge(g: Graph, b: Text, a: Text) {
    a in Deps(g, b)
  }

  /** Each entry of p declares the next one as a dependency. */
  ghost predicate Path(g: Graph, p: seq<Text>) {
    forall i :: 0 <= i < |p| - 1 ==> Edge(g, p[i], p[i + 1])
  }

  /** p leads from a registered name back to itself. */
  ghost predicate Cycle(g: Graph, p: seq<Text>) {
    |p| >= 2 && Path(g, p) && p[0] == p[|p| - 1] && p[0] in g.components
  }

  /** name declares dep, which nobody registered. */
  ghost predicate Missing(g: Graph, name: Text, dep: Text) {
    name in g.components && Edge(g, name, dep) && dep !in g.components
  }

  ghost predicate Resolvable(g: Graph) {
    && (forall name, dep :: !Missing(g, name, dep))
    && (forall p :: !Cycle(g, p))
  }

  /** Every dependency of an entry stands before it. */
  ghost predicate DepsFirst(g: Graph, order: seq<Text>) {
    forall i, dep :: 0 <= i < |order| && Edge(g, order[i], dep) ==> dep in order[..i]
  }

  /** order lists each registered name once, dependencies first. */
  ghost predicate Topological(g: Graph, order: seq<Text>) {
    && NoDup(order)
    && (forall name :: name in order <==> name in g.components)
    && DepsFirst(g, order)
  }

  // ---------------------------------------------------------------- what an order implies

  lemma DepIndex(g: Graph, order: seq<Text>, i: nat, dep: Text) returns (j: nat)
    requires Topological(g, order) && i < |order| && Edge(g, order[i], dep)
    ensures j < i && order[j] == dep
  {
    assert dep in order[..i];
    j :| 0 <= j < i && order[..i][j] == dep;
  }

  /** Following dependencies only ever moves towards the front of a topological order. */
  lemma {:induction false} PathGoesBack(g: Graph, order: seq<Text>, p: seq<Text>, i: nat) returns (j: nat)
    requires Topological(g, order) && Path(g, p) && |p| >= 2
    requires i < |order| && order[i] == p[0]
    ensures j < i && order[j] == p[|p| - 1]
    decreases |p|
  {
    assert Edge(g, p[0], p[1]);
    j := DepIndex(g, order, i, p[1]);
    if |p| > 2 {
      assert Path(g, p[1..]) by {
        forall k | 0 <= k < |p[1..]| - 1 ensures Edge(g, p[1..][k], p[1..][k + 1]) {
          assert Edge(g, p[k + 1], p[k + 2]);
        }
      }
      j := PathGoesBack(g, order, p[1..], j);
    }
  }

  /** A topological order exists only when nothing is missing and nothing is circular. */
  lemma TopologicalResolvable(g: Graph, order: seq<Text>)
    requires Topological(g, order)
    ensures Resolvable(g)
  {
    forall name, dep ensures !Missing(g, name, dep) {
      if Missing(g, name, dep) {
        assert name in order;
        var i :| 0 <= i < |order| && order[i] == name;
        var j := DepIndex(g, order, i, dep);
      }
    }
    forall p ensures !Cycle(g, p) {
      if Cycle(g, p) {
        assert p[0] in order;
        var i :| 0 <= i < |order| && order[i] == p[0];
        var j := PathGoesBack(g, order, p, i);
      }
    }
  }

  // ---------------------------------------------------------------- depth-first search

  class Resolver {
    const g: Graph
    var visited: set<Text>
    var temp: set<Text>
    var result: seq<Text>

    constructor (g: Graph)
      ensures this.g == g && visited == {} && temp == {} && result == []
    {
      this.g := g;
      visited, temp, result := {}, {}, [];
    }

    /** What holds between visits.  stack is the chain of calls in progress: its entries are exactly the
        names in temp, each depending on the next. */
    ghost predicate Inv(stack: seq<Text>)
      reads this
    {
      && temp == Elems(stack)
      && Path(g, stack)
      && temp !! visited
      && temp + visited <= Elems(g.components)
      && NoDup(result)
      && (forall name :: name in result <==> name in visited)
      && DepsFirst(g, result)
    }

    /** Why a search failed: the error names an actual missing dependency or a name on an actual cycle. */
    static ghost predicate Justified(g: Graph, r: Outcome) {
      match r
      case Resolved(_) => true
      case NotFound(name, dep) => Missing(g, name, dep)
      case Circular(at) => exists p :: Cycle(g, p) && p[0] == at
    }

    /** The recursive visit of the code; Resolved stands for its nil result. */
    method Visit(name: Text, ghost stack: seq<Text>) returns (r: Outcome)
      requires Inv(stack) && name in g.components
      requires stack != [] ==> Edge(g, stack[|stack| - 1], name)
      modifies this
      ensures Justified(g, r)
      ensures r.Resolved? ==>
                && Inv(stack)
                && temp == old(temp)
                && old(visited) + {name} <= visited
                && old(result) <= result
      decreases Elems(g.components) - temp
    {
      if name in temp {
        ghost var p := CloseCycle(g, stack, name);
        return Circular(name);
      }
      if name in visited {
        return Resolved([]);
      }
      temp := temp + {name};
      ghost var stack' := stack + [name];
      var deps := Deps(g, name);
      for i := 0 to |deps|
        invariant Inv(stack') && temp == old(temp) + {name}
        invariant old(visited) <= visited
        invariant old(result) <= result
        invariant forall k :: 0 <= k < i ==> deps[k] in visited
      {
        if deps[i] !in g.components {
          return NotFound(name, deps[i]);
        }
        assert Edge(g, stack'[|stack'| - 1], deps[i]);
        r := Visit(deps[i], stack');
        if !r.Resolved? {
          return;
        }
      }
      temp := temp - {name};
      visited := visited + {name};
      AppendResolved(g, result, name);
      result := result + [name];
      r := Resolved([]);
    }
  }

  /** A name met again while its own visit is in progress closes a cycle. */
  lemma CloseCycle(g: Graph, stack: seq<Text>, name: Text) returns (p: seq<Text>)
    requires Path(g, stack) && name in stack && name in g.components
    requires Edge(g, stack[|stack| - 1], name)
    ensures Cycle(g, p) && p[0] == name
  {
    var k :| 0 <= k < |stack| && stack[k] == name;
    p := stack[k..] + [name];
    forall i | 0 <= i < |p| - 1 ensures Edge(g, p[i], p[i + 1]) {
      assert p[i] == stack[k + i];
      if i < |p| - 2 {
        assert p[i + 1] == stack[k + i + 1];
      }
    }
  }

  lemma AppendResolved(g: Graph, order: seq<Text>, name: Text)
    requires DepsFirst(g, order)
    requires forall dep :: Edge(g, name, dep) ==> dep in order
    ensures DepsFirst(g, order + [name])
  {
    var r := order + [name];
    forall i, dep | 0 <= i < |r| && Edge(g, r[i], dep) ensures dep in r[..i] {
      if i < |order| {
        assert r[..i] == order[..i];
      } else {
        assert r[..i] == order;
      }
    }
  }

  // ---------------------------------------------------------------- the manager

  class LifecycleManager {
    var components: seq<Text>
    var dependencies: map<Text, seq<Text>>
    var started: bool

    constructor ()
      ensures components == [] && dependencies == map[] && !started
    {
      components, dependencies, started := [], map[], false;
    }

    function Declared(): Graph
      reads this
    {
      Graph(components, dependencies)
    }

    method Register(comp: Text, deps: seq<Text>)
      modifies this
      ensures components == old(components) + [comp]
      ensures Deps(Declared(), comp) == if deps != [] then deps else old(Deps(Declared(), comp))
      ensures forall n :: n != comp ==> Deps(Declared(), n) == old(Deps(Declared(), n))
      ensures started == old(started)
    {
      components := components + [comp];
      if |deps| > 0 {
        dependencies := dependencies[comp := deps];
      }
    }

    /** Terminates, succeeds exactly when every declared dependency is registered and there is no cycle,
        and then lists each registered name once with its dependencies before it. */
    method ResolveOrder() returns (r: Outcome)
      ensures r.Resolved? <==> Resolvable(Declared())
      ensures r.Resolved? ==> Topological(Declared(), r.order)
      ensures Resolver.Justified(Declared(), r)
    {
      var s := new Resolver(Declared());
      for i := 0 to |components|
        invariant s.Inv([])
        invariant forall k :: 0 <= k < i ==> components[k] in s.visited
      {
        r := s.Visit(components[i], []);
        if !r.Resolved? {
          return;
        }
      }
      r := Resolved(s.result);
      assert forall name :: name in s.result <==> name in components;
      TopologicalResolvable(Declared(), s.result);
    }

    /** Starting computes the order only to check it; the components themselves start concurrently, and
        whether all of them succeed in time is an input. */
    method Start(allStarted: bool) returns (ok: bool)
      modifies this
      ensures components == old(components) && dependencies == old(dependencies)
      ensures ok <==> !old(started) && old(Resolvable(Declared())) && allStarted
      ensures started == (old(started) || ok)
    {
      if started {
        return false;
      }
      var r := ResolveOrder();
      if !r.Resolved? || !allStarted {
        return false;
      }
      started := true;
      return true;
    }

    /** The names closed, in the order they are closed: nothing unless started and resolvable, else every
        registered name once. */
    method Close() returns (closed: seq<Text>)
      ensures !started || !Resolvable(Declared()) ==> closed == []
      ensures started && Resolvable(Declared()) ==>
                NoDup(closed) && (forall n :: n in closed <==> n in components) && StopsDependentsFirst(Declared(), closed)
    {
      closed := [];
      if !started {
        return;
      }
      var r := ResolveOrder();
      if !r.Resolved? {
        return;
      }
      var order := r.order;
      var i := |order|;
      while i > 0
        invariant 0 <= i <= |order| && |closed| == |order| - i
        invariant forall k :: 0 <= k < |closed| ==> closed[k] == order[|order| - 1 - k]
      {
        i := i - 1;
        closed := closed + [order[i]];
      }
      ReverseStops(Declared(), order, closed);
    }
  }

  /** Whenever b depends on a, directly or through others, b is closed before a. */
  ghost predicate StopsDependentsFirst(g: Graph, closed: seq<Text>) {
    forall p, i, j :: Path(g, p) && |p| >= 2 && 0 <= i < |closed| && 0 <= j < |closed|
      && closed[i] == p[0] && closed[j] == p[|p| - 1]
      ==> i < j
  }

  lemma ReverseStops(g: Graph, order: seq<Text>, closed: seq<Text>)
    requires Topological(g, order) && |closed| == |order|
    requires forall k :: 0 <= k < |closed| ==> closed[k] == order[|order| - 1 - k]
    ensures NoDup(closed)
    ensures forall n :: n in closed <==> n in g.components
    ensures StopsDependentsFirst(g, closed)
  {
    forall n ensures n in closed <==> n in order {
      if n in order {
        var k :| 0 <= k < |order| && order[k] == n;
        assert closed[|order| - 1 - k] == n;
      }
    }
    forall p, i, j | Path(g, p) && |p| >= 2 && 0 <= i < |closed| && 0 <= j < |closed|
      && closed[i] == p[0] && closed[j] == p[|p| - 1] ensures i < j {
      var k := PathGoesBack(g, order, p, |order| - 1 - i);
      assert closed[|order| - 1 - k] == closed[j];
    }
  }
}
