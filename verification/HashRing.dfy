/** The ring object (internal/cluster/hashring.go): built, replaced and searched in place. */
module HashRings {
  import opened Base
  import opened RingWalks

  // ---------------------------------------------------------------- the ring object

  /** The loop of GetN: walk clockwise from idx, skipping nodes already seen, until n are found. */
  method DistinctFrom(data: seq<VNode>, ghost h: uint64, idx: nat, n: nat) returns (result: seq<Text>)
    requires data != [] && idx == Start(data, h)
    ensures result == Take(Prefs(data, h), n)
  {
    hide Walk, Rotate, Start, ScanFrom, Dedup;
    ghost var w := Walk(data, h);
    result := [];
    var seen: set<Text> := {};
    var i := 0;
    DedupNone(w);
    while i < |data| && |result| < n
      invariant 0 <= i <= |data| && |result| <= n
      invariant result == Dedup(w[..i])
      invariant forall id :: id in seen <==> id in result
    {
      var pos := (idx + i) % |data|;
      var id := data[pos].node;
      assert w[i] == data[pos] by { WalkAt(data, h, i); }
      DedupSnoc(w, i);
      if id !in seen {
        seen := seen + {id};
        result := result + [id];
      }
      i := i + 1;
    }
    TakeDedup(w, i, n);
  }

  const DEFAULT_VIRTUAL_NODES: nat := 128

  /** What Get answers for a key hash: the head of the preference list, the empty string on an empty ring. */
  function Owner(data: seq<VNode>, h: uint64): Text {
    var p := Prefs(data, h);
    if p == [] then [] else p[0]
  }

  /** What GetN answers: the first n of the preference list. */
  function Replicas(data: seq<VNode>, h: uint64, n: int): seq<Text> {
    if n <= 0 then [] else Take(Prefs(data, h), n)
  }

  class HashRing {
    const config: Config
    var version: int
    var data: seq<VNode>
    /** The node list the current data was built from. */
    ghost var members: seq<Text>

    ghost predicate Valid()
      reads this
    {
      config.vnodes > 0 && BuiltFrom(config, members, data)
    }

    constructor (hash: Text -> uint64, virtualNodes: int)
      ensures Valid() && version == 0 && data == [] && members == []
      ensures config.hash == hash
      ensures config.vnodes == if virtualNodes <= 0 then DEFAULT_VIRTUAL_NODES else virtualNodes
    {
      config := Config(hash, if virtualNodes <= 0 then DEFAULT_VIRTUAL_NODES else virtualNodes);
      version := 0;
      data := [];
      members := [];
    }

    /** The set of nodes with a virtual node on the ring. */
    ghost function Nodes(): set<Text>
      reads this
    {
      set v | v in data :: v.node
    }

    /** The virtual nodes of a node list, unsorted. */
    method Expand(nodeIDs: seq<Text>) returns (nodes: seq<VNode>)
      ensures nodes == AllVNodes(config, nodeIDs)
    {
      nodes := [];
      for k := 0 to |nodeIDs|
        invariant nodes == AllVNodes(config, nodeIDs[..k])
      {
        ghost var before := nodes;
        for i := 0 to config.vnodes
          invariant nodes == before + NodeVNodes(config, nodeIDs[k], i)
        {
          var key := nodeIDs[k] + [COLON] + RuneText(i);
          nodes := nodes + [VNode(config.hash(key), nodeIDs[k])];
        }
        assert nodeIDs[..k + 1][..k] == nodeIDs[..k];
      }
      assert nodeIDs[..|nodeIDs|] == nodeIDs;
    }

    /** Accepts exactly the strictly newer versions, and then holds exactly the given nodes. */
    method Update(newVersion: int, nodeIDs: seq<Text>) returns (ok: bool)
      requires Valid()
      modifies this
      ensures Valid()
      ensures ok <==> newVersion > old(version)
      ensures ok ==> version == newVersion && members == nodeIDs && Nodes() == Elems(nodeIDs)
      ensures !ok ==> version == old(version) && data == old(data) && members == old(members)
    {
      if newVersion <= version {
        return false;
      }
      var nodes := Expand(nodeIDs);
      data := SortByHash(nodes);
      version := newVersion;
      members := nodeIDs;
      BuiltIsRing(config, nodeIDs, data);
      RingNodes(config, Elems(nodeIDs), data);
      return true;
    }

    /** Binary search of the code, -1 on an empty ring. */
    method FindNode(h: uint64) returns (idx: int)
      requires Sorted(data)
      ensures data == [] ==> idx == -1
      ensures data != [] ==> idx == Start(data, h)
    {
      if |data| == 0 {
        return -1;
      }
      var i, j := 0, |data|;
      while i < j
        invariant 0 <= i <= j <= |data|
        invariant forall k :: 0 <= k < i ==> data[k].hash < h
        invariant j < |data| ==> data[j].hash >= h
      {
        var m := (i + j) / 2;
        if data[m].hash < h {
          i := m + 1;
        } else {
          j := m;
        }
      }
      ScanIs(data, h, 0, i);
      idx := if i >= |data| then 0 else i;
    }

    /** The owner of a key. */
    method Get(key: Text) returns (id: Text)
      requires Valid()
      ensures id == Owner(data, config.hash(key)) && (data != [] ==> Prefs(data, config.hash(key)) != [])
    {
      var idx := FindNode(config.hash(key));
      if idx < 0 {
        return [];
      }
      id := data[idx].node;
      ghost var w := Walk(data, config.hash(key));
      DedupPrefix(w, 1);
      DedupSnoc(w, 0);
    }

    /** The replicas of a key. */
    method GetN(key: Text, n: int) returns (result: seq<Text>)
      requires Valid()
      ensures result == Replicas(data, config.hash(key), n)
    {
      result := [];
      if |data| == 0 || n <= 0 {
        return;
      }
      var idx := FindNode(config.hash(key));
      result := DistinctFrom(data, config.hash(key), idx, n);
    }

    /** What a caller of GetN relies on: exactly min(n, node count) distinct nodes of the ring, nearest
        first, each request a prefix of every longer one. */
    lemma GetNMeaning(key: Text, n: nat, m: nat)
      requires Valid() && n <= m
      ensures var full := Prefs(data, config.hash(key));
              && ByDistance(config, Nodes(), config.hash(key), full)
              && |Take(full, n)| == Min(n, |Nodes()|)
              && Take(full, n) <= Take(full, m)
    {
      BuiltIsRing(config, members, data);
      RingNodes(config, Elems(members), data);
      PrefsMeaning(config, Nodes(), data, config.hash(key), n, m);
    }
  }
}
