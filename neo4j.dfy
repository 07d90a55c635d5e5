/**
 The community-label table of the Neo4j adapter.  The store holds a fixed
 enumeration of vertices, each with an immutable node id and two mutable
 labels, `community` and `nodeCommunity`, and a fixed sequence of directed
 SIMILAR relationships.  Every operation runs in one transaction; none of the
 failures modelled here happens after a write, so each operation either
 completes or leaves the labels as they were.
 */
module Neo4j {
  import opened Partition
  import opened Edges
  import opened Schema

  /** The outcome of an operation; a failure carries the message of the exception it raises. */
  datatype Result<T> = Ok(value: T) | Failure(message: string)

  const NodeLabel: string := "Node"
  const NodeIdKey: string := "nodeId"
  const CommunityKey: string := "community"
  const NodeCommunityKey: string := "nodeCommunity"

  /** Exactly one vertex per node id. */
  ghost predicate UniqueIds(ids: seq<int>) {
    forall p, q :: 0 <= p < q < |ids| ==> ids[p] != ids[q]
  }

  /** The schema after the adapter's construction: one index per key on the Node label, each created only if missing. */
  function SetupIndexes(defs: seq<IndexDefinition>): (r: seq<IndexDefinition>)
    ensures HasIndex(r, NodeLabel, NodeIdKey)
    ensures HasIndex(r, NodeLabel, CommunityKey)
    ensures HasIndex(r, NodeLabel, NodeCommunityKey)
    ensures defs <= r && |r| <= |defs| + 3
  {
    WithIndex(WithIndex(WithIndex(defs, NodeLabel, NodeIdKey), NodeLabel, CommunityKey), NodeLabel, NodeCommunityKey)
  }

  /** Opening a store whose schema is already set up creates no index. */
  lemma SetupIndexesIdempotent(defs: seq<IndexDefinition>)
    ensures SetupIndexes(SetupIndexes(defs)) == SetupIndexes(defs)
  {
    var r := SetupIndexes(defs);
    assert WithIndex(r, NodeLabel, NodeIdKey) == r;
    assert WithIndex(r, NodeLabel, CommunityKey) == r;
  }

  class Neo4jGraphDatabase {
    /** The NODE_ID of the vertex at each position of the enumeration. */
    const ids: seq<int>
    /** The SIMILAR relationships, between positions. */
    const edges: seq<Edge>
    /** The COMMUNITY label of each vertex. */
    const community: array<int>
    /** The NODE_COMMUNITY label of each vertex. */
    const nodeCommunity: array<int>
    /** The index definitions of the schema. */
    var indexes: seq<IndexDefinition>

    ghost predicate Valid() {
      && community.Length == |ids|
      && nodeCommunity.Length == |ids|
      && community != nodeCommunity
      && UniqueIds(ids)
      && EndpointsIn(edges, |ids|)
    }

    /** Every node-community group lies inside one community. */
    ghost predicate Refined()
      requires Valid()
      reads community, nodeCommunity
    {
      Refines(community[..], nodeCommunity[..])
    }

    /**
     Opens a stored graph in transactional mode and creates each of the three
     label indexes that the schema does not have yet.
     */
    constructor (storedIds: seq<int>, storedEdges: seq<Edge>, storedCommunities: seq<int>,
                 storedNodeCommunities: seq<int>, storedIndexes: seq<IndexDefinition>)
      requires |storedCommunities| == |storedIds| && |storedNodeCommunities| == |storedIds|
      requires UniqueIds(storedIds) && EndpointsIn(storedEdges, |storedIds|)
      ensures Valid() && fresh(community) && fresh(nodeCommunity)
      ensures ids == storedIds && edges == storedEdges
      ensures community[..] == storedCommunities && nodeCommunity[..] == storedNodeCommunities
      ensures indexes == SetupIndexes(storedIndexes)
    {
      ids := storedIds;
      edges := storedEdges;
      community := new int[|storedIds|](i requires 0 <= i < |storedIds| => storedCommunities[i]);
      nodeCommunity := new int[|storedIds|](i requires 0 <= i < |storedIds| => storedNodeCommunities[i]);
      indexes := storedIndexes;
      new;
      var found := SchemaHasIndexOnVertexLabelProperty(NodeLabel, NodeIdKey);
      if !found {
        indexes := indexes + [IndexDefinition(NodeLabel, [NodeIdKey])];
      }
      found := SchemaHasIndexOnVertexLabelProperty(NodeLabel, CommunityKey);
      if !found {
        indexes := indexes + [IndexDefinition(NodeLabel, [CommunityKey])];
      }
      found := SchemaHasIndexOnVertexLabelProperty(NodeLabel, NodeCommunityKey);
      if !found {
        indexes := indexes + [IndexDefinition(NodeLabel, [NodeCommunityKey])];
      }
    }

    /** Linear search of the schema for an index on `vertexLabel` over exactly [`propertyName`]. */
    method SchemaHasIndexOnVertexLabelProperty(vertexLabel: string, propertyName: string) returns (found: bool)
      ensures found == HasIndex(indexes, vertexLabel, propertyName)
    {
      var targetPropertyList := [propertyName];
      for i := 0 to |indexes|
        invariant forall k :: 0 <= k < i ==> !Covers(indexes[k], vertexLabel, propertyName)
      {
        var def := indexes[i];
        if def.labelName != vertexLabel {
          continue;
        }
        var definitionProps := def.propertyKeys;
        if definitionProps == targetPropertyList {
          return true;
        }
      }
      return false;
    }

    // -------------------------------------------------------------------------
    // Counts over the whole store
    // -------------------------------------------------------------------------

    /** The number of vertices. */
    function GetNodeCount(): (count: nat)
      requires Valid()
      ensures count == |ids| && count == community.Length
    {
      |ids|
    }

    /** The graph weight: the number of relationships of any type, parallel ones counted individually. Every relationship of the model is a SIMILAR one. */
    function GetGraphWeightSum(): (weight: nat)
      ensures weight == |edges|
    {
      |edges|
    }

    /** Named "in-degree" in the adapter, but counts the OUTGOING relationships of the node. */
    function GetNodeInDegree(node: nat): (degree: nat)
      requires Valid() && node < |ids|
      ensures degree == |Incident(edges, node, Outgoing)|
    {
      |Relationships(edges, node, Outgoing)|
    }

    /** Named "out-degree" in the adapter, but counts the INCOMING relationships of the node. */
    function GetNodeOutDegree(node: nat): (degree: nat)
      requires Valid() && node < |ids|
      ensures degree == |Incident(edges, node, Incoming)|
    {
      |Relationships(edges, node, Incoming)|
    }

    /** The weight of the vertex with the given node id: its GetNodeOutDegree, i.e. its incoming relationships. */
    function GetNodeWeight(nodeId: int): (r: Result<nat>)
      requires Valid()
      ensures r.Failure? <==> nodeId !in ids
      ensures forall p :: 0 <= p < |ids| && ids[p] == nodeId ==> r == Ok(|Incident(edges, p, Incoming)|)
    {
      if nodeId !in ids then Failure("unable to get node weight")
      else Ok(GetNodeOutDegree(IndexOf(ids, nodeId)))
    }

    // -------------------------------------------------------------------------
    // Label writers
    // -------------------------------------------------------------------------

    /** Gives the k-th vertex of the enumeration community and node-community k. */
    method InitCommunityProperty()
      requires Valid()
      modifies community, nodeCommunity
      ensures forall k :: 0 <= k < |ids| ==> community[k] == k && nodeCommunity[k] == k
      ensures community[..] == Range(|ids|) && nodeCommunity[..] == Range(|ids|)
      ensures Refined()
    {
      var communityCounter := 0;
      for n := 0 to |ids|
        invariant communityCounter == n
        invariant forall k :: 0 <= k < n ==> community[k] == k && nodeCommunity[k] == k
      {
        nodeCommunity[n] := communityCounter;
        community[n] := communityCounter;
        communityCounter := communityCounter + 1;
      }
    }

    /** Moves every vertex of node-community `nodeCommunityId` into community `toCommunity`. */
    method MoveNode(nodeCommunityId: int, toCommunity: int)
      requires Valid()
      modifies community
      ensures forall p :: 0 <= p < |ids| && nodeCommunity[p] == nodeCommunityId ==> community[p] == toCommunity
      ensures forall p :: 0 <= p < |ids| && nodeCommunity[p] != nodeCommunityId ==> community[p] == old(community[p])
      ensures nodeCommunity[..] == old(nodeCommunity[..])
      ensures old(Refined()) ==> Refined()
    {
      var fromIter := Select(nodeCommunity[..], nodeCommunityId);
      for t := 0 to |fromIter|
        invariant forall p :: 0 <= p < |ids| && p in fromIter[..t] ==> community[p] == toCommunity
        invariant forall p :: 0 <= p < |ids| && p !in fromIter[..t] ==> community[p] == old(community[p])
      {
        var node := fromIter[t];
        PrefixSnoc(fromIter, t);
        community[node] := toCommunity;
      }
      PrefixFull(fromIter);
    }

    /**
     Renumbers the communities densely, in the order in which the enumeration
     first meets them, copies the new label into nodeCommunity, and returns
     the number of communities.
     */
    method ReInitializeCommunities() returns (communityCounter: nat)
      requires Valid()
      modifies community, nodeCommunity
      ensures community[..] == Dense(old(community[..]))
      ensures nodeCommunity[..] == community[..]
      ensures communityCounter == |Distinct(old(community[..]))|
      ensures Distinct(community[..]) == Range(communityCounter)
      ensures Refined()
    {
      ghost var a0 := community[..];
      var initCommunities: map<int, int> := map[];
      communityCounter := 0;
      for n := 0 to |ids|
        invariant RelabelState(a0[..n], initCommunities, communityCounter)
        invariant RelabelledUpTo(community[..], nodeCommunity[..], a0, n)
      {
        var communityId := community[n];
        ghost var c1, nc1 := community[..], nodeCommunity[..];
        ghost var m0, c0 := initCommunities, communityCounter;
        if communityId !in initCommunities {
          initCommunities := initCommunities[communityId := communityCounter];
          communityCounter := communityCounter + 1;
        }
        RelabelStep(a0, n, m0, c0, initCommunities, communityCounter);
        var newCommunityId := initCommunities[communityId];
        community[n] := newCommunityId;
        nodeCommunity[n] := newCommunityId;
        RelabelledWrite(c1, nc1, a0, n);
      }
      PrefixFull(a0);
      RelabelledAll(community[..], nodeCommunity[..], a0);
      DenseSummary(a0);
    }

    // -------------------------------------------------------------------------
    // Label queries
    // -------------------------------------------------------------------------

    /** The community of some vertex in node-community `nodeCommunityId` (the first the index yields). */
    function GetCommunity(nodeCommunityId: int): (r: Result<int>)
      requires Valid()
      reads community, nodeCommunity
      ensures r.Failure? <==> forall p :: 0 <= p < |ids| ==> nodeCommunity[p] != nodeCommunityId
      ensures r.Ok? ==> exists p :: 0 <= p < |ids| && nodeCommunity[p] == nodeCommunityId && community[p] == r.value
      ensures r.Ok? && Refined() ==>
        forall p :: 0 <= p < |ids| && nodeCommunity[p] == nodeCommunityId ==> community[p] == r.value
    {
      var nodes := Select(nodeCommunity[..], nodeCommunityId);
      if |nodes| == 0 then
        assert forall p :: 0 <= p < |ids| && nodeCommunity[..][p] == nodeCommunityId ==> p in nodes;
        Failure("unable to get community")
      else
        assert nodes[0] in nodes;
        Ok(community[nodes[0]])
    }

    /** The community of the vertex with node id `nodeId`. */
    function GetCommunityFromNode(nodeId: int): (r: Result<int>)
      requires Valid()
      reads community
      ensures r.Failure? <==> nodeId !in ids
      ensures forall p :: 0 <= p < |ids| && ids[p] == nodeId ==> r == Ok(community[p])
    {
      if nodeId !in ids then Failure("unable to get community from node")
      else Ok(community[IndexOf(ids, nodeId)])
    }

    /**
     Collects the COMMUNITY values of the vertices of community `c`: the
     result is 1 when the community has a member and 0 otherwise.
     */
    method GetCommunitySize(c: int) returns (size: nat)
      requires Valid()
      ensures size == |LabelsWithin(community[..], community[..], c)|
      ensures size <= 1
      ensures size == 1 <==> exists p :: 0 <= p < |ids| && community[p] == c
    {
      var nodeCommunities: set<int> := {};
      var nodes := Select(community[..], c);
      for t := 0 to |nodes|
        invariant nodeCommunities == if t == 0 then {} else {c}
      {
        assert nodes[t] in nodes;
        nodeCommunities := nodeCommunities + {community[nodes[t]]};
      }
      size := |nodeCommunities|;
      LabelsWithinSelf(community[..], c);
      if |nodes| > 0 {
        assert nodes[0] in nodes;
      }
      if exists p :: 0 <= p < |ids| && community[p] == c {
        var p :| 0 <= p < |ids| && community[p] == c;
        assert p in nodes;
      }
    }

    /**
     The number of distinct node-communities among the vertices of community
     `c`: getCommunitySize collecting NODE_COMMUNITY, as its set is named.
     */
    method CountNodeCommunitiesInCommunity(c: int) returns (size: nat)
      requires Valid()
      ensures size == |LabelsWithin(community[..], nodeCommunity[..], c)|
      ensures size <= |Members(community[..], c)|
      ensures size == 0 <==> forall p :: 0 <= p < |ids| ==> community[p] != c
    {
      var nodeCommunities: set<int> := {};
      var nodes := Select(community[..], c);
      for t := 0 to |nodes|
        invariant forall x :: x in nodeCommunities <==> exists u :: 0 <= u < t && nodeCommunity[nodes[u]] == x
      {
        nodeCommunities := nodeCommunities + {nodeCommunity[nodes[t]]};
      }
      size := |nodeCommunities|;
      forall x ensures x in nodeCommunities <==> x in LabelsWithin(community[..], nodeCommunity[..], c) {
        if x in nodeCommunities {
          var u :| 0 <= u < |nodes| && nodeCommunity[nodes[u]] == x;
          assert nodes[u] in nodes;
        }
        if x in LabelsWithin(community[..], nodeCommunity[..], c) {
          var p :| 0 <= p < |ids| && community[p] == c && nodeCommunity[p] == x;
          assert p in nodes;
          var u :| 0 <= u < |nodes| && nodes[u] == p;
        }
      }
      assert nodeCommunities == LabelsWithin(community[..], nodeCommunity[..], c);
      LabelsWithinBound(community[..], nodeCommunity[..], c);
      if exists p :: 0 <= p < |ids| && community[p] == c {
        var p :| 0 <= p < |ids| && community[p] == c;
        assert community[..][p] == c;
        assert p in Members(community[..], c);
      } else {
        assert Members(community[..], c) == {};
      }
    }

    /** The node ids of the vertices at the given positions. */
    method NodeIdsOf(nodes: seq<nat>) returns (found: set<int>)
      requires Valid()
      requires forall t :: 0 <= t < |nodes| ==> nodes[t] < |ids|
      ensures forall x :: x in found <==> exists t :: 0 <= t < |nodes| && ids[nodes[t]] == x
    {
      found := {};
      for t := 0 to |nodes|
        invariant forall x :: x in found <==> exists u :: 0 <= u < t && ids[nodes[u]] == x
      {
        found := found + {ids[nodes[t]]};
      }
    }

    /** The node ids of the vertices in community `c`. */
    method GetNodesFromCommunity(c: int) returns (nodes: set<int>)
      requires Valid()
      ensures forall x :: x in nodes <==> exists p :: 0 <= p < |ids| && community[p] == c && ids[p] == x
    {
      var iter := Select(community[..], c);
      nodes := NodeIdsOf(iter);
      forall x ensures x in nodes <==> exists p :: 0 <= p < |ids| && community[p] == c && ids[p] == x {
        if exists p :: 0 <= p < |ids| && community[p] == c && ids[p] == x {
          var p :| 0 <= p < |ids| && community[p] == c && ids[p] == x;
          assert p in iter;
        }
        if x in nodes {
          var t :| 0 <= t < |iter| && ids[iter[t]] == x;
          assert iter[t] in iter;
        }
      }
    }

    /** The node ids of the vertices in node-community `nc`. */
    method GetNodesFromNodeCommunity(nc: int) returns (nodes: set<int>)
      requires Valid()
      ensures forall x :: x in nodes <==> exists p :: 0 <= p < |ids| && nodeCommunity[p] == nc && ids[p] == x
    {
      var iter := Select(nodeCommunity[..], nc);
      nodes := NodeIdsOf(iter);
      forall x ensures x in nodes <==> exists p :: 0 <= p < |ids| && nodeCommunity[p] == nc && ids[p] == x {
        if exists p :: 0 <= p < |ids| && nodeCommunity[p] == nc && ids[p] == x {
          var p :| 0 <= p < |ids| && nodeCommunity[p] == nc && ids[p] == x;
          assert p in iter;
        }
        if x in nodes {
          var t :| 0 <= t < |iter| && ids[iter[t]] == x;
          assert iter[t] in iter;
        }
      }
    }

    /**
     For every community index 0 .. numberOfCommunities - 1, the node ids of
     its vertices, as found by the community index.
     */
    method MapCommunities(numberOfCommunities: int) returns (communities: map<int, seq<int>>)
      requires Valid()
      ensures communities == CommunityMap(ids, community[..], numberOfCommunities)
    {
      communities := map[];
      CommunityMapNone(ids, community[..], 0);
      if numberOfCommunities <= 0 {
        CommunityMapNone(ids, community[..], numberOfCommunities);
      }
      var i := 0;
      while i < numberOfCommunities
        invariant 0 <= i && (i <= numberOfCommunities || i == 0)
        invariant communities == CommunityMap(ids, community[..], i)
      {
        var nodesIter := Select(community[..], i);
        var nodes: seq<int> := [];
        for t := 0 to |nodesIter|
          invariant nodes == IdsAt(ids, nodesIter[..t])
        {
          PrefixSnoc(nodesIter, t);
          nodes := nodes + [ids[nodesIter[t]]];
        }
        PrefixFull(nodesIter);
        CommunityMapStep(ids, community[..], i);
        communities := communities[i := nodes];
        i := i + 1;
      }
    }

    // -------------------------------------------------------------------------
    // Relationship queries
    // -------------------------------------------------------------------------

    /** The node ids at the far end of the outgoing relationships of the vertex with node id `nodeId`. */
    method GetNeighborsIds(nodeId: int) returns (r: Result<set<int>>)
      requires Valid()
      ensures r.Failure? <==> nodeId !in ids
      ensures r.Ok? ==> forall x :: x in r.value <==>
        exists j :: 0 <= j < |edges| && ids[edges[j].src] == nodeId && ids[edges[j].dst] == x
    {
      if nodeId !in ids {
        return Failure("unable to get neighbors ids");
      }
      var n := IndexOf(ids, nodeId);
      var neighbors: set<int> := {};
      var rels := Relationships(edges, n, Outgoing);
      ReachedEmpty(edges, ids, rels);
      for t := 0 to |rels|
        invariant neighbors == ReachedVia(edges, ids, rels[..t])
      {
        var neighbour := Other(edges[rels[t]], Outgoing);
        PrefixSnoc(rels, t);
        ReachedViaSnoc(edges, ids, rels[..t], rels[t]);
        neighbors := neighbors + {ids[neighbour]};
      }
      PrefixFull(rels);
      ReachedSnoc(edges, ids, [], n);
      assert [] + [n] == [n];
      forall x ensures x in neighbors <==> exists j :: 0 <= j < |edges| && ids[edges[j].src] == nodeId && ids[edges[j].dst] == x {
        if exists j :: 0 <= j < |edges| && ids[edges[j].src] == nodeId && ids[edges[j].dst] == x {
          var j :| 0 <= j < |edges| && ids[edges[j].src] == nodeId && ids[edges[j].dst] == x;
          assert edges[j].src == n;
          assert edges[j].src in [n];
        }
      }
      return Ok(neighbors);
    }

    /**
     The communities reached by the outgoing relationships of the vertices in
     node-community `nodeCommunities`.
     */
    method GetCommunitiesConnectedToNodeCommunities(nodeCommunities: int) returns (communities: set<int>)
      requires Valid()
      ensures forall c :: c in communities <==>
        exists j :: 0 <= j < |edges| && nodeCommunity[edges[j].src] == nodeCommunities && community[edges[j].dst] == c
    {
      communities := {};
      var nodes := Select(nodeCommunity[..], nodeCommunities);
      ghost var cs := community[..];
      ReachedEmpty(edges, cs, nodes);
      for k := 0 to |nodes|
        invariant communities == Reached(edges, cs, nodes[..k])
      {
        var n := nodes[k];
        var rels := Relationships(edges, n, Outgoing);
        ghost var before := communities;
        ReachedEmpty(edges, cs, rels);
        for t := 0 to |rels|
          invariant communities == before + ReachedVia(edges, cs, rels[..t])
        {
          var neighbour := Other(edges[rels[t]], Outgoing);
          PrefixSnoc(rels, t);
          ReachedViaSnoc(edges, cs, rels[..t], rels[t]);
          communities := communities + {community[neighbour]};
        }
        PrefixFull(rels);
        PrefixSnoc(nodes, k);
        ReachedSnoc(edges, cs, nodes[..k], n);
      }
      PrefixFull(nodes);
      ReachedSelect(edges, nodeCommunity[..], cs, nodeCommunities);
    }

    /**
     The number of relationships leaving node-community `nodeCommunityId` and
     entering community `communityNodes`; parallel relationships count once each.
     */
    method GetEdgesInsideCommunity(nodeCommunityId: int, communityNodes: int) returns (count: nat)
      requires Valid()
      ensures count == |Inside(edges, nodeCommunity[..], community[..], nodeCommunityId, communityNodes)|
    {
      var nodes := Select(nodeCommunity[..], nodeCommunityId);
      var comNodeSet := set p | p in Select(community[..], communityNodes);
      ghost var cs := community[..];
      assert forall p: nat :: p < |cs| ==> (p in comNodeSet <==> cs[p] == communityNodes);
      InsideEmpty(edges, cs, communityNodes, nodes, nodes);
      count := 0;
      for k := 0 to |nodes|
        invariant count == |InsideFrom(edges, cs, communityNodes, nodes[..k])|
      {
        var node := nodes[k];
        var relationships := Relationships(edges, node, Outgoing);
        ghost var before := count;
        InsideEmpty(edges, cs, communityNodes, nodes, relationships);
        for t := 0 to |relationships|
          invariant count == before + |InsideAmong(edges, cs, communityNodes, relationships[..t])|
        {
          var j := relationships[t];
          var neighbor := Other(edges[j], Outgoing);
          PrefixSnoc(relationships, t);
          IncreasingFresh(relationships, t);
          InsideAmongSnoc(edges, cs, communityNodes, relationships[..t], j);
          assert neighbor < |cs|;
          if neighbor in comNodeSet {
            count := count + 1;
          }
        }
        PrefixFull(relationships);
        PrefixSnoc(nodes, k);
        IncreasingFresh(nodes, k);
        InsideFromSnoc(edges, cs, communityNodes, nodes[..k], node);
      }
      PrefixFull(nodes);
      InsideFromSelect(edges, nodeCommunity[..], cs, nodeCommunityId, communityNodes);
    }

    /** The sum of GetNodeOutDegree over the given distinct vertices. */
    method OutDegreeSum(nodes: seq<nat>) returns (weight: nat)
      requires Valid()
      requires forall t :: 0 <= t < |nodes| ==> nodes[t] < |ids|
      requires Increasing(nodes)
      ensures weight == |Entering(edges, nodes)|
    {
      weight := 0;
      assert Entering(edges, nodes[..0]) == {};
      for k := 0 to |nodes|
        invariant weight == |Entering(edges, nodes[..k])|
      {
        var n := nodes[k];
        PrefixSnoc(nodes, k);
        IncreasingFresh(nodes, k);
        EnteringSnoc(edges, nodes[..k], n);
        weight := weight + GetNodeOutDegree(n);
      }
      PrefixFull(nodes);
    }

    /** The weight of community `c`: 0 for fewer than two members, else the relationships entering it. */
    method GetCommunityWeight(c: int) returns (communityWeight: nat)
      requires Valid()
      ensures communityWeight == GroupWeight(edges, community[..], c)
      ensures |Members(community[..], c)| < 2 ==> communityWeight == 0
    {
      communityWeight := 0;
      var nodes := Select(community[..], c);
      SelectCount(community[..], c);
      if |nodes| > 1 {
        communityWeight := OutDegreeSum(nodes);
        EnteringSelect(edges, community[..], c);
      }
    }

    /** The weight of node-community `nc`: 0 for fewer than two members, else the relationships entering it. */
    method GetNodeCommunityWeight(nc: int) returns (nodeCommunityWeight: nat)
      requires Valid()
      ensures nodeCommunityWeight == GroupWeight(edges, nodeCommunity[..], nc)
      ensures |Members(nodeCommunity[..], nc)| < 2 ==> nodeCommunityWeight == 0
    {
      nodeCommunityWeight := 0;
      var nodes := Select(nodeCommunity[..], nc);
      SelectCount(nodeCommunity[..], nc);
      if |nodes| > 1 {
        nodeCommunityWeight := OutDegreeSum(nodes);
        EnteringSelect(edges, nodeCommunity[..], nc);
      }
    }
  }
}
