/**
 The directed SIMILAR relationships of the store, and the counts taken over
 them.  Vertices are named by their position in the enumeration order.
 */
module Edges {
  import opened Partition

  /** A directed SIMILAR relationship from the vertex at `src` to the vertex at `dst`. */
  datatype Edge = Edge(src: nat, dst: nat)

  /** The direction in which a node's relationships are listed. */
  datatype Direction = Outgoing | Incoming

  /** Every relationship joins two stored vertices. */
  ghost predicate EndpointsIn(E: seq<Edge>, n: nat) {
    forall j :: 0 <= j < |E| ==> E[j].src < n && E[j].dst < n
  }

  /** The node a relationship is listed under in direction `dir`. */
  function Anchor(e: Edge, dir: Direction): nat {
    match dir
    case Outgoing => e.src
    case Incoming => e.dst
  }

  /** The node at the far end of a relationship listed in direction `dir` (getOtherNode). */
  function Other(e: Edge, dir: Direction): nat {
    match dir
    case Outgoing => e.dst
    case Incoming => e.src
  }

  /** For every relationship, the node it is listed under in direction `dir`. */
  function AnchorLabels(E: seq<Edge>, dir: Direction): (r: seq<int>)
    ensures |r| == |E| && forall j :: 0 <= j < |E| ==> r[j] == Anchor(E[j], dir)
  {
    seq(|E|, j requires 0 <= j < |E| => Anchor(E[j], dir))
  }

  /** The indices of the relationships listed under `p` in direction `dir`. */
  ghost function Incident(E: seq<Edge>, p: nat, dir: Direction): set<nat> {
    set j: nat | j < |E| && Anchor(E[j], dir) == p
  }

  /**
   The relationships of the node at `p` in direction `dir`, as edge indices in
   store order: what `getRelationships(SIMILAR, dir)` iterates over.
   */
  function Relationships(E: seq<Edge>, p: nat, dir: Direction): (r: seq<nat>)
    ensures forall j: nat :: j in r <==> j < |E| && Anchor(E[j], dir) == p
    ensures forall t :: 0 <= t < |r| ==> r[t] < |E|
    ensures Increasing(r)
    ensures |r| == |Incident(E, p, dir)|
  {
    var labels := AnchorLabels(E, dir);
    SelectCount(labels, p);
    assert Members(labels, p) == Incident(E, p, dir);
    Select(labels, p)
  }

  /** For every relationship, the label of its target vertex. */
  function TargetLabels(E: seq<Edge>, labels: seq<int>): (r: seq<int>)
    requires EndpointsIn(E, |labels|)
    ensures |r| == |E| && forall j :: 0 <= j < |E| ==> r[j] == labels[E[j].dst]
  {
    seq(|E|, j requires 0 <= j < |E| => labels[E[j].dst])
  }

  /**
   The weight of a group of vertices: zero unless the group has at least two
   members, and otherwise the number of relationships entering the group
   (the sum of the members' incoming degrees).
   */
  ghost function GroupWeight(E: seq<Edge>, labels: seq<int>, v: int): nat
    requires EndpointsIn(E, |labels|)
  {
    if |Members(labels, v)| > 1 then |Members(TargetLabels(E, labels), v)| else 0
  }

  /**
   The relationships whose source is in node-community `nc` and whose target
   is in community `c`.
   */
  ghost function Inside(E: seq<Edge>, nodeCommunities: seq<int>, communities: seq<int>, nc: int, c: int): set<nat>
    requires |nodeCommunities| == |communities| && EndpointsIn(E, |communities|)
  {
    set j: nat | j < |E| && nodeCommunities[E[j].src] == nc && communities[E[j].dst] == c
  }

  /** The relationships entering one of the vertices `dsts`. */
  ghost function Entering(E: seq<Edge>, dsts: seq<nat>): set<nat> {
    set j: nat | j < |E| && E[j].dst in dsts
  }

  /** Adding one more target, not among the earlier ones, adds its incoming relationships. */
  lemma EnteringSnoc(E: seq<Edge>, dsts: seq<nat>, n: nat)
    requires n !in dsts
    ensures |Entering(E, dsts + [n])| == |Entering(E, dsts)| + |Incident(E, n, Incoming)|
  {
    assert Entering(E, dsts + [n]) == Entering(E, dsts) + Incident(E, n, Incoming);
    assert Entering(E, dsts) * Incident(E, n, Incoming) == {};
  }

  /** The relationships entering the vertices labelled `v` are those whose target label is `v`. */
  lemma EnteringSelect(E: seq<Edge>, labels: seq<int>, v: int)
    requires EndpointsIn(E, |labels|)
    ensures Entering(E, Select(labels, v)) == Members(TargetLabels(E, labels), v)
  {
  }

  /** The relationships leaving one of the vertices `srcs` and entering a vertex labelled `c` in `cs`. */
  ghost function InsideFrom(E: seq<Edge>, cs: seq<int>, c: int, srcs: seq<nat>): set<nat>
    requires EndpointsIn(E, |cs|)
  {
    set j: nat | j < |E| && E[j].src in srcs && cs[E[j].dst] == c
  }

  /** The relationships among `rels` that enter a vertex labelled `c` in `cs`. */
  ghost function InsideAmong(E: seq<Edge>, cs: seq<int>, c: int, rels: seq<nat>): set<nat>
    requires EndpointsIn(E, |cs|)
  {
    set j: nat | j in rels && j < |E| && cs[E[j].dst] == c
  }

  /** Nothing is counted before any source or relationship is looked at. */
  lemma InsideEmpty(E: seq<Edge>, cs: seq<int>, c: int, srcs: seq<nat>, rels: seq<nat>)
    requires EndpointsIn(E, |cs|)
    ensures |InsideFrom(E, cs, c, srcs[..0])| == 0 && |InsideAmong(E, cs, c, rels[..0])| == 0
  {
    assert InsideFrom(E, cs, c, srcs[..0]) == {};
    assert InsideAmong(E, cs, c, rels[..0]) == {};
  }

  /** Looking at one more relationship, not seen before, counts it when it enters `c`. */
  lemma InsideAmongSnoc(E: seq<Edge>, cs: seq<int>, c: int, rels: seq<nat>, j: nat)
    requires EndpointsIn(E, |cs|) && j < |E| && j !in rels
    ensures |InsideAmong(E, cs, c, rels + [j])| == |InsideAmong(E, cs, c, rels)| + (if cs[E[j].dst] == c then 1 else 0)
  {
    if cs[E[j].dst] == c {
      assert InsideAmong(E, cs, c, rels + [j]) == InsideAmong(E, cs, c, rels) + {j};
    } else {
      assert InsideAmong(E, cs, c, rels + [j]) == InsideAmong(E, cs, c, rels);
    }
  }

  /** Adding one more source adds the counted outgoing relationships of that source. */
  lemma InsideFromSnoc(E: seq<Edge>, cs: seq<int>, c: int, srcs: seq<nat>, n: nat)
    requires EndpointsIn(E, |cs|) && n !in srcs
    ensures |InsideFrom(E, cs, c, srcs + [n])| ==
      |InsideFrom(E, cs, c, srcs)| + |InsideAmong(E, cs, c, Relationships(E, n, Outgoing))|
  {
    var rels := Relationships(E, n, Outgoing);
    var A := InsideFrom(E, cs, c, srcs);
    var B := InsideAmong(E, cs, c, rels);
    assert InsideFrom(E, cs, c, srcs + [n]) == A + B;
    assert A * B == {};
  }

  /** Counting from the vertices of node-community `nc` counts the relationships inside (`nc`, `c`). */
  lemma InsideFromSelect(E: seq<Edge>, ncs: seq<int>, cs: seq<int>, nc: int, c: int)
    requires |ncs| == |cs| && EndpointsIn(E, |cs|)
    ensures InsideFrom(E, cs, c, Select(ncs, nc)) == Inside(E, ncs, cs, nc, c)
  {
  }

  /** The labels, in `cs`, of the targets of the relationships leaving one of the vertices `srcs`. */
  ghost function Reached(E: seq<Edge>, cs: seq<int>, srcs: seq<nat>): set<int>
    requires EndpointsIn(E, |cs|)
  {
    set j | 0 <= j < |E| && E[j].src in srcs :: cs[E[j].dst]
  }

  /** The labels, in `cs`, of the targets of the relationships `rels`. */
  ghost function ReachedVia(E: seq<Edge>, cs: seq<int>, rels: seq<nat>): set<int>
    requires EndpointsIn(E, |cs|)
  {
    set u | 0 <= u < |rels| && rels[u] < |E| :: cs[E[rels[u]].dst]
  }

  /** Following one more relationship adds the label of its target. */
  lemma ReachedViaSnoc(E: seq<Edge>, cs: seq<int>, rels: seq<nat>, j: nat)
    requires EndpointsIn(E, |cs|) && j < |E|
    ensures ReachedVia(E, cs, rels + [j]) == ReachedVia(E, cs, rels) + {cs[E[j].dst]}
  {
    var r := rels + [j];
    assert forall u :: 0 <= u < |rels| ==> r[u] == rels[u];
    assert r[|rels|] == j;
  }

  /** Adding one more source adds the labels reached by its outgoing relationships. */
  lemma ReachedSnoc(E: seq<Edge>, cs: seq<int>, srcs: seq<nat>, n: nat)
    requires EndpointsIn(E, |cs|)
    ensures Reached(E, cs, srcs + [n]) == Reached(E, cs, srcs) + ReachedVia(E, cs, Relationships(E, n, Outgoing))
  {
    var rels := Relationships(E, n, Outgoing);
    forall c | c in ReachedVia(E, cs, rels) ensures c in Reached(E, cs, srcs + [n]) {
      var u :| 0 <= u < |rels| && rels[u] < |E| && cs[E[rels[u]].dst] == c;
      assert rels[u] in rels;
    }
    forall c | c in Reached(E, cs, srcs + [n]) && c !in Reached(E, cs, srcs) ensures c in ReachedVia(E, cs, rels) {
      var j :| 0 <= j < |E| && E[j].src in srcs + [n] && cs[E[j].dst] == c;
      assert j in rels;
      var u :| 0 <= u < |rels| && rels[u] == j;
    }
  }

  /** Reaching out from the vertices of node-community `nc`: the labels of the targets of their relationships. */
  lemma ReachedSelect(E: seq<Edge>, ncs: seq<int>, cs: seq<int>, nc: int)
    requires |ncs| == |cs| && EndpointsIn(E, |cs|)
    ensures forall c :: c in Reached(E, cs, Select(ncs, nc)) <==>
      exists j :: 0 <= j < |E| && ncs[E[j].src] == nc && cs[E[j].dst] == c
  {
  }

  /** Nothing has been reached before any relationship is followed. */
  lemma ReachedEmpty(E: seq<Edge>, cs: seq<int>, rels: seq<nat>)
    requires EndpointsIn(E, |cs|)
    ensures Reached(E, cs, []) == {} && ReachedVia(E, cs, rels[..0]) == {}
  {
  }

  /** The sum of the degrees, in direction `dir`, of the vertices 0 .. n - 1. */
  ghost function DegreeSum(E: seq<Edge>, n: nat, dir: Direction): nat {
    if n == 0 then 0 else DegreeSum(E, n - 1, dir) + |Incident(E, n - 1, dir)|
  }

  lemma {:induction false} DegreeSumIsSumSizes(E: seq<Edge>, n: nat, dir: Direction)
    ensures DegreeSum(E, n, dir) == SumSizes(AnchorLabels(E, dir), n)
  {
    if n > 0 {
      DegreeSumIsSumSizes(E, n - 1, dir);
      assert Incident(E, n - 1, dir) == Members(AnchorLabels(E, dir), n - 1);
    }
  }

  /**
   Every relationship has one source and one target, so the degrees of all
   vertices in either direction add up to the number of relationships.
   */
  lemma DegreesSumToEdgeCount(E: seq<Edge>, n: nat, dir: Direction)
    requires EndpointsIn(E, n)
    ensures DegreeSum(E, n, dir) == |E|
  {
    DegreeSumIsSumSizes(E, n, dir);
    SumSizesTotal(AnchorLabels(E, dir), n);
  }

  /**
   When every vertex carries a community in 0 .. k - 1, the relationships
   entering the communities 0 .. k - 1 add up to all relationships.
   */
  lemma EnteringWeightsSumToEdgeCount(E: seq<Edge>, labels: seq<int>, k: nat)
    requires EndpointsIn(E, |labels|)
    requires forall p :: 0 <= p < |labels| ==> 0 <= labels[p] < k
    ensures SumSizes(TargetLabels(E, labels), k) == |E|
  {
    SumSizesTotal(TargetLabels(E, labels), k);
  }

  /** Two disjoint directed triangles, 0 -> 1 -> 2 -> 0 and 3 -> 4 -> 5 -> 3. */
  function TwoTriangles(): (E: seq<Edge>)
    ensures |E| == 6 && EndpointsIn(E, 6)
  {
    [Edge(0, 1), Edge(1, 2), Edge(2, 0), Edge(3, 4), Edge(4, 5), Edge(5, 3)]
  }

  /**
   With each triangle as one community (and node-community), each community
   has three relationships inside it and none runs between them.
   */
  lemma TwoTrianglesInside()
    ensures |Inside(TwoTriangles(), [0, 0, 0, 1, 1, 1], [0, 0, 0, 1, 1, 1], 0, 0)| == 3
    ensures |Inside(TwoTriangles(), [0, 0, 0, 1, 1, 1], [0, 0, 0, 1, 1, 1], 1, 1)| == 3
    ensures |Inside(TwoTriangles(), [0, 0, 0, 1, 1, 1], [0, 0, 0, 1, 1, 1], 0, 1)| == 0
    ensures |Inside(TwoTriangles(), [0, 0, 0, 1, 1, 1], [0, 0, 0, 1, 1, 1], 1, 0)| == 0
  {
    var E, L := TwoTriangles(), [0, 0, 0, 1, 1, 1];
    assert forall j :: 0 <= j < 3 ==> L[E[j].src] == 0 && L[E[j].dst] == 0;
    assert forall j :: 3 <= j < 6 ==> L[E[j].src] == 1 && L[E[j].dst] == 1;
    assert Inside(E, L, L, 0, 0) == {0, 1, 2};
    assert Inside(E, L, L, 1, 1) == {3, 4, 5};
    assert Inside(E, L, L, 0, 1) == {};
    assert Inside(E, L, L, 1, 0) == {};
  }
}
