# Neo4j adapter: the community-label table

This project models the community-label table that the Neo4j adapter of the
graph-database benchmark keeps underneath its Neo4j plumbing, and proves
properties of that model.

The store is a fixed enumeration of vertices. Each vertex has an immutable
integer node id and two mutable integer labels, `community` and
`nodeCommunity`. There is also a fixed sequence of directed `SIMILAR`
relationships between vertices. Parallel relationships are allowed and are
counted one by one.

- The class `Neo4j.Neo4jGraphDatabase` keeps the labels in two arrays, which
  its methods overwrite in place. The node ids and relationships are `const`
  fields. The index definitions of the schema are a `seq` field.
- The adapter's methods are methods with loops, as the source's methods are.
  Each is proved against a pure specification function in one of three
  modules:
  - `Partition`: labellings as `seq<int>`, index lookups, dense relabelling,
    and the community map;
  - `Edges`: relationships, degrees, and the counts taken over them;
  - `Schema`: index definitions.
- An index lookup `findNodes(Node, key, v)` is `Partition.Select`: the
  positions labelled `v`, in enumeration order.
- `getRelationships(SIMILAR, dir)` is `Edges.Relationships`: the indices of
  the relationships of one node in direction `dir`, in store order.
- A `.next()` on an empty lookup is the `Failure` case of `Neo4j.Result`. Its
  message is the one the adapter's exception carries.

Each operation of the source runs in one transaction that either commits or
rolls back. None of the failures modelled here happens after a write, so each
modelled operation either completes or leaves the labels as they were.

Three choices that follow the code exactly:

- **Degree directions.** `getNodeOutDegree` counts INCOMING relationships and
  `getNodeInDegree` counts OUTGOING ones (lines 326-336). The model keeps this
  swap, so `GetNodeWeight`, `GetCommunityWeight` and `GetNodeCommunityWeight`
  all count relationships *entering* the group. `Edges.DegreesSumToEdgeCount`
  shows that either direction sums to the same total.
- **`getCommunitySize`.** As written, it can only return 0 or 1. The model
  keeps that and records it under "## Findings".
- **Key names.** The constants `nodeId`, `community` and `nodeCommunity` come
  from `GraphDatabaseBase`, which is not part of this model. Here they are the
  strings `Neo4j.NodeIdKey`, `Neo4j.CommunityKey` and `Neo4j.NodeCommunityKey`.

The label writers only assign array elements. The relationships are a `const`
field, so `getGraphWeightSum` (the number of relationships) is the same before
and after `initCommunityProperty`, `moveNode` and `reInitializeCommunities`.

## Model

Each row cites the adapter's source file by its path in the repository and
the lines that the member models.

| member | source | states |
|---|---|---|
| Neo4j.Neo4jGraphDatabase.constructor | src/main/java/eu/socialsensor/graphdatabases/Neo4jGraphDatabase.java:92-110 | The store holds the given vertices, labels and relationships. The schema afterwards is `SetupIndexes` of the stored schema: each of the three Node indexes is created only if it is missing. |
| Neo4j.Neo4jGraphDatabase.SchemaHasIndexOnVertexLabelProperty | src/main/java/eu/socialsensor/graphdatabases/Neo4jGraphDatabase.java:114-129 | The search returns true exactly when some definition has the label and exactly the one-key list `[propertyName]`. |
| Schema.WithIndex | src/main/java/eu/socialsensor/graphdatabases/Neo4jGraphDatabase.java:99-101 | After a create-if-missing step, the index exists. The schema only grows, and by at most one definition. It is unchanged when the index already existed. Every index that existed before still exists. |
| Neo4j.SetupIndexes | src/main/java/eu/socialsensor/graphdatabases/Neo4jGraphDatabase.java:99-107 | After construction, the schema has the Node indexes on nodeId, community and nodeCommunity. It extends the old schema by at most three definitions. |
| Neo4j.SetupIndexesIdempotent | src/main/java/eu/socialsensor/graphdatabases/Neo4jGraphDatabase.java:99-107 | Opening an already set-up store again creates no index. |
| Neo4j.Neo4jGraphDatabase.GetNodeCount | src/main/java/eu/socialsensor/graphdatabases/Neo4jGraphDatabase.java:257-275 | The count is the number of vertices. |
| Neo4j.Neo4jGraphDatabase.GetGraphWeightSum | src/main/java/eu/socialsensor/graphdatabases/Neo4jGraphDatabase.java:571-590 | The weight is the number of relationships. Parallel ones count separately. |
| Neo4j.Neo4jGraphDatabase.GetNodeInDegree | src/main/java/eu/socialsensor/graphdatabases/Neo4jGraphDatabase.java:326-330 | The result is the number of relationships *leaving* the node, despite the name. |
| Neo4j.Neo4jGraphDatabase.GetNodeOutDegree | src/main/java/eu/socialsensor/graphdatabases/Neo4jGraphDatabase.java:332-336 | The result is the number of relationships *entering* the node, despite the name. |
| Neo4j.Neo4jGraphDatabase.GetNodeWeight | src/main/java/eu/socialsensor/graphdatabases/Neo4jGraphDatabase.java:305-324 | It fails exactly when no vertex has the node id. Otherwise it returns that vertex's incoming-relationship count. |
| Neo4j.Neo4jGraphDatabase.InitCommunityProperty | src/main/java/eu/socialsensor/graphdatabases/Neo4jGraphDatabase.java:339-362 | The vertex at position k gets community and node-community k, so both labellings are `0, 1, ..., n-1`. The node-community groups refine the communities. |
| Neo4j.Neo4jGraphDatabase.MoveNode | src/main/java/eu/socialsensor/graphdatabases/Neo4jGraphDatabase.java:547-568 | Every vertex of the node-community gets community `toCommunity`. Every other vertex keeps its community. No node-community changes. If the groups refined the communities before, they still do. |
| Neo4j.Neo4jGraphDatabase.ReInitializeCommunities | src/main/java/eu/socialsensor/graphdatabases/Neo4jGraphDatabase.java:593-624 | The new communities are `Dense` of the old ones: each label is replaced by its rank of first occurrence. The node-communities are set equal to the new communities. The result is the number of distinct old communities. The new labels met in enumeration order are exactly 0, 1, ..., count-1. The groups refine the communities. |
| Partition.RelabelStep | src/main/java/eu/socialsensor/graphdatabases/Neo4jGraphDatabase.java:602-612 | One loop step keeps the invariant. The map sends every label seen so far to its first-occurrence rank. The counter is the number of labels seen. The label written at the step is the dense label. |
| Partition.Dense | src/main/java/eu/socialsensor/graphdatabases/Neo4jGraphDatabase.java:602-612 | The dense relabelling has the same length. Every new label lies in 0 .. count-1. |
| Partition.DenseSameGroup | src/main/java/eu/socialsensor/graphdatabases/Neo4jGraphDatabase.java:602-612 | Two vertices share a new label exactly when they shared the old one. |
| Partition.DenseCanonical | src/main/java/eu/socialsensor/graphdatabases/Neo4jGraphDatabase.java:602-612 | Labels are issued in first-occurrence order: the distinct new labels, in the order met, are `0 .. count-1`. |
| Partition.DenseSummary | src/main/java/eu/socialsensor/graphdatabases/Neo4jGraphDatabase.java:593-624 | The count equals the number of distinct old labels. The new labels lie in 0 .. count-1. The groups are kept in both directions. The new labels appear in first-occurrence order. |
| Partition.DenseIdempotent | src/main/java/eu/socialsensor/graphdatabases/Neo4jGraphDatabase.java:593-624 | Relabelling twice leaves every label as the first relabelling left it, and returns the same count. |
| Partition.RangeCanonical | src/main/java/eu/socialsensor/graphdatabases/Neo4jGraphDatabase.java:345-353 | The ordinal labelling that initCommunityProperty writes is already dense: relabelling it changes nothing and counts n communities. |
| Partition.DistinctCount | src/main/java/eu/socialsensor/graphdatabases/Neo4jGraphDatabase.java:606-610 | The counter's final value, the length of the first-occurrence list, is the number of distinct labels. |
| Partition.Select | src/main/java/eu/socialsensor/graphdatabases/Neo4jGraphDatabase.java:401-406 | The lookup by a label yields exactly the positions carrying that label, each once, in increasing order. |
| Partition.SelectCount | src/main/java/eu/socialsensor/graphdatabases/Neo4jGraphDatabase.java:496-497 | The lookup yields as many vertices as carry the label. This is the `size()` that the weight guard tests. |
| Neo4j.Neo4jGraphDatabase.GetCommunity | src/main/java/eu/socialsensor/graphdatabases/Neo4jGraphDatabase.java:627-647 | It fails exactly when no vertex has the node-community. Otherwise it returns the community of a member. When the groups refine the communities, that is the community of every member. |
| Neo4j.Neo4jGraphDatabase.GetCommunityFromNode | src/main/java/eu/socialsensor/graphdatabases/Neo4jGraphDatabase.java:650-670 | It fails exactly when no vertex has the node id. Otherwise it returns that vertex's community. |
| Neo4j.Neo4jGraphDatabase.GetCommunitySize | src/main/java/eu/socialsensor/graphdatabases/Neo4jGraphDatabase.java:673-698 | As written, it returns the number of distinct COMMUNITY values among the members of community `c`. That is at most 1, and it is 1 exactly when `c` has a member. |
| Neo4j.Neo4jGraphDatabase.CountNodeCommunitiesInCommunity | src/main/java/eu/socialsensor/graphdatabases/Neo4jGraphDatabase.java:673-698 | The corrected size is the number of distinct node-communities among the members of `c`. It is at most the number of members, and 0 exactly when `c` has none. |
| Partition.LabelsWithinBound | src/main/java/eu/socialsensor/graphdatabases/Neo4jGraphDatabase.java:681-687 | A group holds at most as many distinct collected labels as members, and at least one exactly when it is not empty. |
| Partition.LabelsWithinSelf | src/main/java/eu/socialsensor/graphdatabases/Neo4jGraphDatabase.java:685-686 | Collecting the community label of the members of community `c` yields `{c}`, or nothing when `c` is unused. |
| Partition.CommunitySizeCounterexample | src/main/java/eu/socialsensor/graphdatabases/Neo4jGraphDatabase.java:685-686 | Take one community with two vertices in two node-communities. The code as written counts 1; the node-community count is 2. |
| Neo4j.Neo4jGraphDatabase.NodeIdsOf | src/main/java/eu/socialsensor/graphdatabases/Neo4jGraphDatabase.java:405-410 | The loop that drains a lookup's iterator into a set. An id is in the result exactly when some yielded vertex carries it. The same loop appears again at lines 433-438 for `getNodesFromNodeCommunity`. |
| Neo4j.Neo4jGraphDatabase.GetNodesFromCommunity | src/main/java/eu/socialsensor/graphdatabases/Neo4jGraphDatabase.java:397-420 | The result is exactly the node ids of the vertices in the community. |
| Neo4j.Neo4jGraphDatabase.GetNodesFromNodeCommunity | src/main/java/eu/socialsensor/graphdatabases/Neo4jGraphDatabase.java:423-449 | The result is exactly the node ids of the vertices in the node-community. |
| Neo4j.Neo4jGraphDatabase.MapCommunities | src/main/java/eu/socialsensor/graphdatabases/Neo4jGraphDatabase.java:701-731 | The map is `CommunityMap` of the current communities: one entry per index, each listing the node ids of that community in lookup order. |
| Partition.CommunityMap | src/main/java/eu/socialsensor/graphdatabases/Neo4jGraphDatabase.java:709-719 | The keys are exactly `0 .. k-1`. Entry c holds exactly the node ids of the vertices with community c, one per member. |
| Partition.IdsAtSelect | src/main/java/eu/socialsensor/graphdatabases/Neo4jGraphDatabase.java:711-718 | The list for one index holds exactly the node ids of its members, one per member. |
| Partition.CommunityMapPartition | src/main/java/eu/socialsensor/graphdatabases/Neo4jGraphDatabase.java:709-719 | Suppose all labels lie in `0 .. k-1` and the ids are unique. Then each id is listed under its own community and under no other, and the lists hold all ids in total. |
| Partition.CommunityMapAfterDense | src/main/java/eu/socialsensor/graphdatabases/Neo4jGraphDatabase.java:593-624 | Take k to be the count that reInitializeCommunities returns. Then mapCommunities(k) partitions all node ids, with no overlap. |
| Partition.SumSizesTotal | src/main/java/eu/socialsensor/graphdatabases/Neo4jGraphDatabase.java:709-719 | When every label lies in `0 .. k-1`, the group sizes add up to the number of vertices. |
| Neo4j.Neo4jGraphDatabase.GetNeighborsIds | src/main/java/eu/socialsensor/graphdatabases/Neo4jGraphDatabase.java:278-302 | It fails exactly when no vertex has the node id. Otherwise the result is exactly the node ids at the far end of that vertex's outgoing relationships. |
| Neo4j.Neo4jGraphDatabase.GetCommunitiesConnectedToNodeCommunities | src/main/java/eu/socialsensor/graphdatabases/Neo4jGraphDatabase.java:365-394 | The result is exactly the communities of the targets of relationships that leave a vertex of the node-community. |
| Edges.ReachedSnoc | src/main/java/eu/socialsensor/graphdatabases/Neo4jGraphDatabase.java:376-383 | Visiting one more node adds exactly the labels reached by its outgoing relationships. |
| Edges.ReachedSelect | src/main/java/eu/socialsensor/graphdatabases/Neo4jGraphDatabase.java:372-383 | Starting from the lookup of a node-community reaches exactly the labels of the targets of that group's outgoing relationships. |
| Neo4j.Neo4jGraphDatabase.GetEdgesInsideCommunity | src/main/java/eu/socialsensor/graphdatabases/Neo4jGraphDatabase.java:452-487 | The count is the number of relationships whose source is in node-community `nc` and whose target is in community `c`. Each parallel relationship counts once. |
| Edges.InsideFromSnoc | src/main/java/eu/socialsensor/graphdatabases/Neo4jGraphDatabase.java:464-476 | One more source vertex adds the number of its outgoing relationships that enter `c`. |
| Edges.InsideAmongSnoc | src/main/java/eu/socialsensor/graphdatabases/Neo4jGraphDatabase.java:468-475 | One more relationship, not seen before, adds one exactly when its target is in `c`. |
| Edges.InsideFromSelect | src/main/java/eu/socialsensor/graphdatabases/Neo4jGraphDatabase.java:459-476 | Counting from the lookup of node-community `nc` counts exactly the relationships inside (`nc`, `c`). |
| Edges.TwoTrianglesInside | src/main/java/eu/socialsensor/graphdatabases/Neo4jGraphDatabase.java:452-487 | On two disjoint triangles, each taken as one community, each community has 3 relationships inside it and 0 run between the two. |
| Neo4j.Neo4jGraphDatabase.GetCommunityWeight | src/main/java/eu/socialsensor/graphdatabases/Neo4jGraphDatabase.java:490-515 | The weight is 0 for a community with fewer than two members. Otherwise it is the sum of the members' getNodeOutDegree, which is the number of relationships entering the community. |
| Neo4j.Neo4jGraphDatabase.GetNodeCommunityWeight | src/main/java/eu/socialsensor/graphdatabases/Neo4jGraphDatabase.java:518-544 | The same as GetCommunityWeight, for a node-community group. |
| Neo4j.Neo4jGraphDatabase.OutDegreeSum | src/main/java/eu/socialsensor/graphdatabases/Neo4jGraphDatabase.java:499-502 | Summing getNodeOutDegree over distinct vertices gives the number of relationships entering them. |
| Edges.EnteringSnoc | src/main/java/eu/socialsensor/graphdatabases/Neo4jGraphDatabase.java:499-502 | One more distinct member adds its incoming relationships to the weight. |
| Edges.EnteringSelect | src/main/java/eu/socialsensor/graphdatabases/Neo4jGraphDatabase.java:496-503 | The relationships entering the members of a group are those whose target carries the group's label. |
| Edges.Relationships | src/main/java/eu/socialsensor/graphdatabases/Neo4jGraphDatabase.java:467-470 | A node's relationships in one direction are exactly the relationships it anchors in that direction, each once, in store order. The number of them is the node's degree. |
| Edges.DegreesSumToEdgeCount | src/main/java/eu/socialsensor/graphdatabases/Neo4jGraphDatabase.java:326-336 | The getNodeOutDegree values of all vertices add up to getGraphWeightSum, and so do the getNodeInDegree values. |
| Edges.EnteringWeightsSumToEdgeCount | src/main/java/eu/socialsensor/graphdatabases/Neo4jGraphDatabase.java:490-515 | When every vertex's label lies in `0 .. k-1`, the relationships entering the groups `0 .. k-1` add up to getGraphWeightSum. |

## Left out

- Neo4j and TinkerPop calls as such are not modelled: the batch-inserter configuration (lines 75-91), `awaitIndexesOnline` with its ten-minute timeout (108), and node iteration through `GlobalGraphOperations`. The vertex and relationship sequences of the model stand in for them.
- The batch-loading branch of the constructor (70-91) is not modelled. It creates the three deferred indexes unconditionally and opens no schema for queries.
- `shortestPath` (222-254) is left out. It is a Gremlin traversal whose result is discarded, and its semantics live in TinkerPop. `DepthPredicate` is not part of this model.
- The exception-swallowing wrappers `shortestPaths`, `findNodesOfAllEdges`, `findAllNodeNeighbours` and `getVertex` (185-219, 805-818) are left out.
- Loading (`singleModeLoading`, `massiveModeLoading`) delegates to insertion classes that are not part of this model.
- Lifecycle and file I/O are left out: `shutdown`, `shutdownMassiveGraph` (lock-file removal), `delete`.
- The iterator pass-throughs (733-803) are left out. They forward single library calls.
- Transactions are modelled only as all-or-nothing operations. Commit, rollback and the wrapping of any library exception into `BenchmarkingException` are not modelled. The only failure modelled is the lookup that finds nothing.
- Weights are `double` in the source but are always casts of integer counts, so they are modelled as `nat`. Floating-point rounding of very large counts is not modelled.
- Node ids are looked up and read back as decimal strings (285, 289, 408, 436, 716), but `getVertex` looks them up as integers (811). The model keeps node ids as integers and does not reproduce the string encoding.
- The model does not cover a vertex that is missing a label property before `initCommunityProperty`. In the source, reading it throws.
- The order in which a Neo4j index lookup or `getRelationships` yields its results is unspecified. The model fixes it as enumeration order and store order. Two operations expose that order. `mapCommunities` exposes it in its lists. `getCommunity` (635-636) returns the COMMUNITY of the first member that the NODE_COMMUNITY lookup yields, which the model takes as the lowest position, `Select(...)[0]`.
- Counters are Java `int` in the source: `communityCounter` (341, 596), `edgeCount` (573) and the result of `IteratorUtil.count` (264). The model counts in unbounded `nat` and does not model a 32-bit wrap-around, which needs more than 2^31 - 1 nodes or relationships.
- `getAllNodes` (264, 348, 602) and `getAllRelationships` (579) do not filter by label or type, whereas `findNodes(NODE_LABEL, …)` and `getRelationships(SIMILAR, …)` do. The model has one vertex sequence and one relationship sequence, so it assumes every node carries the Node label and every relationship has type SIMILAR, as the loaders create them. `GetNodeCount`, `GetGraphWeightSum`, `Edges.DegreesSumToEdgeCount` and `Edges.EnteringWeightsSumToEdgeCount` equate the two kinds of count only under that assumption.
- Neo4j.Neo4jGraphDatabase.constructor: requires the stored vertices to have distinct node ids. The source assumes this rather than checking it.
- Neo4j.Neo4jGraphDatabase.ReInitializeCommunities: its contract states the new labelling as `Dense` of the old one. The bounds, the same-group property and the count of distinct labels are proved about `Dense` in `Partition.DenseSummary`, not repeated in the method's own ensures.

## Findings

| source | as written | input that shows it | evidently intended | confidence | as-written member | corrected member |
|---|---|---|---|---|---|---|
| src/main/java/eu/socialsensor/graphdatabases/Neo4jGraphDatabase.java:685-686 | `getCommunitySize` puts each member's COMMUNITY value into the set `nodeCommunities`, so the size is 1 for any non-empty community. | Communities `[0, 0]` and node-communities `[0, 1]`: `getCommunitySize(0)` returns 1. | The number of distinct node-communities inside the community, i.e. NODE_COMMUNITY as the set's name says. This gives 2 here. | not executed | Neo4j.Neo4jGraphDatabase.GetCommunitySize | Neo4j.Neo4jGraphDatabase.CountNodeCommunitiesInCommunity |
