# Memgraph query modules: a verified model

This project models, in Dafny, the parts of Memgraph's query modules and their
helper headers that hold real state, and proves what those parts promise.  The
command `dafny verify dfyconfig.toml` checks all files together.

**`to_tree` (query_modules/convert.c).**  Paths are turned into nested maps and
merged by root.  A merge finds the item with the same identity, the pair of `_id`
and the hash of `_type`, through an open-addressing table with triangular probing.

- `Probing` shows that the probe visits every slot of a power-of-two table exactly
  once.
- `BucketTable` shows that the table is a finite map in which the first insertion
  of a key wins, for every hash function.
- `Merge` states the plain merge, and exactly when a probe would find neither its
  key nor a free slot.  `HashedMerge` is the code: array, probe loop, and mutual
  recursion.  It is proved equal to the plain merge, and to end exactly when the
  identities fit the table.  `ListMerge` says what a merge gives, field by field and
  position by position.
- `PathTrees` and `ToTree` prove which fields a path's tree shows, read off its
  vertices and edges; which value the conversion returns; that it has exactly the
  walks of the input paths, each up to its first taken key; and that no table runs
  full unless a property lists several maps with an identity.
- `OrderFree` says what a merged tree holds at every walk.  `PathOrder` proves
  exactly when the order of the paths matters.  `SiblingOrder` proves that siblings
  are distinct and come in order of first appearance.

**The graph view (include/mg_graph.hpp, include/mg_generate.hpp).**  A graph is held
several times over: edge vector, adjacency lists, neighbour lists, id maps and a
multimap.

- `GraphView` says what each structure must hold in terms of the edges, that every
  creation keeps it, and what a creation does in Memgraph's ids.  Graph type and
  weight may differ from edge to edge.
- `GraphCounts` proves the counting laws.
- `GraphErase` and `GraphRuns` prove exactly when erasing keeps the structures in
  agreement, for every view and over whole runs.
- `GraphObject` is the class with its loops.  `RandomTree` proves that the tree
  generator builds trees for every outcome of the draws.

**Schema (query_modules/schema.cpp).**  `SchemaAssert` gives the database after
`assert` and proves when it is exactly what was asked for.  `SchemaSession` is the
procedure with its loops and its log.  `SchemaScan` is `node_type_properties`.

**Smaller pieces.**  `MockLabels` is the colon-joined label string of
include/_mgp_mock.py.  `ConfigSections` is `extract_sections` of config/generate.py.
`ValueEquality` is the equality and hashing of values in include/mgp.hpp, and
`HashMixing` shows that both hashes tell inputs apart that differ in one place.

Some promises do not hold on all inputs.  For each of these the condition under
which it holds is proved exact, and a failing input is given:

- A list merge whose two lists hold more identities than the table has slots does
  not end: some probe meets neither its key nor a free slot, at any visit
  (`HangsIff`, `HangsIffStuck`).  Two parallel edges that each list 33 maps in a
  property are enough (`FullTableExample`).
- A path loses the rest of its tree at a relationship whose key is already a key of
  its start node, and its walk where a property `_id` hides a node's id
  (`PathKeptIff`, `TakenKeyExample`, `HiddenIdExample`).
- With parallel edges the order of the paths matters: the first edge's fields win
  (`OrderIrrelevantIff`, `ParallelEdgesMatter`, `ParallelPathsExample`).
- `EraseEdge` can take the neighbour entry of another edge than the one it erases
  (`ParallelEdgesExample`).  It leaves all structures in agreement, whatever its
  lookup gives, exactly when no live edge joins the two nodes or only one edge ever
  did (`EraseSafeIff`, which also covers a node and itself); `EraseAgreesIff` is the
  condition for one result of the lookup.  In a directed view it erases the first
  live edge in each direction (`EraseMarks`).
- `assert` leaves an item in place whose label contains ':', and creates no item
  whose joined name an existing one already has (`AssertConvergesIff`,
  `ColonLabelStays`, `HiddenByAnother`).  An empty property list in the index map
  drops the label index that is already there and creates it again the next time
  (`SecondRunIff`, `EmptyListToggles`).
- Removing the only label of a mock vertex does nothing, and of repeated labels some
  stay (`RemoveLabelIff`, `OnlyLabelExample`).
- A flag such as `aB` between `a` and `a_c` splits the section of `a`
  (`GroupedIff`, `WedgedExample`).
- A map with items never equals a copy of itself (`SameIsEquivalence`,
  `FilledMapExample`).

Every lemma switches automatic induction off, so each induction is written out.

## Model

| member | source | states |
|---|---|---|
| Probing.MovesFollowSlots | query_modules/convert.c:191-206 | the loop's `pos` and `step`, masked at every turn, stand at slot k of the probe sequence after k turns |
| Probing.SlotIsTriangular | query_modules/convert.c:191-206 | slot k is the start plus k(k+1)/2, masked |
| Probing.ProbeCoversTable | query_modules/convert.c:191-206 | in a power-of-two table every slot is among the first `cap` visited |
| Probing.ProbeVisitsOnce | query_modules/convert.c:191-206 | the first `cap` slots visited are pairwise different |
| BucketTable.ProbeReturnsIff | query_modules/convert.c:191-206 | the probe ever stops if and only if some slot is free or holds the key, and then within `cap` turns |
| BucketTable.Probe | query_modules/convert.c:191-206 | the loop over the bucket array stops at the first slot of the probe sequence that is free or holds the key |
| BucketTable.Lookup | query_modules/convert.c:191-206 | a probe in a table that represents a map finds the key's entry, or a free slot exactly when the key is absent |
| BucketTable.Insert | query_modules/convert.c:708-723 | filling the slot the probe returns represents the map with the new key, for every hash function |
| BucketTable.RoomIff | query_modules/convert.c:191-206 | a probe can stop if and only if the key is stored or fewer keys than slots are |
| BucketTable.RunsAreFirstWins | query_modules/convert.c:640-668 | after every sequence of probe-and-insert steps the table is the map from each key to the first value stored under it |
| TreeValues.HashInto | query_modules/convert.c:599-603 | hashing on from the hash of one string gives the hash of the concatenation |
| TreeValues.HashLabels | query_modules/convert.c:580-637 | hashing a label list piece by piece with ':' between equals hashing the joined string |
| TreeValues.IdentityMeans | query_modules/convert.c:580-637 | a value has an identity if and only if it is a map with an integer `_id` and a `_type` that is a string or a non-empty list of strings: that id and the hash of the joined strings |
| HashMixing.XorBits | query_modules/convert.c:598-627 | exclusive or adds binary digits modulo two, digit by digit |
| HashMixing.FnvTells | query_modules/convert.c:598-627 | two strings that differ in one character have equal hashes if and only if the two characters have the same byte |
| TreeValues.ExtractIdentity | query_modules/convert.c:580-637 | the identity is the integer `_id` with the hash of a string or all-string-list `_type`, and there is none otherwise |
| Merge.MergeTreesKeepsIdentity | query_modules/convert.c:813-852 | merging into a map never changes its identity |
| Merge.MergeListsKeepsIdentities | query_modules/convert.c:671-811 | a list merge keeps every existing position with its identity |
| Merge.MergeListsKeys | query_modules/convert.c:671-811 | the identities after a list merge are those of both lists |
| Merge.PlainListsConcatenate | query_modules/convert.c:671-811 | lists without identities are concatenated, so merging one with itself is the identity only when it is empty |
| Merge.StuckIff | query_modules/convert.c:671-811 | some probe of a merge meets a full table without its key if and only if the identities of both lists outnumber the slots |
| Merge.NarrowFitsTrees | query_modules/convert.c:741-748 | a source with at most one identity per list fits into every target: 63 + 1 slots in the small table, twice the existing items in the heap one |
| Merge.CapacityIs | query_modules/convert.c:740-747 | the table has 64 slots for fewer than 64 items, else the least power of two that is at least twice their number |
| ListMerge.MergeListsMeans | query_modules/convert.c:671-811 | the existing items keep their places, items without identity and first items of a new identity follow in order, and the first item of an identity takes in, in order, all new items of that identity |
| ListMerge.MergedField | query_modules/convert.c:813-852 | `_id` and `_type` are the target's; a key of one map keeps its value; under a key of both the lists are merged, and if not both are lists the target's value stays |
| ListMerge.PlainFieldsConcatenate | query_modules/convert.c:813-852 | a list without identities under a key of both maps is appended to the target's |
| HashedMerge.HangsIffStuck | query_modules/convert.c:191-206 | in a table that indexes the list merged so far, the probe for the next item stops at no visit, ever, if and only if every slot is taken and none by its identity |
| HashedMerge.HangsIff | query_modules/convert.c:671-811 | a list merge meets a probe that never stops if and only if the identities of both lists outnumber the slots |
| HashedMerge.FitsIff | query_modules/convert.c:671-811 | lists fit if and only if no probe of their merge runs forever and the children merged on the way fit |
| HashedMerge.FirstIndexFinds | query_modules/convert.c:640-668 | the index maps every identity to its first position |
| HashedMerge.FindOrFill | query_modules/convert.c:708-723 | one probe and insert on the array: the stored position of a known key, else the new one, which is stored |
| HashedMerge.IndexExisting | query_modules/convert.c:640-668 | indexing the existing list fills the array with the first position of every identity |
| HashedMerge.Locate | query_modules/convert.c:702-723 | the probe for a new item finds the position the linear search finds, and the table then indexes the merged list |
| HashedMerge.MergeOne | query_modules/convert.c:688-728 | one new item through the table gives what the linear search gives, and the table still indexes the list |
| HashedMerge.MergeThroughTable | query_modules/convert.c:671-729 | a fresh table, filled with the existing items and used for all new ones, gives the list of the plain merge |
| HashedMerge.MergeListsSmall | query_modules/convert.c:671-729 | the 64-slot merge gives the list of the plain merge |
| HashedMerge.MergeListsHashed | query_modules/convert.c:733-811 | so does the merge that picks the small table or a heap table by the number of existing items |
| HashedMerge.MergeKey | query_modules/convert.c:813-852 | one key of the source: lists are merged, a new key is taken over, everything else stays |
| HashedMerge.MergeTreesHashed | query_modules/convert.c:813-852 | merging two maps key by key, in any order of the keys, gives the plain merge |
| PathTrees.BuildShows | query_modules/convert.c:855-923 | a node shows its included properties with the vertex's own values, its label or its labels in order, its id and its relationship list, in this order of precedence, and nothing else |
| PathTrees.ChildShows | query_modules/convert.c:1002-1040 | a child shows what its node does; under keys still free the edge's id and its included properties with the edge's own values, prefixed by relationship and dot; and nothing else |
| PathTrees.LowerCase | query_modules/convert.c:129-145 | the loop lowers the string character by character |
| PathTrees.RelKeyMeans | query_modules/convert.c:129-145 | the relationship key is the type, with 'A' to 'Z' shifted to lower case if that is asked for and every other character unchanged |
| PathTrees.BuildWalks | query_modules/convert.c:927-1093 | the tree of a path has exactly the prefixes of the path, up to its first taken key, as walks |
| PathTrees.PathKeptIff | query_modules/convert.c:1044-1093 | the whole path is a walk of its tree if and only if no relationship key on it is already a key of its start node and no property hides the id of a later node, unless the property that takes a key is a list of maps with the rest of the walk in it |
| PathTrees.TakenKeyExample | query_modules/convert.c:1044-1093 | a relationship called like a property of its start node is lost with everything behind it |
| PathTrees.HiddenIdExample | query_modules/convert.c:1044-1093 | a node with a property `_id` is found under that id and not under its own |
| PathTrees.MergeTreesTree | query_modules/convert.c:813-852 | merging two trees gives a tree |
| PathTrees.MergeTreesWalks | query_modules/convert.c:813-852 | the walks of a merge are exactly the walks of both trees |
| ToTree.RunsFit | query_modules/convert.c:1181-1245 | if no property holds a list with two identities, no probe of the whole run meets a full table without its key |
| ToTree.FullTableExample | query_modules/convert.c:671-729 | two paths over parallel edges that each list 33 maps do not fit, and a probe of the merge of these lists never stops |
| ToTree.PathsMeans | query_modules/convert.c:1181-1191 | elements that are no path are skipped, and the paths are taken in order |
| ToTree.RootsInOrder | query_modules/convert.c:1204-1221 | the roots come in the order of their first paths, each once |
| ToTree.RootTreeNext | query_modules/convert.c:1223-1245 | one more path changes the tree of its root alone: it becomes the first tree or is merged into the one there is |
| ToTree.ResultMeans | query_modules/convert.c:1247-1310 | the value returned is the empty map for no path, the tree of the only root, or the list of the trees of the first sixteen roots in order |
| ToTree.ResultShows | query_modules/convert.c:1181-1310 | each tree of the value returned shows its root's id, and its walks are exactly those of the paths from that root |
| ToTree.RootsAreFirst16 | query_modules/convert.c:1212-1221 | of the roots at which some path starts, in order of first appearance, the first sixteen are kept, and all of them if and only if there are no more |
| ToTree.RunKeepsExactlyTheWalks | query_modules/convert.c:1181-1245 | for every list of paths, the walks of a kept root's tree are exactly the prefixes of the paths from that root, each up to its first taken key |
| ToTree.CleanRunKeepsAllWalks | query_modules/convert.c:1181-1245 | without name clashes these are all prefixes |
| ToTree.FindGroup | query_modules/convert.c:1203-1210 | the linear search finds the root's group or its absence |
| ToTree.AddPath | query_modules/convert.c:1187-1244 | one path joins its group, opens one, or is skipped when sixteen are open; the arrays hold the first roots with the merge of their paths |
| ToTree.ConvertList | query_modules/convert.c:1176-1310 | the list loop returns the empty map for no path, the tree of the only root, or the list of the trees of the first sixteen roots in order of first appearance |
| ToTree.ConvertLaws | query_modules/convert.c:1102-1318 | null converts like the empty list, a path like the list of it alone, a list like the list of its paths, and any other value comes back unchanged |
| OrderFree.MergeTreesAt | query_modules/convert.c:813-852 | a merge holds at every walk the fields of the target laid over those of the source |
| OrderFree.RunAt | query_modules/convert.c:1223-1244 | a root's tree holds at every walk the fields its paths show there, earlier paths over later ones, and nothing elsewhere |
| OrderFree.SameAtSameTree | query_modules/convert.c:813-852 | trees that hold the same at every walk are the same up to the order of siblings |
| OrderFree.SameTreeSameAt | query_modules/convert.c:813-852 | and trees that are the same up to the order of siblings hold the same at every walk |
| OrderFree.MergeLaws | query_modules/convert.c:813-852 | up to the order of siblings merging is associative and idempotent, and commutative if and only if, at every walk of both trees, the nodes have no key with different values and the same metadata keys |
| PathOrder.RunsAgree | query_modules/convert.c:1181-1245 | two runs over the same consistent paths, in any order and with any repetition, give the same tree up to the order of siblings |
| PathOrder.OrderIrrelevantIff | query_modules/convert.c:1181-1245 | every order and repetition of the paths gives a root the same tree if and only if any two paths that share a walk show no different values at its end |
| PathOrder.SingleEdgesAgree | query_modules/convert.c:1181-1245 | with one edge per parent, type and child the order is irrelevant |
| PathOrder.ParallelEdgesMatter | query_modules/convert.c:1181-1245 | two paths that reach the end of a shared walk through different edges make it matter, unless the node has a property called like the edge's id field |
| PathOrder.ParallelEdgesDoNotCommute | query_modules/convert.c:813-852 | merging the trees of two such paths gives different trees by order |
| PathOrder.ParallelPathsExample | query_modules/convert.c:1181-1245 | two edges of one type between two nodes give different trees by the order of their paths |
| SiblingOrder.MergeKeepsDistinct | query_modules/convert.c:671-852 | merging keeps siblings of different identity at every depth |
| SiblingOrder.RunKeepsDistinct | query_modules/convert.c:1181-1245 | in every run no two siblings under a relationship key share an identity, at any depth |
| SiblingOrder.MergeChildren | query_modules/convert.c:671-852 | the children at a walk after a merge are those of the target, then the new ones of the source, in order |
| SiblingOrder.FirstSeenMembers | query_modules/convert.c:1181-1245 | the reference order lists every id some path mentions, once |
| SiblingOrder.RunChildrenInOrder | query_modules/convert.c:1181-1245 | the children at every walk of a result come in order of first mention in the input |
| GraphView.CreateNodeEffect | include/mg_graph.hpp:172-186 | a node is created if and only if its Memgraph id is new; it stands for that id and has no neighbours, and nothing else changes |
| GraphView.CreateEdgeEffect | include/mg_graph.hpp:203-241 | an edge is created if and only if both ends are nodes and its id is unused: exactly one edge, from the node that maps back to the first id to the one that maps back to the second, under the given id or the old edge count, seen by the ends its type says; every earlier edge and id stays |
| GraphView.CreateNodeKeeps | include/mg_graph.hpp:172-186 | creating a node keeps all structures in agreement |
| GraphView.CreateEdgeKeeps | include/mg_graph.hpp:203-240 | so does creating an edge, of any type, weighted or not, parallel or a loop |
| GraphView.ExistingMeans | include/mg_graph.hpp:247-255 | exactly the edges not marked as erased, each once, in order of id |
| GraphView.ScanMeans | include/mg_graph.hpp:71-81 | exactly the ids of the edges not marked as erased that join the two nodes in either direction, increasing |
| GraphView.BetweenIsScan | include/mg_graph.hpp:71-81 | the multimap lookup equals a scan of the live edges in either direction |
| GraphView.WeightsLineUpIff | include/mg_graph.hpp:157-162 | there is a weight for every edge id if and only if every edge was created with one, and it is then that edge's |
| GraphCounts.HandshakeLemma | include/mg_graph.hpp:203-240 | degrees add up to twice the live edges of an undirected view, once those of a directed one |
| GraphCounts.EveryEdgeOncePerEnd | include/mg_graph.hpp:203-240 | over all adjacency lists a live edge id occurs once per end, twice if undirected, and an erased one never |
| GraphCounts.InIsTransposeOfOut | include/mg_graph.hpp:203-240 | directed in-neighbours are exactly the transposed out-neighbours |
| GraphCounts.UndirectedIsSymmetric | include/mg_graph.hpp:203-240 | undirected neighbour lists are symmetric |
| GraphErase.FindsFirstLead | include/mg_graph.hpp:293-306 | the adjacency loop stops at the first live edge to the other node |
| GraphErase.EraseMarks | include/mg_graph.hpp:278-320 | in every view, erasing between two nodes marks the first live edge in each direction and no other |
| GraphErase.LoopErased | include/mg_graph.hpp:278-320 | erasing between a node and itself marks and unlists its first two entries |
| GraphErase.EraseMeans | include/mg_graph.hpp:278-320 | whatever the nodes and the edge found, every neighbour list loses exactly the entries of the edge found, and the adjacency lists those of the edges marked |
| GraphErase.EraseAgreesIff | include/mg_graph.hpp:278-320 | for every view, directed or not, with parallel edges and self-loops: all structures agree afterwards if and only if the edge the lookup gave is the first live one in each direction in which there is one, or, between a node and itself, its first two entries |
| GraphErase.EraseSafeIff | include/mg_graph.hpp:278-320 | all structures agree after erasing, whatever the lookup gives, if and only if no live edge joins the two nodes or at most one edge was ever created between them; for a node and itself, if it has no entries or its only self-loop ever holds the first two |
| GraphErase.StaleEntry | include/mg_graph.hpp:308-319 | otherwise the neighbour list keeps an entry of the edge just erased |
| GraphRuns.RunAgrees | include/mg_graph.hpp:172-320 | every run of creations of any kind, and of erasures that meet that condition, keeps all structures in agreement |
| GraphRuns.SafeRunAgrees | include/mg_graph.hpp:172-320 | so does every run whose erasures meet the condition that can be checked before the call, for every choice of the lookups |
| GraphRuns.OnceRunAgrees | include/mg_graph.hpp:172-320 | every run without self-loops that uses each pair of nodes at most once, directed or not, keeps them in agreement with no condition on its erasures |
| GraphRuns.EraseTakesExactlyOne | include/mg_graph.hpp:247-320 | there, erasing removes exactly that edge from the existing edges, the lists and the lookup, leaves every other pair alone, and does nothing the second time |
| GraphRuns.EraseNothing | include/mg_graph.hpp:278-320 | erasing between two nodes without a live edge changes nothing |
| GraphRuns.ParallelEdgesExample | include/mg_graph.hpp:278-320 | a run of two nodes, two edges between them and one erasure after which erasing again breaks the agreement |
| GraphObject.Graph.constructor | include/mg_graph.hpp:45-45 | a new view is the empty state, in agreement |
| GraphObject.Graph.CreateNode | include/mg_graph.hpp:172-186 | the method carries the fields to the specified state and keeps the agreement |
| GraphObject.Graph.InnerNodeId | include/mg_graph.hpp:339-348 | the node found maps back to the Memgraph id, none is found only if no node does, and only a transactional view throws then |
| GraphObject.Graph.Store | include/mg_graph.hpp:222-238 | all updates of a new edge give the specified state |
| GraphObject.Graph.CreateEdge | include/mg_graph.hpp:203-240 | the method, its refusals and its exception as specified, keeping the agreement |
| GraphObject.Graph.ExistingEdges | include/mg_graph.hpp:247-255 | the loop collects the live edges in order |
| GraphObject.Graph.GetEdgesBetweenNodes | include/mg_graph.hpp:71-81 | the loop over the multimap entries gives the scan of the edge vector |
| GraphObject.Graph.EraseFrom | include/mg_graph.hpp:293-299 | one adjacency loop marks and removes the first edge to the other node |
| GraphObject.Graph.EraseNeighbour | include/mg_graph.hpp:308-313 | one neighbour loop removes the first entry of the edge id |
| GraphObject.Graph.FindEntry | include/mg_graph.hpp:286-291 | some multimap entry of the pair, live or not, or none if there is none |
| GraphObject.Graph.EraseEdge | include/mg_graph.hpp:278-320 | the method with its exception carries the fields to the state specified for the edge its lookup gave |
| RandomTree.NoCycle | include/mg_generate.hpp:118-128 | a graph whose i-th edge joins node i + 1 to an earlier one has no cycle |
| RandomTree.ParentedIsTree | include/mg_generate.hpp:118-128 | such a graph is a tree: connected to node 0, one edge fewer than nodes, no cycle |
| RandomTree.NewNodes | include/mg_generate.hpp:37-37 | n nodes whose inner ids are their numbers |
| RandomTree.KeptMeans | include/mg_generate.hpp:38-38 | a pair is kept if and only if both its ends are nodes, in order |
| RandomTree.BuildGraph | include/mg_generate.hpp:33-41 | the view holds the given nodes and, in order, exactly the pairs whose ends are nodes |
| RandomTree.GenRandomTree | include/mg_generate.hpp:118-128 | for every outcome of the draws the view is consistent and, from one node on, a tree |
| SchemaAssert.SplitJoinIff | query_modules/schema.cpp:521-572 | splitting at the first ':' undoes joining if and only if the label has no ':' |
| SchemaAssert.DroppedIff | query_modules/schema.cpp:562-583 | an existing item is dropped if and only if its joined name was not asked for and its label has no ':' |
| SchemaAssert.PairsConvergeIff | query_modules/schema.cpp:501-678 | the items of one kind end as asked for if and only if no existing item has a wanted joined name without being wanted and no unwanted one has a label with ':' |
| SchemaAssert.ColonFreeIsUnambiguous | query_modules/schema.cpp:501-678 | labels without ':' meet that condition |
| SchemaAssert.AssertMeans | query_modules/schema.cpp:816-828 | what the database holds afterwards, item by item and read off the request: with and without dropping, for label indices, property indices, existence and unique constraints |
| SchemaAssert.UniqueMeans | query_modules/schema.cpp:682-735 | a unique constraint is asked for if and only if some list for its label has at least one element, nothing but non-empty strings, and exactly its properties |
| SchemaAssert.AssertConvergesIff | query_modules/schema.cpp:816-828 | with dropping, from every database, the result is exactly what was asked for if and only if that condition holds and no empty list names a label index already there |
| SchemaAssert.ColonLabelStays | query_modules/schema.cpp:562-583 | an index whose label contains ':' stays when nothing is asked for |
| SchemaAssert.HiddenByAnother | query_modules/schema.cpp:443-454 | an index on `a` and `b:c` keeps one on `a:b` and `c` from being created |
| SchemaAssert.SecondRunIff | query_modules/schema.cpp:816-828 | from every database, converged or not, a second identical run changes nothing if and only if no property list of the index map is empty |
| SchemaAssert.EmptyListToggles | query_modules/schema.cpp:459-499 | an empty list leaves the label index exactly when there was none |
| SchemaAssert.AssertAddsIff | query_modules/schema.cpp:816-828 | without dropping, everything is kept and exactly what was asked for is added if and only if no existing item has the joined name of a wanted one that is not there |
| SchemaAssert.KeptMeans | query_modules/schema.cpp:816-828 | what is reported as kept, item by item and read off the request |
| SchemaAssert.KeptIsRequestedAndThere | query_modules/schema.cpp:433-454 | under the condition for convergence, what is reported "Kept" is exactly what was asked for and there |
| SchemaAssert.UnchangedMeansKept | query_modules/schema.cpp:433-454 | a faithful log of a run that changed nothing has only "Kept" records |
| SchemaSession.Session.KeepOrCreate | query_modules/schema.cpp:433-454 | an item known to exist is reported "Kept", any other is created, and the log stays a faithful edit script |
| SchemaSession.Session.CreateIndicesForLabel | query_modules/schema.cpp:459-499 | the loop over one label's list creates what it asks for and returns what it asserts |
| SchemaSession.Session.CreateIndices | query_modules/schema.cpp:525-545 | the loop over all labels, in any order, adds exactly the wanted label indices and the wanted pairs not yet listed, and returns what counts as asserted |
| SchemaSession.Session.DropAll | query_modules/schema.cpp:551-582 | dropping a set, in any order, removes exactly that set and reports each item that was there |
| SchemaSession.Session.ProcessIndices | query_modules/schema.cpp:501-583 | the indices end as specified and the log stays a faithful edit script |
| SchemaSession.Session.CreateExistenceForLabel | query_modules/schema.cpp:587-621 | the loop over one label's list of existence constraints |
| SchemaSession.Session.ProcessExistence | query_modules/schema.cpp:623-678 | the existence constraints end as specified and the log stays faithful |
| SchemaSession.Session.CreateUniqueForLabel | query_modules/schema.cpp:682-735 | the loop over one label's lists of unique constraints |
| SchemaSession.Session.ProcessUnique | query_modules/schema.cpp:737-814 | the unique constraints end as specified and the log stays faithful |
| SchemaSession.Session.Assert | query_modules/schema.cpp:816-828 | the database ends as specified; the final state is the initial one with what was "Created" and without what was "Dropped", nothing is reported twice or both; "Kept" are exactly the wanted items whose name or label index was there; and a run that changes nothing, as every repeated run with dropping and without empty lists, reports only "Kept" |
| SchemaScan.AnyOf | query_modules/schema.cpp:166-173 | the search over the labels, in any order, finds a listed one if and only if there is one |
| SchemaScan.CheckLabels | query_modules/schema.cpp:165-174 | a label set passes if and only if it has an included label, when any is asked for, and no excluded one |
| SchemaScan.AcceptedMeans | query_modules/schema.cpp:228-256 | a node is let through if and only if its labels and the relationships within the limit meet the caller's four lists, one by one |
| SchemaScan.CheckRels | query_modules/schema.cpp:234-255 | the loop with its bound and early exit accepts a node if and only if one of the relationships looked at is included and none is excluded |
| SchemaScan.CountersMean | query_modules/schema.cpp:268-276 | the counters hold how many nodes carry a property and exactly the types seen |
| SchemaScan.CountIsAllIff | query_modules/schema.cpp:293-293 | a count equals the number of nodes if and only if every node carries the property |
| SchemaScan.AddProps | query_modules/schema.cpp:268-276 | the loop over a node's properties, in any order, adds the node to the counters |
| SchemaScan.TakeNode | query_modules/schema.cpp:257-276 | past the sample size a node is counted but its properties are not |
| SchemaScan.ScanNodes | query_modules/schema.cpp:224-277 | the scan groups the accepted nodes by exact label set and aggregates the first of each group up to the sample size |
| SchemaScan.ReportedIsDeserved | query_modules/schema.cpp:279-301 | a row computed from the counters is reported if and only if the sampled nodes themselves deserve it |
| SchemaScan.DeservedIsDue | query_modules/schema.cpp:224-301 | the rows stated on the nodes alone: a node counts if it is let through and fewer than the sample before it with its label set were |
| SchemaScan.Report | query_modules/schema.cpp:279-301 | the loops over the groups and their properties give each row once, and a row without property for a group without any |
| SchemaScan.NodeTypeProperties | query_modules/schema.cpp:206-307 | an error for a sample below -1; else each due row once: for every label set with a counted node, each property one of them has, mandatory if and only if all of them have it, with exactly the types they give it, or one empty row |
| MockLabels.SplitJoined | include/_mgp_mock.py:176-178 | splitting undoes joining |
| MockLabels.JoinedSplit | include/_mgp_mock.py:176-178 | joining undoes splitting |
| MockLabels.AddedAppends | include/_mgp_mock.py:180-184 | adding a label appends its parts to the list; exactly one entry if and only if it has no ':' |
| MockLabels.ReplaceMeans | include/_mgp_mock.py:191-198 | a string without the pattern stays; else its first occurrence is replaced and the search goes on behind it |
| MockLabels.RemovedMeans | include/_mgp_mock.py:186-198 | on every string and label without a newline: label and colon go from the front, else colon and label from the end, else the label from between colons |
| MockLabels.RemoveFirst | include/_mgp_mock.py:191-193 | the prefix branch removes the first label |
| MockLabels.RemoveLast | include/_mgp_mock.py:194-196 | the suffix branch removes the last label |
| MockLabels.RemoveInside | include/_mgp_mock.py:197-198 | the middle branch removes the label between others, except that the label behind a removed one is passed over |
| MockLabels.RemoveMeans | include/_mgp_mock.py:186-198 | on every list of labels free of ':' and newline, repeated or not, exactly the list that is left |
| MockLabels.RemoveLabelIff | include/_mgp_mock.py:186-198 | on labels free of ':' and newline, the result is the list without the label, order kept, if and only if the label is nowhere but at one end, or only in between and never twice in a row; for different labels, if and only if it is not the only one |
| MockLabels.OnlyLabelExample | include/_mgp_mock.py:186-198 | the only label of a vertex stays |
| MockLabels.Vertex.Labels | include/_mgp_mock.py:176-178 | the labels have no colon in them and, joined by colons, are the string |
| MockLabels.Vertex.AddLabel | include/_mgp_mock.py:180-184 | a frozen graph raises and keeps its string; otherwise the list of labels gains exactly the label, or its parts if it has colons |
| MockLabels.Vertex.RemoveLabel | include/_mgp_mock.py:186-198 | a frozen graph raises and keeps its string; otherwise labels free of colon and newline become exactly the list that is left, which is the list without the label under the condition above |
| ConfigSections.File | config/generate.py:71-74 | closing a run adds it to the sections, or its flags to "other" if there are fewer than two |
| ConfigSections.ExtractSections | config/generate.py:61-85 | the walk files the runs of equal prefix: two or more flags make a section, all others go to "other" |
| ConfigSections.SectionsAreBlocks | config/generate.py:61-85 | the sections are exactly the blocks of two or more neighbouring flags with one prefix, in order, and "other" exactly the flags whose neighbours have other prefixes, in order |
| ConfigSections.SectionsPartition | config/generate.py:61-85 | the sections hold every flag as often as the names do, for all names |
| ConfigSections.ContiguousIff | config/generate.py:66-67 | sorting keeps flags of one prefix together if and only if there is no prefix that is itself a flag, with a flag going on with '_' and one going on with a character before '_' |
| ConfigSections.GroupedIff | config/generate.py:61-85 | every section holds all flags of its prefix and every flag in "other" is alone with its prefix, if and only if there are no such three flags |
| ConfigSections.SharedIsSection | config/generate.py:61-85 | every prefix shared by two or more flags is then a section of exactly those flags |
| ConfigSections.NamesDistinctIff | config/generate.py:81-81 | no two sections then have one name if and only if fewer than two flags start with "other" |
| ConfigSections.LowercaseGrouped | config/generate.py:61-85 | names of lowercase letters and '_' are always grouped |
| ConfigSections.WedgedExample | config/generate.py:66-67 | `a`, `aB` and `a_c` are sorted and break the grouping |
| ValueEquality.ListsEqual | include/mgp.hpp:2091-2105 | the loop decides whether the lists agree, integers read as doubles |
| ValueEquality.MapsEqual | include/mgp.hpp:2108-2126 | the loop gives up at the first item, so two maps are equal if and only if both are empty |
| ValueEquality.PathsEqual | include/mgp.hpp:2153-2171 | the loop decides whether all nodes and relationships have the same ids |
| ValueEquality.ValuesEqual | include/mgp.hpp:2206-2256 | two values are equal if and only if they are the same with integers turned into doubles and hold no map with items |
| ValueEquality.SameMeans | include/mgp.hpp:2206-2256 | numbers are compared as doubles, lists element by element, all else by kind and content, and maps only if both are empty |
| ValueEquality.SameIsEquivalence | include/mgp.hpp:2206-2256 | equality is symmetric and transitive, and a value equals its copy if and only if it holds no map with items |
| ValueEquality.FilledMapExample | include/mgp.hpp:2108-2126 | a map with one item does not equal itself |
| ValueEquality.EqualsHashAlike | include/mgp.hpp:5744-5791 | equal values have equal hashes, whatever the hashes of the basic types and the rounding of integers |
| ValueEquality.CollectionHashes | include/mgp.hpp:2021-2035 | each element of a list, and each key of a map, is mixed in after a 64-bit product with the FNV prime, in order |
| ValueEquality.ListHashTells | include/mgp.hpp:2021-2035 | lists that differ in one element have equal hashes if and only if the two elements do |
| ValueEquality.MapHashTells | include/mgp.hpp:5698-5709 | the values of a map do not matter, and maps that differ in one key have equal hashes if and only if the two keys do |
| ValueEquality.PathHashIsList | include/mgp.hpp:5650-5670 | a path hashes like the list of its nodes and relationships in turn up to the last relationship but one, and its last node |
| ValueEquality.PathHashTells | include/mgp.hpp:5650-5670 | paths that differ in one of the ids mixed have equal hashes if and only if the two ids do |
| ValueEquality.LastStepUnhashed | include/mgp.hpp:5650-5670 | paths that differ only in the last relationship and the node it leaves have equal hashes |
| ValueEquality.FnvCollection | include/mgp.hpp:2021-2035 | the loop gives the hash of the list |
| ValueEquality.FnvKeys | include/mgp.hpp:5698-5709 | the loop gives the hash of a map, from its keys |
| ValueEquality.HashPath | include/mgp.hpp:5650-5670 | the loop gives the hash of the path |
| ValueEquality.HashValue | include/mgp.hpp:5744-5791 | the hash of every value without a path of length 0 |

## Left out

- Pointers in convert.c: trees are values, so sharing of maps, ownership, allocation failures and fixed-size string buffers are not modelled; the bucket table and the group arrays are arrays updated in place.
- Accessors on values of another type: `mgp_value_get_path` and `mgp_value_get_string` read without checking the type (src/query/procedure/mg_procedure_impl.cpp:1304-1321), so what the source reads from a list element that is no path, or from a `_type` element that is no string, is not determined; the model takes the branch for a refused access.
- Property filters of `to_tree` (query_modules/convert.c:209-564): a filter is a fixed predicate on label set or type and property name.
- HashedMerge.MergeListsHashed: requires that the identities fit the table, as the source's loop does not end otherwise (`HangsIff`).
- ToTree.RunKeepsExactlyTheWalks: requires that a node's taken keys depend on its id, as in one graph, that no property is called `_id`, that no edge field is called like a relationship key, and that no relationship is called `_id` or `_type`.
- PathOrder.OrderIrrelevantIff: covers labelled nodes without list-valued properties and without name clashes; children without a label have no identity and are listed once per path.
- Hashes of `_type` stand for the types themselves: two label lists with the same 64-bit hash are one identity, as in the source.
- `GetMemgraphNodeId`, `Clear` and the remaining getters of include/mg_graph.hpp: single lookups.
- In-neighbour lists keep erased edges: `EraseEdge` never touches them, and agreement is stated accordingly.
- GraphObject.Graph.CreateEdge: requires fewer edges than the largest 64-bit id, which the source uses as the mark of erased edges.
- Order of equal keys in `std::multimap`: `equal_range` gives entries in order of insertion, as the C++ standard requires, and `find` any entry of the key, as it allows.
- `GenRandomGraph`: its retry loop ends only with probability one.
- String views in schema.cpp that point into temporaries: strings are values.
- Failures of the database inside `assert`: creating succeeds if and only if the item is absent, dropping if and only if it is present.
- SchemaSession.Session.Assert: does not state the order of the records, which follows the iteration order of the request, nor how often an item asked for twice is reported "Kept".
- `rel_type_properties` and the rendering of rows (query_modules/schema.cpp:309-431): the same aggregation without the sample, and string building.
- MockLabels.Vertex.RemoveLabel: states the list of labels only for labels free of colon and newline; the string is stated for all.
- Python's `sorted`: `ExtractSections` starts from the sorted names.
- Dates, times, durations, points and enums in include/mgp.hpp: their comparison is in a C API that is not part of this model.
- NaN, infinities and signed zero: doubles are real numbers and the conversion from integers is an arbitrary function.
- ValueEquality.HashValue: requires paths of length one or more; the source's loop bound underflows on length 0.
- query_modules/nxalg.py, graph_analyzer.py, text_search_module.cpp, vector_search_module.cpp, convert.cpp and date.py: calls into libraries.
