# Logic trees: construction, validation, path enumeration, sampling and joining

This project models the core of the `logicTree` Java library. The library holds
seismic-hazard logic trees: each node carries a `LogicTreeNode` record with a
branch identifier, an uncertainty type and model, a weight and three
"apply to" attributes. The model covers:

- the generic `Tree<T>` with its pre-order walk and leaf search (`src/tree/Tree.java`);
- the node record and its equality (`src/parser/LogicTreeNode.java`);
- the path object and its weight (`src/processor/LogicTreePath.java`);
- the parser's tree building: the empty root set by the constructor and
  `parseLogicTreeBranchSet`, which hangs the branches of a branch set under
  the current leaves that `applyToBranches` selects
  (`src/parser/LogicTreeParser.java`);
- the utilities in `src/utils/LogicTreeUtils.java`: the weight check, the
  enumeration of all root-to-leaf paths, weighted random sampling of paths,
  and the join of several trees into one.

## How the model is built

- **Nodes.** Java `Node<T>` objects are the cells of a node store
  (`Trees.Cell`). A node reference is an index into the store, and a node's
  children are a sequence of references.
  - Sharing of Node objects is kept exact. In particular, `joinTrees` hangs one
    root object under many leaves, and the model does the same.
  - Every store is `WellFormed`: each child index is larger than its parent's
    index. Every operation here keeps this invariant, and it makes every walk finite.
- **Trees and paths.** `Tree` and `LogicTreePath` are classes whose methods
  update their fields. The path computations whose Java code works step by
  step (`computeAllLogicTreePaths`, `sampleChild`, `sampleLogicTreePath`,
  `sampleLogicTreePaths`, `hasValidWeights`, `joinTrees`) are methods with
  loops or recursion. Each one is proved against a specification function:
  `AllPaths`, `ChildFor`, `SampleFrom`, `SamplePaths`, `ValidWeights` or
  `Joined`. The lemmas then prove the properties of those functions.
- **Weights.** Weights are Dafny `real` numbers. Java `double` equality
  (`weigth != 1.0`, `pathWeight == other.pathWeight`) becomes real equality.
  Products are taken in the same left-to-right order as the Java code.
- **Randomness.** `java.util.Random` is a `DrawStream`: a fixed sequence of
  values that successive `nextDouble()` calls return, plus the number already
  taken.
- **Null dereferences become `None`.** In `sampleChild`, no running total may
  reach the draw; the method then returns `null`, and `sampleLogicTreePath`
  dereferences it. In the model that case is `None` and propagates up to
  `SampleLogicTreePaths`. The lemma `SamplePathsSucceed` shows it cannot happen
  when the weights are valid and every draw is below 1.

### Behaviours of the code that the model keeps

- **Empty `applyToBranches`.** The comment above the leaf loop
  (`LogicTreeParser.java:222-226`) says a leaf receives the new nodes when
  `applyToBranches` is empty, and the class comment
  (`LogicTreeParser.java:38-41`) gives `ALL` as the default. The test itself
  (`LogicTreeParser.java:253-254`) only looks for `"ALL"` or the leaf's own
  identifier, so an empty or absent `applyToBranches` selects no leaf:
  `AttachWithoutIdentifiers` proves that such a branch set leaves the tree
  unchanged. The builder follows the code; the commented behaviour is
  `AttachWithDefault` (see Findings). An absent attribute is taken to reach
  the builder absent: a schema default that the XML reader might fill in is
  not part of this model.
- **Weight check.** The sum is compared with exactly 1.0, with no tolerance.
- **Uncovered draw in `sampleChild`.** When no running total reaches the draw,
  `sampleChild` returns null; no child is chosen in that case.
- **Root weight in sampled paths.** The weight of a sampled path starts at 1
  and does not include the root node's weight. An enumerated path's weight
  does include it. The two agree for a parsed tree, whose root weight is 1
  (`SampledPathsAreEnumerated`).
- **`joinTrees` copies nothing.** It hangs the same root object under every
  leaf. From a third tree on, a leaf of the second tree is reached along
  several routes, so it is listed several times and gains the same child
  several times (see Findings).

## Model

| member | source | states |
|---|---|---|
| LogicTreeNodes.EmptyNode | src/parser/LogicTreeNode.java:13-21 | the default node has empty strings in its six text fields and weight 1.0 |
| LogicTreeNodes.ConstructorStoresArguments | src/parser/LogicTreeNode.java:23-62 | each getter returns the argument the seven-argument constructor was given |
| LogicTreeNodes.Equals | src/parser/LogicTreeNode.java:73-89 | the field-by-field equals holds exactly when the two records are identical |
| LogicTreeNodes.EqualsReflexiveAndSymmetric | src/parser/LogicTreeNode.java:73-89 | every node equals itself, and equals gives the same answer in both argument orders |
| LogicTreeNodes.EqualsSeesBranchIdAndWeight | src/parser/LogicTreeNode.java:81-84 | nodes that differ only in branch identifier, or only in weight, are not equal |
| LogicTreePaths.ProductAppend | src/processor/LogicTreePath.java:26-29 | the weight of a concatenated node list is the product of the weights of its parts |
| LogicTreePaths.ProductNonNegative | src/processor/LogicTreePath.java:26-29 | with non-negative node weights a path weight is non-negative |
| LogicTreePaths.PathEquals | src/processor/LogicTreePath.java:31-42 | path equality (element-wise node equals and equal weights) holds exactly when the two path values are identical |
| LogicTreePaths.LogicTreePath.constructor | src/processor/LogicTreePath.java:13-16 | the new path holds the given node list and weight |
| LogicTreePaths.LogicTreePath.AddNode | src/processor/LogicTreePath.java:26-29 | the node is appended, the weight is multiplied by the node's weight, and a weight that was the product of the nodes stays the product |
| LogicTreePaths.LogicTreePath.Equals | src/processor/LogicTreePath.java:31-42 | two path objects are equal exactly when their node lists and weights are equal |
| Trees.Tree.constructor | src/tree/Tree.java:24-26 | a new tree has no root element and no nodes |
| Trees.Tree.SetRootElement | src/tree/Tree.java:43-45 | the root becomes the given node and no node changes |
| Trees.Tree.NewNode | src/parser/LogicTreeParser.java:249-250 | a new node holds the data and has no children; every existing node is unchanged |
| Trees.Tree.AddChild | src/parser/LogicTreeParser.java:255 | the child is appended to the parent's children; every other node is unchanged and the store stays well formed |
| Trees.Tree.Graft | src/utils/LogicTreeUtils.java:159-165 | the nodes of another tree become reachable in this one, with their data and children kept (moved after the existing nodes) |
| Trees.Tree.Walk | src/tree/Tree.java:80-85 | appends to the list the node, then each child's walk in children order (the pre-order walk) |
| Trees.Tree.ToList | src/tree/Tree.java:53-57 | the list is the pre-order walk from the root and starts with the root |
| Trees.Tree.GetLeafNodes | src/tree/Tree.java:90-98 | the leaf list is the walk filtered for nodes without children, in walk order; a node is in it exactly when the walk reaches it and it has no children |
| Trees.PreOrder | src/tree/Tree.java:80-85 | the walk starts at its root and lists only nodes created at or after the root |
| Trees.PreOrderDistinct | src/tree/Tree.java:80-85 | when no node has two parents, the walk lists each node once |
| Trees.WalkTransitive | src/tree/Tree.java:80-85 | a walk that reaches a node also reaches every node the walk from that node reaches |
| Trees.ConnectedReached | src/tree/Tree.java:80-85 | when every node hangs under an earlier one, the walk from the first node reaches every node |
| Trees.WalkListsEveryCell | src/tree/Tree.java:53-57 | when every node hangs under an earlier one and none has two parents, the walk from the first node lists every node exactly once, so its length is the node count |
| Trees.LeafFilterMembership | src/tree/Tree.java:92-96 | the filter keeps exactly the listed nodes without children |
| Trees.LeafFilterSubsequence | src/tree/Tree.java:92-96 | the leaves keep the relative order they have in the walk |
| Trees.LeavesListedOnce | src/tree/Tree.java:90-98 | when no node has two parents, each leaf is listed once |
| Trees.LeafFilterOfPreOrder | src/tree/Tree.java:90-98 | filtering the walk gives the leaves in the order of the tree's structure |
| Trees.LeavesOfMembership | src/tree/Tree.java:90-98 | the structural leaves are exactly the walked nodes without children |
| Trees.LeavesAfterGrowth | src/parser/LogicTreeParser.java:227-258 | when only old leaves gain new childless nodes, the new leaf list is the old one with each grown leaf replaced by its new children |
| Trees.AttachAllCell | src/utils/LogicTreeUtils.java:164-166 | after the inner join loop each node keeps its data and children and gains the child once for each time it is listed |
| Trees.AttachAllWellFormed | src/utils/LogicTreeUtils.java:164-166 | attaching a node created after every parent keeps the store well formed |
| Trees.AddLeafNoSharing | src/parser/LogicTreeParser.java:249-255 | hanging a new node under one parent gives no node two parents |
| LogicTreeParser.AttributeOrEmpty | src/parser/LogicTreeParser.java:198-214 | an absent attribute reads as the empty string, a present one as its value |
| LogicTreeParser.TokenLength | src/parser/LogicTreeParser.java:217-220 | the first token runs up to the first delimiter, which is space, tab, newline, carriage return or form feed |
| LogicTreeParser.Tokens | src/parser/LogicTreeParser.java:217-220 | every token is non-empty and holds no delimiter |
| LogicTreeParser.ScanToken | src/parser/LogicTreeParser.java:217-220 | the scan stops at the end of the token that starts at the given position |
| LogicTreeParser.Tokenize | src/parser/LogicTreeParser.java:216-220 | the tokenizer loop collects every token of the attribute, in order |
| LogicTreeParser.TokensOfJoinTokens | src/parser/LogicTreeParser.java:216-220 | splitting identifiers written with single spaces gives the identifiers back |
| LogicTreeParser.NoTokensInBlank | src/parser/LogicTreeParser.java:216-220 | an empty or blank attribute yields no identifiers |
| LogicTreeParser.ChildNode | src/parser/LogicTreeParser.java:234-247 | the node made for a branch carries the branch's identifier, model and weight and the branch set's type and apply-to attributes |
| LogicTreeParser.ChildNodes | src/parser/LogicTreeParser.java:231-247 | one node per branch, in branch order |
| LogicTreeParser.AddBranches | src/parser/LogicTreeParser.java:231-257 | the branch nodes become new childless nodes hung in order under the leaf; all other children lists are unchanged |
| LogicTreeParser.TargetedLeaves | src/parser/LogicTreeParser.java:253-254 | a leaf is targeted exactly when it is in the leaf list and the identifiers contain "ALL" or its branch identifier |
| LogicTreeParser.Attach | src/parser/LogicTreeParser.java:227-258 | parsing a branch set keeps the store well formed, adds nodes and changes no node's data |
| LogicTreeParser.AttachNoSharing | src/parser/LogicTreeParser.java:227-258 | parsing a branch set gives no node two parents |
| LogicTreeParser.AttachShape | src/parser/LogicTreeParser.java:227-258 | each targeted leaf gains one new leaf per branch, in branch order, holding that branch's node; every other node keeps its data and children |
| LogicTreeParser.AttachGrowsExactlyTargeted | src/parser/LogicTreeParser.java:253-256 | a leaf gains children exactly when the identifiers contain "ALL" or its branch identifier and the branch set has branches |
| LogicTreeParser.AttachWithoutIdentifiers | src/parser/LogicTreeParser.java:198-204 | a branch set without identifiers in applyToBranches (absent or blank) changes nothing |
| LogicTreeParser.LeavesAfterAttach | src/parser/LogicTreeParser.java:227-258 | the leaves afterwards are the old leaves with each extended one replaced by its new children |
| LogicTreeParser.LeafCountAfterAttach | src/parser/LogicTreeParser.java:227-258 | with B > 0 branches and T targeted leaves, the leaf count grows by T * (B - 1) |
| LogicTreeParser.AllTargetsEveryLeaf | src/parser/LogicTreeParser.java:253 | with "ALL" every leaf is targeted |
| LogicTreeParser.ApplyBranchSetsNoSharing | src/parser/LogicTreeParser.java:177-186 | branch sets parsed one after another never give a node two parents |
| LogicTreeParser.Build | src/parser/LogicTreeParser.java:112-114 | the built tree is well formed, shares no node, and its root keeps the empty node |
| LogicTreeParser.SymmetricLeafCount | src/parser/LogicTreeParser.java:227-258 | when every branch set applies to "ALL" and has branches, the leaf count is the product of the branch counts |
| LogicTreeParser.EighteenEndBranches | src_test/parser/LogicTreeParserTest.java:160-166 | branch sets of 2, 3 and 3 branches applied to "ALL" give 18 leaves |
| LogicTreeParser.BuiltTreeListsEveryNode | src/tree/Tree.java:53-57 | the toList walk of a built logic tree contains every node created for it, and its length is the node count |
| LogicTreeParser.WithDefaultTargets | src/parser/LogicTreeParser.java:38-41 | a branch set whose applyToBranches names no identifier reads as applying to "ALL"; any other branch set is unchanged, and the branches stay the same |
| LogicTreeParser.AttachWithDefault | src/parser/LogicTreeParser.java:222-226 | parsing a branch set with the default applied keeps the tree well formed and every existing node's data |
| LogicTreeParser.DefaultExtendsEveryLeaf | src/parser/LogicTreeParser.java:222-226 | with the default applied, a branch set without identifiers gives every leaf one child per branch, so L leaves become L * B |
| LogicTreeParser.LogicTreeParser.constructor | src/parser/LogicTreeParser.java:112-114 | a new builder's tree has one root node holding the empty node |
| LogicTreeParser.LogicTreeParser.ParseLogicTreeBranchSet | src/parser/LogicTreeParser.java:194-260 | the tree afterwards is `Attach` of the tree before, so every property above holds; the builder invariant (root at 0, no sharing) is kept |
| LogicTreeParser.LogicTreeParser.AddBranchNodes | src/parser/LogicTreeParser.java:230-257 | the loop over branches for one leaf: one new node per branch, hung under the leaf exactly when it is targeted |
| LogicTreeParser.LogicTreeParser.ParseBranchSets | src/parser/LogicTreeParser.java:177-186 | the branch sets are applied in document order, each to the leaves the earlier ones left |
| LogicTreeUtils.HasValidWeights | src/utils/LogicTreeUtils.java:20-36 | true exactly when every node reached by the walk that has children has children whose weights add up to exactly 1 |
| LogicTreeUtils.ChildWeightSum | src/utils/LogicTreeUtils.java:25-28 | the inner loop's total is the sum of the children's weights |
| LogicTreeUtils.ComputeAllLogicTreePaths | src/utils/LogicTreeUtils.java:43-50 | the result is every root-to-leaf path value in walk order (`AllPaths`); a tree without a root gives none |
| LogicTreeUtils.ComputeAllLogicTreePathsFrom | src/utils/LogicTreeUtils.java:55-84 | the recursion appends the paths below the node, prefixed by the buffer's first pathLen entries, and leaves those entries untouched |
| LogicTreeUtils.ComputeChildPaths | src/utils/LogicTreeUtils.java:79-81 | the loop over the children appends the paths below each child in turn |
| LogicTreeUtils.LeafPath | src/utils/LogicTreeUtils.java:70-77 | the recorded path is the first pathLen buffer entries with the product of their weights |
| LogicTreeUtils.AllPathsAreWeightedChains | src/utils/LogicTreeUtils.java:55-84 | every enumerated path value is the nodes of a root-to-leaf chain and their weight product |
| LogicTreeUtils.AllPathsComplete | src/utils/LogicTreeUtils.java:55-84 | every root-to-leaf chain appears among the enumerated path values |
| LogicTreeUtils.PathCountIsLeafCount | src/utils/LogicTreeUtils.java:55-84 | there are as many path values as entries in the leaf list |
| LogicTreeUtils.TotalPathWeight | src/utils/LogicTreeUtils.java:20-84 | with valid weights, the path weights add up to the root's weight |
| LogicTreeUtils.DrawStream.constructor | src_test/utils/LogicTreeUtilsTest.java:124-125 | a new stream starts at its first value |
| LogicTreeUtils.DrawStream.NextDouble | src/utils/LogicTreeUtils.java:141 | returns the next value of the stream and advances by one |
| LogicTreeUtils.SampleIndex | src/utils/LogicTreeUtils.java:142-149 | the chosen index is the first whose running total reaches the draw; none when no total does |
| LogicTreeUtils.SampleIndexCovers | src/utils/LogicTreeUtils.java:142-149 | a child is chosen whenever the draw does not exceed the total weight |
| LogicTreeUtils.SampleIndexInterval | src/utils/LogicTreeUtils.java:142-149 | with non-negative weights, index j is chosen exactly when the draw lies in its interval of the running totals |
| LogicTreeUtils.ChildFor | src/utils/LogicTreeUtils.java:130-151 | the chosen child is one of the children |
| LogicTreeUtils.SampleChild | src/utils/LogicTreeUtils.java:130-151 | copies children and weights into arrays, takes one draw, and returns the child chosen by the running totals (`ChildFor`), or none |
| LogicTreeUtils.SampleFromIsChain | src/utils/LogicTreeUtils.java:109-122 | a completed sample is a chain from the node down to a leaf |
| LogicTreeUtils.SampleFromSucceeds | src/utils/LogicTreeUtils.java:109-151 | with valid weights and every draw below 1, sampling never meets an uncovered draw |
| LogicTreeUtils.MultipliedIsProduct | src/processor/LogicTreePath.java:26-29 | multiplying weights onto w one at a time gives w times their product |
| LogicTreeUtils.SampleLogicTreePath | src/utils/LogicTreeUtils.java:109-122 | adds to the path the nodes `SampleFrom` chooses, multiplying their weights on; fails exactly where the source dereferences null |
| LogicTreeUtils.SampleRootPath | src/utils/LogicTreeUtils.java:95-101 | one round: a path starting at the root's node with weight 1, sampled down to a leaf |
| LogicTreeUtils.SampleLogicTreePaths | src/utils/LogicTreeUtils.java:89-104 | the result is the n sampled path values in draw order (`SamplePaths`), with the stream advanced by the draws they used |
| LogicTreeUtils.SamplePathsFailureStays | src/utils/LogicTreeUtils.java:94-102 | once a round fails, asking for more paths fails too |
| LogicTreeUtils.SampledPathsAreEnumerated | src_test/utils/LogicTreeUtilsTest.java:116-133 | with root weight 1, every sampled path value is one of the enumerated path values |
| LogicTreeUtils.SamplePathsSucceed | src/utils/LogicTreeUtils.java:89-151 | with valid weights and every draw below 1, all n rounds succeed |
| LogicTreeUtils.CrossLength | src_test/utils/LogicTreeUtilsTest.java:172-194 | combining path lists gives one path per pair |
| LogicTreeUtils.CrossMembers | src_test/utils/LogicTreeUtilsTest.java:172-194 | each combined path is a path of the first tree followed by a path of the second, weights multiplied |
| LogicTreeUtils.CrossComplete | src_test/utils/LogicTreeUtilsTest.java:172-194 | every pair of paths appears combined |
| LogicTreeUtils.JoinStepPaths | src/utils/LogicTreeUtils.java:163-166 | when every leaf below the root gains the moved root of the second store as its only child, the path values are those of the first followed by those of the second, in every combination |
| LogicTreeUtils.AttachedPaths | src/utils/LogicTreeUtils.java:163-166 | a join step over a leaf list that holds each leaf exactly once gives every combination of paths |
| LogicTreeUtils.JoinTwoTreesPaths | src/utils/LogicTreeUtils.java:156-169 | joining two trees, the first without shared nodes, yields every path of the first followed by every path of the second (weights multiplied), L1 * L2 paths in all |
| LogicTreeUtils.AddChildToAll | src/utils/LogicTreeUtils.java:164-166 | each listed leaf gains the child once per listing (`AttachAll`); the root is unchanged |
| LogicTreeUtils.JoinNext | src/utils/LogicTreeUtils.java:163-166 | one outer round: the leaf list of the tree so far, then the next tree's root hung under every entry |
| LogicTreeUtils.NewJoinedTree | src/utils/LogicTreeUtils.java:157-159 | the new tree's root is the first tree's root, with the first tree's nodes |
| LogicTreeUtils.JoinTrees | src/utils/LogicTreeUtils.java:156-169 | the result is a new tree rooted at the first tree's root whose nodes are `Joined` of all the trees |
| LogicTreeUtils.ThirdJoinDuplicates | src/utils/LogicTreeUtils.java:162-167 | joining a{b, c}, d and e gives d the children [e, e] and 4 paths where the trees have 2 combinations |
| LogicTreeUtils.JoinedOncePaths | src/utils/LogicTreeUtils.java:162-167 | hanging each later root once per distinct leaf gives exactly the combined path values of any number of trees |

## Left out

- XML reading (`parse`, the dom4j and schema set-up, file streams), `Double.valueOf` of the weight text, and the `config` element skipping. The builder receives branch sets already read.
- IEEE 754 rounding: weights are exact reals, so a sum of weights that misses 1.0 only through rounding is not modelled.
- `java.util.Random`: replaced by an arbitrary stream of draws. Its distribution and the statistical convergence test (LogicTreeUtilsTest 140-166) are not modelled.
- `hashCode` and `toString` of the node and path classes, and `SourceModelData`.
- The processor test is not part of this model.
- Trees.Tree.ToList: requires a root, because the source throws a NullPointerException on a rootless tree.
- LogicTreeUtils.HasValidWeights: requires a root, for the same reason.
- LogicTreeUtils.JoinTrees: requires a non-empty list of trees that all have roots. The source fails on an empty list at `trees.get(0)`, and a rootless tree followed by another tree makes the next leaf search dereference null and throw. Two rootless inputs that the source accepts are excluded as well: a list holding only a rootless tree (the source returns a rootless tree) and a rootless last tree (the source adds a null child under every leaf, line 165).
- LogicTreeUtils.JoinTrees: the nodes of each joined tree are copied into the result store. The mutation of the first tree's own Node objects, and the aliasing of nodes between input trees or of a tree passed twice, are not represented.
- LogicTreeUtils.SampleLogicTreePaths: when a round fails (a null dereference in the source), the model returns None. It does not describe the state of the half-built path or of the stream at that point.
- A branch node that the source creates for a leaf that is not targeted stays unreachable; the model creates no node in that case.
- Trees.Tree.AddChild: requires the child to be created after its parent. The source's addChild accepts any node, an ancestor included, so Node graphs with a cycle (the same tree passed twice to joinTrees makes one) or with a child older than its parent are not represented.
- The `Node<T>` class itself is not part of this model; its constructor and `addChild` are modelled through `Trees.Tree.NewNode` and `Trees.Tree.AddChild`.

## Findings

| source | as written | input that shows it | evidently intended | confidence | as-written member | corrected member |
|---|---|---|---|---|---|---|
| src/utils/LogicTreeUtils.java:162-167 | each later tree's root is added under every entry of the leaf list, and from the third tree on that list holds the shared leaves of the second tree once per route to them | trees a{b, c}, d and e: d is reached through b and through c, so d gains e twice and the joined tree has 4 paths | each combination of one path per tree appears once (2 paths here) | not executed | LogicTreeUtils.ThirdJoinDuplicates | LogicTreeUtils.JoinedOncePaths |
| src/parser/LogicTreeParser.java:253-254 | a leaf is extended only when applyToBranches contains "ALL" or the leaf's branchID, so an empty or absent applyToBranches extends no leaf | a branch set with two branches and no applyToBranches, parsed into the tree holding only its root: the root stays the only leaf | a branch set with an empty applyToBranches applies to every leaf (the comment at lines 222-226 and the default `ALL` at lines 38-41), giving the root two children here | not executed; holds only when the XML reader passes the attribute on empty or absent rather than filling in a default | LogicTreeParser.AttachWithoutIdentifiers | LogicTreeParser.DefaultExtendsEveryLeaf |
