# Voxel pathfinder search core, in Dafny

This project models the search core of a block-world (voxel) pathfinder
written in PHP. The core has four parts:

- **Node** (`node.dfy`, module `Nodes`) is a search vertex:
  - a block-centred position;
  - a spatial key computed once, from the floored coordinates;
  - the mutable A* bookkeeping `g`, `h` and parent, with F = g + h.
- **The entity-size rule** (`entity_size_rule.dfy`, module `EntitySize`):
  - a box of passable blocks around the body;
  - a full cube somewhere under its footprint;
  - a move to a target that cannot be stood on may snap the target down or up, within the step limits of the settings.
- **The rule chains** (`rule_chain.dfy`, module `RuleChain`):
  - a move or a place to stand is accepted iff every rule accepts, asked in list order; the first refusal ends the query;
  - the A* engine re-orders its rules once per search: one rule per (priority, class), the last one supplied wins, highest priority first.
- **The A\* engine** (`base_pathfinder.dfy`, module `AStar`):
  - an open map and a closed map of nodes, keyed by spatial key;
  - minimum-F selection;
  - expansion to the four horizontal neighbours through the walk chain;
  - best-so-far tracking by `h`;
  - reconstruction of the path along the parent links, with optional smoothing, then reversal.
- **The D\* Lite engine** (`dstar_lite.dfy`, module `DStar`):
  - `g` and `rhs` maps and a priority queue of (key, vertex) entries;
  - `calculateKey`, `updateVertex`, `calculateRHS` and a 12-direction neighbour filter;
  - `computeShortestPath`, and a greedy walk down `g` from the start.

`basics.dfy` (module `Basics`) holds the shared values:
- block cells (`Cell`) and continuous positions (`Vec`);
- flooring and block centres;
- costs with an explicit infinity (`Cost`), where infinity absorbs every addition;
- the three block flags the rules read;
- the settings.

The A* search is modelled on objects, because the source works that way: `Node` is a class whose `g`, `h`, `parentNode` and `y` are updated in place. `BasePathfinder` is a class whose `rules` and `openList` fields `findPath` reassigns.

The proofs about the search keep a ghost snapshot `view`, which maps every node the search has created to its position, key, g, h and parent. The predicate `Synced` ties the snapshot to the heap. `SearchState` states the invariant of the loop over the snapshot:
- the start and the inserted nodes form a forest rooted at the start, ranked so that every parent link decreases the rank (hence the reconstruction loop ends);
- every inserted node's parent is closed under its own key;
- every inserted node is one walk-chain move from its parent: it sits where the walk chain lands on one of the parent's four sides, its g is the parent's g plus that move's cost, and its h comes from the heuristic;
- open and closed hold nodes under their own keys and never share a key;
- `best` is the inserted node with the smallest h, and it exists iff something was inserted.

The D* Lite engine is a class whose `g`, `rhs`, `queue` and `km` fields its methods update. The queue is a sequence of entries; extraction takes the first entry with the smallest key. The invariant `Covered` says every vertex whose g and rhs disagree has an entry. `updateVertex` keeps it, and `computeShortestPath` restores it after each pop.

Two behaviours of the source are modelled as written:
- When the last link of the parent chain is not smoothed, the reconstruction adds the root twice. Without smoothing the returned path always starts with the root twice (`AStar.RootRepeated`).
- A rule snaps a neighbour's y after the node's key was computed. The node therefore keeps the key of the unsnapped block (`AStar.BasePathfinder.Candidate`).

## Model

| member | source | states |
|---|---|---|
| Basics.FloorCell | src/matze/pathfinder/node/Node.php:19-20 | the block of a position: each coordinate lies in [floor, floor + 1) |
| Basics.Center | src/matze/pathfinder/node/Node.php:56-58 | the block-centred position (+0.5 on x and z) lies in the block it is made from, at the block's y |
| Basics.Manhattan | src/matze/pathfinder/BasePathfinder.php:182-194 | calculateSimpleHeuristic and D* `h`: symmetric, non-negative, zero exactly for equal positions |
| Basics.Min | src/matze/pathfinder/DStarLite.php:31 | min of two costs: one of them, and at most both |
| Nodes.GetBlockXYZ | src/matze/pathfinder/node/Node.php:64-65 | getBlockXYZ inverts the key: the coordinate it returns packs back to the key, and it is the only one that does |
| Nodes.HashOf | src/matze/pathfinder/node/Node.php:19-20 | the constructor's key is the floored cell of the position |
| Nodes.Node.constructor | src/matze/pathfinder/node/Node.php:11-22 | a new node has the given position, the key of its floored cell, g infinite, h = 0 and no parent; the key is a constant |
| Nodes.Node.GetF | src/matze/pathfinder/node/Node.php:24-26 | F = g + h: finite exactly when g is, and then exceeds g by h |
| Nodes.Node.SetG | src/matze/pathfinder/node/Node.php:36-38 | sets g and may change nothing else |
| Nodes.Node.SetH | src/matze/pathfinder/node/Node.php:40-42 | sets h and may change nothing else |
| Nodes.Node.SetParentNode | src/matze/pathfinder/node/Node.php:48-50 | sets the parent and may change nothing else |
| Nodes.Node.FromVector3 | src/matze/pathfinder/node/Node.php:56-58 | a fresh node at the centre of the input's block, whose key is that block, with g infinite and no parent |
| Nodes.Node.FromHash | src/matze/pathfinder/node/Node.php:64-67 | the node made from a key has that key again (round trip), at the centre of its block |
| EntitySize.HasBlockBelow | src/matze/pathfinder/rule/default/EntitySizeRule.php:71-80 | true iff some block of the layer under the (2·halfWidth+1)² footprint is a full cube |
| EntitySize.IsAreaClear | src/matze/pathfinder/rule/default/EntitySizeRule.php:82-93 | true iff every block with dx, dz in [-halfWidth, halfWidth] and dy in [0, height] is replaceable or transparent |
| EntitySize.CouldStandAt | src/matze/pathfinder/rule/default/EntitySizeRule.php:67-69 | true iff supported from below and clear around the body |
| EntitySize.DownFromIsLeast | src/matze/pathfinder/rule/default/EntitySizeRule.php:36-48 | the step-down scan finds the smallest step d in [0, maxDown] that can be stood on with every level from the target down to it clear, or reports that none exists |
| EntitySize.UpFromIsLeast | src/matze/pathfinder/rule/default/EntitySizeRule.php:50-61 | the step-up scan finds the smallest step u in [1, maxUp] that can be stood on with the space above the current block clear up to u, or reports that none exists |
| EntitySize.WalkAdjustmentCases | src/matze/pathfinder/rule/default/EntitySizeRule.php:30-65 | couldWalkTo's four outcomes, each an iff: keep a standable target; else the least step down; else, with no step down, the least step up; else refuse |
| EntitySize.WalkAdjustmentBounds | src/matze/pathfinder/rule/default/EntitySizeRule.php:37-61 | a granted move shifts the target's y by 0, by -1..-maxDown or by 1..maxUp |
| EntitySize.CouldWalkTo | src/matze/pathfinder/rule/default/EntitySizeRule.php:30-65 | returns the decision of WalkAdjustmentCases; the target's y moves by the granted shift and is unchanged on refusal |
| RuleChain.RuleWalk | src/matze/pathfinder/rule/default/EntitySizeRule.php:30-65 | one rule's couldWalkTo moves the target only vertically; the entity-size rule never writes the cost, and keeps the target when it refuses |
| RuleChain.RuleStand | src/matze/pathfinder/rule/default/EntitySizeRule.php:67-69 | the entity-size rule's couldStandAt never writes the cost |
| RuleChain.CouldWalkTo | src/matze/pathfinder/BasePathfinder.php:37 | dispatch of couldWalkTo on the rule's class agrees with RuleWalk |
| RuleChain.CouldStandAt | src/matze/pathfinder/BasePathfinder.php:46 | dispatch of couldStandAt on the rule's class agrees with RuleStand |
| RuleChain.IsNicePositionToWalk | src/matze/pathfinder/BasePathfinder.php:35-42 | the loop returns the walk chain's verdict, target and cost |
| RuleChain.IsNicePositionToStand | src/matze/pathfinder/BasePathfinder.php:44-51 | the loop returns the stand chain's verdict and cost |
| RuleChain.WalkChainAppend | src/matze/pathfinder/BasePathfinder.php:35-42 | running rules a + b runs a, then b only if a accepted: a refusal is final and later rules are never consulted |
| RuleChain.StandChainAppend | src/matze/pathfinder/BasePathfinder.php:44-51 | the same short-circuit composition for the stand chain |
| RuleChain.WalkChainAllAccept | src/matze/pathfinder/BasePathfinder.php:35-42 | the walk chain accepts iff every rule accepts what the rules before it left |
| RuleChain.WalkChainRefusal | src/matze/pathfinder/BasePathfinder.php:36-39 | a refusing walk chain answers exactly what its first refusing rule answered |
| RuleChain.StandChainAllAccept | src/matze/pathfinder/BasePathfinder.php:44-51 | the stand chain accepts iff every rule accepts |
| RuleChain.IndexOfKey | src/matze/pathfinder/BasePathfinder.php:65 | the position of a key in the keyed table, or -1 iff absent |
| RuleChain.KeyRules | src/matze/pathfinder/BasePathfinder.php:63-66 | the foreach builds the keyed table of an ordered PHP array (a known key keeps its place and takes the new rule) |
| RuleChain.KeyedCollapses | src/matze/pathfinder/BasePathfinder.php:63-66 | the keyed table has distinct keys and holds exactly the last rule supplied under each key |
| RuleChain.LastWithKeyExists | src/matze/pathfinder/BasePathfinder.php:63-66 | every supplied key has a last rule |
| RuleChain.InsertByPriorityMultiset | src/matze/pathfinder/BasePathfinder.php:67 | inserting into the sorted list keeps every rule and adds the new one |
| RuleChain.InsertByPriorityMembers | src/matze/pathfinder/BasePathfinder.php:67 | an inserted list holds only the new rule and old rules |
| RuleChain.InsertByPrioritySorted | src/matze/pathfinder/BasePathfinder.php:67 | insertion keeps priority-descending order |
| RuleChain.InsertByPriorityDistinct | src/matze/pathfinder/BasePathfinder.php:67 | insertion of a new key keeps the keys distinct |
| RuleChain.SortByPriorityProps | src/matze/pathfinder/BasePathfinder.php:67 | the krsort is a permutation into priority-descending order that keeps keys distinct |
| RuleChain.SortRulesSpec | src/matze/pathfinder/BasePathfinder.php:63-68 | the stored rules: non-increasing priority, one per (priority, class), exactly the last rule supplied under each key, and every supplied key represented |
| DStar.StepCostProps | src/matze/pathfinder/DStarLite.php:90-103 | cost is symmetric and non-negative, zero only from a cell to itself; 1 for the four level offsets and 2 for the eight vertical ones |
| DStar.DirectionsDistinct | src/matze/pathfinder/DStarLite.php:96-103 | the twelve offsets are pairwise distinct |
| DStar.FilterSpec | src/matze/pathfinder/DStarLite.php:105-123 | the filter keeps exactly the accepted offsets, each once |
| DStar.NeighborsSpec | src/matze/pathfinder/DStarLite.php:94-126 | getNeighbors holds exactly the cells at the twelve offsets that pass the stand chain and the walk chain, each once |
| DStar.MinThroughIsMin | src/matze/pathfinder/DStarLite.php:74-88 | rhs is the minimum over the neighbours of g(n) + cost(u, n): a lower bound that some neighbour attains, infinite iff every neighbour's g is |
| DStar.MinThroughAgrees | src/matze/pathfinder/DStarLite.php:77-80 | the rhs fold reads g only at the neighbours: two g maps that agree there give the same rhs |
| DStar.RhsSameCosts | src/matze/pathfinder/DStarLite.php:77-80 | adding infinite g entries for unseen vertices changes no vertex's rhs |
| DStar.RhsAllInf | src/matze/pathfinder/DStarLite.php:74-88 | when every g is infinite, every rhs is infinite |
| DStar.LookAheadKept | src/matze/pathfinder/DStarLite.php:132-151 | with symmetric moves, changing g at u and recomputing rhs at every neighbour of u keeps rhs the one-step lookahead of g everywhere but the goal |
| DStar.MinIndex | src/matze/pathfinder/DStarLite.php:129-130 | the extracted entry has a key no other key lies below, and every earlier entry's key is strictly greater |
| DStar.WithoutSpec | src/matze/pathfinder/DStarLite.php:52-66 | the drained queue holds exactly the entries of other vertices |
| DStar.RequeueSpec | src/matze/pathfinder/DStarLite.php:52-71 | draining and re-queueing u: one entry for u iff g(u) != rhs(u), never two, other entries kept, coverage restored at u |
| DStar.BestOfIsMin | src/matze/pathfinder/DStarLite.php:189-202 | the walk's scan finds nothing iff every neighbour's g is infinite, else a neighbour with finite, smallest g |
| DStar.BestOfSameCosts | src/matze/pathfinder/DStarLite.php:192-195 | adding infinite g entries does not change the scan's choice |
| DStar.DStarLite.constructor | src/matze/pathfinder/DStarLite.php:15-28 | empty g, rhs and queue, km = 0 |
| DStar.DStarLite.CalculateKey | src/matze/pathfinder/DStarLite.php:30-33 | the key is (min(g, rhs) + h(start, u) + km, min(g, rhs)), missing entries read as infinity |
| DStar.DStarLite.GetNeighbors | src/matze/pathfinder/DStarLite.php:94-126 | the loop returns Neighbors (see NeighborsSpec) |
| DStar.DStarLite.CalculateRHS | src/matze/pathfinder/DStarLite.php:74-88 | returns rhs(u) as MinThroughIsMin characterises it; g only gains infinite entries |
| DStar.DStarLite.RefreshRhs | src/matze/pathfinder/DStarLite.php:39-50 | u gets g and rhs entries; rhs(u) is recomputed unless u is the goal; no other rhs changes |
| DStar.DStarLite.Drain | src/matze/pathfinder/DStarLite.php:52-66 | the queue loses exactly u's entries, the rest in order |
| DStar.DStarLite.UpdateVertex | src/matze/pathfinder/DStarLite.php:39-72 | rhs(goal) never recomputed; afterwards u is queued iff g(u) != rhs(u), at most once; every other vertex's entries kept; coverage kept |
| DStar.DStarLite.PopMin | src/matze/pathfinder/DStarLite.php:130 | removes the minimum-key entry; only its vertex may be left uncovered |
| DStar.DStarLite.Lower | src/matze/pathfinder/DStarLite.php:140-144 | over-consistent u: g(u) := rhs(u), no other g changes, every neighbour but the goal gets its rhs recomputed from the new g, every other rhs kept, coverage restored |
| DStar.DStarLite.Raise | src/matze/pathfinder/DStarLite.php:145-150 | any other u: g(u) := infinity, no other g changes, u and every neighbour but the goal get rhs recomputed from the new g, every other rhs kept, coverage restored |
| DStar.DStarLite.Settle | src/matze/pathfinder/DStarLite.php:132-151 | an over-consistent vertex gets g := rhs, any other g := infinity; no other g changes; exactly the neighbours (and u when raised) get rhs recomputed; coverage restored; with symmetric moves the lookahead invariant rhs = min over neighbours of g + cost is kept |
| DStar.DStarLite.UpdateAll | src/matze/pathfinder/DStarLite.php:142-144 | after updating every vertex of the list, each of them but the goal has rhs recomputed from the final g, every other rhs is kept, g only gains infinite entries, coverage is kept |
| DStar.DStarLite.ComputeShortestPath | src/matze/pathfinder/DStarLite.php:128-153 | coverage is an invariant; g changes only at settled vertices; the lookahead invariant is kept when moves are symmetric; a finished run settled at most fuel vertices and leaves the queue empty, or its minimum key not below the start's with the start consistent; an unfinished run settled exactly fuel vertices with the loop condition still true |
| DStar.DStarLite.NextStep | src/matze/pathfinder/DStarLite.php:189-202 | one step of the walk: the first neighbour of smallest finite g (see BestOfIsMin) |
| DStar.DStarLite.Initialize | src/matze/pathfinder/DStarLite.php:159-174 | g cleared to infinity, rhs(goal) = 0, rhs(start) computed, km = 0, goal then start queued, coverage holds, and rhs is the lookahead of g at every vertex but the goal |
| DStar.DStarLite.WalkDown | src/matze/pathfinder/DStarLite.php:184-209 | a found path starts at the start, ends at the goal, and each step moves to the neighbour the scan picks; no path when a step finds none; out of fuel only after fuel steps of that descent, short of the goal; g only gains infinite entries |
| DStar.DStarLite.FindPath | src/matze/pathfinder/DStarLite.php:155-210 | rhs(goal) = 0 when start and goal lie in different blocks; a found path needs a finite g(start) and is a descent from start to goal; a finished search that leaves g(start) infinite answers no path, and no path is answered only then or when a step is stuck; a finished search settled at most fuel vertices and leaves the start consistent or the queue empty; out of fuel either with exactly fuel vertices settled and the queue non-empty, or after a finished search and fuel steps of the descent short of the goal; with symmetric moves rhs stays the lookahead of g |
| DStar.DStarLite.Search | src/matze/pathfinder/DStarLite.php:159-177 | after initialising and running computeShortestPath: km = 0, rhs(goal) = 0 when start and goal differ, the lookahead invariant with symmetric moves, and the fuel outcome of ComputeShortestPath |
| DStar.DStarLite.Plan | src/matze/pathfinder/DStarLite.php:176-209 | findPath between two cells, with the outcomes FindPath states (a finished search with g(start) infinite answers no path); the lookahead invariant holds for the costs the search left, which the walk changes only by infinite entries |
| DStar.DescentGrows | src/matze/pathfinder/DStarLite.php:197-206 | a descent short of the goal grows by the scan's step from its last vertex |
| DStar.LookAheadSameCosts | src/matze/pathfinder/DStarLite.php:192-195 | the infinite g entries the walk adds keep rhs the lookahead of g |
| DStar.DStarLite.DescentSameCosts | src/matze/pathfinder/DStarLite.php:192-195 | the walk's steps do not depend on the infinite entries added while walking |
| AStar.SideKeysDistinct | src/matze/pathfinder/BasePathfinder.php:102-106 | the four sides have four different keys, none of them the current block's |
| AStar.SideCellAdjacent | src/matze/pathfinder/BasePathfinder.php:102-106 | a neighbour candidate lies in the block next to the current one on that side, on the current level |
| AStar.IsClearBetweenPoints | src/matze/pathfinder/BasePathfinder.php:216-219 | false whenever smoothing is off or the floored y differ; otherwise the ray march decides |
| AStar.SmoothEndsAtRoot | src/matze/pathfinder/BasePathfinder.php:135-160 | the reconstruction always ends with the root of the chain and adds only chain positions |
| AStar.SmoothDisabled | src/matze/pathfinder/BasePathfinder.php:135-160 | without smoothing every link is kept: the rest of the chain, then the root again |
| AStar.ReverseAt | src/matze/pathfinder/BasePathfinder.php:161 | array_reverse: element k is element n-1-k |
| AStar.ReverseMembers | src/matze/pathfinder/BasePathfinder.php:161 | array_reverse keeps the same elements |
| AStar.PathOfEnds | src/matze/pathfinder/BasePathfinder.php:126-162 | the returned path has at least two positions, starts at the root, ends at the target when it was reached, and holds only chain positions and the target |
| AStar.PathWithoutSmoothing | src/matze/pathfinder/BasePathfinder.php:133-161 | without smoothing the path is the whole parent chain read from the root, with the root repeated |
| AStar.RootRepeated | src/matze/pathfinder/BasePathfinder.php:138-143 | without smoothing the path's first two positions are both the root |
| AStar.ParentlessIsStart | src/matze/pathfinder/BasePathfinder.php:73-80 | in the search state the start is the only node without a parent |
| AStar.PopKeeps | src/matze/pathfinder/BasePathfinder.php:93-94 | moving the popped node from open to closed keeps the search state, and so keeps open and closed disjoint |
| AStar.InsertKeeps | src/matze/pathfinder/BasePathfinder.php:111-122 | inserting an admitted neighbour (parent current, one walk-chain move from current with g = current g + the move's cost, key not closed) keeps the search state, with best moved to it when its h is smaller |
| AStar.RootedByInsert | src/matze/pathfinder/BasePathfinder.php:118 | the new parent link keeps the forest ranked and rooted at the start |
| AStar.KeyedByInsert | src/matze/pathfinder/BasePathfinder.php:111-119 | a key that is not closed entering open keeps open and closed disjoint |
| AStar.BestByInsert | src/matze/pathfinder/BasePathfinder.php:120-122 | best stays the inserted node with the smallest h |
| AStar.InsertedStayWell | src/matze/pathfinder/BasePathfinder.php:114-118 | every inserted node stays one walk-chain move from its closed parent, with g = parent g + the move's cost and its heuristic h |
| AStar.ExtendsTrans | src/matze/pathfinder/BasePathfinder.php:102-124 | expansions of several sides compose |
| AStar.ExtendsByInsert | src/matze/pathfinder/BasePathfinder.php:114-119 | an insertion extends the snapshot with a child of the current node |
| AStar.StepOf | src/matze/pathfinder/BasePathfinder.php:108-123 | one side's effect: admitted iff the walk chain accepts, the key is not closed, and the key is not open or g is finite; an admitted side holds a new child of the current node under its key, with g + cost and the walk chain's height; any other side leaves its key as it was; no other key changes |
| AStar.StepsExtend | src/matze/pathfinder/BasePathfinder.php:102-124 | trying the next side appends its step to the record of the foreach |
| AStar.StepKeepsKeys | src/matze/pathfinder/BasePathfinder.php:108-123 | no side removes a key from the open list |
| AStar.KeysPersist | src/matze/pathfinder/BasePathfinder.php:102-124 | a key open before one side is still open before every later side |
| AStar.StepsKnown | src/matze/pathfinder/BasePathfinder.php:102-124 | after the four sides, every side the walk chain accepted has its key open or closed, and every key open before is still open |
| AStar.KnownGrows | src/matze/pathfinder/BasePathfinder.php:93-94 | keys only move from open to closed or join open, so a side once known stays known |
| AStar.CloseExpanded | src/matze/pathfinder/BasePathfinder.php:93-94 | closing the popped node keeps every other closed node expanded |
| AStar.ExpandExpanded | src/matze/pathfinder/BasePathfinder.php:102-124 | once the current node's sides are known, every closed node is expanded |
| AStar.LoneStart | src/matze/pathfinder/BasePathfinder.php:85-125 | a search that inserted nothing and ran out of open nodes found every side of the start refused by the walk chain |
| AStar.ClosedKnown | src/matze/pathfinder/BasePathfinder.php:93-94 | a closed key is never open, and is the key of the start or of an inserted node |
| AStar.StartStaysClosed | src/matze/pathfinder/BasePathfinder.php:86-94 | after the first pass the start stays closed under its key |
| AStar.ChainOf | src/matze/pathfinder/BasePathfinder.php:137-143 | the parent chain from a node is finite and ends at a node without parent |
| AStar.ChainMoves | src/matze/pathfinder/BasePathfinder.php:102-123 | every link of a parent chain in the search state is a walk-chain move: the child was inserted and sits where the walk chain lands on one of the parent's four sides, with the parent's g plus the move's cost |
| AStar.AnchorChain | src/matze/pathfinder/BasePathfinder.php:137-143 | the parent chain from a known node follows parentNode to the start, and each link is a walk-chain move to an inserted node |
| AStar.ChainLinked | src/matze/pathfinder/BasePathfinder.php:138-139 | the snapshot's chain is the chain the reconstruction loop follows on the heap |
| AStar.BasePathfinder.constructor | src/matze/pathfinder/BasePathfinder.php:22-33 | the settings, rules and ray march are stored; the open list is empty |
| AStar.BasePathfinder.GetLowestFCost | src/matze/pathfinder/BasePathfinder.php:173-180 | none iff the open list is empty, else an open key whose node has the smallest F |
| AStar.BasePathfinder.OrderRules | src/matze/pathfinder/BasePathfinder.php:63-68 | the rules become SortRules of the old rules (see SortRulesSpec) |
| AStar.BasePathfinder.Candidate | src/matze/pathfinder/BasePathfinder.php:103-110 | the neighbour node is fresh at the side's block centre with the key of the unsnapped block; its verdict, cost and new y come from the walk chain |
| AStar.BasePathfinder.Admit | src/matze/pathfinder/BasePathfinder.php:114-122 | g = current g + cost, h from the heuristic, parent current, open entry under its key replaced, best moved when its h is smaller |
| AStar.BasePathfinder.Insert | src/matze/pathfinder/BasePathfinder.php:114-122 | an admitted neighbour one walk-chain move from current joins open under its key as a child of current with g = current g + cost; the search state is kept |
| AStar.BasePathfinder.TrySide | src/matze/pathfinder/BasePathfinder.php:102-123 | the side's step as StepOf states it (admitted iff the walk chain accepts, the key is not closed, and the key is not open or current's g is finite, since a fresh node's g is infinite); no other open key changes; the search state is kept and the foreach's record grows by this side |
| AStar.BasePathfinder.ExpandNeighbours | src/matze/pathfinder/BasePathfinder.php:102-124 | the four sides were tried in order, each with the step StepOf states, from the old open list to the new one; the search state is kept, known nodes keep their views, and every new node is a fresh child of the current node |
| AStar.BasePathfinder.CloseLowest | src/matze/pathfinder/BasePathfinder.php:86-94 | none iff open was empty; else an open node of minimum F leaves open and is closed under its key; the state is kept |
| AStar.BasePathfinder.Link | src/matze/pathfinder/BasePathfinder.php:96-97 | the target gets its parent without disturbing any known node |
| AStar.BasePathfinder.Iterate | src/matze/pathfinder/BasePathfinder.php:86-124 | one pass: closes an open node of minimum F (none iff open was empty); found iff its key is the target's, and then the target's parent is it; otherwise its four sides were tried as StepOf states; the search state is kept and every closed node stays expanded |
| AStar.BasePathfinder.Search | src/matze/pathfinder/BasePathfinder.php:80-125 | the loop keeps the search state; found iff the target's key was closed: when found, the target's parent is a known, closed node with the target's key, else the target has no parent, its key is not closed, and the open list is empty or the budget spent; closed keys are never open and belong to the start or an inserted node; every closed node but the last was expanded, and the start stays closed after the first pass |
| AStar.BasePathfinder.Reconstruct | src/matze/pathfinder/BasePathfinder.php:133-160 | the loop adds the first node's position and then what Smooth yields along the parent chain |
| AStar.BasePathfinder.Finish | src/matze/pathfinder/BasePathfinder.php:126-162 | no path iff the target was not reached and there is no best node; else the reversed reconstruction from the target's parent or best, whose chain ends at the start |
| AStar.BasePathfinder.Run | src/matze/pathfinder/BasePathfinder.php:70-162 | open keyed by node key; reached iff the target's key was closed, and when not reached the open list is empty or the budget spent; the closed keys are not open and belong to the start or an inserted node; no path iff not reached and nothing inserted, and then (within the budget) the walk chain refused every side of the start; else PathOf the parent chain from the target's parent (whose key is the target's) or from the inserted node of smallest h, ending at the start; every link of that chain is a walk-chain move from parent to inserted child (see ChainMoves) |
| AStar.BasePathfinder.FindPath | src/matze/pathfinder/BasePathfinder.php:53-163 | no path and nothing changed when start and target share a block; else the rules are re-ordered, reached iff the target's block was closed (when not reached, the open list is empty or the budget spent), no path iff not reached and nothing inserted (and then, within the budget, every side of the start was refused), and the path is PathOf the parent chain from the start's block centre, ending at the target's block centre when reached or at the inserted node of smallest h; every link of the chain is a walk-chain move from parent to inserted child |

## Left out

- The A* heuristic: `calculateDirectionalHeuristic` uses normalisation, a dot product and squares in floating point. The search takes the heuristic as a parameter `heuristic: Vec -> real`. `calculateSimpleHeuristic` is `Basics.Manhattan`. The direction vector and distance computed at the start of `findPath` only feed the heuristic.
- The ray march of `isClearBetweenPoints` (floating-point stepping through `isNicePositionToStand`) is the parameter `ray`. Only the two guards are modelled.
- The wall-clock timeout of the A* loop is an iteration budget. The D* Lite loops have no bound in the source and take `fuel`: `computeShortestPath` stops after `fuel` settled vertices and the walk after `fuel` steps, and `OutOfFuel` is answered only then.
- `World::blockHash`, `World::getBlockXYZ`, `FictionalWorld::getBlock` and the `Block` methods are not part of this model. The key of a block is the block's cell itself, which is injective and reversible like the packing. The world is a function from cell to the three flags.
- Rules of other classes are answered by a host oracle (`RuleChain.ExternalRules`). The entity-size rule is modelled in full.
- The entity-size rule's constructor (`round` and `ceil` of the entity's size) is not modelled: the rule takes `halfWidth` and `height` directly.
- The `error_log` calls, the unused `graph` and `timeout` fields of D* Lite, and the unused `tryTravelDown`/`tryTravelUp` helpers are not modelled. `tryTravelUp` passes the maximum travel distance down.
- PHP number sentinels: `PHP_INT_MAX` becomes an explicit infinity that absorbs additions, so `PHP_INT_MAX + cost` does not turn into a large finite float.
- `DStar.DStarLite.UpdateVertex`, `DStar.DStarLite.ComputeShortestPath`, `DStar.DStarLite.FindPath`: the strict `!==`/`===` tests (DStarLite.php lines 69, 129 and 180) compare costs as values. In the source an integer `PHP_INT_MAX` and its float conversion compare unequal.
- `AStar.BasePathfinder.GetLowestFCost` returns some key of minimal F. PHP's stable `asort` takes the first one in insertion order; that tie-break is not stated.
- `DStar.MinIndex` extracts the first entry of smallest key. `SplMinHeap` breaks ties between equal keys by comparing the node objects, which is not modelled.
- `AStar.BasePathfinder.Reconstruct`: `clone $node` is modelled as the node itself. The clone is only read, so the positions and parent links are the same.
- `AStar.BasePathfinder.Admit` writes `g`, `h` and the parent directly rather than through the setters. The effect is the same as `SetG`, `SetH` and `SetParentNode`.
- The `PathResult` object is a sequence of positions.
- `DStar.DStarLite.Settle`, `DStar.DStarLite.ComputeShortestPath`, `DStar.DStarLite.FindPath`: the lookahead invariant (rhs is the minimum over the neighbours of g + cost) is stated only when every accepted move can be made the other way (`DStar.Symmetric`). `computeShortestPath` updates the neighbours of a settled vertex, while rhs reads the vertices it has as neighbours, and the rule chains need not accept a move both ways.
- `src/pathfinder/Pathfinder.php` (plugin lifecycle) is not part of this model.
