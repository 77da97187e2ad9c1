# Stepwise A* over an occupancy grid, with its binary-search-tree priority queue

This project models the pathfinding core of a grid editor in Dafny. The core has two parts:

- `PriorityQueue<T>` (`src/lib/pathfinding/priority-queue.ts`) is an unbalanced binary search
  tree ordered by a caller-supplied comparator. `insert` sends values that compare `< 0`
  to the left and everything else, ties included, to the right. `popmin` follows left pointers
  to the leftmost node and splices that node's right subtree into its parent. `find` returns the
  first preorder match of a predicate (for stored values other than `undefined` and `null`;
  see "## Left out"). `preorder` visits every value, and `isempty` tests for
  an empty tree.
- `AStar` (`src/lib/pathfinding/a-star.ts`) is a state machine over a `size`×`size` grid. The
  start is fixed at (0,0) and the goal at (size-1,size-1). Each `step()` pops the leftmost open node
  (the least `f` while no key has been lowered in place, see `LeftmostHasLeastF`), closes its point and either finishes at the goal or expands its up-to-8 vacant
  neighbours. Each new neighbour is inserted; an already-open one is relaxed in place when the
  new `g` is strictly smaller. `currentpath()` walks the `previous` chain back from the last
  closed node.

Modules:

- `Options` (`options.dfy`): the `Option` and `Result` datatypes.
- `PriorityQueues` (`priority_queue.dfy`): the tree as a value `Tree<T>` and the recursive
  functions on it (insert, leftmost node, removal of the leftmost node, preorder, find, and the
  write through find's reference), with lemmas about their contents and ordering. The class
  `PriorityQueue<T>` holds the comparator and a `root` field that its methods reassign.
- `Grids` (`grid.dfy`): points, cells, `serialize` and a parser proving it injective, `equals`,
  the heuristic, `isvacant` and `neighbors`.
- `AStarSearch` (`a_star_spec.dfy`): the engine's state as a value `Search`. It defines the
  constructor (`Init`), one `step()` (`StepSpec`), `currentpath()` (`PathOf`) and the invariant
  `Inv` that every step keeps.
- `AStarEngine` (`a_star.dfy`): the class `AStar`, whose fields the constructor, `Step` and
  `CurrentPath` update or read in place. Each method is proved to follow `AStarSearch`.

The invariant `Inv` says:

- no point occurs twice in the open list;
- no open point is closed;
- every open node, and the last closed node, ends a valid `previous` chain: the chain starts
  at (0,0) with `g = 0`, each link is a vacant neighbour of a closed point, and each `g` is the
  previous `g` plus the step's heuristic distance;
- `lastnode` is absent exactly while nothing is closed;
- status `finished` means `lastnode` is at the goal.

Relaxing an open node lowers its `f` without moving it in the tree. The tree's ordering
can therefore stop holding once the engine relaxes a node, and `popmin` then returns the
leftmost node, which need not be the least. The model follows the code here:

- `FindMinIsMinimum` proves minimality only for an ordered tree.
- `RelabellingCanHideTheMinimum` exhibits a tree where a lowered key hides the minimum.
- The doc comment of `popmin` at `src/lib/pathfinding/priority-queue.ts:39` ("removes the
  smallest value") and the comment at `src/lib/pathfinding/a-star.ts:91` both say more than the
  code does once a key has been lowered.

## Model

| member | source | states |
|---|---|---|
| PriorityQueues.PreorderFrom | src/lib/pathfinding/priority-queue.ts:19-24 | definition of _preorder: the node's value, then the left subtree's, then the right subtree's; its properties are proved in PreorderFromVisitsAll and FindFromIsFirstPreorderMatch |
| PriorityQueues.FindMin | src/lib/pathfinding/priority-queue.ts:48-54 | definition of findmin: follow left pointers to the leftmost node, with no comparator call; its properties are proved in RemoveMinContents, RemoveMinSplicesRightSubtree and FindMinIsMinimum |
| PriorityQueues.RemoveMin | src/lib/pathfinding/priority-queue.ts:42-44 | definition of popmin's splice: the leftmost node is replaced by its right subtree; its properties are proved in RemoveMinContents, RemoveMinSplicesRightSubtree and RemoveMinKeepsOrder |
| PriorityQueues.FindFrom | src/lib/pathfinding/priority-queue.ts:60-64 | definition of _find: the node's value if it matches, else the left subtree's result, else the right subtree's; its properties are proved in FindFromSound and FindFromIsFirstPreorderMatch |
| PriorityQueues.PreorderFromVisitsAll | src/lib/pathfinding/priority-queue.ts:16-25 | preorder visits every stored value exactly once: the visit sequence is the tree's contents as a multiset and has one entry per node |
| PriorityQueues.PriorityQueue.Preorder | src/lib/pathfinding/priority-queue.ts:16-25 | the values handed to the callback, in order, are the queue's contents as a multiset; as a function it leaves the queue unchanged |
| PriorityQueues.InsertNode | src/lib/pathfinding/priority-queue.ts:32-37 | insertnode always returns a node, never an empty subtree |
| PriorityQueues.InsertNodeContents | src/lib/pathfinding/priority-queue.ts:32-37 | the contents after insertnode are the old contents plus exactly one occurrence of the value |
| PriorityQueues.InsertNodeKeepsOrder | src/lib/pathfinding/priority-queue.ts:34-35 | insertnode keeps the ordering: every left-subtree value compares < 0 against its node and every right-subtree value compares >= 0 |
| PriorityQueues.PriorityQueue.Insert | src/lib/pathfinding/priority-queue.ts:28-37 | insert rewrites root to insertnode's result; the contents gain exactly the value; an ordered tree stays ordered |
| PriorityQueues.RemoveMinContents | src/lib/pathfinding/priority-queue.ts:40-54 | the leftmost value is stored, and removing it takes exactly one occurrence out of the contents and one node out of the tree |
| PriorityQueues.GraftLeftSpine | src/lib/pathfinding/priority-queue.ts:48-54 | a tree is its left spine (the nodes findmin walks through), each with its value and right subtree, hung one below the other |
| PriorityQueues.RemoveMinSplicesRightSubtree | src/lib/pathfinding/priority-queue.ts:42-45 | popmin returns the last value of the left spine and puts that node's right subtree in its parent's left pointer (or the root); every other node keeps its value and right subtree |
| PriorityQueues.RemoveMinKeepsOrder | src/lib/pathfinding/priority-queue.ts:42-45 | removing the leftmost node keeps the tree ordered |
| PriorityQueues.FindMinIsMinimum | src/lib/pathfinding/priority-queue.ts:48-54 | in an ordered tree, under a comparator that is reflexive-nonnegative and transitive on < 0, no stored value compares < 0 against the leftmost one; the engine's comparator meets those laws (CompareFIsStrictOrder, LeftmostHasLeastF) |
| PriorityQueues.NotBelowMinimum | src/lib/pathfinding/priority-queue.ts:34-35 | proof helper for FindMinIsMinimum: a value that does not compare below a node's value does not compare below anything less than that value |
| PriorityQueues.PriorityQueue.PopMin | src/lib/pathfinding/priority-queue.ts:40-46 | on an empty queue returns None (undefined) and the queue stays empty; otherwise returns the leftmost value, the root becomes the tree without it, the contents lose exactly that occurrence, and ordering is kept |
| PriorityQueues.RelabellingCanHideTheMinimum | src/lib/pathfinding/priority-queue.ts:48-54 | after a stored key is lowered in place (keys 5 and 3, 5 lowered to 1), the tree is no longer ordered and findmin returns 3 although 1 is stored |
| PriorityQueues.DrainContents | src/lib/pathfinding/priority-queue.ts:40-46 | calling popmin until the queue is empty returns every stored value exactly once |
| PriorityQueues.DrainIsSorted | src/lib/pathfinding/priority-queue.ts:40-54 | for an ordered tree, successive popmin results never decrease under the comparator |
| PriorityQueues.InsertThenDrainScenario | src/lib/pathfinding/priority-queue.ts:28-54 | keys 5, 3, 8, 1 inserted with comparator a - b are popped as 1, 3, 5, 8 |
| PriorityQueues.FindFromSound | src/lib/pathfinding/priority-queue.ts:57-65 | find returns a stored value satisfying the predicate when it returns one, and returns undefined exactly when no stored value satisfies it |
| PriorityQueues.FirstIndex | src/lib/pathfinding/priority-queue.ts:60-64 | the position of the first match in a sequence lies within the sequence or just past its end |
| PriorityQueues.FirstIndexIsFirstMatch | src/lib/pathfinding/priority-queue.ts:60-64 | the value at that position matches, and no earlier value does |
| PriorityQueues.FirstIndexAppend | src/lib/pathfinding/priority-queue.ts:63 | the first match in a concatenation is in the first part if the first part has one, else it is in the second part, offset by the first part's length |
| PriorityQueues.FindFromIsFirstPreorderMatch | src/lib/pathfinding/priority-queue.ts:57-65 | find returns exactly the first match in node-left-right order, and undefined when the preorder sequence has none |
| PriorityQueues.PriorityQueue.Find | src/lib/pathfinding/priority-queue.ts:57-65 | the queue's find returns a stored match when one exists and undefined only when none does |
| PriorityQueues.SameShapeReflexive | src/lib/pathfinding/a-star.ts:121-128 | proof helper for ReplaceFirst: every tree has the same shape as itself |
| PriorityQueues.ReplaceFirst | src/lib/pathfinding/a-star.ts:121-128 | writing through the reference that find returns leaves every node and pointer of the tree where it was |
| PriorityQueues.UpdateConcat | src/lib/pathfinding/priority-queue.ts:63 | proof helper for ReplaceFirstInPlace: updating one position of a concatenation updates the part that holds that position and leaves the other part unchanged |
| PriorityQueues.ReplaceFirstNoMatch | src/lib/pathfinding/priority-queue.ts:57-65 | with no match, the write through find's result changes nothing |
| PriorityQueues.ReplaceFirstInPlace | src/lib/pathfinding/a-star.ts:121-128 | with a match, the preorder sequence after the write is the old one with only the first match's position overwritten |
| PriorityQueues.ReplaceFirstAtRoot | src/lib/pathfinding/priority-queue.ts:62 | a match at the visited node is the first preorder match, and the write replaces just that first entry |
| PriorityQueues.ReplaceFirstInLeft | src/lib/pathfinding/priority-queue.ts:63 | a first match in the left subtree sits one place after the node in preorder, and the write changes just that entry |
| PriorityQueues.ReplaceFirstInRight | src/lib/pathfinding/priority-queue.ts:63 | a first match in the right subtree, with none on the left, sits after the node and the whole left subtree in preorder, and the write changes just that entry |
| PriorityQueues.ReplaceFirstContents | src/lib/pathfinding/a-star.ts:121-128 | the write trades exactly the found occurrence for the new value, and changes nothing when find finds nothing |
| PriorityQueues.PriorityQueue.Replace | src/lib/pathfinding/a-star.ts:121-128 | after the field writes through find's result, the root is the same tree with the first match overwritten, and the contents differ by exactly that one value |
| PriorityQueues.PriorityQueue.IsEmpty | src/lib/pathfinding/priority-queue.ts:68-70 | isempty is true exactly when the queue holds no values |
| PriorityQueues.PriorityQueue.constructor | src/lib/pathfinding/priority-queue.ts:11-13 | a new queue keeps the given comparator and is empty |
| Grids.Serialize | src/lib/pathfinding/a-star.ts:39-41 | definition of serialize: the decimal x, a comma, the decimal y; proved reversible and injective in SerializeRoundTrip and SerializeInjective |
| Grids.Heuristic | src/lib/pathfinding/a-star.ts:47-49 | definition of heuristic: the square root (a parameter) of the squared Euclidean distance; properties in HeuristicProperties |
| Grids.IsVacant | src/lib/pathfinding/a-star.ts:51-56 | definition of isvacant with the source's three guards in order; an out-of-range index reads as not empty; characterised in IsVacantSpec |
| Grids.Candidates | src/lib/pathfinding/a-star.ts:59-68 | definition of the eight candidate points in the source's order; characterised in CandidatesSpec |
| Grids.Neighbors | src/lib/pathfinding/a-star.ts:58-71 | definition of neighbors: the candidates filtered by isvacant; characterised in NeighborsSpec and NeighborsDistinct |
| Grids.IndexOf | src/lib/pathfinding/a-star.ts:39-41 | helper of the key parser behind SerializeRoundTrip: the position of the first given character in a key string, or the string's length when there is none |
| Grids.NatToStringRoundTrip | src/lib/pathfinding/a-star.ts:39-41 | the decimal text of a natural is non-empty, is all digits, and reads back as the same number |
| Grids.IntToStringRoundTrip | src/lib/pathfinding/a-star.ts:39-41 | the decimal text of an integer has no comma and reads back as the same integer |
| Grids.SerializeRoundTrip | src/lib/pathfinding/a-star.ts:39-41 | the key `x,y` parses back to the point it came from |
| Grids.SerializeInjective | src/lib/pathfinding/a-star.ts:39-41 | two points get the same key exactly when they are equal, so the closed set keyed by `x,y` is a set of points |
| Grids.Equals | src/lib/pathfinding/a-star.ts:43-45 | equals is true exactly when both coordinates agree |
| Grids.HeuristicProperties | src/lib/pathfinding/a-star.ts:47-49 | the distance is symmetric; its squared argument is non-negative and is zero exactly when the points are equal |
| Grids.MultiplyMonotone | src/lib/pathfinding/a-star.ts:54 | proof helper for IsVacantSpec: multiplying by a non-negative number keeps order |
| Grids.IsVacantSpec | src/lib/pathfinding/a-star.ts:51-56 | for a consistent grid, an in-bounds point's index x + y*size is a valid cell, and isvacant holds exactly when the point is in bounds and its cell is empty |
| Grids.CandidatesSpec | src/lib/pathfinding/a-star.ts:58-68 | the candidate list has 8 entries, they are exactly the adjacent points, and entry k lies in direction k of the fixed order up, up-left, left, down-left, down, down-right, right, up-right |
| Grids.FilterVacantMembers | src/lib/pathfinding/a-star.ts:70 | the filter keeps exactly the listed points that are vacant |
| Grids.FilterVacantKeepsOrder | src/lib/pathfinding/a-star.ts:70 | the filter keeps the fixed direction order |
| Grids.NeighborsSpec | src/lib/pathfinding/a-star.ts:58-71 | neighbors returns exactly the adjacent vacant points, in the fixed direction order, each one step away in a straight line or diagonally |
| Grids.NeighborsDistinct | src/lib/pathfinding/a-star.ts:58-71 | no point appears twice among the neighbours |
| AStarSearch.End | src/lib/pathfinding/a-star.ts:21 | definition of the goal: (size-1, size-1); the engine's `end` field is proved equal to it by AStar.constructor and Create |
| AStarSearch.CompareF | src/lib/pathfinding/a-star.ts:36 | definition of the open list's comparator: a.f - b.f; proved a strict order in CompareFIsStrictOrder |
| AStarSearch.CompareFIsStrictOrder | src/lib/pathfinding/a-star.ts:36 | the f-difference comparator is non-negative on equal nodes and transitive on < 0, the comparator laws FindMinIsMinimum and DrainIsSorted need |
| AStarSearch.LeftmostHasLeastF | src/lib/pathfinding/a-star.ts:91-92 | while the open list is still ordered by f, the node popmin takes has the least f of all open nodes |
| AStarSearch.AtPoint | src/lib/pathfinding/a-star.ts:121 | definition of the predicate passed to find: the node's point equals the neighbour point; FindAtPoint states what find returns with it |
| AStarSearch.StartNode | src/lib/pathfinding/a-star.ts:24-29 | definition of the seeded node: the start point, g = 0, f = h = the distance to the goal, no previous; InitSpec states that it is the only open node after construction on an empty start cell |
| AStarSearch.Init | src/lib/pathfinding/a-star.ts:19-29 | definition of the constructor's outcome: the size-mismatch error, or the initial state with the start node seeded only on an empty start cell; characterised in InitSpec |
| AStarSearch.Successor | src/lib/pathfinding/a-star.ts:107-116 | definition of the neighbour node: g is the current g plus the step distance, h the distance to the goal, f = g + h, previous the current node; its chain is proved valid in SuccessorIsValid |
| AStarSearch.Visit | src/lib/pathfinding/a-star.ts:105-128 | definition of one loop pass: skip a closed point, insert at a point not open, overwrite a strictly dearer open node in place, otherwise leave the open list; properties in VisitWellFormed, VisitInserts, VisitRelaxes, VisitUnchanged and VisitStores |
| AStarSearch.Expand | src/lib/pathfinding/a-star.ts:103-129 | definition of the neighbour loop as the passes in list order; properties in ExpandWellFormed and ExpandStores |
| AStarSearch.StepSpec | src/lib/pathfinding/a-star.ts:83-132 | definition of step(): terminal states unchanged, no-solution on an empty open list, else pop the leftmost node, close it, finish at the goal or expand and go ongoing; properties in StepSpecCases, StepPreservesInv, StepOpenPoints, StepNeverRaisesCost and StepStoresNeighbours |
| AStarSearch.PathOf | src/lib/pathfinding/a-star.ts:73-81 | definition of currentpath(): the chain's points from its root to the given node; properties in PathOfShape, ValidChainIsWalk and CurrentPathSpec |
| AStarSearch.InitSpec | src/lib/pathfinding/a-star.ts:19-29 | construction fails exactly when size*size differs from the grid length; otherwise status is unset, nothing is closed, the open list holds exactly the start node (g = 0, f = h, no previous) when the start cell is empty and nothing otherwise, and the invariant holds |
| AStarSearch.BlockedStartHasNoSolution | src/lib/pathfinding/a-star.ts:23-89 | with a blocked start, the first step sets status no-solution and changes nothing else |
| AStarSearch.StepSpecCases | src/lib/pathfinding/a-star.ts:83-132 | a terminal step changes nothing; with an empty open list the status becomes no-solution; otherwise the leftmost node becomes lastnode, its point is closed, status becomes finished exactly at the goal (with only that node removed) and ongoing otherwise; status never returns to unset and the closed set only grows |
| AStarSearch.StepPreservesInv | src/lib/pathfinding/a-star.ts:83-132 | every step keeps the invariant: open points are unique and never closed, and every open node and the last node end valid chains from the start |
| AStarSearch.StepOpenPoints | src/lib/pathfinding/a-star.ts:92-129 | after an expanding step the open points are the old ones minus the popped point, plus exactly the neighbours that are not closed; no open point is closed |
| AStarSearch.StepNeverRaisesCost | src/lib/pathfinding/a-star.ts:121-128 | the g stored for a point still open after a step is never larger than before |
| AStarSearch.StepStoresNeighbours | src/lib/pathfinding/a-star.ts:103-129 | after an expanding step, every neighbour of the popped node that is not closed is stored with g no greater than the popped node's g plus the step to it: new neighbours are added and dearer ones relaxed |
| AStarSearch.ValidChainClosedGrows | src/lib/pathfinding/a-star.ts:94 | a valid chain stays valid when the closed set grows |
| AStarSearch.FindAtPoint | src/lib/pathfinding/a-star.ts:121 | the engine's find at q comes back empty exactly when q is not open, and otherwise returns the stored node at q |
| AStarSearch.TakeOut | src/lib/pathfinding/a-star.ts:92-94 | taking a node out of a well-formed open list and closing its point leaves a well-formed open list without that point; the node's own chain is valid |
| AStarSearch.TakeOutMembers | src/lib/pathfinding/a-star.ts:92 | with unique points, the remaining nodes are exactly the others and still have unique points |
| AStarSearch.AddFreshUnique | src/lib/pathfinding/a-star.ts:122 | inserting a node at a point not yet open keeps the points unique |
| AStarSearch.AddPoints | src/lib/pathfinding/a-star.ts:122 | inserting a node adds exactly its point to the open points |
| AStarSearch.AddChains | src/lib/pathfinding/a-star.ts:122 | inserting a node with a valid chain keeps all chains valid |
| AStarSearch.AddFreshCosts | src/lib/pathfinding/a-star.ts:122 | inserting a node at a new point changes no stored g |
| AStarSearch.AddFresh | src/lib/pathfinding/a-star.ts:105-122 | inserting a fresh, unclosed, validly chained node keeps the open list well formed, adds its point, and raises no cost |
| AStarSearch.ExchangeMembers | src/lib/pathfinding/a-star.ts:123-128 | overwriting the single stored occurrence of a node with a new value leaves exactly the new value and the other nodes, each with its old count |
| AStarSearch.ExchangeUnique | src/lib/pathfinding/a-star.ts:123-128 | overwriting a node with one at the same point keeps the points unique |
| AStarSearch.ExchangePoints | src/lib/pathfinding/a-star.ts:123-128 | overwriting a node with one at the same point keeps the set of open points |
| AStarSearch.ExchangeChains | src/lib/pathfinding/a-star.ts:123-128 | overwriting a node with a validly chained one keeps all chains valid |
| AStarSearch.ExchangeCosts | src/lib/pathfinding/a-star.ts:123-128 | overwriting a node only with a strictly cheaper one raises no stored g |
| AStarSearch.Exchange | src/lib/pathfinding/a-star.ts:123-128 | a strict relaxation keeps the open list well formed, keeps its points, and raises no cost |
| AStarSearch.RemoveMinWellFormed | src/lib/pathfinding/a-star.ts:92-94 | the popped node is stored and not closed and has a valid chain; after closing its point the rest of the open list is well formed, lacks exactly that point, and holds only other nodes |
| AStarSearch.InsertFresh | src/lib/pathfinding/a-star.ts:122 | inserting a fresh validly chained node into the tree keeps it well formed, adds its point, and raises no cost |
| AStarSearch.RelaxExisting | src/lib/pathfinding/a-star.ts:121-128 | overwriting the found node with a strictly cheaper one keeps the tree well formed, keeps its points, and raises no cost |
| AStarSearch.VisitWellFormed | src/lib/pathfinding/a-star.ts:103-129 | one pass of the neighbour loop keeps the open list well formed, adds the neighbour's point exactly when it is not closed, and raises no cost |
| AStarSearch.VisitUnchanged | src/lib/pathfinding/a-star.ts:105-123 | a closed neighbour, or an open one that the new path does not make strictly cheaper, leaves the open list as it was |
| AStarSearch.VisitChanged | src/lib/pathfinding/a-star.ts:121-128 | when a new neighbour is inserted or a dearer open one relaxed, the open list stays well formed, gains the point, and no cost rises (what is stored is stated by VisitInserts and VisitRelaxes) |
| AStarSearch.VisitInserts | src/lib/pathfinding/a-star.ts:121-122 | at a point neither closed nor open, the pass adds exactly the new node to the contents |
| AStarSearch.VisitRelaxes | src/lib/pathfinding/a-star.ts:121-128 | at an open point reached by a strictly cheaper path, the new node is stored, the old one is gone, and the contents differ by exactly that trade |
| AStarSearch.TradeKeeps | src/lib/pathfinding/a-star.ts:123-128 | proof helper: trading one occurrence of a node for a different one keeps the new node and every other node |
| AStarSearch.VisitStores | src/lib/pathfinding/a-star.ts:105-128 | after a pass at an unclosed point, some node stored at that point costs no more than the new path |
| AStarSearch.VisitKeepsStored | src/lib/pathfinding/a-star.ts:121-128 | a pass never loses a stored cost bound: it only adds nodes or lowers a cost in place |
| AStarSearch.ExpandStores | src/lib/pathfinding/a-star.ts:103-129 | after the neighbour loop, every listed point that is not closed is stored with a cost no greater than the path through the current node |
| AStarSearch.SuccessorIsValid | src/lib/pathfinding/a-star.ts:108-116 | the node built for a vacant neighbour of a closed, validly chained node has a valid chain |
| AStarSearch.CostsNoWorseReflexive | src/lib/pathfinding/a-star.ts:123 | proof helper for VisitWellFormed: an open list whose points are unique raises no cost against itself |
| AStarSearch.NoWorseTransitive | src/lib/pathfinding/a-star.ts:103-129 | "raises no cost" composes over successive loop passes when no open point is lost |
| AStarSearch.ExpandWellFormed | src/lib/pathfinding/a-star.ts:103-129 | the whole neighbour loop keeps the open list well formed, adds exactly the unclosed neighbours' points, and raises no cost |
| AStarSearch.UnionStep | src/lib/pathfinding/a-star.ts:103 | proof helper for ExpandWellFormed: set bookkeeping that adds one loop pass's new points to the points added so far |
| AStarSearch.NewPointsSnoc | src/lib/pathfinding/a-star.ts:103-105 | the unclosed points of a neighbour list are those of all but its last entry, plus the last one when it is not closed |
| AStarSearch.PathOfShape | src/lib/pathfinding/a-star.ts:73-81 | currentpath has one entry per chain node and ends with the last node's point |
| AStarSearch.ValidChainIsWalk | src/lib/pathfinding/a-star.ts:73-81 | a valid chain yields a path that starts at (0,0), where each point is a neighbour of the one before it and every point before the last is closed |
| AStarSearch.CurrentPathSpec | src/lib/pathfinding/a-star.ts:73-81 | currentpath is empty before the first step and exactly while nothing is closed; otherwise it is a walk from the start through closed points ending at lastnode, and at the goal once finished |
| AStarEngine.AStar.constructor | src/lib/pathfinding/a-star.ts:15-37 | for a consistent size and grid, the fields are the constructor's initial state, start is (0,0), end is (size-1,size-1), and the invariant holds |
| AStarEngine.Create | src/lib/pathfinding/a-star.ts:15-29 | construction is rejected exactly when size*size differs from the grid length; otherwise a fresh engine whose size, grid and square root are the arguments, with start (0,0), end (size-1,size-1), the initial state and the invariant |
| AStarEngine.AStar.Step | src/lib/pathfinding/a-star.ts:83-132 | step updates the fields as one step of the state machine and keeps the invariant |
| AStarEngine.AStar.Advance | src/lib/pathfinding/a-star.ts:84-131 | the body of step updates the fields as one step of the state machine |
| AStarEngine.AStar.ExpandNeighbors | src/lib/pathfinding/a-star.ts:103-129 | the neighbour loop leaves the open list as the loop specification gives it: each closed neighbour skipped, each new one inserted, each strictly cheaper one overwritten in place |
| AStarEngine.AStar.CurrentPath | src/lib/pathfinding/a-star.ts:73-81 | the loop returns the points of the previous chain from its root to lastnode |

## Left out

- Node-level pointer writes in the queue (`node.left = …`, `parent.left = …`) are modelled by rebuilding the path from the root as a new tree value. The results are the same trees, but the model does not express node identity or aliasing inside the queue.
- The queued node that `step()` relaxes is a shared object. The model writes a node value into the same tree position instead, with the same `point`, `g`, `h`, `f` and `previous` that the field writes produce. No other reference to an open node exists, because `previous` only ever points to closed nodes.
- PriorityQueues.FindFrom: the queue's values are assumed never to be `undefined` or `null`; the engine stores only node objects. With such a value stored, the `??` fall-through in `_find` (src/lib/pathfinding/priority-queue.ts:63) passes over a nullish match in the left subtree, so `find` would skip that match or return `undefined` although something matched. The model's `Option` result does not capture this.
- PriorityQueues.PriorityQueue.Find: the same assumption as FindFrom; a stored nullish value is not modelled.
- PriorityQueues.PriorityQueue.PopMin: with a stored `undefined`, popmin would return `undefined` for a stored value, which looks the same as the empty-queue result (src/lib/pathfinding/priority-queue.ts:41, 45); the model's `Some` and `None` always differ.
- PriorityQueues.PriorityQueue.Preorder: the callback is modelled as the sequence of values it receives. Callbacks with side effects are not modelled.
- Costs are `real`, not IEEE doubles, so rounding is not modelled. `Math.sqrt` is a parameter `sqrt: int -> real` that the heuristic applies to the squared distance; nothing is assumed about it.
- `size` is an integer. A fractional or NaN `size` cannot be expressed.
- The closed set is a `set` of points rather than a map from `x,y` strings to points. `SerializeInjective` shows the two are interchangeable.
- Path optimality and cost-based properties of the search order are not modelled; the code does not promise them. In particular, popmin need not return the least-`f` node once a relaxation has broken the tree's ordering (see `RelabellingCanHideTheMinimum`).
- AStarEngine.AStar.constructor: requires `size * size == |grid|`, because a Dafny constructor cannot fail. The thrown error is modelled by `Create` and by `Init`.
- AStarEngine.AStar.Step: the body of `step()` is split into `Advance` and `ExpandNeighbors`; together they do what `step()` does, in the same order.
- The shape of the thrown error (an `Error` with a message) is reduced to the single value `SizeMismatch`.
