# Pathfinding visualizer: a verified model of the grid search engine

This project models the grid pathfinding engine of the `PathfindingVisualizer`
React component. It is written in Dafny and covers the following:

- **The grid.** The board has 15 rows and 25 columns of nodes. Each node has a
  type (`empty`, `wall`, `start`, `end`, `path` or `visited`), a distance that may
  be infinite, and a predecessor link.
- **The editing handlers.** These are `resetGrid`, `toggleWall`,
  `handleMouseDown` (which moves the start or end marker, or toggles a wall),
  `handleMouseEnter` (drag painting), `handleMouseUp` and the tool buttons.
- **`visualizeDijkstra`.** A run that no-ops while a run is in progress. A run
  clears the previous marks, then repeats a loop. Each pass stably sorts the
  worklist by distance and shifts off the head. It stops at an infinite head or
  at the end node. Otherwise it settles the head and relaxes its unvisited
  neighbours.
- **`animatePath`.** It follows predecessor links back from the end node.
  It marks every node between the start and the end as a path node. It sets
  the displayed path length to the index of each node it marks.

## Module layout

| file | module | contents |
|---|---|---|
| `grid.dfy` | `Grid` | the shared data model |
| `editing.dfy` | `Editing` | the board-level effect of the editing handlers |
| `worklist.dfy` | `Worklist` | `getAllNodes`, and `sortNodesByDistance` as a stable sort |
| `neighbors.dfy` | `Neighbors` | `getUnvisitedNeighbors`, and `updateUnvisitedNeighbors` as a loop |
| `search.dfy` | `Dijkstra` | the clearing step, the search loop `Search` and its invariant |
| `path.dfy` | `Reconstruction` | `animatePath`: the predecessor walk `CollectPath` and the marking loop `MarkPath` |
| `visualizer.dfy` | `PathfindingVisualizer` | the component state as class `Visualizer` with the handlers as methods, and a run as `Run` |

The shared data model in `Grid` is:

- `Board`, a sequence of rows of `Node` values;
- `Pos`, a node reference;
- `Dist = Inf | Fin(n)`;
- the marker invariant `Markers`;
- walks `IsWalk`.

### Representation choices

- **Node references.** A source node is an object that the grid, the
  worklist and the predecessor links all share. Here a reference is the
  node's position `Pos(row, col)`. The predicate `Shaped` says that the node
  stored at a position carries that position.
- **The flow of a run.** The source mutates one grid in place. The model
  passes the grid as a value from one step to the next and proves each step
  against a function or predicate of the step before.
- **The run is one call.** `Visualizer.VisualizeDijkstra` performs the whole
  search and path animation in one call. It returns the frames the source
  shows, in order: a `VisitFrame` for each node that turns visited, then a
  `PathFrame` for each node that turns into a path node. This is safe
  because, while `isRunning` is set:
  - `handleMouseDown` and `handleMouseEnter` return at once;
  - the Reset and Visualize buttons are disabled;
  - the only handlers that still act are `handleMouseUp` (also bound to
    leaving the grid) and the tool buttons; they change `mouseIsPressed`
    and `tool`, which the run never reads.

### What is proved

- **The component.**
  - Every handler of `Visualizer` keeps the marker invariant: exactly one
    start node and one end node, at `startNode` and `endNode`.
  - A run's outcome is stated by the predicates `Completed` and
    `RunOutcome`.
- **Settled nodes.**
  - The settled nodes begin at the start and never get closer.
  - No walk from the start to a settled node is shorter than its distance,
    as the lemmas `HeadLower` and `SettleBounds` show. Its predecessor chain
    is a walk of exactly that length (`SettledReachable`).
  - The head is always the closest unsettled node. So when the end is
    reached, every node strictly closer to the start is settled before it
    (`ReachedCloser`). When the search stops without the end, every node
    reachable from the start is settled (`Trapped`).
  - Hence the visited frames show exactly the settled nodes that were empty
    after clearing, and they include every such node closer than the end, or
    every reachable one when the end is not reached (`VisitedCoverage`).
- **Types.** Walls stay in place. Walls are never visited, relaxed or marked.
  Each node ends with the type `RunType` gives it.
- **The path.**
  - The path is empty exactly when no walk leads from the start to the end.
  - Otherwise it is a shortest such walk: its i-th node is at distance i,
    each node is adjacent to the next, and no node appears twice.
- **The counters.**
  - `visitedCount` grows by the number of nodes turned visited.
  - `pathLength` ends as the path's node count minus 2, or keeps its old
    value when the path has no intermediate node.

### Behaviour of the code worth knowing

- **Relaxation.** The code overwrites a neighbour's distance and predecessor
  unconditionally (lines 180-181). `Dijkstra.RelaxNeverRaises` proves that the
  overwrite never raises a distance. An unsettled neighbour of the settled node
  is no closer than that node, and has the opposite checkerboard parity, so it
  is strictly further. An improving-only relaxation would therefore give the
  same distances. Only the predecessor can differ, because on a tie the code
  keeps the node settled later.
- **Moving a marker onto a wall.** The code overwrites the wall (lines 64
  and 70). A press at either marker's position is refused whatever the tool
  (line 59). With the wall tool that means the press neither toggles a wall
  nor sets the pressed flag, so a drag that starts on a marker paints nothing.
- **Ties between nodes at equal distance.** Each pass stably sorts the
  shifted remainder of the previous pass's sorted list. Ties are therefore
  broken by that earlier order, which is row-major only on the first pass.
  `Worklist.SortStable` states the stability.
- **Reset during a run.** The Reset button is disabled while a run is in
  progress (line 231), so a run is never interrupted.
- **The counters across runs.** `visitedCount` and `pathLength` are reset only
  by `resetGrid`. A second run adds its visited nodes to the count. A run
  without intermediate path nodes leaves the old path length shown.
- **The displayed path length.** The path length shown is the index of the
  last intermediate node (line 156). That is the node count minus 2, one less
  than the number of steps from the start to the end. A path of 16 steps, such
  as the straight one on the initial empty board, shows 15.

## Model

Source paths are relative to the repository root; the line numbers are those of
`components/PathfindingVisualizer.tsx`.

| member | source | states |
|---|---|---|
| Editing.FreshGrid | components/PathfindingVisualizer.tsx:32-50 | the grid built has 15 rows of 25 nodes; the node at each position carries that position, the type `FreshType` gives it (start if it is the start position, else end if it is the end position, else empty), an infinite distance and no predecessor |
| Editing.FreshGridMarkers | components/PathfindingVisualizer.tsx:37-47 | for distinct in-bounds markers, the fresh grid has exactly one start node and one end node, at the marker positions, every other node is empty, and all distances are infinite with null predecessors |
| Editing.ToggledType | components/PathfindingVisualizer.tsx:91-92 | a start or end type is kept, a wall becomes empty, and every other type (empty, visited, path) becomes a wall |
| Editing.Toggled | components/PathfindingVisualizer.tsx:88-95 | the board after `toggleWall`: the toggled node gets the `ToggledType` of its type (a marker keeps it), and every other node is unchanged |
| Editing.MovedMarker | components/PathfindingVisualizer.tsx:61-72 | the board after a marker move: the target gets the marker type whatever it held, the old marker node becomes empty, and every other node is unchanged |
| Editing.ToggledEffect | components/PathfindingVisualizer.tsx:88-95 | `toggleWall` turns a wall empty and an empty, visited or path node into a wall, leaves a start or end node and the whole grid unchanged, only ever changes the type of the toggled node, and changes no other node |
| Editing.ToggleTwice | components/PathfindingVisualizer.tsx:88-95 | toggling an empty node or a wall twice gives back the same grid |
| Editing.ToggleKeepsMarkers | components/PathfindingVisualizer.tsx:88-95 | toggling any node keeps exactly one start and one end node where they were |
| Editing.MoveStartKeepsMarkers | components/PathfindingVisualizer.tsx:61-66 | moving the start to a node that holds neither marker leaves exactly one start node, at the target, whatever the target held (a wall included), the end in place, the old start node empty, and every other node unchanged |
| Editing.MoveEndKeepsMarkers | components/PathfindingVisualizer.tsx:67-72 | the same for moving the end node |
| Worklist.RowMajorScan | components/PathfindingVisualizer.tsx:163-171 | the row-major listing holds every in-bounds position exactly once, each strictly before every later one in row-then-column order |
| Worklist.GetAllNodes | components/PathfindingVisualizer.tsx:163-171 | the nested loop pushes the nodes of the grid in exactly the row-major order |
| Worklist.Insert | components/PathfindingVisualizer.tsx:174 | inserting a node into the list adds exactly that node: the result is a permutation of the list plus the node |
| Worklist.InsertSorted | components/PathfindingVisualizer.tsx:174 | inserting into a list sorted by distance (infinity last) keeps it sorted |
| Worklist.SortByDistance | components/PathfindingVisualizer.tsx:173-175 | `sortNodesByDistance` returns a permutation of its input, ordered by distance with infinite distances last |
| Worklist.InsertStable | components/PathfindingVisualizer.tsx:174 | inserting keeps the relative order of the nodes at every distance, the inserted node ahead of the equal ones it is put in front of |
| Worklist.SortStable | components/PathfindingVisualizer.tsx:173-175 | the sort is stable: for every distance, the nodes at that distance appear in the same order before and after sorting |
| Worklist.PermutationNoDup | components/PathfindingVisualizer.tsx:118-119 | a permutation of a list without duplicates has none, so the sorted worklist never holds a node twice |
| Neighbors.Candidates | components/PathfindingVisualizer.tsx:188-191 | the pushed candidates are exactly the in-bounds orthogonal neighbours, in the order up, down, left, right |
| Neighbors.KeepUnvisited | components/PathfindingVisualizer.tsx:192 | the filter keeps exactly the elements whose node is neither visited, nor a wall, nor the start |
| Neighbors.KeepUnvisitedOrder | components/PathfindingVisualizer.tsx:192 | the filter keeps the up, down, left, right order |
| Neighbors.GetUnvisitedNeighbors | components/PathfindingVisualizer.tsx:185-193 | the result is exactly the in-bounds orthogonal neighbours that are not visited, not a wall and not the start, each once, in the order up, down, left, right |
| Neighbors.UpdateUnvisitedNeighbors | components/PathfindingVisualizer.tsx:177-183 | after the loop, every unvisited neighbour of the settled node has its distance plus one and the settled node as predecessor, unconditionally, and no other node and no type has changed |
| Dijkstra.ClearedType | components/PathfindingVisualizer.tsx:104 | the clearing never leaves a visited or path type, keeps every other type, and gives empty exactly to empty, visited and path nodes |
| Dijkstra.Prepare | components/PathfindingVisualizer.tsx:102-112 | the grid the loop starts from: each node has its cleared type and a null predecessor, the start is at distance 0 and every other node at infinite distance |
| Dijkstra.SettledType | components/PathfindingVisualizer.tsx:123 | settling turns an empty node visited and keeps every other type |
| Dijkstra.Cleared | components/PathfindingVisualizer.tsx:102-107 | the clearing map turns visited and path nodes empty, keeps every other type and the position, and sets every distance infinite and every predecessor null |
| Dijkstra.PrepareIsPrepared | components/PathfindingVisualizer.tsx:102-112 | after clearing and setting the start's distance to 0, the markers are in place, no node is visited or a path node, all predecessors are null, and every distance but the start's is infinite |
| Dijkstra.HeadFacts | components/PathfindingVisualizer.tsx:117-119 | the sorted worklist has as many nodes as before, none twice; its head is not yet settled and is no further than any unsettled node, and on the first pass it is the start at distance 0; the shifted list holds exactly the other unsettled nodes |
| Dijkstra.HeadLower | components/PathfindingVisualizer.tsx:117-120 | the head's distance is at most the length of every walk from the start to it |
| Dijkstra.SettleTypes | components/PathfindingVisualizer.tsx:123 | settling the head turns it visited if it was empty, keeps every other type and changes no distance or predecessor |
| Dijkstra.SettleChain | components/PathfindingVisualizer.tsx:123 | settling keeps the predecessor links well formed |
| Dijkstra.SettleBounds | components/PathfindingVisualizer.tsx:117-124 | adding the head to the settled nodes keeps their distances non-decreasing and each at most the length of every walk to it |
| Dijkstra.SettleFrames | components/PathfindingVisualizer.tsx:124-131 | a visited frame is added exactly when the settled node was empty |
| Dijkstra.SettleSettlement | components/PathfindingVisualizer.tsx:117-131 | settling the head turns the settlement facts for the settled nodes into those for the settled nodes plus the head |
| Dijkstra.SettleHead | components/PathfindingVisualizer.tsx:117-131 | the settlement facts after settling the head, with the frame count one per node turned visited |
| Dijkstra.SettleRest | components/PathfindingVisualizer.tsx:117-131 | after settling, the shifted worklist is exactly the unsettled nodes, none closer than the head, and no settled node is further |
| Dijkstra.SettleKeepsDistances | components/PathfindingVisualizer.tsx:123 | settling changes only a type, so every distance stays as it was |
| Dijkstra.SameDistances | components/PathfindingVisualizer.tsx:123 | the parity and frontier facts depend only on the distances, so they carry over to a grid with the same distances |
| Dijkstra.Settle | components/PathfindingVisualizer.tsx:117-131 | settling the head at a finite distance establishes `HeadSettled` |
| Dijkstra.RelaxChain | components/PathfindingVisualizer.tsx:177-183 | relaxing from the settled node keeps the links well formed: every non-start node at finite distance n has an adjacent settled predecessor at distance n - 1 |
| Dijkstra.RelaxParity | components/PathfindingVisualizer.tsx:180 | after relaxing, every finite distance still has the parity of the node's checkerboard distance from the start |
| Dijkstra.RelaxFrontier | components/PathfindingVisualizer.tsx:177-183 | after relaxing, every unsettled non-wall neighbour of a settled node is at most one step further than it |
| Dijkstra.RelaxNeverRaises | components/PathfindingVisualizer.tsx:180-181 | the unconditional overwrite never raises a distance |
| Dijkstra.SettledTypes | components/PathfindingVisualizer.tsx:123 | settled nodes are visited or the start, unsettled ones relaxable or walls, and the walls are those of the cleared grid |
| Dijkstra.RelaxSettlement | components/PathfindingVisualizer.tsx:177-183 | relaxing changes no settled node and no type, so the settlement facts are kept |
| Dijkstra.RelaxHead | components/PathfindingVisualizer.tsx:138 | relaxing from the settled head when it is not the end restores the loop invariant, with the head's distance as the new floor |
| Dijkstra.SearchStart | components/PathfindingVisualizer.tsx:112-115 | the loop invariant holds with every node in the worklist and nothing settled |
| Dijkstra.Step | components/PathfindingVisualizer.tsx:117-138 | one pass that neither stops nor reaches the end keeps the loop invariant |
| Dijkstra.Trapped | components/PathfindingVisualizer.tsx:120 | at an infinite head, every unsettled node is at infinite distance and every walk from the start ends at a settled node, the end not among them |
| Dijkstra.Reached | components/PathfindingVisualizer.tsx:133-135 | when the head is the end node, settling it ends the search with the end the last settled node and no visited frame for it |
| Dijkstra.CloserSettled | components/PathfindingVisualizer.tsx:117-119 | with the head the closest unsettled node, every walk from the start with fewer steps than the head's distance ends at a settled node |
| Dijkstra.ReachedCloser | components/PathfindingVisualizer.tsx:117-135 | when the head is the end node, the end is at a finite distance and every walk from the start with fewer steps ends at a node settled before it |
| Dijkstra.NewlyVisitedMembers | components/PathfindingVisualizer.tsx:123-131 | a node is animated as visited exactly when it is settled and was empty |
| Dijkstra.SettledNotWall | components/PathfindingVisualizer.tsx:121-123 | no settled node is a wall |
| Dijkstra.Search | components/PathfindingVisualizer.tsx:114-139 | the loop terminates; the settled order starts at the start, has no duplicates and non-decreasing distances, each at most the length of every walk from the start to it, with well-formed predecessor links; the end is reached exactly when it is settled, then last, and then every walk from the start with fewer steps than the end's distance ends at a settled node; otherwise no walk reaches an unsettled node; walls never become visited and keep infinite distance (so the wall `continue` is never taken); frames are the nodes turned visited |
| Reconstruction.ChainFrom | components/PathfindingVisualizer.tsx:146-149 | the nodes met by following predecessor links back from a node to the start, start first: never empty, beginning at the start and ending at the node |
| Reconstruction.ChainShape | components/PathfindingVisualizer.tsx:146-149 | following links from a node at finite distance n gives n + 1 nodes from the start to that node, the i-th at distance i |
| Reconstruction.SettledReachable | components/PathfindingVisualizer.tsx:146-149 | every settled node is reached from the start by a walk with exactly its distance many steps, its predecessor chain |
| Reconstruction.ChainSteps | components/PathfindingVisualizer.tsx:146-149 | along that chain every node but the last is settled and orthogonally adjacent to the next |
| Reconstruction.ChainBack | components/PathfindingVisualizer.tsx:146-148 | the start has a null predecessor and ends the walk; any other node's chain is its predecessor's chain followed by it, the predecessor strictly closer |
| Reconstruction.CollectPath | components/PathfindingVisualizer.tsx:144-149 | the `unshift` loop terminates with end-distance plus one nodes from the start to the end, the i-th at distance i, each settled but the last and adjacent to the next |
| Reconstruction.PathNoDup | components/PathfindingVisualizer.tsx:144-149 | nodes at pairwise distinct distances are pairwise distinct, so the path repeats no node |
| Reconstruction.NotYetMarked | components/PathfindingVisualizer.tsx:151-153 | at step i of the marking loop the node is not yet marked, and is the start exactly at i = 0 and the end exactly at the last step |
| Reconstruction.AllMarked | components/PathfindingVisualizer.tsx:151-159 | the nodes marked are the intermediate nodes of the path, in order, and exactly its nodes other than the start and end |
| Reconstruction.MarkPath | components/PathfindingVisualizer.tsx:151-159 | the marking loop turns exactly the intermediate nodes into path nodes, changes nothing else, and leaves the path length at the index of the last one (the node count minus 2), or unchanged when there is none |
| Reconstruction.AnimatePath | components/PathfindingVisualizer.tsx:143-161 | the reconstructed path runs from the start to the end through end-distance plus one non-wall nodes, adjacent and without repetition; every node strictly between is marked a path node and nothing else changes; the path length is as in `MarkPath` |
| PathfindingVisualizer.VisitFrames | components/PathfindingVisualizer.tsx:127-131 | one visited frame per node turned visited, at that node, in order |
| PathfindingVisualizer.PathFrames | components/PathfindingVisualizer.tsx:153-157 | one path frame per marked node, at that node, the j-th setting the path length to j + 1, the node's index in the path |
| PathfindingVisualizer.Frames | components/PathfindingVisualizer.tsx:124-157 | the frames of a run in the order shown: all visited frames first, for the visited nodes, then the path frames, for the marked nodes |
| PathfindingVisualizer.SameWallsSameWalks | components/PathfindingVisualizer.tsx:192 | whether a sequence of nodes is a walk depends only on where the walls are |
| PathfindingVisualizer.SearchKeepsWalls | components/PathfindingVisualizer.tsx:102-107 | clearing and searching keep the walls, and give every node its cleared type, visited when it was empty and got settled |
| PathfindingVisualizer.ReachedShortest | components/PathfindingVisualizer.tsx:143-149 | when the end is reached, the reconstructed path is a shortest walk from the start to the end on the grid the run began with |
| PathfindingVisualizer.TrappedUnreachable | components/PathfindingVisualizer.tsx:120 | when the search stops at an infinite head, no walk leads from the start to the end |
| PathfindingVisualizer.MarkingTypes | components/PathfindingVisualizer.tsx:151-155 | marking keeps the walls and the distances, and every node gets its `RunType` |
| PathfindingVisualizer.RunSettledShortest | components/PathfindingVisualizer.tsx:114-139 | every settled node is at its shortest distance on the grid the run began with: some walk reaches it in exactly that many steps and none in fewer |
| PathfindingVisualizer.SameDistancesShortest | components/PathfindingVisualizer.tsx:151-157 | marking path nodes, which changes no distance, keeps the settled order non-decreasing and every settled node at its shortest distance |
| PathfindingVisualizer.ReachedCovered | components/PathfindingVisualizer.tsx:117-135 | when the end is reached, every walk on the original grid with fewer nodes than the path ends at a settled node |
| PathfindingVisualizer.ReachedOutcome | components/PathfindingVisualizer.tsx:143-160 | a run that reaches the end satisfies `RunOutcome` with the reconstructed path, including that every node closer than the end is settled and every settled node is at its shortest distance |
| PathfindingVisualizer.TrappedOutcome | components/PathfindingVisualizer.tsx:117-120 | a run that stops without the end satisfies `RunOutcome` with an empty path, including that every reachable node is settled and every settled node is at its shortest distance |
| PathfindingVisualizer.VisitedCoverage | components/PathfindingVisualizer.tsx:117-131 | in a completed run the visited frames are exactly the settled nodes that were empty after clearing, and include every such node a walk from the start reaches with fewer nodes than the path, or with any number of nodes when there is no path |
| PathfindingVisualizer.OutcomeMarkers | components/PathfindingVisualizer.tsx:153 | a run keeps exactly one start and one end node, where they were |
| PathfindingVisualizer.Run | components/PathfindingVisualizer.tsx:97-161 | a run satisfies `Completed`: settled order from the start, non-decreasing, each settled node at its shortest distance; every node closer than the end settled when the end is reached, every reachable node settled otherwise; walls kept; every node of its `RunType`; the path empty exactly when the end is unreachable, else a shortest walk with the end settled last; markers kept; visited frames for the settled nodes that were empty; path frames for the intermediate path nodes; the path length the node count minus 2, or unchanged |
| PathfindingVisualizer.Visualizer.constructor | components/PathfindingVisualizer.tsx:19-30 | the initial state: start (7, 4), end (7, 20), the wall tool, flags false, counters 0 and the grid `resetGrid` builds on mount |
| PathfindingVisualizer.Visualizer.ResetGrid | components/PathfindingVisualizer.tsx:32-55 | the nested loops build exactly `FreshGrid` for the current markers, the counters become 0 and the running flag false, and the markers, tool and mouse flag are kept; as the new state depends only on what is kept, a second call changes nothing |
| PathfindingVisualizer.Visualizer.ToggleWall | components/PathfindingVisualizer.tsx:88-95 | the grid becomes `Toggled` at the node, nothing else changes, and the marker invariant holds |
| PathfindingVisualizer.Visualizer.HandleMouseDown | components/PathfindingVisualizer.tsx:57-77 | nothing changes while running or on a marker's node; with the start or end tool the marker moves there by `MovedMarker`; with the wall tool the node is toggled and the mouse flag set; the marker invariant holds |
| PathfindingVisualizer.Visualizer.HandleMouseEnter | components/PathfindingVisualizer.tsx:79-82 | the wall is toggled exactly when the mouse is pressed, no run is in progress and the tool is the wall tool; otherwise nothing changes |
| PathfindingVisualizer.Visualizer.HandleMouseUp | components/PathfindingVisualizer.tsx:84-86 | only the pressed flag changes, to false, and the marker invariant holds |
| PathfindingVisualizer.Visualizer.SetTool | components/PathfindingVisualizer.tsx:204-224 | only the tool changes, and the marker invariant holds |
| PathfindingVisualizer.Visualizer.VisualizeDijkstra | components/PathfindingVisualizer.tsx:97-141 | nothing changes while a run is in progress; otherwise the run from the current grid and markers is `Completed` (so every empty node closer than the end, or every reachable one, is shown visited, by `VisitedCoverage`), the grid becomes the one it leaves, the frames are its visited then path frames in order, `visitedCount` grows by one per visited frame, `pathLength` is set as the last path frame sets it, and the running flag ends false |
| PathfindingVisualizer.Visualizer.Finish | components/PathfindingVisualizer.tsx:156-160 | the end of a run: the grid it left, the visited count increased, the final path length, and no run in progress |

## Left out

- `components/PIDTuner.tsx` and the other components (backgrounds, contact
  form, resume download, cursor, static pages) are not part of this model.
  They are floating-point simulation, rendering or DOM plumbing.
- Timing and rendering (lines 130, 157 and the JSX at lines 195-285) are left
  out. The `await` delays and the `setGrid([...])` re-render copies are
  replaced by the ordered list of frames a run returns.
- The interleaving of `handleMouseUp` and the tool buttons with a run in
  progress is left out. The run is one atomic call. Those handlers only
  change the pressed flag and the tool, which the run does not read.
- Aliasing between node objects is not modelled. The grid copies
  `[...grid]` share their node objects. Here a node reference is a position
  and the grid a value, and each handler replaces the component's grid with
  the new one, as the source's `setGrid` does.
- `Array.prototype.sort` is modelled by an insertion sort. The library's
  algorithm is not visible. The model proves its sort is a permutation,
  ordered by distance and stable, and any stable sort gives the same result.
  That uniqueness is not itself proved here.
- `Dijkstra.Search`: does not name which of several nodes at equal distance
  is settled first. The run's outcome is stated for any such choice, and the
  order follows from `Worklist.SortStable` applied on every pass.
- A run on a concrete board, such as the initial empty board, is not
  evaluated. The results are stated for every board.
- The source's `Infinity` arithmetic is not modelled beyond `Dist`. The
  comparator subtracts distances, and `Infinity - Infinity` is `NaN`, which
  the sort reads as equal. The model orders `Dist` with `Inf` last and
  treats two infinite distances as equal.
