# A* grid search of A_Star_Pathfinding, modelled and proved in Dafny

A_Star_Pathfinding searches a fixed 38 × 40 board. In the board, 1 marks an open cell and 0 a blocked one. The search runs from a source to a destination with A* over the four orthogonal moves (north, south, east, west). Its state is kept in three structures, all updated in place:

- `closedList`, a Boolean array;
- `cellDetails`, one record per cell with f, g, h and a parent;
- `openList`, a `std::set` of (f, (row, col)) pairs.

The loop pops the least pair and closes its cell. It then examines the cell's four successors in the order N, S, E, W:

- A successor that is the destination gets the popped cell as its parent. The path is then traced and the search returns at once.
- A successor that is not closed and is open is relaxed when its f is the sentinel or strictly larger than the new f.

An empty open list means failure. `tracePath` follows the parent links from the destination back to the self-parented source. It writes 3 into every cell of that chain.

The Dafny project has four modules:

- `Grid` (`grid.dfy`) holds:
  - the board constants;
  - `isValid`, `isUnBlocked` and `isDestination`;
  - the four moves;
  - walks and reachability over the open cells.
- `OpenSet` (`open_list.dfy`) holds the `pPair` ordering and the open list. The open list is a class over a strictly sorted sequence, with `insert`, `empty` and erase-begin.
- `SearchState` (`search_state.dfy`) is the pure abstract state of a search. A `Snapshot` holds the cell table, the closed set and the open entries. The module also has one function per transition it performs and the invariant those transitions keep. It proves what the search rests on:
  - popping and closing keep the invariant;
  - relaxing keeps it;
  - linking the destination makes the table traceable;
  - an exhausted open list encloses the source in a region that no move leaves, which makes the destination unreachable;
  - the parent chain ends at the source, takes one orthogonal step at a time and never repeats a cell.
- `AStar` (`search.dfy`) is the imperative search over `array2` tables and the `OpenList` object.
  - The ghost predicate `Mirrors` ties the arrays to the snapshot. The methods are proved against the `SearchState` functions they carry out:
    - `Expand` against `Step` and its transitions `LinkDest` and `Relax`;
    - `ExpandCell` against `ExpandFrom`;
    - `SearchStep` against `Iterate`, applied to the least open entry;
    - `ParentChain` against the parent-linked chain from the destination, and `TracePath` against `Reverse(TraceChain(...))`;
    - `InitLists` against `Initial`, and `PopAndClose` against `Close`.
  - `MainLoop`, `Search` and `AStarSearch` have no such function. They are specified by what they establish: the loop invariant, a traceable table or unreachability, and the outcome characterised by reachability.
  - `AStarSearch` returns one of the five outcomes. For valid, open and distinct endpoints it is proved to be `Found` exactly when the destination can be reached from the source through open cells. A found path is a walk through open cells with no cell repeated, and the board afterwards holds 3 on that path and its old values elsewhere.
  - Termination is proved with a lexicographic measure: the cells not yet closed, then the size of the open list.

The heuristic `calculateHValue` is a parameter `hv` of type `HValue`. No proof depends on its values.

Three behaviours of the code are easy to miss, and the model keeps all three:

- **The board is mutated.** `tracePath` writes 3 into the board, and `isUnBlocked` tests for exactly 1. A found path therefore blocks the source for the next search. `SolveClickedTwice` proves that a second press of Solve after a found path reports `Blocked`.
- **Unreached cells are not self-parented.** Unreached cells have parent (-1, -1), and only the source is self-parented.
- **A closed cell can be expanded again.** Stale entries of closed cells are popped and their successors examined again. `IterateInv` proves that such a pop changes only the open list.

## Model

| member | source | states |
|---|---|---|
| Grid.IsValid | A_Star_Pathfinding.cpp:54-57 | Definition, no contract: the row lies in [0, ROW) and the column in [0, COL). |
| Grid.IsUnBlocked | A_Star_Pathfinding.cpp:61-64 | Definition, no contract: the board holds exactly 1 at the cell. |
| Grid.IsDestination | A_Star_Pathfinding.cpp:68-71 | Definition, no contract: the cell equals the destination. |
| Grid.ValidIsOnBoard | A_Star_Pathfinding.cpp:54-57 | A cell is valid exactly when it is one of the board's ROW × COL cells. |
| Grid.OpenCellsAreUnBlocked | A_Star_Pathfinding.cpp:61-64 | A cell is in the board's open set exactly when it is valid and holds 1, so 0 and 3 both count as blocked. |
| Grid.Neighbour | A_Star_Pathfinding.cpp:218-222 | The successor in each of the four directions is an orthogonally adjacent cell, different from the cell itself. |
| Grid.WalkStaysInRegion | A_Star_Pathfinding.cpp:627-631 | A walk through open cells that starts inside a region closed under moves never leaves it and never meets the destination. |
| Grid.RegionExcludesDest | A_Star_Pathfinding.cpp:627-631 | Hence the destination is unreachable from any cell of such a region. |
| OpenSet.LessIsStrictTotalOrder | A_Star_Pathfinding.h:34 | The lexicographic (f, row, col) order of `pPair` is irreflexive, transitive, total and asymmetric, so the least entry of the set is unique. |
| OpenSet.OpenList.constructor | A_Star_Pathfinding.cpp:187 | A new open list is empty and sorted. |
| OpenSet.OpenList.IsEmpty | A_Star_Pathfinding.cpp:193 | `empty()` holds exactly when the list stands for the empty set. |
| OpenSet.OpenList.Insert | A_Star_Pathfinding.cpp:189-191 | Insertion adds the entry to the set and keeps the list strictly sorted. Inserting an entry already present leaves the list unchanged. |
| OpenSet.OpenList.PopMin | A_Star_Pathfinding.cpp:197-200 | Erase-begin returns an entry of the set that is strictly less than every other entry, removes exactly that entry and keeps the list sorted. |
| SearchState.Improves | A_Star_Pathfinding.cpp:263-264 | Definition, no contract: the successor is unreached (the `FLT_MAX` sentinel) or its stored f is strictly greater than the new f. |
| SearchState.Initial | A_Star_Pathfinding.cpp:172-191 | Definition, no contract: the table holds only the self-parented source with zero costs, nothing is closed, and the open list is {(0, src)}. |
| SearchState.Close | A_Star_Pathfinding.cpp:197-205 | Definition, no contract: the entry leaves the open list and its cell joins the closed set. |
| SearchState.Relax | A_Star_Pathfinding.cpp:266-274 | Definition, no contract: the successor's record becomes the offered costs with the popped cell as parent, and (f, successor) joins the open list. |
| SearchState.LinkDest | A_Star_Pathfinding.cpp:241-242 | Definition, no contract: only the destination's parent changes, to the popped cell. |
| SearchState.Step | A_Star_Pathfinding.cpp:234-279 | Definition, no contract: one successor block, which finds the destination, relaxes the successor, or changes nothing. |
| SearchState.ExpandFrom | A_Star_Pathfinding.cpp:231-426 | Definition, no contract: the successor blocks from a given direction on, in the order N, S, E, W, stopping at the first that finds the destination. |
| SearchState.Iterate | A_Star_Pathfinding.cpp:193-426 | Definition, no contract: close the popped entry's cell, then run all four successor blocks. |
| SearchState.Chain | A_Star_Pathfinding.cpp:89-97 | The parent links followed from a reached cell up to the first self-parented cell. Its contract says the chain is non-empty and starts at the given cell; its other properties are proved in `ChainFacts`. |
| SearchState.TraceChain | A_Star_Pathfinding.cpp:84-99 | Definition, no contract: the destination followed by the chain from its parent, which is what the first loop of `tracePath` pushes. |
| SearchState.InitialInv | A_Star_Pathfinding.cpp:150-191 | After set-up the invariant holds: nothing is closed, only the source is reached and self-parented, and the open list is {(0, src)}. |
| SearchState.CloseInv | A_Star_Pathfinding.cpp:197-205 | Popping any open entry and closing its cell keeps the invariant. The popped cell is valid, reached and not the destination, and a fully expanded closed cell stays fully expanded. |
| SearchState.RelaxWellLinked | A_Star_Pathfinding.cpp:263-274 | Relaxing a successor from a closed, reached cell keeps every cell's record well linked: unreached, the source's own record, or reached through a closed parent one step away with g one larger. |
| SearchState.RelaxInv | A_Star_Pathfinding.cpp:249-277 | Relaxing a valid, open, unclosed successor that is not the destination and whose f improves keeps the invariant. |
| SearchState.RelaxKeepsDone | A_Star_Pathfinding.cpp:249-277 | After relaxation the successor needs no more work from the popped cell, and every successor already done for a closed cell stays done. Closed records are never touched. |
| SearchState.DoneIffNoRelax | A_Star_Pathfinding.cpp:263-264 | For a closed cell, a successor needs no more work exactly when the relaxation test fails for it. |
| SearchState.LinkDestTraceable | A_Star_Pathfinding.cpp:238-244 | Setting the destination's parent to the popped cell makes the table traceable from the destination, with every reached cell open. |
| SearchState.StepInv | A_Star_Pathfinding.cpp:234-279 | One successor block keeps the invariant and leaves that successor done, or it finds the destination with a traceable table. The closed set and the closed cells' records do not change. |
| SearchState.ExpandFromInv | A_Star_Pathfinding.cpp:234-426 | The successor blocks N, S, E, W in order keep the invariant and leave every closed cell fully expanded, or they stop at the destination with a traceable table whose destination parent is the popped cell. A cell already fully expanded changes nothing. |
| SearchState.IterateInv | A_Star_Pathfinding.cpp:193-426 | One iteration closes the popped cell and keeps the invariant, or finds the destination. Records of closed cells never change, so the source stays self-parented. A stale pop of a closed cell changes nothing but the open list. |
| SearchState.IterateProgress | A_Star_Pathfinding.cpp:193-205 | An iteration that does not find the destination shrinks the set of unclosed cells, or keeps it and shrinks the open list. |
| SearchState.IterateLoop | A_Star_Pathfinding.cpp:193-426 | From a loop state, an iteration finds the destination with a traceable table, or it reaches another loop state that is smaller in the termination order. |
| SearchState.PoppedCell | A_Star_Pathfinding.cpp:197-205 | The entry popped from a loop state names a valid cell that has been reached. |
| SearchState.ExhaustedRegion | A_Star_Pathfinding.cpp:627-631 | With the open list empty, the closed cells contain the source and form a region closed under moves that excludes the destination. |
| SearchState.ExhaustedUnreachable | A_Star_Pathfinding.cpp:627-631 | Hence an empty open list means that no walk through open cells leads from the source to the destination. |
| SearchState.ChainFacts | A_Star_Pathfinding.cpp:89-97 | Parent links followed from any reached cell end at the self-parented source. Each step goes to an orthogonally adjacent reached cell whose g is one less. |
| SearchState.DistinctByG | A_Star_Pathfinding.cpp:89-97 | Cells whose g values all differ are all different cells, so the chain repeats no cell. |
| SearchState.TraceChainFacts | A_Star_Pathfinding.cpp:84-99 | The traced chain starts at the destination, ends at the source, is parent-linked, steps orthogonally and repeats no cell. |
| SearchState.TraceChainLinked | A_Star_Pathfinding.cpp:84-99 | The traced chain is parent-linked from the destination, which is what the first loop of `tracePath` needs. |
| SearchState.Reverse | A_Star_Pathfinding.cpp:100-105 | Popping the whole stack yields its cells in reverse order. |
| SearchState.ReversedLinks | A_Star_Pathfinding.cpp:100-105 | Read backwards, a parent-linked chain has each cell's parent just before it, and consecutive cells are adjacent. |
| SearchState.ReversedChain | A_Star_Pathfinding.cpp:84-105 | The reversed trace chain runs from the source to the destination. Each cell's parent is the preceding cell, each step is orthogonal, and no cell repeats. |
| SearchState.TracedChainIsWalk | A_Star_Pathfinding.cpp:84-105 | The traced path is a walk through open cells from the source to the destination. |
| AStar.Expand | A_Star_Pathfinding.cpp:234-426 | One successor block exactly. A valid destination successor gets the popped cell as parent and is reported found. A valid, unclosed, open successor is relaxed and inserted into the open list when its f improves on the costs `Offered` computes as lines 251-253 do: g one more than the popped cell's, h from the heuristic, f = g + h. Otherwise nothing changes. The arrays follow the new state. |
| AStar.ExpandCell | A_Star_Pathfinding.cpp:228-426 | The four blocks in order N, S, E, W, stopping at the destination. The result is the state `ExpandFrom` computes, and the arrays follow it. |
| AStar.ParentChain | A_Star_Pathfinding.cpp:84-99 | The first loop of `tracePath` terminates and pushes exactly the parent-linked chain from the destination to the self-parented cell. |
| AStar.WritePath | A_Star_Pathfinding.cpp:100-105 | The second loop returns the stack reversed. It writes 3 exactly into the cells of the path and leaves every other cell as it was. |
| AStar.TracePath | A_Star_Pathfinding.cpp:82-105 | `tracePath` returns the reversed parent chain. The chain runs from the source to the destination, each cell's parent is the one before it, each step is orthogonal and no cell repeats. 3 is written exactly on the path. |
| AStar.InitCellDetails | A_Star_Pathfinding.cpp:158-170 | The nested loops leave every record unreached: parent (-1, -1) and no costs. |
| AStar.InitLists | A_Star_Pathfinding.cpp:147-191 | The set-up yields an empty closed list, unreached records except the self-parented source with zero costs, and the open list {(0, src)}. |
| AStar.PopAndClose | A_Star_Pathfinding.cpp:197-205 | The least open entry is removed and its cell marked closed. |
| AStar.SearchStep | A_Star_Pathfinding.cpp:193-426 | One loop iteration pops the open entry that is strictly less than every other, and its result is exactly `Iterate` of the state and that entry. It finds the destination with a traceable table, or it keeps the loop invariant and decreases the termination measure. |
| AStar.MainLoop | A_Star_Pathfinding.cpp:193-625 | The main loop terminates. It links the destination with a traceable table, or it exhausts the open list, which shows the destination unreachable. |
| AStar.Search | A_Star_Pathfinding.cpp:147-634 | For checked endpoints, the search finds a path exactly when the destination is reachable, and otherwise fails with the board unchanged. A found path is a walk without repeated cells, and 3 is written exactly on it. |
| AStar.AStarSearch | A_Star_Pathfinding.cpp:124-634 | The outcome is `Invalid` exactly when an endpoint is off the board. Otherwise it is `Blocked` exactly when an endpoint is not 1, then `AlreadyAtDestination` exactly when the endpoints coincide, then `Found` or `Failed` exactly by reachability. Only `Found` changes the board, by writing 3 on the path. |
| AStar.OnButtonSolveClicked | A_Star_Pathfinding.cpp:636-646 | The search runs from (0, 0) to (ROW-1, COL-1). It is `Blocked` exactly when a corner is not 1, and otherwise `Found` exactly when the corners are connected. A found path marks both corners with 3. |
| AStar.SolveClickedTwice | A_Star_Pathfinding.cpp:124-145 | Because the board is mutated, a second Solve after a found path is `Blocked`. After a blocked or failed one it ends the same way. |

## Left out

- Qt user interface. The window, `updateBoxColor`, the repaint loop in `tracePath` and `displayMessage` are presentation only. Messages become the returned `Outcome`, and the red and green painting of cells is not modelled.
- `onButtonResetClicked`. It builds a random board from `rand` and `time`, so the board is a parameter of every search instead.
- Diagonal successors and `Sleep`. They are commented out in the source and are dead code.
- `calculateHValue`. It computes `sqrt` on doubles and is the parameter `hv`. Nothing is assumed or proved about its values.
- Floating point. g is a `nat`, which is exact: the source only adds 1.0 to small whole numbers. f and h are Dafny `real`s, so a rounded `fNew` is not modelled. The `FLT_MAX` sentinel is the absence of costs (`None`), and a stored f that happens to equal `FLT_MAX` is not modelled.
- AStar.MainLoop: the destination is traced after the loop returns rather than inside it. The effect is the same, since the source returns right after tracing.
- AStar.Search: optimality of the found path is not stated or proved. The search stops as soon as the destination appears as a successor, and only reachability, the walk and non-repetition are proved.
- AStar.AStarSearch: determinism of repeated searches on the same input is not stated beyond `SolveClickedTwice`. The searching functions are deterministic by construction.
