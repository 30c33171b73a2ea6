/**
  aStarSearch, tracePath and onButtonSolveClicked of A_Star_Pathfinding:
  the A* loop over the board with a closed list, a table of cell records and
  an ordered open list, all updated in place. Each array is tied to a
  SearchState.Snapshot, and every step is justified by the lemma about the
  matching transition of that snapshot.
*/
module AStar {
  import opened Wrappers
  import opened Grid
  import opened OpenSet
  import opened SearchState

  /**
    What a search reports in place of the messages it shows through
    `displayMessage`: an endpoint off the board, an endpoint not open, the
    endpoints equal (the three rejections, in the order they are checked),
    a found path, or an exhausted open list.
  */
  datatype Outcome =
    | Invalid
    | Blocked
    | AlreadyAtDestination
    | Found(path: seq<Coord>)
    | Failed

  /** The `cell cellDetails[ROW][COL]` table. */
  predicate TableShape(details: array2<CellRecord>)
  {
    details.Length0 == ROW && details.Length1 == COL
  }

  /** The `bool closedList[ROW][COL]` table. */
  predicate ClosedShape(closed: array2<bool>)
  {
    closed.Length0 == ROW && closed.Length1 == COL
  }

  /** The details array holds exactly the records of table t. */
  ghost predicate TableMirrors(details: array2<CellRecord>, t: Table)
    reads details
  {
    && TableShape(details)
    && forall r, c | 0 <= r < ROW && 0 <= c < COL :: details[r, c] == Rec(t, Coord(r, c))
  }

  /** The closed list, the cell details and the open list hold exactly the snapshot s. */
  ghost predicate Mirrors(closed: array2<bool>, details: array2<CellRecord>, open: OpenList, s: Snapshot)
    reads closed, details, open
  {
    && TableMirrors(details, s.table)
    && ClosedShape(closed)
    && open.Valid() && open.Elements() == s.open
    && forall r, c | 0 <= r < ROW && 0 <= c < COL :: closed[r, c] <==> Coord(r, c) in s.closed
  }

  /**
    One successor block of aStarSearch: the successor n of `cur` in direction
    Directions[i]. When n is valid and the destination, its parent becomes
    `cur`; otherwise, when n is valid, not closed and unblocked, it is relaxed
    if the costs `cur` offers improve on its f. The new state is s' and the
    arrays follow it.
  */
  method Expand(grid: array2<int>, closed: array2<bool>, details: array2<CellRecord>, open: OpenList,
                hv: HValue, ghost board: set<Coord>, dest: Coord, ghost s: Snapshot,
                cur: Coord, i: nat)
    returns (found: bool, relaxed: bool, ghost s': Snapshot)
    requires GridShape(grid) && board == OpenCells(grid)
    requires Mirrors(closed, details, open, s)
    requires IsValid(cur.row, cur.col) && Reached(s.table, cur) && i < |Directions|
    modifies details, open
    ensures var n := Neighbour(cur, Directions[i]);
      && found == (IsValid(n.row, n.col) && IsDestination(n.row, n.col, dest))
      && relaxed == (&& IsValid(n.row, n.col) && !found && n !in s.closed && n in board
                     && Improves(s.table, n, Offered(s.table, hv, dest, cur, n).f))
      && s' == (if found then LinkDest(s, cur, dest)
                else if relaxed then Relax(s, hv, dest, cur, n)
                else s)
    ensures found ==> TableMirrors(details, s'.table)
    ensures !found ==> Mirrors(closed, details, open, s')
    ensures !relaxed ==> open.entries == old(open.entries)
  {
    var n := Neighbour(cur, Directions[i]);
    found, relaxed, s' := false, false, s;
    if IsValid(n.row, n.col) {
      if IsDestination(n.row, n.col, dest) {
        // Set the parent of the destination cell; the caller traces the path.
        details[n.row, n.col] := details[n.row, n.col].(parent := cur);
        found := true;
        s' := LinkDest(s, cur, dest);
      } else {
        OpenCellsAreUnBlocked(grid, n);
        if !closed[n.row, n.col] && IsUnBlocked(grid, n.row, n.col) {
          var gNew := details[cur.row, cur.col].costs.value.g + 1;
          var hNew := hv(n.row, n.col, dest);
          var fNew := gNew as real + hNew;
          if details[n.row, n.col].costs.None? || details[n.row, n.col].costs.value.f > fNew {
            open.Insert(Entry(fNew, n));
            details[n.row, n.col] := CellRecord(cur, Some(Costs(fNew, gNew, hNew)));
            relaxed := true;
            s' := Relax(s, hv, dest, cur, n);
          }
        }
      }
    }
  }

  /**
    The four successor blocks of aStarSearch for the popped cell `cur`, in
    the order N, S, E, W, stopping at the first one that is the destination:
    the state becomes the one ExpandFrom computes, and the arrays follow it.
  */
  method ExpandCell(grid: array2<int>, closed: array2<bool>, details: array2<CellRecord>, open: OpenList,
                    hv: HValue, ghost board: set<Coord>, dest: Coord, ghost s: Snapshot, cur: Coord)
    returns (found: bool, ghost s': Snapshot)
    requires GridShape(grid) && board == OpenCells(grid)
    requires Mirrors(closed, details, open, s)
    requires IsValid(cur.row, cur.col) && Reached(s.table, cur) && cur in s.closed
    modifies details, open
    ensures (found, s') == ExpandFrom(board, hv, dest, s, cur, 0)
    ensures found ==> TableMirrors(details, s'.table)
    ensures !found ==> Mirrors(closed, details, open, s')
  {
    found, s' := false, s;
    var i := 0;
    while i < |Directions|
      invariant 0 <= i <= |Directions|
      invariant ExpandFrom(board, hv, dest, s', cur, i) == ExpandFrom(board, hv, dest, s, cur, 0)
      invariant Mirrors(closed, details, open, s')
      invariant s'.closed == s.closed && Rec(s'.table, cur) == Rec(s.table, cur)
    {
      var relaxed;
      found, relaxed, s' := Expand(grid, closed, details, open, hv, board, dest, s', cur, i);
      if found {
        return;
      }
      i := i + 1;
    }
  }

  /**
    The first loop of tracePath: from `dest`, follow the parent links until a
    self-parented cell, pushing every cell visited, that cell last: the
    parent-linked chain that starts at `dest`.
  */
  method ParentChain(details: array2<CellRecord>, dest: Coord, ghost t: Table, ghost full: seq<Coord>)
    returns (stack: seq<Coord>)
    requires TableMirrors(details, t) && ParentLinked(t, full) && full[0] == dest
    ensures stack == full
  {
    var row, col := dest.row, dest.col;
    stack := [];
    while !(details[row, col].parent.row == row && details[row, col].parent.col == col)
      invariant |stack| < |full| && stack == full[..|stack|] && full[|stack|] == Coord(row, col)
      decreases |full| - |stack|
    {
      stack := stack + [Coord(row, col)];
      var p := details[row, col].parent;
      row, col := p.row, p.col;
    }
    stack := stack + [Coord(row, col)];
  }

  /**
    The second loop of tracePath: pop the stack, writing 3 into each cell.
    Returns the cells in the order they are popped, the stack reversed.
  */
  method WritePath(grid: array2<int>, full: seq<Coord>) returns (path: seq<Coord>)
    requires GridShape(grid)
    requires forall k | 0 <= k < |full| :: IsValid(full[k].row, full[k].col)
    modifies grid
    ensures path == Reverse(full)
    ensures forall r, c | 0 <= r < ROW && 0 <= c < COL ::
      grid[r, c] == if Coord(r, c) in path then PATH else old(grid[r, c])
  {
    var stack := full;
    path := [];
    while stack != []
      invariant |stack| + |path| == |full|
      invariant stack == full[..|stack|]
      invariant forall k | 0 <= k < |path| :: path[k] == full[|full| - 1 - k]
      invariant forall r, c | 0 <= r < ROW && 0 <= c < COL ::
        grid[r, c] == if Coord(r, c) in path then PATH else old(grid[r, c])
    {
      var p := stack[|stack| - 1];
      grid[p.row, p.col] := PATH;
      path := path + [p];
      stack := stack[..|stack| - 1];
    }
  }

  /**
    tracePath: the parent chain from `dest` back to the self-parented source,
    written into the board as 3s and returned source first: every cell's
    parent is the one before it, and no cell repeats.
  */
  method TracePath(details: array2<CellRecord>, grid: array2<int>, dest: Coord, ghost src: Coord, ghost t: Table)
    returns (path: seq<Coord>)
    requires GridShape(grid) && TableMirrors(details, t) && Traceable(t, src, dest)
    modifies grid
    ensures path == Reverse(TraceChain(t, src, dest))
    ensures |path| >= 2 && path[0] == src && path[|path| - 1] == dest
    ensures Par(t, path[0]) == path[0]
    ensures forall k | 0 < k < |path| :: Par(t, path[k]) == path[k - 1]
    ensures forall k | 0 <= k < |path| - 1 :: Adjacent(path[k], path[k + 1]) && Reached(t, path[k])
    ensures forall a, b | 0 <= a < b < |path| :: path[a] != path[b]
    ensures forall r, c | 0 <= r < ROW && 0 <= c < COL ::
      grid[r, c] == if Coord(r, c) in path then PATH else old(grid[r, c])
  {
    ghost var chain := TraceChain(t, src, dest);
    TraceChainLinked(t, src, dest, chain);
    var stack := ParentChain(details, dest, t, chain);
    path := WritePath(grid, stack);
    ReversedChain(t, src, dest, chain, path);
  }

  /** The nested loops that set every cell record to the unreached one. */
  method InitCellDetails() returns (details: array2<CellRecord>)
    ensures fresh(details) && TableMirrors(details, map[])
  {
    details := new CellRecord[ROW, COL];
    for i := 0 to ROW
      invariant forall r, c | 0 <= r < i && 0 <= c < COL :: details[r, c] == Unreached
    {
      for j := 0 to COL
        invariant forall r, c | 0 <= r < i && 0 <= c < COL :: details[r, c] == Unreached
        invariant forall c | 0 <= c < j :: details[i, c] == Unreached
      {
        details[i, j] := Unreached;
      }
    }
  }

  /** Both endpoints pass the first two checks of aStarSearch. */
  ghost predicate EndpointsOpen(grid: array2<int>, src: Coord, dest: Coord)
    reads grid
  {
    && GridShape(grid)
    && IsValid(src.row, src.col) && IsValid(dest.row, dest.col)
    && IsUnBlocked(grid, src.row, src.col) && IsUnBlocked(grid, dest.row, dest.col)
  }

  /**
    The set-up before the main loop: nothing closed, every record unreached
    except the source's, and the open list holding (0, src).
  */
  method InitLists(src: Coord) returns (closed: array2<bool>, details: array2<CellRecord>, open: OpenList)
    requires IsValid(src.row, src.col)
    ensures fresh(closed) && fresh(details) && fresh(open)
    ensures Mirrors(closed, details, open, Initial(src))
  {
    closed := new bool[ROW, COL]((_, _) => false);
    details := InitCellDetails();
    details[src.row, src.col] := SourceRecord(src);
    open := new OpenList();
    open.Insert(Entry(0.0, src));
  }

  /**
    The head of an iteration: pop the least open entry and mark its cell
    closed; the arrays and the open list now mirror the state with that
    entry closed.
  */
  method PopAndClose(closed: array2<bool>, details: array2<CellRecord>, open: OpenList,
                     hv: HValue, ghost board: set<Coord>, ghost src: Coord, ghost dest: Coord, ghost s: Snapshot)
    returns (e: Entry)
    requires s in LoopStates(board, hv, src, dest)
    requires Mirrors(closed, details, open, s) && s.open != {}
    modifies closed, open
    ensures e in s.open && forall x :: x in s.open && x != e ==> Less(e, x)
    ensures IsValid(e.cell.row, e.cell.col) && Reached(s.table, e.cell)
    ensures Mirrors(closed, details, open, Close(s, e))
  {
    e := open.PopMin();
    PoppedCell(board, hv, src, dest, s, e);
    closed[e.cell.row, e.cell.col] := true;
  }

  /**
    One iteration of the main loop: pop the least entry e, close its cell and
    expand it, carrying out Iterate(s, e). Either a successor is the
    destination and the table can be traced, or the arrays hold the next
    state, which is smaller in the loop's termination order.
  */
  method SearchStep(grid: array2<int>, closed: array2<bool>, details: array2<CellRecord>, open: OpenList,
                    hv: HValue, ghost board: set<Coord>, ghost src: Coord, dest: Coord, ghost s: Snapshot)
    returns (found: bool, ghost e: Entry, ghost s': Snapshot)
    requires GridShape(grid) && board == OpenCells(grid)
    requires s in LoopStates(board, hv, src, dest)
    requires Mirrors(closed, details, open, s) && s.open != {}
    modifies closed, details, open
    ensures e in s.open && forall x :: x in s.open && x != e ==> Less(e, x)
    ensures (found, s') == Iterate(board, hv, dest, s, e)
    ensures found ==>
      && Traceable(s'.table, src, dest) && ReachedIn(board, s'.table)
      && TableMirrors(details, s'.table)
    ensures !found ==>
      && s' in LoopStates(board, hv, src, dest)
      && Mirrors(closed, details, open, s')
      && Progress(s, s')
  {
    var p := PopAndClose(closed, details, open, hv, board, src, dest, s);
    e := p;
    var cur := p.cell;
    found, s' := ExpandCell(grid, closed, details, open, hv, board, dest, Close(s, e), cur);
    IterateLoop(board, hv, src, dest, s, e, found, s');
  }

  /**
    The main loop of aStarSearch: it runs until a successor is the
    destination, leaving a traceable table, or until the open list is empty,
    which shows the destination unreachable through the open cells.
  */
  method MainLoop(grid: array2<int>, closed: array2<bool>, details: array2<CellRecord>, open: OpenList,
                  hv: HValue, ghost board: set<Coord>, ghost src: Coord, dest: Coord, ghost s0: Snapshot)
    returns (found: bool, ghost s: Snapshot)
    requires GridShape(grid) && board == OpenCells(grid)
    requires s0 in LoopStates(board, hv, src, dest)
    requires Mirrors(closed, details, open, s0)
    modifies closed, details, open
    ensures found ==>
      && Traceable(s.table, src, dest) && ReachedIn(board, s.table)
      && TableMirrors(details, s.table)
    ensures !found ==> !Reachable(board, src, dest)
  {
    s := s0;
    while !open.IsEmpty()
      invariant s in LoopStates(board, hv, src, dest)
      invariant Mirrors(closed, details, open, s)
      decreases AllCells() - s.closed, |s.open|
    {
      ghost var e;
      found, e, s := SearchStep(grid, closed, details, open, hv, board, src, dest, s);
      if found {
        return;
      }
    }
    ExhaustedUnreachable(board, hv, src, dest, s);
    found := false;
  }

  /**
    The set-up of aStarSearch followed by its main loop, for endpoints that
    passed the three checks. When the loop links the destination, the path
    is traced at once and the search returns it.
  */
  method Search(grid: array2<int>, src: Coord, dest: Coord, hv: HValue) returns (o: Outcome)
    requires EndpointsOpen(grid, src, dest) && src != dest
    modifies grid
    ensures o.Found? || o.Failed?
    ensures o.Found? <==> Reachable(old(OpenCells(grid)), src, dest)
    ensures o.Found? ==>
      && IsWalkBetween(old(OpenCells(grid)), o.path, src, dest)
      && (forall a, b | 0 <= a < b < |o.path| :: o.path[a] != o.path[b])
      && (forall r, c | 0 <= r < ROW && 0 <= c < COL ::
            grid[r, c] == if Coord(r, c) in o.path then PATH else old(grid[r, c]))
    ensures o.Failed? ==> unchanged(grid)
  {
    ghost var board := OpenCells(grid);
    OpenCellsAreUnBlocked(grid, src);
    OpenCellsAreUnBlocked(grid, dest);
    var closed, details, open := InitLists(src);
    InitialInv(board, hv, src, dest);
    var found;
    ghost var s;
    found, s := MainLoop(grid, closed, details, open, hv, board, src, dest, Initial(src));
    if found {
      var path := TracePath(details, grid, dest, src, s.table);
      TracedChainIsWalk(board, s.table, src, dest, path);
      return Found(path);
    }
    return Failed;
  }

  /**
    aStarSearch: the three checks, in this order, then the search. The
    search writes a found path into the board and leaves it unchanged
    otherwise.
  */
  method AStarSearch(grid: array2<int>, src: Coord, dest: Coord, hv: HValue) returns (o: Outcome)
    requires GridShape(grid)
    modifies grid
    ensures o.Invalid? <==> !IsValid(src.row, src.col) || !IsValid(dest.row, dest.col)
    ensures o.Blocked? <==>
      IsValid(src.row, src.col) && IsValid(dest.row, dest.col) && !old(EndpointsOpen(grid, src, dest))
    ensures o.AlreadyAtDestination? <==> old(EndpointsOpen(grid, src, dest)) && src == dest
    ensures o.Found? <==>
      old(EndpointsOpen(grid, src, dest)) && src != dest && Reachable(old(OpenCells(grid)), src, dest)
    ensures o.Failed? <==>
      old(EndpointsOpen(grid, src, dest)) && src != dest && !Reachable(old(OpenCells(grid)), src, dest)
    ensures o.Found? ==>
      && IsWalkBetween(old(OpenCells(grid)), o.path, src, dest)
      && (forall a, b | 0 <= a < b < |o.path| :: o.path[a] != o.path[b])
      && (forall r, c | 0 <= r < ROW && 0 <= c < COL ::
            grid[r, c] == if Coord(r, c) in o.path then PATH else old(grid[r, c]))
    ensures !o.Found? ==> unchanged(grid)
  {
    if !IsValid(src.row, src.col) || !IsValid(dest.row, dest.col) {
      return Invalid;
    }
    if !IsUnBlocked(grid, src.row, src.col) || !IsUnBlocked(grid, dest.row, dest.col) {
      return Blocked;
    }
    if IsDestination(src.row, src.col, dest) {
      return AlreadyAtDestination;
    }
    o := Search(grid, src, dest, hv);
  }

  /** onButtonSolveClicked: search from the top-left corner to the bottom-right one. */
  method OnButtonSolveClicked(grid: array2<int>, hv: HValue) returns (o: Outcome)
    requires GridShape(grid)
    modifies grid
    ensures o.Blocked? || o.Found? || o.Failed?
    ensures o.Blocked? <==> old(grid[0, 0] != OPEN || grid[ROW - 1, COL - 1] != OPEN)
    ensures o.Found? <==> !o.Blocked? && Reachable(old(OpenCells(grid)), Coord(0, 0), Coord(ROW - 1, COL - 1))
    ensures o.Found? ==>
      && IsWalkBetween(old(OpenCells(grid)), o.path, Coord(0, 0), Coord(ROW - 1, COL - 1))
      && grid[0, 0] == PATH && grid[ROW - 1, COL - 1] == PATH
      && (forall r, c | 0 <= r < ROW && 0 <= c < COL ::
            grid[r, c] == if Coord(r, c) in o.path then PATH else old(grid[r, c]))
    ensures !o.Found? ==> unchanged(grid)
  {
    o := AStarSearch(grid, Coord(0, 0), Coord(ROW - 1, COL - 1), hv);
    if o.Found? {
      assert o.path[0] == Coord(0, 0) && o.path[|o.path| - 1] == Coord(ROW - 1, COL - 1);
    }
  }

  /**
    Two presses of the Solve button on the same board: a found path is
    written into the board as 3s, so the second search sees the source as
    blocked; a blocked or failed first search leaves the board as it was, so
    the second one ends the same way.
  */
  method SolveClickedTwice(grid: array2<int>, hv: HValue) returns (first: Outcome, second: Outcome)
    requires GridShape(grid)
    modifies grid
    ensures first.Found? ==> second.Blocked?
    ensures first.Blocked? ==> second.Blocked?
    ensures first.Failed? ==> second.Failed?
  {
    first := OnButtonSolveClicked(grid, hv);
    second := OnButtonSolveClicked(grid, hv);
  }
}
