/**
  The state of aStarSearch as values: the table of cell records, the set of
  closed cells and the set of open-list entries, together with the steps that
  change it (close a popped cell, relax a successor, link the destination) and
  the invariant every step keeps.
*/
module SearchState {
  import opened Wrappers
  import opened Grid
  import opened OpenSet

  /** The three costs of a cell: f = g + h, g the steps from the source, h the heuristic value. */
  datatype Costs = Costs(f: real, g: nat, h: real)

  /**
    The header's `cell`: a parent and the costs. The source's FLT_MAX
    sentinel on f, g and h is `costs == None`.
  */
  datatype CellRecord = CellRecord(parent: Coord, costs: Option<Costs>)

  /** The record every cell gets before the search: parent (-1, -1), costs FLT_MAX. */
  const Unreached: CellRecord := CellRecord(Coord(-1, -1), None)

  /** The source's record: f = g = h = 0 and its own parent. */
  function SourceRecord(src: Coord): CellRecord
  {
    CellRecord(src, Some(Costs(0.0, 0, 0.0)))
  }

  /** calculateHValue, a parameter of the model: (row, col, dest) to h. */
  type HValue = (int, int, Coord) -> real

  /** The cell table: a record per coordinate, Unreached where none is stored. */
  type Table = map<Coord, CellRecord>

  function Rec(t: Table, x: Coord): CellRecord
  {
    if x in t then t[x] else Unreached
  }

  /** The cell holds real costs rather than the sentinel. */
  predicate Reached(t: Table, x: Coord)
  {
    Rec(t, x).costs.Some?
  }

  function G(t: Table, x: Coord): nat
  {
    if Reached(t, x) then Rec(t, x).costs.value.g else 0
  }

  function F(t: Table, x: Coord): real
  {
    if Reached(t, x) then Rec(t, x).costs.value.f else 0.0
  }

  function Par(t: Table, x: Coord): Coord
  {
    Rec(t, x).parent
  }

  /** A reached cell's parent is a valid, reached neighbour one step closer to the source. */
  predicate LinksToParent(t: Table, x: Coord)
  {
    && IsValid(Par(t, x).row, Par(t, x).col)
    && Adjacent(Par(t, x), x)
    && Reached(t, Par(t, x))
    && G(t, x) == G(t, Par(t, x)) + 1
  }

  /**
    What tracePath needs of the table once the destination has been linked:
    the source is self-parented, every other reached cell links to a parent
    one step closer, and the destination's parent is such a cell.
  */
  ghost predicate Traceable(t: Table, src: Coord, dest: Coord)
  {
    && IsValid(src.row, src.col) && IsValid(dest.row, dest.col) && src != dest
    && Rec(t, src) == SourceRecord(src)
    && (forall x | Reached(t, x) :: IsValid(x.row, x.col) && (x != src ==> LinksToParent(t, x)))
    && !Reached(t, dest)
    && IsValid(Par(t, dest).row, Par(t, dest).col)
    && Adjacent(Par(t, dest), dest)
    && Reached(t, Par(t, dest))
  }

  /** Every reached cell is an open cell of the board. */
  ghost predicate ReachedIn(board: set<Coord>, t: Table)
  {
    forall x | Reached(t, x) :: x in board
  }

  /** The search's abstract state: cell table, closed cells and open-list entries. */
  datatype Snapshot = Snapshot(table: Table, closed: set<Coord>, open: set<Entry>)

  /** The state of one cell x: the source record, or unreached, or reached through a closed parent. */
  ghost predicate WellLinked(board: set<Coord>, hv: HValue, src: Coord, dest: Coord, s: Snapshot, x: Coord)
  {
    var t := s.table;
    if x == src then Rec(t, x) == SourceRecord(src)
    else
      Rec(t, x) == Unreached ||
      (&& Reached(t, x)
       && x in board
       && Rec(t, x).costs.value.h == hv(x.row, x.col, dest)
       && F(t, x) == G(t, x) as real + Rec(t, x).costs.value.h
       && LinksToParent(t, x)
       && Par(t, x) in s.closed)
  }

  /** What holds of the state at the head of every iteration of the main loop. */
  ghost predicate Inv(board: set<Coord>, hv: HValue, src: Coord, dest: Coord, s: Snapshot)
  {
    && OnBoard(board)
    && src in board && dest in board && src != dest
    && (forall x | x in s.table :: IsValid(x.row, x.col))
    && (forall x | x in s.closed :: IsValid(x.row, x.col) && Reached(s.table, x))
    && (forall x: Coord | IsValid(x.row, x.col) :: WellLinked(board, hv, src, dest, s, x))
    && Rec(s.table, dest) == Unreached
    && (forall x | Reached(s.table, x) && x !in s.closed :: Entry(F(s.table, x), x) in s.open)
    && (forall e | e in s.open :: IsValid(e.cell.row, e.cell.col) && Reached(s.table, e.cell))
    && (s.closed == {} ==> s.open == {Entry(0.0, src)})
    && (s.closed != {} ==> src in s.closed)
  }

  /** The costs a closed cell `cur` offers its neighbour `n`: g + 1, h from the heuristic, f = g + h. */
  function Offered(t: Table, hv: HValue, dest: Coord, cur: Coord, n: Coord): Costs
  {
    var g := G(t, cur) + 1;
    var h := hv(n.row, n.col, dest);
    Costs(g as real + h, g, h)
  }

  /** The relaxation test: the stored f is the sentinel or strictly greater than `fNew`. */
  predicate Improves(t: Table, n: Coord, fNew: real)
  {
    !Reached(t, n) || F(t, n) > fNew
  }

  /**
    Successor `n` of the closed cell `c` needs no more work: it is not the
    destination, and when it is open and not closed it is reached with a g
    no larger than c's g + 1.
  */
  ghost predicate NeighbourDone(board: set<Coord>, dest: Coord, s: Snapshot, c: Coord, n: Coord)
  {
    IsValid(n.row, n.col) ==>
      n != dest &&
      (n !in s.closed && n in board ==> Reached(s.table, n) && G(s.table, n) <= G(s.table, c) + 1)
  }

  /** The first k successors of `c` need no more work. */
  ghost predicate ExpandedUpTo(board: set<Coord>, dest: Coord, s: Snapshot, c: Coord, k: nat)
  {
    forall i | 0 <= i < k && i < |Directions| :: NeighbourDone(board, dest, s, c, Neighbour(c, Directions[i]))
  }

  ghost predicate FullyExpanded(board: set<Coord>, dest: Coord, s: Snapshot, c: Coord)
  {
    ExpandedUpTo(board, dest, s, c, |Directions|)
  }

  ghost predicate AllExpandedExcept(board: set<Coord>, dest: Coord, s: Snapshot, cur: Coord)
  {
    forall c | c in s.closed && c != cur :: FullyExpanded(board, dest, s, c)
  }

  /** The state after the cell details and the open list are initialised. */
  function Initial(src: Coord): Snapshot
  {
    Snapshot(map[src := SourceRecord(src)], {}, {Entry(0.0, src)})
  }

  /** Pop entry e and close its cell. */
  function Close(s: Snapshot, e: Entry): Snapshot
  {
    s.(closed := s.closed + {e.cell}, open := s.open - {e})
  }

  /** Relax successor n of cur: store cur as its parent with the offered costs and open it. */
  function Relax(s: Snapshot, hv: HValue, dest: Coord, cur: Coord, n: Coord): Snapshot
  {
    var k := Offered(s.table, hv, dest, cur, n);
    s.(table := s.table[n := CellRecord(cur, Some(k))], open := s.open + {Entry(k.f, n)})
  }

  /** The destination was found as a successor of cur: only its parent changes. */
  function LinkDest(s: Snapshot, cur: Coord, dest: Coord): Snapshot
  {
    s.(table := s.table[dest := Rec(s.table, dest).(parent := cur)])
  }

  /**
    One successor block for the popped cell `cur`: successor Directions[i] is
    the destination (found; only its parent changes), or it is relaxed, or
    nothing changes.
  */
  function Step(board: set<Coord>, hv: HValue, dest: Coord, s: Snapshot, cur: Coord, i: nat): (bool, Snapshot)
    requires i < |Directions|
  {
    var n := Neighbour(cur, Directions[i]);
    if IsValid(n.row, n.col) && IsDestination(n.row, n.col, dest) then (true, LinkDest(s, cur, dest))
    else if && IsValid(n.row, n.col) && n !in s.closed && n in board
            && Improves(s.table, n, Offered(s.table, hv, dest, cur, n).f)
    then (false, Relax(s, hv, dest, cur, n))
    else (false, s)
  }

  /** The successor blocks Directions[i..] in order, stopping at the destination. */
  function ExpandFrom(board: set<Coord>, hv: HValue, dest: Coord, s: Snapshot, cur: Coord, i: nat): (bool, Snapshot)
    decreases |Directions| - i
  {
    if i >= |Directions| then (false, s)
    else
      var (found, next) := Step(board, hv, dest, s, cur, i);
      if found then (true, next) else ExpandFrom(board, hv, dest, next, cur, i + 1)
  }

  /** The initial state satisfies the invariant. */
  lemma InitialInv(board: set<Coord>, hv: HValue, src: Coord, dest: Coord)
    requires OnBoard(board) && src in board && dest in board && src != dest
    ensures Inv(board, hv, src, dest, Initial(src))
  {
    var s := Initial(src);
    forall x | Reached(s.table, x) && x !in s.closed
      ensures Entry(F(s.table, x), x) in s.open
    {
      assert x == src;
    }
  }

  /**
    Popping any open entry and closing its cell keeps the invariant; the popped
    cell is a valid, reached cell, and every successor already done stays done.
  */
  lemma CloseInv(board: set<Coord>, hv: HValue, src: Coord, dest: Coord, s: Snapshot, e: Entry)
    requires Inv(board, hv, src, dest, s) && e in s.open
    ensures IsValid(e.cell.row, e.cell.col) && Reached(s.table, e.cell) && e.cell != dest
    ensures Inv(board, hv, src, dest, Close(s, e))
    ensures forall c | c in s.closed && FullyExpanded(board, dest, s, c) :: FullyExpanded(board, dest, Close(s, e), c)
  {
    var s' := Close(s, e);
    forall x: Coord | IsValid(x.row, x.col)
      ensures WellLinked(board, hv, src, dest, s', x)
    {
      assert WellLinked(board, hv, src, dest, s, x);
    }
    forall x | Reached(s'.table, x) && x !in s'.closed
      ensures Entry(F(s'.table, x), x) in s'.open
    {
      assert Entry(F(s.table, x), x) in s.open;
    }
    if s.closed == {} {
      assert e == Entry(0.0, src);
    }
    forall c | c in s.closed && FullyExpanded(board, dest, s, c)
      ensures FullyExpanded(board, dest, s', c)
    {
      forall i | 0 <= i < |Directions|
        ensures NeighbourDone(board, dest, s', c, Neighbour(c, Directions[i]))
      {
        assert NeighbourDone(board, dest, s, c, Neighbour(c, Directions[i]));
      }
    }
  }

  /** Relaxing n from a closed, reached cur keeps every cell well linked. */
  lemma RelaxWellLinked(board: set<Coord>, hv: HValue, src: Coord, dest: Coord, s: Snapshot, cur: Coord, n: Coord, x: Coord)
    requires WellLinked(board, hv, src, dest, s, x)
    requires cur in s.closed && IsValid(cur.row, cur.col) && Reached(s.table, cur)
    requires Adjacent(cur, n) && n != src && n !in s.closed && n in board
    ensures WellLinked(board, hv, src, dest, Relax(s, hv, dest, cur, n), x)
  {
    if x != n && Reached(s.table, x) && x != src {
      assert Par(s.table, x) != n;
    }
  }

  /**
    Relaxing an open, unclosed, non-destination successor `n` of the closed
    cell `cur` whose costs improve keeps the invariant.
  */
  lemma RelaxInv(board: set<Coord>, hv: HValue, src: Coord, dest: Coord, s: Snapshot, cur: Coord, n: Coord)
    requires Inv(board, hv, src, dest, s) && cur in s.closed
    requires Adjacent(cur, n) && IsValid(n.row, n.col) && n != dest && n !in s.closed && n in board
    requires Improves(s.table, n, Offered(s.table, hv, dest, cur, n).f)
    ensures Inv(board, hv, src, dest, Relax(s, hv, dest, cur, n))
  {
    var s' := Relax(s, hv, dest, cur, n);
    assert n != src;
    forall x: Coord | IsValid(x.row, x.col)
      ensures WellLinked(board, hv, src, dest, s', x)
    {
      RelaxWellLinked(board, hv, src, dest, s, cur, n, x);
    }
    forall x | Reached(s'.table, x) && x !in s'.closed
      ensures Entry(F(s'.table, x), x) in s'.open
    {
      if x != n {
        assert Entry(F(s.table, x), x) in s.open;
      }
    }
  }

  lemma RelaxKeepsDone(board: set<Coord>, hv: HValue, src: Coord, dest: Coord, s: Snapshot, cur: Coord, n: Coord)
    requires Inv(board, hv, src, dest, s) && cur in s.closed
    requires Adjacent(cur, n) && IsValid(n.row, n.col) && n != dest && n !in s.closed && n in board
    requires Improves(s.table, n, Offered(s.table, hv, dest, cur, n).f)
    ensures NeighbourDone(board, dest, Relax(s, hv, dest, cur, n), cur, n)
    ensures forall c, k: nat | c in s.closed && ExpandedUpTo(board, dest, s, c, k) ::
      ExpandedUpTo(board, dest, Relax(s, hv, dest, cur, n), c, k)
    ensures forall c | c in s.closed :: Rec(Relax(s, hv, dest, cur, n).table, c) == Rec(s.table, c)
  {
    var s' := Relax(s, hv, dest, cur, n);
    assert n != src && n != cur;
    assert WellLinked(board, hv, src, dest, s, n);
    forall c, m | c in s.closed && NeighbourDone(board, dest, s, c, m)
      ensures NeighbourDone(board, dest, s', c, m)
    {
      assert Rec(s'.table, c) == Rec(s.table, c);
    }
  }

  /**
    For a valid, non-destination successor `n` of the closed cell `cur`, `n` is
    done exactly when the search would not relax it.
  */
  lemma DoneIffNoRelax(board: set<Coord>, hv: HValue, src: Coord, dest: Coord, s: Snapshot, cur: Coord, n: Coord)
    requires Inv(board, hv, src, dest, s) && cur in s.closed
    requires IsValid(n.row, n.col) && n != dest
    ensures NeighbourDone(board, dest, s, cur, n) <==>
      !(n !in s.closed && n in board && Improves(s.table, n, Offered(s.table, hv, dest, cur, n).f))
  {
    if n !in s.closed && n in board {
      assert n != src;
      assert WellLinked(board, hv, src, dest, s, n);
    }
  }

  /**
    Linking the destination to a closed neighbour makes the table traceable,
    with every reached cell on the board.
  */
  lemma LinkDestTraceable(board: set<Coord>, hv: HValue, src: Coord, dest: Coord, s: Snapshot, cur: Coord)
    requires Inv(board, hv, src, dest, s) && cur in s.closed && Adjacent(cur, dest)
    ensures Traceable(LinkDest(s, cur, dest).table, src, dest)
    ensures ReachedIn(board, LinkDest(s, cur, dest).table)
    ensures Par(LinkDest(s, cur, dest).table, dest) == cur
  {
    var t := LinkDest(s, cur, dest).table;
    forall x | Reached(t, x)
      ensures IsValid(x.row, x.col) && (x != src ==> LinksToParent(t, x)) && x in board
    {
      assert x != dest && Rec(t, x) == Rec(s.table, x);
      assert x in s.table;
      assert WellLinked(board, hv, src, dest, s, x);
      if x != src {
        assert Par(s.table, x) != dest;
      }
    }
  }

  /**
    When the open list is empty and every closed cell is fully expanded, the
    closed cells contain the source, are closed under moves through the board
    and never reach the destination.
  */
  lemma ExhaustedRegion(board: set<Coord>, hv: HValue, src: Coord, dest: Coord, s: Snapshot)
    requires Inv(board, hv, src, dest, s) && s.open == {}
    requires forall c | c in s.closed :: FullyExpanded(board, dest, s, c)
    ensures src in s.closed
    ensures ClosedUnderMoves(board, s.closed, dest)
  {
    forall c, d | c in s.closed && IsValid(Neighbour(c, d).row, Neighbour(c, d).col)
      ensures Neighbour(c, d) != dest && (Neighbour(c, d) in board ==> Neighbour(c, d) in s.closed)
    {
      assert NeighbourDone(board, dest, s, c, Neighbour(c, Directions[Index(d)]));
    }
  }

  /** One successor block keeps the invariant, and leaves successor i of cur done. */
  lemma StepInv(board: set<Coord>, hv: HValue, src: Coord, dest: Coord,
                s: Snapshot, cur: Coord, i: nat, found: bool, next: Snapshot)
    requires Inv(board, hv, src, dest, s) && cur in s.closed && i < |Directions|
    requires AllExpandedExcept(board, dest, s, cur) && ExpandedUpTo(board, dest, s, cur, i)
    requires (found, next) == Step(board, hv, dest, s, cur, i)
    ensures found ==>
      && Traceable(next.table, src, dest) && ReachedIn(board, next.table)
      && Par(next.table, dest) == cur && Adjacent(cur, dest)
    ensures !found ==>
      && Inv(board, hv, src, dest, next)
      && AllExpandedExcept(board, dest, next, cur) && ExpandedUpTo(board, dest, next, cur, i + 1)
    ensures next.closed == s.closed
    ensures forall c | c in s.closed :: Rec(next.table, c) == Rec(s.table, c)
    ensures FullyExpanded(board, dest, s, cur) ==> !found && next == s
  {
    var n := Neighbour(cur, Directions[i]);
    if IsValid(n.row, n.col) && !IsDestination(n.row, n.col, dest) {
      DoneIffNoRelax(board, hv, src, dest, s, cur, n);
    }
    if found {
      LinkDestTraceable(board, hv, src, dest, s, cur);
    } else if next != s {
      RelaxInv(board, hv, src, dest, s, cur, n);
      RelaxKeepsDone(board, hv, src, dest, s, cur, n);
    }
  }

  /**
    Expanding the closed cell `cur` from direction i, when every other closed
    cell and the first i successors of `cur` are done: a found destination
    leaves a traceable table; otherwise the invariant holds and every closed
    cell is fully expanded. The closed set and the records of closed cells
    never change, and a cell that was already fully expanded changes nothing.
  */
  lemma {:induction false} ExpandFromInv(board: set<Coord>, hv: HValue, src: Coord, dest: Coord,
                                         s: Snapshot, cur: Coord, i: nat, found: bool, s': Snapshot)
    requires Inv(board, hv, src, dest, s) && cur in s.closed
    requires AllExpandedExcept(board, dest, s, cur) && ExpandedUpTo(board, dest, s, cur, i)
    requires (found, s') == ExpandFrom(board, hv, dest, s, cur, i)
    ensures found ==>
      && Traceable(s'.table, src, dest) && ReachedIn(board, s'.table)
      && Par(s'.table, dest) == cur && Adjacent(cur, dest)
    ensures !found ==> Inv(board, hv, src, dest, s') && Expanded(board, dest, s')
    ensures s'.closed == s.closed
    ensures forall c | c in s.closed :: Rec(s'.table, c) == Rec(s.table, c)
    ensures FullyExpanded(board, dest, s, cur) ==> !found && s' == s
    decreases |Directions| - i
  {
    if i >= |Directions| {
      assert FullyExpanded(board, dest, s, cur);
    } else {
      var (f, next) := Step(board, hv, dest, s, cur, i);
      StepInv(board, hv, src, dest, s, cur, i, f, next);
      if !f {
        ExpandFromInv(board, hv, src, dest, next, cur, i + 1, found, s');
      }
    }
  }

  /** Every closed cell is fully expanded. */
  ghost predicate Expanded(board: set<Coord>, dest: Coord, s: Snapshot)
  {
    forall c | c in s.closed :: FullyExpanded(board, dest, s, c)
  }

  /**
    The main loop's termination order: the set of cells still to close
    shrinks, or it stays the same and the open list shrinks.
  */
  ghost predicate Progress(s: Snapshot, s': Snapshot)
  {
    || AllCells() - s'.closed < AllCells() - s.closed
    || (AllCells() - s'.closed == AllCells() - s.closed && |s'.open| < |s.open|)
  }

  /** One iteration of the main loop: pop entry e, close its cell and expand it. */
  function Iterate(board: set<Coord>, hv: HValue, dest: Coord, s: Snapshot, e: Entry): (bool, Snapshot)
  {
    ExpandFrom(board, hv, dest, Close(s, e), e.cell, 0)
  }

  /**
    An iteration from a state where the invariant holds and every closed cell
    is fully expanded either finds the destination with a traceable table or
    reaches such a state again. It closes exactly the popped cell, never
    changes the record of a closed cell, and a stale pop (a cell already
    closed) changes nothing but the open list.
  */
  lemma IterateInv(board: set<Coord>, hv: HValue, src: Coord, dest: Coord, s: Snapshot, e: Entry,
                    found: bool, s': Snapshot)
    requires Inv(board, hv, src, dest, s) && Expanded(board, dest, s) && e in s.open
    requires (found, s') == Iterate(board, hv, dest, s, e)
    ensures found ==>
      && Traceable(s'.table, src, dest) && ReachedIn(board, s'.table)
      && Par(s'.table, dest) == e.cell
    ensures !found ==> Inv(board, hv, src, dest, s') && Expanded(board, dest, s')
    ensures s'.closed == s.closed + {e.cell}
    ensures forall c | c in s'.closed :: Rec(s'.table, c) == Rec(s.table, c)
    ensures e.cell in s.closed ==> !found && s' == Close(s, e)
  {
    var cur := e.cell;
    var s1 := Close(s, e);
    CloseInv(board, hv, src, dest, s, e);
    assert AllExpandedExcept(board, dest, s1, cur);
    ExpandFromInv(board, hv, src, dest, s1, cur, 0, found, s');
  }

  /** Every iteration that does not find the destination is a step down the termination order. */
  lemma IterateProgress(board: set<Coord>, hv: HValue, src: Coord, dest: Coord, s: Snapshot, e: Entry,
                        found: bool, s': Snapshot)
    requires Inv(board, hv, src, dest, s) && Expanded(board, dest, s) && e in s.open
    requires (found, s') == Iterate(board, hv, dest, s, e) && !found
    ensures Progress(s, s')
  {
    IterateInv(board, hv, src, dest, s, e, found, s');
    assert IsValid(e.cell.row, e.cell.col);
    ValidIsOnBoard(e.cell);
  }

  /**
    A chain of parent links from the source to the destination, through
    reached cells of the board, is a walk between them on the board.
  */
  lemma TracedChainIsWalk(board: set<Coord>, t: Table, src: Coord, dest: Coord, path: seq<Coord>)
    requires ReachedIn(board, t) && dest in board
    requires |path| >= 2 && path[0] == src && path[|path| - 1] == dest
    requires forall k | 0 <= k < |path| - 1 :: Adjacent(path[k], path[k + 1]) && Reached(t, path[k])
    ensures IsWalkBetween(board, path, src, dest)
  {
    forall k | 0 <= k < |path|
      ensures path[k] in board
    {
      if k < |path| - 1 {
        assert Reached(t, path[k]);
      }
    }
  }

  /**
    The parent links of a traceable table, followed from the reached cell x
    until a self-parented cell, x first: the cells tracePath pushes.
  */
  ghost function Chain(t: Table, src: Coord, dest: Coord, x: Coord): (c: seq<Coord>)
    requires Traceable(t, src, dest) && Reached(t, x)
    ensures |c| >= 1 && c[0] == x
    decreases G(t, x)
  {
    if Par(t, x) == x then [x] else [x] + Chain(t, src, dest, Par(t, x))
  }

  /** The whole chain tracePath follows: the destination, then the chain from its parent. */
  ghost function TraceChain(t: Table, src: Coord, dest: Coord): seq<Coord>
    requires Traceable(t, src, dest)
  {
    [dest] + Chain(t, src, dest, Par(t, dest))
  }

  /** A chain from x in which every cell's parent is the next one and only the last is self-parented. */
  ghost predicate ParentLinked(t: Table, c: seq<Coord>)
  {
    && (forall k | 0 <= k < |c| :: IsValid(c[k].row, c[k].col))
    && (forall k | 0 <= k < |c| - 1 :: Par(t, c[k]) == c[k + 1] && Par(t, c[k]) != c[k])
    && |c| > 0 && Par(t, c[|c| - 1]) == c[|c| - 1]
  }

  /**
    The chain from a reached cell ends at the source, links every cell to its
    parent with orthogonal moves through reached cells whose g falls by one
    per step, and so visits no cell twice.
  */
  lemma {:induction false} ChainFacts(t: Table, src: Coord, dest: Coord, x: Coord, c: seq<Coord>)
    requires Traceable(t, src, dest) && Reached(t, x) && c == Chain(t, src, dest, x)
    ensures ParentLinked(t, c) && c[|c| - 1] == src
    ensures forall k | 0 <= k < |c| :: Reached(t, c[k]) && G(t, c[k]) + k == G(t, x)
    ensures forall k | 0 <= k < |c| - 1 :: Adjacent(c[k + 1], c[k])
    decreases G(t, x)
  {
    if Par(t, x) != x {
      var p := Par(t, x);
      assert LinksToParent(t, x);
      var tail := Chain(t, src, dest, p);
      ChainFacts(t, src, dest, p, tail);
      assert c == [x] + tail;
      forall k | 1 <= k < |c|
        ensures c[k] == tail[k - 1]
      {
      }
    }
  }

  /** Cells whose g values are all different are all different. */
  lemma DistinctByG(t: Table, c: seq<Coord>, top: nat)
    requires forall k | 0 <= k < |c| :: G(t, c[k]) + k == top
    ensures forall a, b | 0 <= a < b < |c| :: c[a] != c[b]
  {
    forall a, b | 0 <= a < b < |c|
      ensures c[a] != c[b]
    {
      assert G(t, c[a]) + a == top && G(t, c[b]) + b == top;
    }
  }

  /**
    The whole trace chain starts at the destination, ends at the source,
    links parents, moves orthogonally and visits no cell twice.
  */
  lemma TraceChainFacts(t: Table, src: Coord, dest: Coord, c: seq<Coord>)
    requires Traceable(t, src, dest) && c == TraceChain(t, src, dest)
    ensures ParentLinked(t, c) && |c| >= 2 && c[0] == dest && c[|c| - 1] == src
    ensures forall k | 1 <= k < |c| :: Reached(t, c[k])
    ensures forall k | 0 <= k < |c| - 1 :: Adjacent(c[k + 1], c[k])
    ensures forall a, b | 0 <= a < b < |c| :: c[a] != c[b]
  {
    var p := Par(t, dest);
    var tail := Chain(t, src, dest, p);
    ChainFacts(t, src, dest, p, tail);
    DistinctByG(t, tail, G(t, p));
    assert c == [dest] + tail;
    forall k | 1 <= k < |c|
      ensures c[k] == tail[k - 1]
    {
    }
    forall a, b | 0 <= a < b < |c|
      ensures c[a] != c[b]
    {
      if a == 0 {
        assert Reached(t, c[b]);
      } else {
        assert c[a] == tail[a - 1] && c[b] == tail[b - 1];
      }
    }
  }

  /**
    What the first loop of tracePath relies on: the trace chain is
    parent-linked from the destination. Only these two facts of
    TraceChainFacts are passed on, which keeps the context of ParentChain's
    caller small.
  */
  lemma TraceChainLinked(t: Table, src: Coord, dest: Coord, c: seq<Coord>)
    requires Traceable(t, src, dest) && c == TraceChain(t, src, dest)
    ensures ParentLinked(t, c) && c[0] == dest
  {
    TraceChainFacts(t, src, dest, c);
  }

  /** s reversed. */
  function Reverse<T>(s: seq<T>): (r: seq<T>)
    ensures |r| == |s| && forall k | 0 <= k < |s| :: r[k] == s[|s| - 1 - k]
  {
    if s == [] then [] else Reverse(s[1..]) + [s[0]]
  }

  /**
    Read backwards, a parent-linked chain with orthogonal steps runs from its
    self-parented end: every cell's parent is the one before it and each step
    is an orthogonal move.
  */
  lemma ReversedLinks(t: Table, c: seq<Coord>, path: seq<Coord>)
    requires ParentLinked(t, c)
    requires forall k | 0 <= k < |c| - 1 :: Adjacent(c[k + 1], c[k])
    requires |path| == |c| && forall k | 0 <= k < |c| :: path[k] == c[|c| - 1 - k]
    ensures Par(t, path[0]) == path[0]
    ensures forall k | 0 < k < |path| :: Par(t, path[k]) == path[k - 1]
    ensures forall k | 0 <= k < |path| - 1 :: Adjacent(path[k], path[k + 1])
  {
    forall k | 0 < k < |path|
      ensures Par(t, path[k]) == path[k - 1] && Adjacent(path[k - 1], path[k])
    {
      var j := |c| - 1 - k;
      assert path[k] == c[j] && path[k - 1] == c[j + 1];
    }
  }

  /**
    Read backwards, the trace chain runs from the source to the destination:
    every cell's parent is the one before it, each step is an orthogonal move
    out of a reached cell, and no cell repeats.
  */
  lemma ReversedChain(t: Table, src: Coord, dest: Coord, c: seq<Coord>, path: seq<Coord>)
    requires Traceable(t, src, dest) && c == TraceChain(t, src, dest) && path == Reverse(c)
    ensures |path| >= 2 && path[0] == src && path[|path| - 1] == dest
    ensures forall k | 0 <= k < |path| :: IsValid(path[k].row, path[k].col)
    ensures Par(t, path[0]) == path[0]
    ensures forall k | 0 < k < |path| :: Par(t, path[k]) == path[k - 1]
    ensures forall k | 0 <= k < |path| - 1 :: Adjacent(path[k], path[k + 1]) && Reached(t, path[k])
    ensures forall a, b | 0 <= a < b < |path| :: path[a] != path[b]
  {
    TraceChainFacts(t, src, dest, c);
    ReversedLinks(t, c, path);
    forall k | 0 <= k < |path| - 1
      ensures Reached(t, path[k])
    {
      assert path[k] == c[|c| - 1 - k];
    }
    forall a, b | 0 <= a < b < |path|
      ensures path[a] != path[b]
    {
      assert path[a] == c[|c| - 1 - a] && path[b] == c[|c| - 1 - b];
    }
  }

  /**
    The states the main loop passes through at the head of an iteration.
    Methods state membership in this set rather than Inv itself, so that the
    verifier does not unfold Inv into its conjuncts in every method context.
  */
  ghost function LoopStates(board: set<Coord>, hv: HValue, src: Coord, dest: Coord): iset<Snapshot>
  {
    iset s | Inv(board, hv, src, dest, s) && Expanded(board, dest, s)
  }

  /** The entry popped from a loop state names a valid cell that has been reached. */
  lemma PoppedCell(board: set<Coord>, hv: HValue, src: Coord, dest: Coord, s: Snapshot, e: Entry)
    requires s in LoopStates(board, hv, src, dest) && e in s.open
    ensures IsValid(e.cell.row, e.cell.col) && Reached(s.table, e.cell)
  {
  }

  /**
    One iteration of the main loop from a loop state: it finds the destination
    with a traceable table, or it reaches another loop state closer to the end.
  */
  lemma IterateLoop(board: set<Coord>, hv: HValue, src: Coord, dest: Coord, s: Snapshot, e: Entry,
                    found: bool, s': Snapshot)
    requires s in LoopStates(board, hv, src, dest) && e in s.open
    requires (found, s') == Iterate(board, hv, dest, s, e)
    ensures found ==> Traceable(s'.table, src, dest) && ReachedIn(board, s'.table)
    ensures !found ==> s' in LoopStates(board, hv, src, dest) && Progress(s, s')
  {
    IterateInv(board, hv, src, dest, s, e, found, s');
    if !found {
      IterateProgress(board, hv, src, dest, s, e, found, s');
    }
  }

  /** A loop state with an empty open list shows the destination unreachable. */
  lemma ExhaustedUnreachable(board: set<Coord>, hv: HValue, src: Coord, dest: Coord, s: Snapshot)
    requires s in LoopStates(board, hv, src, dest) && s.open == {}
    ensures !Reachable(board, src, dest)
  {
    ExhaustedRegion(board, hv, src, dest, s);
    RegionExcludesDest(board, s.closed, src, dest);
  }
}
