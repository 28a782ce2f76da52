/** The traversal engine of MazeSolver: the depth-first search with an
    explicit stack, and the reconstruction of the path through the parent
    links. MazeSolver's only field is the maze it solves; here that maze is
    a parameter of each operation. */
module Solver {
  import opened Cells
  import opened Grid

  /** What a search reports: the path from start to end, or why there is
      none. */
  datatype Solution = Found(path: seq<Coord>) | NoPath | BrokenChain

  /** How the next cell to expand is taken from the cells waiting: the most
      recently pushed (a stack, as solveMazeDFS does) or the earliest (a
      queue, as the unimplemented solveMazeBFS describes). */
  datatype Discipline = Lifo | Fifo

  /** getSolution: the chain of parent links from the end cell back to the
      start, pushed onto a stack, then popped into the solution, which
      therefore runs from start to end.
      Where the Java loop would dereference a missing parent, or follow a
      cycle for ever, this one stops with BrokenChain. */
  method GetSolution(maze: Maze) returns (r: Solution)
    requires maze.Valid()
    ensures r.Found? || r.BrokenChain?
    ensures r == match maze.Ancestry(maze.end, maze.rows * maze.cols)
                 case Some(a) => Found(Reverse(a))
                 case None => BrokenChain
    ensures r.Found? ==> maze.ParentChain(Reverse(r.path))
    ensures r.Found? ==> r.path[0] == maze.start && r.path[|r.path| - 1] == maze.end
    ensures maze.end == maze.start ==> r == Found([maze.start])
  {
    var pushed := PushAncestors(maze);
    match pushed
    case None =>
      r := BrokenChain;
    case Some(flipped) =>
      var solution := PopAll(flipped);
      r := Found(solution);
      maze.AncestrySound(maze.end, maze.rows * maze.cols);
      ReverseTwice(flipped);
  }

  /** The first loop of getSolution: push the end cell, then, while the cell
      is not the start, step to its parent and push that. The stack, listed
      from the bottom, is the chain of ancestors of the end cell. The loop
      gives up, with None, at a missing parent or after rows * cols steps
      without meeting the start (the parent links would then hold a cycle). */
  method PushAncestors(maze: Maze) returns (pushed: Option<seq<Coord>>)
    requires maze.Valid()
    ensures pushed == maze.Ancestry(maze.end, maze.rows * maze.cols)
  {
    var bound := maze.rows * maze.cols;
    var cell := maze.end;
    var flipped := [cell];
    var steps := 0;
    assert flipped[..steps] == [];
    GraftNothing(maze.Ancestry(cell, bound));
    while cell != maze.start
      invariant 0 <= steps <= bound && maze.InBounds(cell)
      invariant |flipped| == steps + 1 && flipped[steps] == cell
      invariant maze.Ancestry(maze.end, bound) == Graft(flipped[..steps], maze.Ancestry(cell, bound - steps))
      decreases bound - steps
    {
      if steps == bound {
        return None;
      }
      match maze.parent[cell.0, cell.1]
      case None =>
        return None;
      case Some(p) =>
        assert maze.Ancestry(cell, bound - steps) == Graft([cell], maze.Ancestry(p, bound - steps - 1));
        GraftTwice(flipped[..steps], [cell], maze.Ancestry(p, bound - steps - 1));
        assert flipped[..steps] + [cell] == flipped;
        cell := p;
        flipped := flipped + [p];
        steps := steps + 1;
        assert flipped[..steps] == flipped[..steps - 1] + [flipped[steps - 1]];
    }
    assert flipped[..steps] + [cell] == flipped;
    pushed := Some(flipped);
  }

  /** The second loop of getSolution: pop every cell of the stack into a
      list, so that the list holds the stack's cells last pushed first. */
  method PopAll(stack: seq<Coord>) returns (popped: seq<Coord>)
    ensures popped == Reverse(stack)
  {
    popped := [];
    var rest := stack;
    while rest != []
      invariant popped + Reverse(rest) == Reverse(stack)
    {
      popped := popped + [rest[|rest| - 1]];
      rest := rest[..|rest| - 1];
    }
  }

  /** One of the four checks of solveMazeDFS's loop body: when `cell` is
      valid (in bounds, not a wall, not explored), it is pushed onto the
      stack, marked explored and given `current` as parent; otherwise
      nothing changes. */
  method Discover(maze: Maze, current: Coord, cell: Coord, toVisit: seq<Coord>)
    returns (toVisit': seq<Coord>, pushed: bool)
    requires maze.Shaped()
    modifies maze.explored, maze.parent
    ensures pushed == old(maze.IsValidCell(cell))
    ensures toVisit' == toVisit + if pushed then [cell] else []
    ensures forall r, c :: 0 <= r < maze.rows && 0 <= c < maze.cols ==>
      maze.explored[r, c] == (old(maze.explored[r, c]) || ((r, c) == cell && pushed)) &&
      maze.parent[r, c] == if (r, c) == cell && pushed then Some(current) else old(maze.parent[r, c])
  {
    pushed := maze.IsValidCell(cell);
    if pushed {
      toVisit' := toVisit + [cell];
      maze.explored[cell.0, cell.1] := true;
      maze.parent[cell.0, cell.1] := Some(current);
    } else {
      toVisit' := toVisit;
    }
  }

  /** The four checks of solveMazeDFS's loop body: the neighbours of
      `current`, North, East, South, West, are checked in that order, and
      the valid ones are pushed in that order, marked explored and given
      `current` as parent. The row and column are those of `current` itself. */
  method CheckNeighbours(maze: Maze, current: Coord, toVisit: seq<Coord>) returns (toVisit': seq<Coord>)
    requires maze.Shaped()
    modifies maze.explored, maze.parent
    ensures toVisit' == toVisit + old(maze.ValidNeighbours(current))
    ensures forall r, c :: 0 <= r < maze.rows && 0 <= c < maze.cols ==>
      var found := old(maze.ValidNeighbours(current));
      maze.explored[r, c] == (old(maze.explored[r, c]) || (r, c) in found) &&
      maze.parent[r, c] == if (r, c) in found then Some(current) else old(maze.parent[r, c])
  {
    var row, col := current.0, current.1;
    var north, east, south, west := (row - 1, col), (row, col + 1), (row + 1, col), (row, col - 1);
    ghost var found := maze.ValidNeighbours(current);
    ghost var fN, fE, fS, fW := maze.Keep(north), maze.Keep(east), maze.Keep(south), maze.Keep(west);
    assert found == fN + fE + fS + fW;
    var pN, pE, pS, pW;
    toVisit', pN := Discover(maze, current, north, toVisit);
    assert maze.IsValidCell(east) == old(maze.IsValidCell(east));
    assert maze.IsValidCell(south) == old(maze.IsValidCell(south));
    assert maze.IsValidCell(west) == old(maze.IsValidCell(west));
    toVisit', pE := Discover(maze, current, east, toVisit');
    assert maze.IsValidCell(south) == old(maze.IsValidCell(south));
    assert maze.IsValidCell(west) == old(maze.IsValidCell(west));
    toVisit', pS := Discover(maze, current, south, toVisit');
    assert maze.IsValidCell(west) == old(maze.IsValidCell(west));
    toVisit', pW := Discover(maze, current, west, toVisit');
    forall r, c | 0 <= r < maze.rows && 0 <= c < maze.cols
      ensures maze.explored[r, c] == (old(maze.explored[r, c]) || (r, c) in found)
      ensures maze.parent[r, c] == if (r, c) in found then Some(current) else old(maze.parent[r, c])
    {
      InFour((r, c), north, east, south, west, pN, pE, pS, pW);
    }
    AppendFour(toVisit, fN, fE, fS, fW);
  }

  /** One expansion of the search: CheckNeighbours on `current`, with what it
      does to the search's state. The parent links stay a tree over the
      discovered cells, now listed in `order'`, and `current` joins the cells
      whose every open neighbour is discovered. */
  method Expand(maze: Maze, current: Coord, toVisit: seq<Coord>, ghost order: seq<Coord>)
    returns (toVisit': seq<Coord>, ghost order': seq<Coord>)
    requires maze.Valid() && maze.Tree(order) && current in order && current != maze.end
    requires maze.Settled(order, toVisit + [current])
    modifies maze.explored, maze.parent
    ensures maze.Valid() && maze.Tree(order') && maze.Settled(order', toVisit')
    ensures toVisit' == toVisit + old(maze.ValidNeighbours(current))
    ensures order' == order + old(maze.ValidNeighbours(current))
    ensures forall r, c :: 0 <= r < maze.rows && 0 <= c < maze.cols && old(maze.parent[r, c]).Some? ==>
      maze.parent[r, c] == old(maze.parent[r, c])
    ensures forall r, c :: 0 <= r < maze.rows && 0 <= c < maze.cols ==>
      maze.parent[r, c] == if (r, c) in old(maze.ValidNeighbours(current)) then Some(current) else old(maze.parent[r, c])
  {
    ghost var found := maze.ValidNeighbours(current);
    maze.Prepare(current, order, found);
    toVisit' := CheckNeighbours(maze, current, toVisit);
    order' := order + found;
    ghost var x := Expansion(current, order, toVisit, toVisit + [current], found);
    maze.ExpandedTree(x);
    maze.ExpandedSettled(x);
  }

  /** The search skeleton: solveMazeDFS with a stack, or the breadth-first
      variant with a queue. The start is marked explored before the loop.
      While the current cell is not the end, its neighbours are checked and
      the next cell is taken from the cells waiting; when none is waiting the
      end cannot be reached. Once the end is current the path is rebuilt.
      On return, `order` lists the explored cells in the order they were
      discovered, and the parent links form a tree over them. */
  method Search(maze: Maze, discipline: Discipline) returns (r: Solution, ghost order: seq<Coord>)
    requires maze.Valid() && maze.Reset()
    modifies maze.explored, maze.parent
    ensures maze.Valid() && maze.Tree(order)
    ensures r.Found? || r.NoPath?
    ensures r.Found? ==>
      maze.IsWalk(r.path) && Distinct(r.path) &&
      r.path[0] == maze.start && r.path[|r.path| - 1] == maze.end
    ensures r.Found? ==> maze.ParentChain(Reverse(r.path))
    ensures r.NoPath? <==> !maze.Reachable()
  {
    var current := maze.start;
    order := MarkStart(maze);
    var toVisit := [];
    var bound := maze.rows * maze.cols;
    while current != maze.end
      invariant maze.Searching(order, current, toVisit)
      decreases 2 * (bound - |order|) + |toVisit|
    {
      var next;
      next, toVisit, order := Advance(maze, discipline, current, toVisit, order);
      if next.None? {
        return NoPath, order;
      }
      current := next.value;
    }
    r := Conclude(maze, order);
  }

  /** The search loop has reached the end cell: `getSolution` then follows
      the parent links back to the start, and the path it builds is a walk
      from start to end through open cells, with no cell twice. */
  method Conclude(maze: Maze, ghost order: seq<Coord>) returns (r: Solution)
    requires maze.Valid() && maze.Tree(order) && maze.end in order
    ensures r.Found? && maze.Reachable()
    ensures maze.IsWalk(r.path) && Distinct(r.path)
    ensures r.path[0] == maze.start && r.path[|r.path| - 1] == maze.end
    ensures maze.ParentChain(Reverse(r.path))
  {
    maze.EndDiscovered(order);
    r := GetSolution(maze);
  }

  /** One iteration of the search loop: the neighbours of `current` are
      checked, then the next cell is taken from those waiting, the last
      pushed for a stack, the first for a queue. When none is waiting (where
      the Java code would pop an empty stack), the answer is None and the end
      cannot be reached. Each iteration discovers new cells or shortens the
      waiting list, and no more than rows * cols cells are ever discovered. */
  method Advance(maze: Maze, discipline: Discipline, current: Coord, toVisit: seq<Coord>, ghost order: seq<Coord>)
    returns (next: Option<Coord>, toVisit': seq<Coord>, ghost order': seq<Coord>)
    requires maze.Searching(order, current, toVisit) && current != maze.end
    modifies maze.explored, maze.parent
    ensures maze.Valid() && maze.Tree(order') && |order'| <= maze.rows * maze.cols
    ensures order' == order + old(maze.ValidNeighbours(current))
    ensures forall r, c :: 0 <= r < maze.rows && 0 <= c < maze.cols ==>
      maze.parent[r, c] == if (r, c) in old(maze.ValidNeighbours(current)) then Some(current) else old(maze.parent[r, c])
    ensures next.None? ==> toVisit + old(maze.ValidNeighbours(current)) == [] && !maze.Reachable()
    ensures next.Some? && discipline == Lifo ==>
      toVisit + old(maze.ValidNeighbours(current)) == toVisit' + [next.value]
    ensures next.Some? && discipline == Fifo ==>
      toVisit + old(maze.ValidNeighbours(current)) == [next.value] + toVisit'
    ensures next.Some? ==> maze.Searching(order', next.value, toVisit')
    ensures next.Some? ==>
      2 * (maze.rows * maze.cols - |order'|) + |toVisit'| < 2 * (maze.rows * maze.cols - |order|) + |toVisit|
  {
    var waiting;
    waiting, order' := Expand(maze, current, toVisit, order);
    DistinctCellsBound(order', maze.rows, maze.cols);
    if waiting == [] {
      maze.Exhausted(order');
      return None, [], order';
    }
    var cell;
    cell, toVisit' := Take(discipline, waiting);
    next := Some(cell);
  }

  /** The start cell is marked explored before the search begins: it is
      then the only cell discovered. */
  method MarkStart(maze: Maze) returns (ghost order: seq<Coord>)
    requires maze.Valid() && maze.Reset()
    modifies maze.explored
    ensures maze.Valid() && maze.Tree(order) && order == [maze.start]
    ensures maze.Settled(order, order)
  {
    maze.explored[maze.start.0, maze.start.1] := true;
    order := [maze.start];
  }

  /** The next cell to expand, and the cells left waiting: the last of the
      waiting cells for a stack (toVisit.pop()), the first for a queue. */
  method Take(discipline: Discipline, waiting: seq<Coord>) returns (next: Coord, rest: seq<Coord>)
    requires waiting != []
    ensures discipline == Lifo ==> waiting == rest + [next]
    ensures discipline == Fifo ==> waiting == [next] + rest
    ensures forall c :: c in waiting <==> c in rest + [next]
  {
    if discipline == Lifo {
      next, rest := waiting[|waiting| - 1], waiting[..|waiting| - 1];
    } else {
      next, rest := waiting[0], waiting[1..];
      assert forall c :: c in waiting <==> c in rest + [next];
    }
  }

  /** solveMazeDFS: depth-first search, the next cell always the one pushed
      last. */
  method SolveMazeDFS(maze: Maze) returns (r: Solution, ghost order: seq<Coord>)
    requires maze.Valid() && maze.Reset()
    modifies maze.explored, maze.parent
    ensures maze.Valid() && maze.Tree(order)
    ensures r.Found? || r.NoPath?
    ensures r.Found? ==>
      maze.IsWalk(r.path) && Distinct(r.path) &&
      r.path[0] == maze.start && r.path[|r.path| - 1] == maze.end
    ensures r.Found? ==> maze.ParentChain(Reverse(r.path))
    ensures r.NoPath? <==> !maze.Reachable()
  {
    r, order := Search(maze, Lifo);
  }

  /** solveMazeDFS as written: its loop runs while `current` is not the
      start cell, and `current` starts as the start cell, so the loop body
      never runs and getSolution is called with no parent link set. Unless
      the start is the end, the chain from the end is broken at its first
      link (in the Java code, a null dereference). */
  method SolveMazeDFSAsWritten(maze: Maze) returns (r: Solution)
    requires maze.Valid() && maze.Reset()
    modifies maze.explored, maze.parent
    ensures maze.start == maze.end ==> r == Found([maze.start])
    ensures maze.start != maze.end ==> r == BrokenChain
    ensures maze.Valid() && maze.Tree([maze.start])
    ensures maze.start != maze.end ==> maze.parent[maze.end.0, maze.end.1] == None
  {
    var current := maze.start;
    ghost var order := MarkStart(maze);
    assert !(current != maze.start);
    r := GetSolution(maze);
  }

  /** solveMazeBFS is a stub that returns null; this is the breadth-first
      search its comment asks for: the same skeleton, with the next cell the
      one pushed earliest, neighbours checked North, East, South, West. */
  method SolveMazeBFS(maze: Maze) returns (r: Solution, ghost order: seq<Coord>)
    requires maze.Valid() && maze.Reset()
    modifies maze.explored, maze.parent
    ensures maze.Valid() && maze.Tree(order)
    ensures r.Found? || r.NoPath?
    ensures r.Found? ==>
      maze.IsWalk(r.path) && Distinct(r.path) &&
      r.path[0] == maze.start && r.path[|r.path| - 1] == maze.end
    ensures r.Found? ==> maze.ParentChain(Reverse(r.path))
    ensures r.NoPath? <==> !maze.Reachable()
  {
    r, order := Search(maze, Fifo);
  }
}
