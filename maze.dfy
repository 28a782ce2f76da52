/** The grid the solver works on. The Maze and MazeCell classes are not part
    of this model; this class stands in for them with the per-cell state the
    solver reads and writes: a wall flag, an explored flag and a parent link,
    each held in a rows-by-cols array, and fixed start and end cells. */
module Grid {
  import opened Cells

  /** One expansion of the search, as the proof sees it: the cell expanded,
      the cells discovered before it in discovery order, the cells waiting
      besides it, those same cells followed by the one expanded, and the
      valid neighbours it discovers. `pending` is always `waiting + [current]`
      (the lemmas require it): it names the frontier before the expansion as
      a value of its own, so that the lemmas can state the frontier invariant
      in the state before the expansion: built inside `old`, the sequence
      `waiting + [current]` could not be shown allocated in that state. */
  datatype Expansion = Expansion(current: Coord, order: seq<Coord>, waiting: seq<Coord>, pending: seq<Coord>, found: seq<Coord>)

  class Maze {
    const rows: nat
    const cols: nat
    const wall: array2<bool>
    const explored: array2<bool>
    const parent: array2<Option<Coord>>
    const start: Coord
    const end: Coord

    /** The arrays have the grid's dimensions. */
    ghost predicate Shaped()
    {
      wall.Length0 == rows && wall.Length1 == cols &&
      explored.Length0 == rows && explored.Length1 == cols &&
      parent.Length0 == rows && parent.Length1 == cols
    }

    /** Start and end are open cells of the grid, and every recorded parent
        is a cell of the grid (a MazeCell's parent is a MazeCell). */
    ghost predicate Valid()
      reads wall, parent
    {
      Shaped() && wall != explored &&
      Open(start) && Open(end) && Linked()
    }

    ghost predicate Linked()
      reads parent
      requires Shaped()
    {
      forall r, c :: 0 <= r < rows && 0 <= c < cols && parent[r, c].Some? ==> InBounds(parent[r, c].value)
    }

    /** The state Maze.reset() is meant to leave: nothing explored, no parents. */
    ghost predicate Reset()
      reads explored, parent
      requires Shaped()
    {
      forall r, c :: 0 <= r < rows && 0 <= c < cols ==> !explored[r, c] && parent[r, c] == None
    }

    constructor (rows: nat, cols: nat, wall: array2<bool>, start: Coord, end: Coord)
      requires wall.Length0 == rows && wall.Length1 == cols
      requires InGrid(start, rows, cols) && !wall[start.0, start.1]
      requires InGrid(end, rows, cols) && !wall[end.0, end.1]
      ensures Valid() && Reset()
      ensures this.wall == wall && this.start == start && this.end == end
      ensures fresh(explored) && fresh(parent)
    {
      this.rows := rows;
      this.cols := cols;
      this.wall := wall;
      this.start := start;
      this.end := end;
      this.explored := new bool[rows, cols]((i, j) => false);
      this.parent := new Option<Coord>[rows, cols]((i, j) => None);
    }

    predicate InBounds(c: Coord)
    {
      InGrid(c, rows, cols)
    }

    /** In bounds and not a wall. */
    predicate Open(c: Coord)
      reads wall
      requires Shaped()
    {
      InBounds(c) && !wall[c.0, c.1]
    }

    predicate Explored(c: Coord)
      reads explored
      requires Shaped()
    {
      InBounds(c) && explored[c.0, c.1]
    }

    /** Maze.isValidCell is not part of this model: as the solver uses it, it
        holds of a cell in bounds that is neither a wall nor explored. */
    predicate IsValidCell(c: Coord)
      reads wall, explored
      requires Shaped()
    {
      Open(c) && !explored[c.0, c.1]
    }

    /** A cell, when it is valid; nothing otherwise. */
    ghost function Keep(c: Coord): seq<Coord>
      reads wall, explored
      requires Shaped()
    {
      if IsValidCell(c) then [c] else []
    }

    /** The valid neighbours of `c`, in the order the search checks them:
        North, East, South, West. */
    ghost function ValidNeighbours(c: Coord): seq<Coord>
      reads wall, explored
      requires Shaped()
    {
      Keep((c.0 - 1, c.1)) + Keep((c.0, c.1 + 1)) + Keep((c.0 + 1, c.1)) + Keep((c.0, c.1 - 1))
    }

    /** ValidNeighbours lists exactly the valid neighbours, each once. */
    lemma ValidNeighboursMembers(c: Coord)
      requires Shaped()
      ensures forall d :: d in ValidNeighbours(c) <==> Adjacent(c, d) && IsValidCell(d)
      ensures Distinct(ValidNeighbours(c))
    {
      var n, e, s, w := (c.0 - 1, c.1), (c.0, c.1 + 1), (c.0 + 1, c.1), (c.0, c.1 - 1);
      var vn, ve, vs, vw := IsValidCell(n), IsValidCell(e), IsValidCell(s), IsValidCell(w);
      var found := ValidNeighbours(c);
      assert found == (if vn then [n] else []) + (if ve then [e] else []) + (if vs then [s] else []) + (if vw then [w] else []);
      forall d
        ensures d in found <==> Adjacent(c, d) && IsValidCell(d)
      {
        InFour(d, n, e, s, w, vn, ve, vs, vw);
        if Adjacent(c, d) {
          NeighbourCases(c, d);
        }
      }
      DistinctFour(n, e, s, w, vn, ve, vs, vw);
    }

    /** What the expansion of `current` relies on about the cells it will
        discover, in the state before: they are its valid neighbours, each
        once, none discovered yet. */
    ghost predicate Prepared(current: Coord, order: seq<Coord>, found: seq<Coord>)
      reads wall, explored
      requires Shaped()
    {
      Distinct(order + found) &&
      (forall k :: 0 <= k < |found| ==> Adjacent(current, found[k]) && IsValidCell(found[k])) &&
      (forall d :: Adjacent(current, d) && IsValidCell(d) ==> d in found)
    }

    lemma Prepare(current: Coord, order: seq<Coord>, found: seq<Coord>)
      requires Shaped() && Tree(order) && found == ValidNeighbours(current)
      ensures Prepared(current, order, found)
    {
      ValidNeighboursMembers(current);
      forall i, j | 0 <= i < j < |order + found|
        ensures (order + found)[i] != (order + found)[j]
      {
        if i < |order| && j >= |order| {
          assert (order + found)[j] == found[j - |order|];
          assert IsValidCell(found[j - |order|]);
          assert (order + found)[i] == order[i];
        }
      }
      forall k | 0 <= k < |found|
        ensures Adjacent(current, found[k]) && IsValidCell(found[k])
      {
        assert found[k] in found;
      }
    }

    /** Expanding `x.current`: when the cells of `x.found` (its valid
        neighbours in the state before) have been marked explored and given
        `x.current` as parent, and nothing else has changed, the discovery
        order extended by `x.found` is still a tree. */
    twostate lemma ExpandedTree(x: Expansion)
      requires old(Valid()) && old(Tree(x.order)) && old(Prepared(x.current, x.order, x.found))
      requires x.current in x.order && unchanged(wall)
      requires forall r, c :: 0 <= r < rows && 0 <= c < cols ==>
        explored[r, c] == (old(explored[r, c]) || (r, c) in x.found) &&
        parent[r, c] == (if (r, c) in x.found then Some(x.current) else old(parent[r, c]))
      ensures Valid() && Tree(x.order + x.found)
    {
      var Expansion(current, order, _, _, found) := x;
      var order' := order + found;
      assert Linked();
      forall i | 0 < i < |order'|
        ensures ParentBefore(order', i)
      {
        if i < |order| {
          assert old(ParentBefore(order, i));
          assert order'[i] == order[i] && order'[..i] == order[..i];
          assert order[i] !in found;
        } else {
          assert order'[i] == found[i - |order|];
          var k :| 0 <= k < |order| && order[k] == current;
          assert order'[..i][k] == current;
        }
      }
    }

    /** Expanding `x.current`, as above: every open neighbour of `x.current`
        is now discovered, so with `x.current` expanded the frontier
        invariant holds of the waiting cells followed by `x.found`. */
    twostate lemma ExpandedSettled(x: Expansion)
      requires x.pending == x.waiting + [x.current]
      requires Shaped() && old(Settled(x.order, x.pending)) && old(Prepared(x.current, x.order, x.found))
      requires x.current != end && unchanged(wall)
      requires forall r, c :: 0 <= r < rows && 0 <= c < cols ==>
        explored[r, c] == (old(explored[r, c]) || (r, c) in x.found)
      ensures Settled(x.order + x.found, x.waiting + x.found)
    {
      var Expansion(current, order, waiting, _, found) := x;
      forall c | c in order + found && c !in waiting + found
        ensures Closed(c)
      {
        if c == current {
          forall d | Adjacent(c, d) && Open(d)
            ensures Explored(d)
          {
            if !old(explored[d.0, d.1]) {
              assert old(IsValidCell(d));
            }
          }
        } else {
          assert old(Closed(c));
        }
      }
    }

    /** Every open neighbour of `c` has been explored. */
    ghost predicate Closed(c: Coord)
      reads wall, explored
      requires Shaped()
    {
      forall d :: Adjacent(c, d) && Open(d) ==> Explored(d)
    }

    /** A walk through open cells, each step to a neighbour. */
    ghost predicate IsWalk(p: seq<Coord>)
      reads wall
      requires Shaped()
    {
      |p| > 0 &&
      (forall k :: 0 <= k < |p| ==> Open(p[k])) &&
      (forall k :: 0 <= k < |p| - 1 ==> Adjacent(p[k], p[k + 1]))
    }

    /** Some walk leads from the start cell to the end cell. */
    ghost predicate Reachable()
      reads wall
      requires Shaped()
    {
      exists p :: IsWalk(p) && p[0] == start && p[|p| - 1] == end
    }

    /** The search state, with `order` the cells in the order they were
        discovered: the start first; exactly these cells are explored, all of
        them open and none twice; a cell has a parent only once discovered;
        the start has none; every other discovered cell has as parent a
        neighbour discovered before it. So the parent links form a tree
        rooted at the start. */
    ghost predicate Tree(order: seq<Coord>)
      reads wall, explored, parent
      requires Shaped()
    {
      |order| > 0 && order[0] == start && Distinct(order) &&
      (forall i :: 0 <= i < |order| ==> Open(order[i])) &&
      (forall r, c :: 0 <= r < rows && 0 <= c < cols ==> (explored[r, c] <==> (r, c) in order)) &&
      (forall r, c :: 0 <= r < rows && 0 <= c < cols && (r, c) !in order ==> parent[r, c] == None) &&
      parent[start.0, start.1] == None &&
      (forall i :: 0 < i < |order| ==> ParentBefore(order, i))
    }

    ghost predicate ParentBefore(order: seq<Coord>, i: nat)
      reads parent
      requires Shaped() && i < |order| && InBounds(order[i])
    {
      var p := parent[order[i].0, order[i].1];
      p.Some? && p.value in order[..i] && Adjacent(p.value, order[i])
    }

    /** The frontier invariant of the search. `frontier` holds the cells
        discovered but not yet expanded; every other discovered cell has had
        all its open neighbours discovered, and the end cell, once discovered,
        is still in the frontier. */
    ghost predicate Settled(order: seq<Coord>, frontier: seq<Coord>)
      reads wall, explored
      requires Shaped()
    {
      (forall c :: c in frontier ==> c in order) &&
      (forall c :: c in order && c !in frontier ==> Closed(c)) &&
      (end in order ==> end in frontier)
    }

    /** The state at the head of the search loop: the parent links form a
        tree over the discovered cells, `current` is one of them, `waiting`
        and `current` together are the frontier, and no more cells are
        discovered than the grid holds. */
    ghost predicate Searching(order: seq<Coord>, current: Coord, waiting: seq<Coord>)
      reads wall, explored, parent
    {
      Valid() && Tree(order) && current in order &&
      Settled(order, waiting + [current]) && |order| <= rows * cols
    }

    /** The chain `a` steps from each cell to its parent. */
    ghost predicate ParentChain(a: seq<Coord>)
      reads parent
      requires Shaped()
    {
      |a| > 0 &&
      (forall k :: 0 <= k < |a| ==> InBounds(a[k])) &&
      (forall k :: 0 <= k < |a| - 1 ==> parent[a[k].0, a[k].1] == Some(a[k + 1]))
    }

    /** The cells met following parent links from `c` until the start, with
        at most `fuel` links followed; None when a link is missing or the
        start is not met in time. */
    ghost function Ancestry(c: Coord, fuel: nat): Option<seq<Coord>>
      reads parent
      requires Shaped() && Linked() && InBounds(c)
      decreases fuel
    {
      if c == start then Some([c])
      else if fuel == 0 then None
      else
        match parent[c.0, c.1]
        case None => None
        case Some(p) => Graft([c], Ancestry(p, fuel - 1))
    }

    /** Ancestry finds the parent chain from `c` that stops at the first
        start cell, of at most fuel + 1 cells. */
    lemma {:induction false} AncestrySound(c: Coord, fuel: nat)
      requires Shaped() && Linked() && InBounds(c)
      requires Ancestry(c, fuel).Some?
      ensures var a := Ancestry(c, fuel).value;
        ParentChain(a) && a[0] == c && a[|a| - 1] == start && |a| <= fuel + 1 &&
        forall k :: 0 <= k < |a| - 1 ==> a[k] != start
      decreases fuel
    {
      if c != start {
        var p := parent[c.0, c.1].value;
        AncestrySound(p, fuel - 1);
        var tail := Ancestry(p, fuel - 1).value;
        var a := Ancestry(c, fuel).value;
        assert a == [c] + tail;
        assert forall k :: 0 < k < |a| ==> a[k] == tail[k - 1];
      }
    }

    /** Conversely, every such chain is the one Ancestry finds. */
    lemma {:induction false} AncestryComplete(a: seq<Coord>, fuel: nat)
      requires Shaped() && Linked() && ParentChain(a)
      requires a[|a| - 1] == start && |a| <= fuel + 1
      requires forall k :: 0 <= k < |a| - 1 ==> a[k] != start
      ensures Ancestry(a[0], fuel) == Some(a)
      decreases |a|
    {
      if |a| == 1 {
        assert a == [start];
      } else {
        var tail := a[1..];
        assert ParentChain(tail) by {
          assert forall k :: 0 <= k < |tail| ==> tail[k] == a[k + 1];
        }
        AncestryComplete(tail, fuel - 1);
        assert a[0] != start && parent[a[0].0, a[0].1] == Some(tail[0]);
        assert Ancestry(a[0], fuel) == Graft([a[0]], Ancestry(tail[0], fuel - 1));
        assert a == [a[0]] + tail;
      }
    }

    /** In a tree, following parent links from the i-th discovered cell
        reaches the start within i links, through cells discovered no later,
        each once, each a neighbour of the next. */
    lemma {:induction false} TreeAncestry(order: seq<Coord>, i: nat, fuel: nat)
      requires Valid() && Tree(order)
      requires i < |order| && i <= fuel
      ensures Ancestry(order[i], fuel).Some?
      ensures var a := Ancestry(order[i], fuel).value;
        a[0] == order[i] && Distinct(a) &&
        (forall x :: x in a ==> x in order[..i + 1]) &&
        (forall k :: 0 <= k < |a| - 1 ==> Adjacent(a[k], a[k + 1]))
      decreases i
    {
      var c := order[i];
      if i > 0 {
        assert c != start by { assert order[0] == start; }
        assert ParentBefore(order, i);
        var p := parent[c.0, c.1].value;
        var j :| 0 <= j < i && order[..i][j] == p;
        assert order[j] == p;
        TreeAncestry(order, j, fuel - 1);
        var tail := Ancestry(p, fuel - 1).value;
        var a := [c] + tail;
        assert Ancestry(c, fuel) == Some(a);
        forall x | x in tail
          ensures x in order[..i]
        {
          var k :| 0 <= k < j + 1 && order[..j + 1][k] == x;
          assert order[..i][k] == x;
        }
        assert c !in tail;
        forall x | x in a
          ensures x in order[..i + 1]
        {
          if x == c {
            assert order[..i + 1][i] == c;
          } else {
            var k :| 0 <= k < i && order[..i][k] == x;
            assert order[..i + 1][k] == x;
          }
        }
      }
    }

    /** The path a solver reports for the i-th discovered cell: the reversed
        parent chain runs from the start to that cell, through open cells,
        each a neighbour of the next, none twice. */
    lemma TreePath(order: seq<Coord>, i: nat)
      requires Valid() && Tree(order) && i < |order|
      ensures Ancestry(order[i], rows * cols).Some?
      ensures var path := Reverse(Ancestry(order[i], rows * cols).value);
        IsWalk(path) && path[0] == start && path[|path| - 1] == order[i] && Distinct(path)
    {
      DistinctCellsBound(order, rows, cols);
      TreeAncestry(order, i, rows * cols);
      AncestrySound(order[i], rows * cols);
      var a := Ancestry(order[i], rows * cols).value;
      ReverseWalk(a);
      forall x | x in a
        ensures Open(x)
      {
        var m :| 0 <= m < i + 1 && order[..i + 1][m] == x;
        assert order[m] == x;
      }
      ReverseKeeps(a, Reverse(a));
    }

    /** Reversing a sequence of open cells whose reverse steps between
        neighbours gives a walk. */
    lemma ReverseKeeps(a: seq<Coord>, path: seq<Coord>)
      requires Shaped() && path == Reverse(a) && a != []
      requires forall x :: x in a ==> Open(x)
      requires forall k :: 0 <= k < |path| - 1 ==> Adjacent(path[k], path[k + 1])
      ensures IsWalk(path)
    {
      forall k | 0 <= k < |path|
        ensures Open(path[k])
      {
        assert path[k] == a[|a| - 1 - k];
        assert path[k] in a;
      }
    }

    /** When every discovered cell has been expanded, each walk from the
        start stays among the discovered cells. */
    lemma {:induction false} WalkStaysDiscovered(order: seq<Coord>, p: seq<Coord>)
      requires Shaped() && Tree(order)
      requires forall c :: c in order ==> Closed(c)
      requires IsWalk(p) && p[0] == start
      ensures p[|p| - 1] in order
      decreases |p|
    {
      if |p| > 1 {
        var q := p[..|p| - 1];
        assert IsWalk(q) by {
          assert forall k :: 0 <= k < |q| ==> q[k] == p[k];
        }
        WalkStaysDiscovered(order, q);
        var x, y := p[|p| - 2], p[|p| - 1];
        assert Closed(x) && Adjacent(x, y) && Open(y);
        assert Explored(y);
      }
    }

    /** When no discovered cell waits to be expanded, every walk from the
        start stays among the discovered cells, and the end is not one of
        them: the end cannot be reached. */
    lemma Exhausted(order: seq<Coord>)
      requires Shaped() && Tree(order) && Settled(order, [])
      ensures !Reachable()
    {
      forall p | IsWalk(p) && p[0] == start
        ensures p[|p| - 1] != end
      {
        WalkStaysDiscovered(order, p);
      }
    }

    /** Once the end cell is discovered, the reversed parent chain from the
        end is a walk from the start to the end, through open cells, none
        twice. */
    lemma EndDiscovered(order: seq<Coord>)
      requires Valid() && Tree(order) && end in order
      ensures Ancestry(end, rows * cols).Some?
      ensures var path := Reverse(Ancestry(end, rows * cols).value);
        IsWalk(path) && path[0] == start && path[|path| - 1] == end && Distinct(path)
    {
      var i :| 0 <= i < |order| && order[i] == end;
      TreePath(order, i);
    }
  }
}
