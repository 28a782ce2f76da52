/** Grid coordinates and the sequence facts the search relies on.
    A cell is named by its (row, column) pair: where the Java code compares
    MazeCell references, the model compares coordinates. */
module Cells {

  datatype Option<T> = None | Some(value: T)

  /** A grid position: (row, column). */
  type Coord = (int, int)

  /** Two cells are neighbours when they differ by one in exactly one axis. */
  predicate Adjacent(a: Coord, b: Coord)
  {
    (a.0 == b.0 && (a.1 - b.1 == 1 || b.1 - a.1 == 1)) ||
    (a.1 == b.1 && (a.0 - b.0 == 1 || b.0 - a.0 == 1))
  }

  /** A neighbour of `c` lies North, East, South or West of it. */
  lemma NeighbourCases(c: Coord, d: Coord)
    requires Adjacent(c, d)
    ensures d == (c.0 - 1, c.1) || d == (c.0, c.1 + 1) || d == (c.0 + 1, c.1) || d == (c.0, c.1 - 1)
  {
  }

  lemma AppendFour<T>(s: seq<T>, a: seq<T>, b: seq<T>, c: seq<T>, d: seq<T>)
    ensures s + a + b + c + d == s + (a + b + c + d)
  {
  }

  /** Membership in four optional one-element lists. */
  lemma InFour<T>(x: T, a: T, b: T, c: T, d: T, pa: bool, pb: bool, pc: bool, pd: bool)
    ensures x in (if pa then [a] else []) + (if pb then [b] else []) + (if pc then [c] else []) + (if pd then [d] else []) <==>
      (pa && x == a) || (pb && x == b) || (pc && x == c) || (pd && x == d)
  {
  }

  /** Four different cells, each kept or not, are kept at most once each. */
  lemma DistinctFour<T>(a: T, b: T, c: T, d: T, pa: bool, pb: bool, pc: bool, pd: bool)
    requires a != b && a != c && a != d && b != c && b != d && c != d
    ensures Distinct((if pa then [a] else []) + (if pb then [b] else []) + (if pc then [c] else []) + (if pd then [d] else []))
  {
    var s := (if pa then [a] else []) + (if pb then [b] else []) + (if pc then [c] else []) + (if pd then [d] else []);
    assert forall x :: x in s ==> x == a || x == b || x == c || x == d;
    forall i, j | 0 <= i < j < |s|
      ensures s[i] != s[j]
    {
      InFour(s[i], a, b, c, d, pa, pb, pc, pd);
    }
  }

  predicate Distinct<T(==)>(s: seq<T>)
  {
    forall i, j :: 0 <= i < j < |s| ==> s[i] != s[j]
  }

  predicate InGrid(c: Coord, rows: int, cols: int)
  {
    0 <= c.0 < rows && 0 <= c.1 < cols
  }

  /** Prefixes a chain that may be missing. */
  function Graft(pre: seq<Coord>, o: Option<seq<Coord>>): Option<seq<Coord>>
  {
    match o
    case None => None
    case Some(q) => Some(pre + q)
  }

  lemma GraftNothing(o: Option<seq<Coord>>)
    ensures Graft([], o) == o
  {
    if o.Some? {
      assert [] + o.value == o.value;
    }
  }

  lemma GraftTwice(a: seq<Coord>, b: seq<Coord>, o: Option<seq<Coord>>)
    ensures Graft(a, Graft(b, o)) == Graft(a + b, o)
  {
    if o.Some? {
      assert a + (b + o.value) == a + b + o.value;
    }
  }

  /** The order in which a stack hands its elements back: last pushed first. */
  function Reverse<T>(s: seq<T>): (r: seq<T>)
    ensures |r| == |s|
    ensures forall k :: 0 <= k < |s| ==> r[k] == s[|s| - 1 - k]
  {
    if s == [] then [] else [s[|s| - 1]] + Reverse(s[..|s| - 1])
  }

  lemma ReverseTwice<T>(s: seq<T>)
    ensures Reverse(Reverse(s)) == s
  {
    var r := Reverse(Reverse(s));
    assert forall k :: 0 <= k < |s| ==> r[k] == s[k];
  }

  /** Reversing a chain keeps its cells distinct and its steps between
      neighbours. */
  lemma ReverseWalk(a: seq<Coord>)
    requires Distinct(a)
    requires forall k :: 0 <= k < |a| - 1 ==> Adjacent(a[k], a[k + 1])
    ensures var r := Reverse(a);
      Distinct(r) && (forall k :: 0 <= k < |r| - 1 ==> Adjacent(r[k], r[k + 1])) &&
      (a != [] ==> r[0] == a[|a| - 1] && r[|r| - 1] == a[0])
  {
    var r, n := Reverse(a), |a|;
    forall k | 0 <= k < n - 1
      ensures Adjacent(r[k], r[k + 1])
    {
      assert r[k] == a[n - 1 - k] && r[k + 1] == a[n - 2 - k];
    }
    forall k, l | 0 <= k < l < n
      ensures r[k] != r[l]
    {
      assert r[k] == a[n - 1 - k] && r[l] == a[n - 1 - l];
    }
  }

  /** The cells of row `r` with a column below `n`. */
  ghost function RowCells(r: int, n: nat): (s: set<Coord>)
    ensures forall c :: c in s <==> c.0 == r && 0 <= c.1 < n
    ensures |s| == n
  {
    if n == 0 then {} else RowCells(r, n - 1) + {(r, n - 1)}
  }

  /** All cells of an m-by-n grid. */
  ghost function GridCells(m: nat, n: nat): (s: set<Coord>)
    ensures forall c :: c in s <==> InGrid(c, m, n)
    ensures |s| == m * n
  {
    if m == 0 then {}
    else
      var above := GridCells(m - 1, n);
      var row := RowCells(m - 1, n);
      assert above * row == {};
      assert (m - 1) * n + n == m * n;
      above + row
  }

  lemma {:induction false} DistinctElements<T>(s: seq<T>)
    requires Distinct(s)
    ensures |set x | x in s| == |s|
  {
    if s != [] {
      var tail := s[1..];
      assert Distinct(tail);
      DistinctElements(tail);
      assert (set x | x in s) == {s[0]} + (set x | x in tail);
      assert s[0] !in tail;
    }
  }

  /** Pigeonhole: a grid of rows * cols cells holds at most rows * cols
      different cells. */
  lemma DistinctCellsBound(s: seq<Coord>, rows: nat, cols: nat)
    requires Distinct(s)
    requires forall i :: 0 <= i < |s| ==> InGrid(s[i], rows, cols)
    ensures |s| <= rows * cols
  {
    var inS := set x | x in s;
    var grid := GridCells(rows, cols);
    DistinctElements(s);
    assert inS <= grid;
    assert grid == inS + (grid - inS);
    assert inS * (grid - inS) == {};
  }
}
