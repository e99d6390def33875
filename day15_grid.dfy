// Day 15: Beverage Bandits, the grid. Positions are `usize` pairs read in
// reading order (top row first, left to right); the four neighbours of a
// cell are listed north, west, east, south, and a cell on the edge of the
// `usize` range simply lacks the neighbour beyond it.
module Day15Grid {
  import opened Common

  /** `usize::MAX`: the largest coordinate. */
  const MAX_COORD: nat := 0xFFFF_FFFF_FFFF_FFFF

  /** `MAX_DISTANCE`, the "not yet known" distance of the path search. */
  const MAX_DISTANCE: nat := 0xFFFF_FFFF_FFFF_FFFF

  type Coord = n: nat | n <= MAX_COORD

  datatype Position = Position(x: Coord, y: Coord)

  /** `Position::MIN` and `Position::MAX`. */
  const MIN_POSITION := Position(0, 0)
  const MAX_POSITION := Position(MAX_COORD, MAX_COORD)

  /** Reading order: `a` lies in an earlier row, or in the same row to the left. */
  predicate Before(a: Position, b: Position)
  {
    a.y < b.y || (a.y == b.y && a.x < b.x)
  }

  /** `Ord for Position`: the row decides first, the column breaks ties. */
  function Cmp(a: Position, b: Position): (r: Ordering)
    ensures r == Equal <==> a == b
    ensures r == Less <==> Before(a, b)
    ensures r == Greater <==> Before(b, a)
  {
    if a.y == b.y then
      if a.x == b.x then Equal else if a.x < b.x then Less else Greater
    else if a.y < b.y then Less
    else Greater
  }

  /** Reading order is a strict total order. */
  lemma BeforeIsStrictTotalOrder(a: Position, b: Position, c: Position)
    ensures !Before(a, a)
    ensures Before(a, b) ==> !Before(b, a)
    ensures Before(a, b) && Before(b, c) ==> Before(a, c)
    ensures a == b || Before(a, b) || Before(b, a)
  {
  }

  /** `Position::north`: one row up, none in the top row. */
  function North(p: Position): (r: Option<Position>)
    ensures r.None? <==> p.y == 0
    ensures r.Some? ==> Adjacent(p, r.value) && Before(r.value, p)
  {
    if p.y > 0 then Some(Position(p.x, p.y - 1)) else None
  }

  /** `Position::south`: one row down, none in the last `usize` row. */
  function South(p: Position): (r: Option<Position>)
    ensures r.None? <==> p.y == MAX_COORD
    ensures r.Some? ==> Adjacent(p, r.value) && Before(p, r.value)
  {
    if p.y < MAX_COORD then Some(Position(p.x, p.y + 1)) else None
  }

  /** `Position::east`: one column right, none in the last `usize` column. */
  function East(p: Position): (r: Option<Position>)
    ensures r.None? <==> p.x == MAX_COORD
    ensures r.Some? ==> Adjacent(p, r.value) && Before(p, r.value)
  {
    if p.x < MAX_COORD then Some(Position(p.x + 1, p.y)) else None
  }

  /** `Position::west`: one column left, none in the first column. */
  function West(p: Position): (r: Option<Position>)
    ensures r.None? <==> p.x == 0
    ensures r.Some? ==> Adjacent(p, r.value) && Before(r.value, p)
  {
    if p.x > 0 then Some(Position(p.x - 1, p.y)) else None
  }

  /** `Position::manhattan_distance`. */
  function ManhattanDistance(a: Position, b: Position): (r: nat)
    ensures r == 0 <==> a == b
  {
    var dx := if a.x < b.x then b.x - a.x else a.x - b.x;
    var dy := if a.y < b.y then b.y - a.y else a.y - b.y;
    dx + dy
  }

  /** Two cells are orthogonal neighbours. */
  predicate Adjacent(a: Position, b: Position)
  {
    ManhattanDistance(a, b) == 1
  }

  /** North and west are missing exactly at coordinate 0, south and east
      exactly at `usize::MAX`; otherwise each shifts one coordinate by one. */
  lemma NeighboursAtEdges(p: Position)
    ensures North(p).None? <==> p.y == 0
    ensures West(p).None? <==> p.x == 0
    ensures South(p).None? <==> p.y == MAX_COORD
    ensures East(p).None? <==> p.x == MAX_COORD
    ensures North(p).Some? ==> North(p).value.x == p.x && North(p).value.y + 1 == p.y
    ensures West(p).Some? ==> West(p).value.y == p.y && West(p).value.x + 1 == p.x
    ensures South(p).Some? ==> South(p).value.x == p.x && South(p).value.y == p.y + 1
    ensures East(p).Some? ==> East(p).value.y == p.y && East(p).value.x == p.x + 1
  {
  }

  /** North undoes south and west undoes east. */
  lemma OppositeNeighbours(p: Position, q: Position)
    ensures North(p) == Some(q) <==> South(q) == Some(p)
    ensures West(p) == Some(q) <==> East(q) == Some(p)
  {
  }

  /** The distance is the sum of the absolute coordinate differences; it is
      symmetric and zero only from a cell to itself. */
  lemma ManhattanDistanceSpec(a: Position, b: Position)
    ensures ManhattanDistance(a, b) == Abs(a.x - b.x) + Abs(a.y - b.y)
    ensures ManhattanDistance(a, b) == ManhattanDistance(b, a)
    ensures ManhattanDistance(a, b) == 0 <==> a == b
  {
  }

  /** The present neighbours of `p`, in the order the source visits them:
      north, west, east, south. */
  function Neighbours(p: Position): (r: seq<Position>)
    ensures |r| <= 4
    ensures forall i, j :: 0 <= i < j < |r| ==> r[i] != r[j]
  {
    (if North(p).Some? then [North(p).value] else [])
    + (if West(p).Some? then [West(p).value] else [])
    + (if East(p).Some? then [East(p).value] else [])
    + (if South(p).Some? then [South(p).value] else [])
  }

  /** The neighbours are exactly the cells at distance one. */
  lemma NeighboursAreAdjacent(p: Position, q: Position)
    ensures q in Neighbours(p) <==> Adjacent(p, q)
  {
    if Adjacent(p, q) {
      if q.x == p.x {
        assert q.y + 1 == p.y || q.y == p.y + 1;
        if q.y + 1 == p.y {
          assert North(p) == Some(q);
        } else {
          assert South(p) == Some(q);
        }
      } else {
        assert q.y == p.y;
        if q.x + 1 == p.x {
          assert West(p) == Some(q);
        } else {
          assert East(p) == Some(q);
        }
      }
    }
  }

  /** Adjacency is symmetric. */
  lemma AdjacentSymmetric(p: Position, q: Position)
    ensures Adjacent(p, q) <==> Adjacent(q, p)
    ensures q in Neighbours(p) <==> p in Neighbours(q)
  {
    NeighboursAreAdjacent(p, q);
    NeighboursAreAdjacent(q, p);
  }

  datatype Tile = OpenCavern | Wall

  /** `Cave::tile`: a wall where the cave lists one, open cavern elsewhere. */
  function TileAt(walls: set<Position>, p: Position): (r: Tile)
    ensures r == Wall <==> p in walls
  {
    if p in walls then Wall else OpenCavern
  }

  /** The smallest box holding every wall; with no walls, the empty box
      from `Position::MAX` to `Position::MIN`. */
  predicate Bounds(walls: set<Position>, topLeft: Position, bottomRight: Position)
  {
    && (walls == {} ==> topLeft == MAX_POSITION && bottomRight == MIN_POSITION)
    && (forall p <- walls :: topLeft.x <= p.x <= bottomRight.x && topLeft.y <= p.y <= bottomRight.y)
    && (walls != {} ==>
          && (exists p <- walls :: p.x == topLeft.x) && (exists p <- walls :: p.x == bottomRight.x)
          && (exists p <- walls :: p.y == topLeft.y) && (exists p <- walls :: p.y == bottomRight.y))
  }

  /** `Cave::area`: the bounding box of the walls. */
  method Area(walls: set<Position>) returns (topLeft: Position, bottomRight: Position)
    ensures Bounds(walls, topLeft, bottomRight)
  {
    topLeft := MAX_POSITION;
    bottomRight := MIN_POSITION;
    var todo := walls;
    while todo != {}
      invariant todo <= walls
      invariant forall p <- walls - todo :: topLeft.x <= p.x <= bottomRight.x && topLeft.y <= p.y <= bottomRight.y
      invariant todo == walls ==> topLeft == MAX_POSITION && bottomRight == MIN_POSITION
      invariant todo != walls ==>
                  && (exists p <- walls - todo :: p.x == topLeft.x) && (exists p <- walls - todo :: p.x == bottomRight.x)
                  && (exists p <- walls - todo :: p.y == topLeft.y) && (exists p <- walls - todo :: p.y == bottomRight.y)
      decreases |todo|
    {
      var wall :| wall in todo;
      if todo == walls {
        assert wall.x <= topLeft.x && wall.y <= topLeft.y && wall.x >= bottomRight.x && wall.y >= bottomRight.y;
      }
      if wall.x < topLeft.x {
        topLeft := topLeft.(x := wall.x);
      }
      if wall.y < topLeft.y {
        topLeft := topLeft.(y := wall.y);
      }
      if wall.x > bottomRight.x {
        bottomRight := bottomRight.(x := wall.x);
      }
      if wall.y > bottomRight.y {
        bottomRight := bottomRight.(y := wall.y);
      }
      todo := todo - {wall};
    }
  }

  // ---------------------------------------------------------------------
  // Positions in reading order (`sort_unstable` on distinct positions)

  predicate StrictlySorted(xs: seq<Position>)
  {
    forall i, j :: 0 <= i < j < |xs| ==> Before(xs[i], xs[j])
  }

  /** Inserting a new position into a sorted list keeps it sorted and adds
      exactly that position. */
  function InsertSorted(p: Position, xs: seq<Position>): (r: seq<Position>)
    requires StrictlySorted(xs) && p !in xs
    ensures StrictlySorted(r)
    ensures |r| == |xs| + 1
    ensures forall q :: q in r <==> q == p || q in xs
  {
    if xs == [] then [p]
    else if Before(p, xs[0]) then
      assert forall j :: 0 < j < |xs| ==> Before(xs[0], xs[j]);
      [p] + xs
    else
      var rest := InsertSorted(p, xs[1..]);
      assert forall q :: q in rest ==> Before(xs[0], q) by {
        forall q | q in rest ensures Before(xs[0], q) {
          if q != p {
            var j :| 1 <= j < |xs| && xs[j] == q;
          }
        }
      }
      [xs[0]] + rest
  }

  /** Two sorted lists of the same positions are the same list: the order
      of a set of distinct positions is fixed. */
  lemma {:induction false} SortedUnique(a: seq<Position>, b: seq<Position>)
    requires StrictlySorted(a) && StrictlySorted(b)
    requires forall q :: q in a <==> q in b
    ensures a == b
    decreases |a|
  {
    assert a != [] ==> a[0] in b;
    assert b != [] ==> b[0] in a;
    if a != [] && b != [] {
      var a0, b0 := a[0], b[0];
      var i :| 0 <= i < |a| && a[i] == b0;
      var j :| 0 <= j < |b| && b[j] == a0;
      assert i == 0 || Before(a0, b0);
      assert j == 0 || Before(b0, a0);
      forall q
        ensures q in a[1..] <==> q in b[1..]
      {
        if q in a[1..] {
          var i :| 1 <= i < |a| && a[i] == q;
          assert Before(a[0], q) && q in a && q in b;
          var k :| 0 <= k < |b| && b[k] == q;
          assert b[1..][k - 1] == q;
        }
        if q in b[1..] {
          var j :| 1 <= j < |b| && b[j] == q;
          assert Before(b[0], q) && q in b && q in a;
          var k :| 0 <= k < |a| && a[k] == q;
          assert a[1..][k - 1] == q;
        }
      }
      SortedUnique(a[1..], b[1..]);
      assert a == [a[0]] + a[1..] && b == [b[0]] + b[1..];
    }
  }

  /** A non-empty set of positions has a first one in reading order. */
  lemma {:induction false} FirstExists(s: set<Position>)
    requires s != {}
    ensures exists m :: m in s && forall q :: q in s ==> q == m || Before(m, q)
    decreases |s|
  {
    var p :| p in s;
    if s - {p} == {} {
      assert s == {p};
    } else {
      FirstExists(s - {p});
      var m :| m in s - {p} && forall q :: q in s - {p} ==> q == m || Before(m, q);
      if Before(p, m) {
        forall q | q in s
          ensures q == p || Before(p, q)
        {
          if q != p {
            assert q in s - {p};
          }
        }
      } else {
        forall q | q in s
          ensures q == m || Before(m, q)
        {
          if q != p {
            assert q in s - {p};
          }
        }
      }
    }
  }

  /** The first position of a non-empty set in reading order. */
  ghost function First(s: set<Position>): (m: Position)
    requires s != {}
    ensures m in s && forall q :: q in s ==> q == m || Before(m, q)
  {
    FirstExists(s);
    var m :| m in s && forall q :: q in s ==> q == m || Before(m, q); m
  }

  /** The positions of a set in reading order. */
  ghost function Ordered(s: set<Position>): (r: seq<Position>)
    ensures StrictlySorted(r)
    ensures |r| == |s|
    ensures forall q | q in r :: q in s
    decreases |s|
  {
    if s == {} then []
    else
      var m := First(s);
      var rest := Ordered(s - {m});
      assert forall q :: q in rest ==> Before(m, q);
      [m] + rest
  }

  /** `Ordered` lists every position of the set. */
  lemma {:induction false} OrderedMembers(s: set<Position>)
    ensures forall q :: q in Ordered(s) <==> q in s
    decreases |s|
  {
    if s != {} {
      OrderedMembers(s - {First(s)});
    }
  }

  /** Collects a set of positions into a vector and sorts it
      (`Vec::from_iter` followed by `sort_unstable`). */
  method SortPositions(s: set<Position>) returns (r: seq<Position>)
    ensures r == Ordered(s)
  {
    r := [];
    var todo := s;
    while todo != {}
      invariant todo <= s
      invariant StrictlySorted(r)
      invariant forall q :: q in r <==> q in s - todo
      decreases |todo|
    {
      var p :| p in todo;
      r := InsertSorted(p, r);
      todo := todo - {p};
    }
    OrderedMembers(s);
    SortedUnique(r, Ordered(s));
  }
}
