// Day 6: Chronal Coordinates. Every cell of the points' bounding box belongs
// to the point strictly nearest to it in Manhattan distance (a tie leaves it
// unowned); the answer is the largest area among points that are enclosed by
// other points on all four diagonal sides.
module Day06 {
  import opened Common

  datatype Point = Point(x: int, y: int)

  datatype PointError =
    | MissingXCoordinate(input: string)
    | MissingYCoordinate(input: string)
    | XNotAnInteger(input: string)
    | YNotAnInteger(input: string)

  datatype ParsedPoint = Parsed(point: Point) | Failed(error: PointError)

  // ---------------------------------------------------------------------
  // Parsing

  /** `Point::from_str`: the first two comma-separated pieces, trimmed, as
      `i32`s; pieces after the second are ignored. */
  function ParsePoint(s: string): (r: ParsedPoint)
    ensures r.Parsed? ==> I32_MIN <= r.point.x <= I32_MAX && I32_MIN <= r.point.y <= I32_MAX
    ensures r.Failed? ==> !r.error.MissingXCoordinate?
    ensures ',' !in s ==> r == Failed(MissingYCoordinate(s))
  {
    var parts := Split(s, ',');
    assert ',' !in s ==> parts == [s] by {
      if ',' !in s { SplitSegment(s, ',', []); }
    }
    if |parts| < 2 then
      Failed(MissingYCoordinate(s))
    else
      match ParseInt(Trim(parts[0]), I32_MIN, I32_MAX)
      case None => Failed(XNotAnInteger(parts[0]))
      case Some(x) =>
        match ParseInt(Trim(parts[1]), I32_MIN, I32_MAX)
        case None => Failed(YNotAnInteger(parts[1]))
        case Some(y) => Parsed(Point(x, y))
  }

  /** The puzzle's line format, "x, y". */
  function FormatPoint(p: Point): string
  {
    ShowInt(p.x) + ", " + ShowInt(p.y)
  }

  lemma ShowIntNoComma(v: int)
    ensures ',' !in ShowInt(v)
  {
    var n := if v < 0 then -v else v;
    assert AllDigits(ShowNat(n));
    if v < 0 {
      assert ShowInt(v) == "-" + ShowNat(n);
    }
  }

  /** A formatted point splits at its one comma. */
  lemma SplitFormatPoint(p: Point)
    ensures Split(FormatPoint(p), ',') == [ShowInt(p.x), " " + ShowInt(p.y)]
  {
    var sx, sy := ShowInt(p.x), ShowInt(p.y);
    ShowIntNoComma(p.x);
    ShowIntNoComma(p.y);
    assert ',' !in " " + sy;
    SplitSegment(" " + sy, ',', []);
    SplitSegment(sx, ',', " " + sy);
    assert FormatPoint(p) == sx + [','] + (" " + sy);
  }

  /** Both formatted coordinates trim to themselves. */
  lemma TrimFormatPoint(p: Point)
    ensures Trim(ShowInt(p.x)) == ShowInt(p.x) && Trim(" " + ShowInt(p.y)) == ShowInt(p.y)
  {
    var sx, sy := ShowInt(p.x), ShowInt(p.y);
    assert !IsWhitespace(sx[0]) && !IsWhitespace(sy[0]);
    TrimKeeps(sx);
    TrimSpaceBefore(sy);
  }

  lemma ParseFormatPoint(p: Point)
    requires I32_MIN <= p.x <= I32_MAX && I32_MIN <= p.y <= I32_MAX
    ensures ParsePoint(FormatPoint(p)) == Parsed(p)
  {
    SplitFormatPoint(p);
    TrimFormatPoint(p);
    ParseShowInt(p.x, I32_MIN, I32_MAX);
    ParseShowInt(p.y, I32_MIN, I32_MAX);
  }

  // ---------------------------------------------------------------------
  // Distance

  /** `Point::distance`: the Manhattan distance. */
  function Distance(p: Point, q: Point): (d: nat)
    ensures d == 0 <==> p == q
  {
    Abs(q.x - p.x) + Abs(q.y - p.y)
  }

  lemma DistanceSymmetric(p: Point, q: Point)
    ensures Distance(p, q) == Distance(q, p)
  {
  }

  lemma DistanceTriangle(p: Point, q: Point, r: Point)
    ensures Distance(p, r) <= Distance(p, q) + Distance(q, r)
  {
  }

  // ---------------------------------------------------------------------
  // Bounding box

  function MinOf(s: seq<int>): (m: int)
    requires s != []
    ensures m in s && forall v <- s :: m <= v
  {
    if |s| == 1 then s[0]
    else
      var rest := MinOf(s[1..]);
      assert forall v <- s[1..] :: v in s;
      assert forall v <- s :: v == s[0] || v in s[1..];
      if s[0] <= rest then s[0] else rest
  }

  function MaxOf(s: seq<int>): (m: int)
    requires s != []
    ensures m in s && forall v <- s :: v <= m
  {
    if |s| == 1 then s[0]
    else
      var rest := MaxOf(s[1..]);
      assert forall v <- s[1..] :: v in s;
      assert forall v <- s :: v == s[0] || v in s[1..];
      if s[0] >= rest then s[0] else rest
  }

  function Xs(points: seq<Point>): (r: seq<int>)
    ensures |r| == |points| && forall i :: 0 <= i < |points| ==> r[i] == points[i].x
  {
    if points == [] then [] else [points[0].x] + Xs(points[1..])
  }

  function Ys(points: seq<Point>): (r: seq<int>)
    ensures |r| == |points| && forall i :: 0 <= i < |points| ==> r[i] == points[i].y
  {
    if points == [] then [] else [points[0].y] + Ys(points[1..])
  }

  /** The cell lies in the smallest rectangle holding every point. */
  predicate InBox(points: seq<Point>, c: Point)
    requires points != []
  {
    MinOf(Xs(points)) <= c.x <= MaxOf(Xs(points)) && MinOf(Ys(points)) <= c.y <= MaxOf(Ys(points))
  }

  lemma PointsInBox(points: seq<Point>, p: Point)
    requires p in points
    ensures InBox(points, p)
  {
    var i :| 0 <= i < |points| && points[i] == p;
    var xs, ys := Xs(points), Ys(points);
    assert xs[i] == p.x && xs[i] in xs;
    assert ys[i] == p.y && ys[i] in ys;
  }

  // ---------------------------------------------------------------------
  // Ownership

  /** `p` is the unique nearest point to cell `c`. */
  ghost predicate Owns(points: seq<Point>, c: Point, p: Point)
  {
    p in points && forall q <- points :: q != p ==> Distance(p, c) < Distance(q, c)
  }

  ghost predicate HasOwner(points: seq<Point>, c: Point)
  {
    exists p :: Owns(points, c, p)
  }

  lemma OwnerUnique(points: seq<Point>, c: Point, p: Point, q: Point)
    requires Owns(points, c, p) && Owns(points, c, q)
    ensures p == q
  {
  }

  /** Every point owns the cell it stands on, duplicates in the list included. */
  lemma OwnsItself(points: seq<Point>, p: Point)
    requires p in points
    ensures Owns(points, p, p)
  {
  }

  /** The cells of the bounding box. */
  ghost function BoxCells(points: seq<Point>): (cells: set<Point>)
    requires points != []
    ensures forall c :: c in cells <==> InBox(points, c)
  {
    var minX, maxX := MinOf(Xs(points)), MaxOf(Xs(points));
    var minY, maxY := MinOf(Ys(points)), MaxOf(Ys(points));
    set x, y | minX <= x <= maxX && minY <= y <= maxY :: Point(x, y)
  }

  /** The number of box cells a point owns. */
  ghost function Area(points: seq<Point>, p: Point): nat
    requires points != []
  {
    |set c | c in BoxCells(points) && Owns(points, c, p)|
  }

  /** Other points lie strictly inside each of the four diagonal quadrants
      around `p` (the four `find`s in `largest_area`). */
  predicate Enclosed(points: seq<Point>, p: Point)
  {
    (exists q <- points :: q.y < p.y && q.x < p.x)
    && (exists q <- points :: q.y < p.y && q.x > p.x)
    && (exists q <- points :: q.y > p.y && q.x < p.x)
    && (exists q <- points :: q.y > p.y && q.x > p.x)
  }

  // ---------------------------------------------------------------------
  // largest_area

  /** For one cell: the distance of every point, the smallest distance, and
      the points at that distance; an owner only if there is one such point. */
  method NearestOwner(points: seq<Point>, c: Point) returns (r: Option<Point>)
    requires points != []
    ensures r.Some? ==> Owns(points, c, r.value)
    ensures r.None? ==> !HasOwner(points, c)
  {
    var distances: map<Point, int> := map[];
    for i := 0 to |points|
      invariant forall j :: 0 <= j < i ==> points[j] in distances
      invariant forall p <- distances.Keys :: p in points && distances[p] == Distance(p, c)
    {
      distances := distances[points[i] := Distance(points[i], c)];
    }
    assert points[0] in distances;
    var closest := MinByValue(distances);
    var nearest := set p | p in distances && distances[p] == distances[closest];
    if |nearest| == 1 {
      SoleNearestOwns(points, c, distances, closest);
      r := Some(closest);
    } else {
      TiedNearestNoOwner(points, c, distances, closest);
      r := None;
    }
  }

  /** The distances of all points to `c`, keyed by point. */
  ghost predicate DistancesTo(points: seq<Point>, c: Point, distances: map<Point, int>)
  {
    && (forall j :: 0 <= j < |points| ==> points[j] in distances)
    && (forall p <- distances.Keys :: p in points && distances[p] == Distance(p, c))
  }

  /** A point alone at the smallest distance owns the cell. */
  lemma SoleNearestOwns(points: seq<Point>, c: Point, distances: map<Point, int>, closest: Point)
    requires DistancesTo(points, c, distances)
    requires closest in distances && forall p <- distances.Keys :: distances[closest] <= distances[p]
    requires |set p | p in distances && distances[p] == distances[closest]| == 1
    ensures Owns(points, c, closest)
  {
    var nearest := set p | p in distances && distances[p] == distances[closest];
    assert closest in nearest;
    forall q <- points | q != closest
      ensures Distance(closest, c) < Distance(q, c)
    {
      var j :| 0 <= j < |points| && points[j] == q;
      assert q in distances && distances[q] == Distance(q, c);
      assert |nearest - {closest}| == 0;
      assert q !in nearest - {closest};
    }
  }

  /** Two points at the smallest distance leave the cell without owner. */
  lemma TiedNearestNoOwner(points: seq<Point>, c: Point, distances: map<Point, int>, closest: Point)
    requires DistancesTo(points, c, distances)
    requires closest in distances && forall p <- distances.Keys :: distances[closest] <= distances[p]
    requires |set p | p in distances && distances[p] == distances[closest]| != 1
    ensures !HasOwner(points, c)
  {
    var nearest := set p | p in distances && distances[p] == distances[closest];
    assert closest in nearest;
    assert |nearest - {closest}| == |nearest| - 1 > 0;
    var q :| q in nearest - {closest};
    forall p | p in points
      ensures !Owns(points, c, p)
    {
      var j :| 0 <= j < |points| && points[j] == p;
      assert p in distances && distances[closest] <= distances[p];
      if p == closest {
        assert q in points && q != p && Distance(q, c) == Distance(p, c);
      } else {
        assert Distance(closest, c) <= Distance(p, c);
      }
    }
  }

  /** The nested loops over the bounding box that fill `point_map`. */
  method OwnerMap(points: seq<Point>) returns (owners: map<Point, Point>)
    requires points != []
    ensures forall c :: c in owners <==> InBox(points, c) && HasOwner(points, c)
    ensures forall c <- owners.Keys :: Owns(points, c, owners[c])
  {
    var minX, maxX := MinOf(Xs(points)), MaxOf(Xs(points));
    var minY, maxY := MinOf(Ys(points)), MaxOf(Ys(points));
    owners := map[];
    var x := minX;
    while x <= maxX
      invariant minX <= x <= maxX + 1
      invariant forall c :: c in owners <==> minX <= c.x < x && minY <= c.y <= maxY && HasOwner(points, c)
      invariant forall c <- owners.Keys :: Owns(points, c, owners[c])
      decreases maxX - x
    {
      owners := OwnerColumn(points, x, minY, maxY, owners);
      x := x + 1;
    }
  }

  /** The inner loop of `largest_area` over one column of the box: the
      owned cells of column `x` join `owners`. */
  method OwnerColumn(points: seq<Point>, x: int, minY: int, maxY: int, owners0: map<Point, Point>)
    returns (owners: map<Point, Point>)
    requires points != [] && minY <= maxY
    requires forall c <- owners0.Keys :: c.x != x
    ensures forall c :: c in owners <==> c in owners0 || (c.x == x && minY <= c.y <= maxY && HasOwner(points, c))
    ensures forall c <- owners.Keys :: c in owners0 ==> owners[c] == owners0[c]
    ensures forall c <- owners.Keys :: c !in owners0 ==> Owns(points, c, owners[c])
  {
    owners := owners0;
    var y := minY;
    while y <= maxY
      invariant minY <= y <= maxY + 1
      invariant forall c :: c in owners <==> c in owners0 || (c.x == x && minY <= c.y < y && HasOwner(points, c))
      invariant forall c <- owners.Keys :: c in owners0 ==> owners[c] == owners0[c]
      invariant forall c <- owners.Keys :: c !in owners0 ==> Owns(points, c, owners[c])
      decreases maxY - y
    {
      var cell := Point(x, y);
      var owner := NearestOwner(points, cell);
      if owner.Some? {
        owners := owners[cell := owner.value];
      }
      y := y + 1;
    }
  }

  ghost function OwnedCells(owners: map<Point, Point>, p: Point): set<Point>
  {
    set c | c in owners && owners[c] == p
  }

  /** The cells among `done` that `p` owns. */
  ghost function OwnedAmong(owners: map<Point, Point>, done: set<Point>, p: Point): set<Point>
  {
    set c | c in done && c in owners && owners[c] == p
  }

  lemma OwnedAmongAdd(owners: map<Point, Point>, done: set<Point>, c: Point, p: Point)
    requires c in owners && c !in done
    ensures owners[c] == p ==> OwnedAmong(owners, done + {c}, p) == OwnedAmong(owners, done, p) + {c}
    ensures owners[c] != p ==> OwnedAmong(owners, done + {c}, p) == OwnedAmong(owners, done, p)
    ensures c !in OwnedAmong(owners, done, p)
  {
  }

  /** `counts` holds, for every owner of a cell among `done`, how many of
      those cells it owns. */
  ghost predicate Counted(owners: map<Point, Point>, done: set<Point>, counts: map<Point, int>)
  {
    && (forall p :: p in counts <==> OwnedAmong(owners, done, p) != {})
    && (forall p <- counts.Keys :: counts[p] == |OwnedAmong(owners, done, p)|)
  }

  /** Counting one more cell for its owner keeps the counts right. */
  lemma CountedAdd(owners: map<Point, Point>, done: set<Point>, counts: map<Point, int>, c: Point)
    requires c in owners && c !in done && Counted(owners, done, counts)
    ensures var p := owners[c];
            Counted(owners, done + {c}, counts[p := if p in counts then counts[p] + 1 else 1])
  {
    var p := owners[c];
    forall p' ensures OwnedAmong(owners, done + {c}, p') == if p' == p then OwnedAmong(owners, done, p) + {c}
                                                                    else OwnedAmong(owners, done, p') {
      OwnedAmongAdd(owners, done, c, p');
    }
  }

  /** The `count_map` fold: how many cells each owner holds. */
  method CountOwned(owners: map<Point, Point>) returns (counts: map<Point, int>)
    ensures forall p :: p in counts <==> OwnedCells(owners, p) != {}
    ensures forall p <- counts.Keys :: counts[p] == |OwnedCells(owners, p)|
  {
    counts := map[];
    var todo, done := owners.Keys, {};
    while todo != {}
      invariant todo + done == owners.Keys && todo !! done
      invariant Counted(owners, done, counts)
      decreases |todo|
    {
      var c :| c in todo;
      var p := owners[c];
      CountedAdd(owners, done, counts, c);
      var n := if p in counts then counts[p] else 0;
      counts := counts[p := n + 1];
      todo, done := todo - {c}, done + {c};
    }
    forall p ensures OwnedAmong(owners, done, p) == OwnedCells(owners, p) { }
  }

  /** The points enclosed on all four diagonal sides. */
  method EnclosedPoints(points: seq<Point>) returns (valid: set<Point>)
    ensures forall p :: p in valid <==> p in points && Enclosed(points, p)
  {
    valid := {};
    for i := 0 to |points|
      invariant forall p :: p in valid <==> p in points[..i] && Enclosed(points, p)
    {
      if Enclosed(points, points[i]) {
        valid := valid + {points[i]};
      }
      assert points[..i + 1] == points[..i] + [points[i]];
    }
    assert points[..|points|] == points;
  }

  /** What `largest_area` may return: an enclosed point and its area, no
      smaller than any other enclosed point's; `None` is its panic on an
      empty list or when no point is enclosed. */
  ghost predicate LargestAreaSpec(points: seq<Point>, r: Option<(Point, int)>)
  {
    match r
    case None => points == [] || forall q <- points :: !Enclosed(points, q)
    case Some((p, n)) =>
      points != [] && p in points && Enclosed(points, p) && n == Area(points, p)
      && forall q <- points :: Enclosed(points, q) ==> Area(points, q) <= n
  }

  lemma OwnedCellsArea(points: seq<Point>, owners: map<Point, Point>, p: Point)
    requires points != []
    requires forall c :: c in owners <==> InBox(points, c) && HasOwner(points, c)
    requires forall c <- owners.Keys :: Owns(points, c, owners[c])
    ensures OwnedCells(owners, p) == set c | c in BoxCells(points) && Owns(points, c, p)
  {
    forall c | c in BoxCells(points) && Owns(points, c, p)
      ensures c in OwnedCells(owners, p)
    {
      OwnerUnique(points, c, p, owners[c]);
    }
  }

  /** The final `max_by_key` over the counts of enclosed points meets the
      specification once every point's count is its area. */
  lemma CandidatesMeetSpec(points: seq<Point>, counts: map<Point, int>, valid: set<Point>,
                           candidates: map<Point, int>, r: Option<(Point, int)>)
    requires points != []
    requires forall p <- points :: p in counts && counts[p] == Area(points, p)
    requires forall p :: p in valid <==> p in points && Enclosed(points, p)
    requires candidates == map p | p in counts && p in valid :: counts[p]
    requires r.None? ==> candidates == map[]
    requires r.Some? ==> r.value.0 in candidates && r.value.1 == candidates[r.value.0]
                         && forall p <- candidates.Keys :: candidates[p] <= r.value.1
    ensures LargestAreaSpec(points, r)
  {
    if r.None? {
      forall q <- points ensures !Enclosed(points, q) {
        assert q !in candidates;
      }
    } else {
      var (p, n) := r.value;
      forall q <- points | Enclosed(points, q) ensures Area(points, q) <= n {
        assert q in candidates;
      }
    }
  }

  /** Every point owns at least its own cell, so each has a count, and that
      count is its area. */
  lemma CountsAreAreas(points: seq<Point>, owners: map<Point, Point>, counts: map<Point, int>)
    requires points != []
    requires forall c :: c in owners <==> InBox(points, c) && HasOwner(points, c)
    requires forall c <- owners.Keys :: Owns(points, c, owners[c])
    requires forall p :: p in counts <==> OwnedCells(owners, p) != {}
    requires forall p <- counts.Keys :: counts[p] == |OwnedCells(owners, p)|
    ensures forall p <- points :: p in counts && counts[p] == Area(points, p)
  {
    forall p | p in points
      ensures p in counts && counts[p] == Area(points, p)
    {
      OwnsItself(points, p);
      PointsInBox(points, p);
      OwnerUnique(points, p, p, owners[p]);
      assert p in OwnedCells(owners, p);
      OwnedCellsArea(points, owners, p);
    }
  }

  /** `largest_area`. */
  method LargestArea(points: seq<Point>) returns (r: Option<(Point, int)>)
    ensures LargestAreaSpec(points, r)
  {
    if points == [] {
      return None;
    }
    var owners := OwnerMap(points);
    var counts := CountOwned(owners);
    var valid := EnclosedPoints(points);
    var candidates := map p | p in counts && p in valid :: counts[p];
    CountsAreAreas(points, owners, counts);
    if candidates == map[] {
      r := None;
    } else {
      var best := MaxByValue(candidates);
      r := Some((best, candidates[best]));
    }
    CandidatesMeetSpec(points, counts, valid, candidates, r);
  }

  // ---------------------------------------------------------------------
  // Example

  function ExamplePoints(): seq<Point>
  {
    [Point(1, 1), Point(1, 6), Point(8, 3), Point(3, 4), Point(5, 5), Point(8, 9)]
  }

  /** D (3, 4) and E (5, 5) are enclosed. */
  lemma ExampleEnclosed(ps: seq<Point>)
    requires ps == ExamplePoints()
    ensures Enclosed(ps, ps[3]) && Enclosed(ps, ps[4])
  {
    assert ps[0].y < 4 && ps[0].x < 3 && ps[2].y < 4 && ps[2].x > 3;
    assert ps[1].y > 4 && ps[1].x < 3 && ps[5].y > 4 && ps[5].x > 3;
    assert ps[0].y < 5 && ps[0].x < 5 && ps[2].y < 5 && ps[2].x > 5;
    assert ps[1].y > 5 && ps[1].x < 5 && ps[5].y > 5 && ps[5].x > 5;
  }

  /** A, B, C and F lie on the outside: their areas are infinite and do not count. */
  lemma ExampleOutside(ps: seq<Point>)
    requires ps == ExamplePoints()
    ensures !Enclosed(ps, ps[0]) && !Enclosed(ps, ps[1]) && !Enclosed(ps, ps[2]) && !Enclosed(ps, ps[5])
  {
    assert forall q <- ps :: 1 <= q.x <= 8 && 1 <= q.y <= 9;
  }
}
