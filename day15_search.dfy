// Day 15: Beverage Bandits, the path search (`Combat::shortest_path`).
// The search runs backwards, from the target cell `end` towards the moving
// unit at `start`, over free cells. Every cell it meets gets a vertex that
// remembers the cell it was first reached from (`previous`), a `local`
// distance, a Manhattan `heuristic` towards `start`, and their sum
// (`global`). The open list is kept sorted so that the next cell taken is
// the one with the smallest `global`, ties going to the first cell in
// reading order. The `distance` written into a vertex is not the length
// of a path but the number of cells taken off the open list so far.
module Day15Search {
  import opened Common
  import opened Day15Grid

  /** `Vertex`: what the search remembers about one cell. */
  datatype Vertex = Vertex(previous: Option<Position>, local: nat, heuristic: nat, global: nat)

  /** `Vertex::default`: no predecessor, every distance unknown. */
  const DefaultVertex := Vertex(None, MAX_DISTANCE, MAX_DISTANCE, MAX_DISTANCE)

  /** Every position the source can name. */
  ghost function Universe(): set<Position>
  {
    set x: nat, y: nat | x <= MAX_COORD && y <= MAX_COORD :: Position(x, y)
  }

  lemma InUniverse(p: Position)
    ensures p in Universe()
  {
  }

  // ---------------------------------------------------------------------
  // Free neighbours

  /** The cells of `ns` that are `target` or hold no wall and no unit;
      `blocked` is the set of walls and unit positions. */
  function KeepFree(blocked: set<Position>, ns: seq<Position>, target: Position): (r: seq<Position>)
    ensures forall q :: q in r <==> q in ns && (q == target || q !in blocked)
    ensures (forall i, j :: 0 <= i < j < |ns| ==> ns[i] != ns[j]) ==> forall i, j :: 0 <= i < j < |r| ==> r[i] != r[j]
  {
    if ns == [] then []
    else
      var rest := KeepFree(blocked, ns[1..], target);
      assert forall q :: q in ns[1..] ==> q in ns;
      if ns[0] == target || ns[0] !in blocked then
        assert (forall i, j :: 0 <= i < j < |ns| ==> ns[i] != ns[j]) ==> ns[0] !in ns[1..];
        [ns[0]] + rest
      else rest
  }

  /** `adjacent_free_positions`: the neighbours of `p`, north, west, east,
      south, that are `target` or free. */
  function AdjacentFree(blocked: set<Position>, p: Position, target: Position): (r: seq<Position>)
    ensures forall i, j :: 0 <= i < j < |r| ==> r[i] != r[j]
  {
    KeepFree(blocked, Neighbours(p), target)
  }

  /** The free neighbours are exactly the adjacent cells that are the
      target or free. */
  lemma AdjacentFreeSpec(blocked: set<Position>, p: Position, target: Position, q: Position)
    ensures q in AdjacentFree(blocked, p, target) <==> Adjacent(p, q) && (q == target || q !in blocked)
  {
    NeighboursAreAdjacent(p, q);
  }

  // ---------------------------------------------------------------------
  // One search step

  /** Visiting neighbour `a` of the current cell `curr`, `distance` cells
      having been taken off the open list: a cell met for the first time
      gets a default vertex and joins the open list; an unknown heuristic
      is filled in; a shorter `distance` becomes the new `local` and makes
      `curr` the predecessor; an equal one does so only when `curr` comes
      later in reading order. */
  function Visit(vertices: map<Position, Vertex>, open: seq<Position>, curr: Position, distance: nat, a: Position,
                 start: Position): (r: (map<Position, Vertex>, seq<Position>))
    ensures r.0.Keys == vertices.Keys + {a}
    ensures r.1 == if a in vertices then open else open + [a]
  {
    var isNew := a !in vertices;
    (vertices[a := Relax(if isNew then DefaultVertex else vertices[a], curr, distance, a, start)],
     if isNew then open + [a] else open)
  }

  /** Adding `a` to the known cells leaves one unknown cell less, unless it
      was known already. */
  lemma MeasureStep(known: set<Position>, a: Position)
    ensures |Universe() - (known + {a})| + (if a in known then 0 else 1) == |Universe() - known|
    ensures |known + {a}| == |known| + (if a in known then 0 else 1)
  {
    InUniverse(a);
    if a in known {
      assert known + {a} == known;
    } else {
      assert Universe() - known == (Universe() - (known + {a})) + {a};
    }
  }

  /** The update of the vertex of `a` once met from `curr`. */
  function Relax(v0: Vertex, curr: Position, distance: nat, a: Position, start: Position): Vertex
  {
    var v1 := if v0.heuristic == MAX_DISTANCE then v0.(heuristic := ManhattanDistance(a, start)) else v0;
    if distance < v1.local then v1.(local := distance, global := distance + v1.heuristic, previous := Some(curr))
    else if distance == v1.local && v1.previous.Some? && Before(v1.previous.value, curr) then v1.(previous := Some(curr))
    else v1
  }

  /** The `for` loop over the free neighbours of `curr`. */
  function VisitAll(vertices: map<Position, Vertex>, open: seq<Position>, curr: Position, distance: nat, adj: seq<Position>,
                    start: Position): (r: (map<Position, Vertex>, seq<Position>))
    ensures forall q :: q in r.0 <==> q in vertices || q in adj
    ensures (forall q <- open :: q in vertices) ==> forall q <- r.1 :: q in r.0
    ensures forall q :: q in r.1 <==> q in open || (q in adj && q !in vertices)
    decreases |adj|
  {
    if adj == [] then (vertices, open)
    else
      var step := Visit(vertices, open, curr, distance, adj[0], start);
      assert forall q :: q in adj <==> q == adj[0] || q in adj[1..];
      VisitAll(step.0, step.1, curr, distance, adj[1..], start)
  }

  /** Every cell the visits add to the vertices is also pushed on the open
      list, so the unknown cells shrink twice as fast as the open list
      grows. */
  lemma {:induction false} VisitAllCounts(vertices: map<Position, Vertex>, open: seq<Position>, curr: Position,
                                          distance: nat, adj: seq<Position>, start: Position)
    ensures var r := VisitAll(vertices, open, curr, distance, adj, start);
            && 2 * |Universe() - r.0.Keys| + |r.1| <= 2 * |Universe() - vertices.Keys| + |open|
            && |r.1| + |vertices.Keys| == |open| + |r.0.Keys|
    decreases |adj|
  {
    if adj != [] {
      MeasureStep(vertices.Keys, adj[0]);
      var step := Visit(vertices, open, curr, distance, adj[0], start);
      VisitAllCounts(step.0, step.1, curr, distance, adj[1..], start);
    }
  }

  /** What termination of the exploring loop rests on: the measure falls
      with each pop that does not stop the search. */
  ghost function Measure(vertices: map<Position, Vertex>, open: seq<Position>): nat
  {
    2 * |Universe() - vertices.Keys| + |open|
  }

  /** One pop lowers the measure, and adds as many cells to the open list as
      to the vertices. */
  lemma PopCounts(vertices: map<Position, Vertex>, open: seq<Position>, distance: nat, start: Position,
                  blocked: set<Position>)
    requires open != [] && forall q <- open :: q in vertices
    ensures var curr := open[|open| - 1];
            var step := VisitAll(vertices, open[..|open| - 1], curr, distance + 1, AdjacentFree(blocked, curr, start), start);
            && vertices.Keys <= step.0.Keys && curr in step.0
            && (forall q <- step.1 :: q in step.0)
            && (forall q <- SortOpen(step.0, step.1) :: q in step.0)
            && Measure(step.0, SortOpen(step.0, step.1)) < Measure(vertices, open)
            && |step.1| + |vertices.Keys| + 1 == |open| + |step.0.Keys|
  {
    var curr := open[|open| - 1];
    assert forall q <- open[..|open| - 1] :: q in vertices;
    VisitAllCounts(vertices, open[..|open| - 1], curr, distance + 1, AdjacentFree(blocked, curr, start), start);
  }

  /** The open list orders cells by decreasing `global`, ties by reverse
      reading order, so that the last entry, the one popped next, has the
      smallest `global` and comes first in reading order among those. */
  predicate OpenBefore(vertices: map<Position, Vertex>, p: Position, q: Position)
    requires p in vertices && q in vertices
  {
    vertices[p].global > vertices[q].global || (vertices[p].global == vertices[q].global && Before(q, p))
  }

  function InsertOpen(vertices: map<Position, Vertex>, p: Position, xs: seq<Position>): (r: seq<Position>)
    requires p in vertices && forall q <- xs :: q in vertices
    ensures |r| == |xs| + 1
    ensures forall q :: q in r <==> q == p || q in xs
  {
    if xs == [] || !OpenBefore(vertices, xs[0], p) then [p] + xs
    else
      assert xs == [xs[0]] + xs[1..];
      [xs[0]] + InsertOpen(vertices, p, xs[1..])
  }

  /** `open.sort_unstable_by(...)`. */
  function SortOpen(vertices: map<Position, Vertex>, xs: seq<Position>): (r: seq<Position>)
    requires forall q <- xs :: q in vertices
    ensures |r| == |xs|
    ensures forall q :: q in r <==> q in xs
  {
    if xs == [] then []
    else
      assert xs == [xs[0]] + xs[1..];
      InsertOpen(vertices, xs[0], SortOpen(vertices, xs[1..]))
  }

  /** An open list in the order the sort leaves it: no cell sorts before
      an earlier one. */
  predicate OpenSorted(vertices: map<Position, Vertex>, xs: seq<Position>)
    requires forall q <- xs :: q in vertices
  {
    forall i, j | 0 <= i < j < |xs| :: !OpenBefore(vertices, xs[j], xs[i])
  }

  /** `OpenBefore` is asymmetric, and its negation is transitive. */
  lemma OpenBeforeOrder(vertices: map<Position, Vertex>, a: Position, b: Position, c: Position)
    requires a in vertices && b in vertices && c in vertices
    ensures OpenBefore(vertices, a, b) ==> !OpenBefore(vertices, b, a)
    ensures !OpenBefore(vertices, b, a) && !OpenBefore(vertices, c, b) ==> !OpenBefore(vertices, c, a)
  {
    BeforeIsStrictTotalOrder(a, b, c);
    BeforeIsStrictTotalOrder(c, b, a);
  }

  lemma {:induction false} InsertOpenSorted(vertices: map<Position, Vertex>, p: Position, xs: seq<Position>)
    requires p in vertices && forall q <- xs :: q in vertices
    requires OpenSorted(vertices, xs)
    ensures OpenSorted(vertices, InsertOpen(vertices, p, xs))
  {
    var r := InsertOpen(vertices, p, xs);
    if xs == [] || !OpenBefore(vertices, xs[0], p) {
      forall i, j | 0 <= i < j < |r|
        ensures !OpenBefore(vertices, r[j], r[i])
      {
        if i == 0 {
          assert r[j] == xs[j - 1];
          if j > 1 {
            OpenBeforeOrder(vertices, p, xs[0], xs[j - 1]);
          }
        } else {
          assert r[i] == xs[i - 1] && r[j] == xs[j - 1];
        }
      }
    } else {
      var rest := InsertOpen(vertices, p, xs[1..]);
      InsertOpenSorted(vertices, p, xs[1..]);
      forall i, j | 0 <= i < j < |r|
        ensures !OpenBefore(vertices, r[j], r[i])
      {
        if i == 0 {
          assert r[j] == rest[j - 1] && r[j - 1 + 1] in rest;
          if r[j] == p {
            OpenBeforeOrder(vertices, xs[0], p, p);
          } else {
            var k :| 0 <= k < |xs[1..]| && xs[1..][k] == r[j];
            assert xs[k + 1] == r[j];
          }
        } else {
          assert r[i] == rest[i - 1] && r[j] == rest[j - 1];
        }
      }
    }
  }

  /** The sort leaves the open list in order. */
  lemma {:induction false} SortOpenSorted(vertices: map<Position, Vertex>, xs: seq<Position>)
    requires forall q <- xs :: q in vertices
    ensures OpenSorted(vertices, SortOpen(vertices, xs))
  {
    if xs != [] {
      SortOpenSorted(vertices, xs[1..]);
      InsertOpenSorted(vertices, xs[0], SortOpen(vertices, xs[1..]));
    }
  }

  lemma {:induction false} InsertOpenPermutes(vertices: map<Position, Vertex>, p: Position, xs: seq<Position>)
    requires p in vertices && forall q <- xs :: q in vertices
    ensures multiset(InsertOpen(vertices, p, xs)) == multiset(xs) + multiset{p}
  {
    if xs != [] && OpenBefore(vertices, xs[0], p) {
      InsertOpenPermutes(vertices, p, xs[1..]);
      assert xs == [xs[0]] + xs[1..];
    }
  }

  /** The sort only reorders the open list. */
  lemma {:induction false} SortOpenPermutes(vertices: map<Position, Vertex>, xs: seq<Position>)
    requires forall q <- xs :: q in vertices
    ensures multiset(SortOpen(vertices, xs)) == multiset(xs)
  {
    if xs != [] {
      SortOpenPermutes(vertices, xs[1..]);
      InsertOpenPermutes(vertices, xs[0], SortOpen(vertices, xs[1..]));
      assert xs == [xs[0]] + xs[1..];
    }
  }

  /** The exploring loop of `shortest_path`, from the current vertices,
      open list and pop counter: pop the last open cell, count it, visit
      its free neighbours, stop if it is `start`, otherwise re-sort the
      open list and go on. The result is the cell the search stopped at,
      if any, the final vertices and the final pop counter. */
  function Explore(vertices: map<Position, Vertex>, open: seq<Position>, distance: nat, start: Position,
                   blocked: set<Position>): (r: (Option<Position>, map<Position, Vertex>, nat))
    requires forall q <- open :: q in vertices
    ensures r.0.Some? ==> r.0.value == start && start in r.1
    ensures vertices.Keys <= r.1.Keys
    ensures distance <= r.2
    ensures distance + |open| <= |vertices.Keys| ==> r.2 <= |r.1.Keys|
    decreases Measure(vertices, open)
  {
    if open == [] then (None, vertices, distance)
    else
      PopCounts(vertices, open, distance, start, blocked);
      var curr := open[|open| - 1];
      var step := VisitAll(vertices, open[..|open| - 1], curr, distance + 1, AdjacentFree(blocked, curr, start), start);
      if curr == start then (Some(curr), step.0, distance + 1)
      else
        var sorted := SortOpen(step.0, step.1);
        Explore(step.0, sorted, distance + 1, start, blocked)
  }

  /** Every predecessor is a known cell with a smaller `local`. */
  predicate ChainOk(vertices: map<Position, Vertex>)
  {
    forall v <- vertices :: vertices[v].previous.Some? ==>
      vertices[v].previous.value in vertices && vertices[vertices[v].previous.value].local < vertices[v].local
  }

  /** The path read back from `p` by following predecessors. */
  function Trace(vertices: map<Position, Vertex>, p: Option<Position>): (r: seq<Position>)
    requires ChainOk(vertices)
    ensures p.None? <==> r == []
    ensures p.Some? ==> r[0] == p.value
    decreases if p.Some? && p.value in vertices then vertices[p.value].local + 1 else 0
  {
    if p.None? then []
    else if p.value in vertices then [p.value] + Trace(vertices, vertices[p.value].previous)
    else [p.value]
  }

  /** The vertices the search starts from: `end` alone, at distance 0,
      with its heuristic towards `start`. */
  function InitialVertices(start: Position, end: Position): map<Position, Vertex>
  {
    var h := ManhattanDistance(end, start);
    map[end := Vertex(None, 0, h, h)]
  }

  /** The path `shortest_path` returns, as a specification. */
  function SearchPath(blocked: set<Position>, start: Position, end: Position): seq<Position>
  {
    var explored := Explore(InitialVertices(start, end), [end], 0, start, blocked);
    SearchTraced(blocked, start, end);
    Trace(explored.1, explored.0)
  }

  // ---------------------------------------------------------------------
  // What the vertices record

  /** What a finished search promises of one vertex: the cell is `end`,
      `start` or free; a predecessor is a known neighbour with a smaller
      `local`; a vertex without predecessor is `end` or was only reached
      with `local` still at `usize::MAX`. */
  ghost predicate LinkOk(vertices: map<Position, Vertex>, v: Position, start: Position, end: Position, blocked: set<Position>)
    requires v in vertices
  {
    && (v == end || v == start || v !in blocked)
    && (vertices[v].previous.Some? ==>
          var q := vertices[v].previous.value;
          q in vertices && vertices[q].local < vertices[v].local && Adjacent(q, v))
    && (vertices[v].previous.None? ==> v == end || vertices[v].local == MAX_DISTANCE)
  }

  /** Every vertex of a finished search is linked as above, and `end` is the
      root at distance 0. */
  ghost predicate Traced(vertices: map<Position, Vertex>, start: Position, end: Position, blocked: set<Position>)
  {
    && end in vertices && vertices[end].previous.None? && vertices[end].local == 0
    && forall v {:trigger LinkOk(vertices, v, start, end, blocked)} | v in vertices :: LinkOk(vertices, v, start, end, blocked)
  }

  /** One vertex once `distance` cells have been popped: linked as above,
      no `local` beyond `distance`, and a vertex other than `end` without
      predecessor only after `usize::MAX` pops. */
  ghost predicate VertexOk(vertices: map<Position, Vertex>, v: Position, distance: nat, start: Position, end: Position,
                           blocked: set<Position>)
    requires v in vertices
  {
    && LinkOk(vertices, v, start, end, blocked)
    && (vertices[v].previous.Some? ==> vertices[v].local <= distance)
    && (vertices[v].previous.None? && v != end ==> distance >= MAX_DISTANCE)
  }

  /** All vertices after `distance` pops: `end` sits at distance 0 with no
      predecessor, and every vertex has the shape above. */
  ghost predicate Settled(vertices: map<Position, Vertex>, distance: nat, start: Position, end: Position, blocked: set<Position>)
  {
    && end in vertices && vertices[end].previous.None? && vertices[end].local == 0
    && forall v {:trigger VertexOk(vertices, v, distance, start, end, blocked)} | v in vertices ::
         VertexOk(vertices, v, distance, start, end, blocked)
  }

  /** During the visit of the neighbours of `curr` at pop count `distance`:
      settled, and every predecessor link is older than this pop or points
      at `curr`. */
  ghost predicate Visiting(vertices: map<Position, Vertex>, distance: nat, curr: Position, start: Position, end: Position,
                           blocked: set<Position>)
  {
    && Settled(vertices, distance, start, end, blocked)
    && distance > 0
    && curr in vertices
    && forall v <- vertices :: vertices[v].previous.Some? ==>
         vertices[v].local < distance || vertices[v].previous == Some(curr)
  }

  /** Visiting one neighbour leaves every known vertex's predecessor and
      `local` alone; a new cell gets `curr` as predecessor and the pop count
      as `local`, unless `usize::MAX` pops have passed. */
  lemma VisitEffect(vertices: map<Position, Vertex>, open: seq<Position>, curr: Position, distance: nat, a: Position,
                    start: Position, end: Position, blocked: set<Position>)
    requires Visiting(vertices, distance, curr, start, end, blocked)
    ensures var vs := Visit(vertices, open, curr, distance, a, start).0;
            && (forall v <- vertices :: vs[v].previous == vertices[v].previous && vs[v].local == vertices[v].local)
            && (a !in vertices ==>
                  && vs[a].previous == (if distance < MAX_DISTANCE then Some(curr) else None)
                  && vs[a].local == (if distance < MAX_DISTANCE then distance else MAX_DISTANCE))
  {
    if a in vertices {
      assert VertexOk(vertices, a, distance, start, end, blocked);
      if vertices[a].previous.Some? {
        var q := vertices[a].previous.value;
        if vertices[a].previous == Some(curr) {
          BeforeIsStrictTotalOrder(curr, curr, curr);
        }
      }
    }
  }

  /** The predecessor of `curr` itself, if any, is older than this pop. */
  lemma CurrIsOlder(vertices: map<Position, Vertex>, distance: nat, curr: Position, start: Position, end: Position,
                    blocked: set<Position>)
    requires Visiting(vertices, distance, curr, start, end, blocked)
    ensures distance < MAX_DISTANCE ==> vertices[curr].local < distance
  {
    assert VertexOk(vertices, curr, distance, start, end, blocked);
  }

  /** Visiting a free neighbour of `curr` keeps the invariant. */
  lemma VisitKeeps(vertices: map<Position, Vertex>, open: seq<Position>, curr: Position, distance: nat, a: Position,
                   start: Position, end: Position, blocked: set<Position>)
    requires Visiting(vertices, distance, curr, start, end, blocked)
    requires a in AdjacentFree(blocked, curr, start)
    ensures Visiting(Visit(vertices, open, curr, distance, a, start).0, distance, curr, start, end, blocked)
  {
    var vs := Visit(vertices, open, curr, distance, a, start).0;
    VisitEffect(vertices, open, curr, distance, a, start, end, blocked);
    CurrIsOlder(vertices, distance, curr, start, end, blocked);
    AdjacentFreeSpec(blocked, curr, start, a);
    AdjacentSymmetric(curr, a);
    forall v <- vs
      ensures VertexOk(vs, v, distance, start, end, blocked)
    {
      if v in vertices {
        assert VertexOk(vertices, v, distance, start, end, blocked);
      }
    }
  }

  /** Visiting a list of free neighbours of `curr` keeps the invariant. */
  lemma {:induction false} VisitAllKeeps(vertices: map<Position, Vertex>, open: seq<Position>, curr: Position, distance: nat,
                                         adj: seq<Position>, start: Position, end: Position, blocked: set<Position>)
    requires Visiting(vertices, distance, curr, start, end, blocked)
    requires forall q <- adj :: q in AdjacentFree(blocked, curr, start)
    ensures Visiting(VisitAll(vertices, open, curr, distance, adj, start).0, distance, curr, start, end, blocked)
    decreases |adj|
  {
    if adj != [] {
      VisitKeeps(vertices, open, curr, distance, adj[0], start, end, blocked);
      var (vs, op) := Visit(vertices, open, curr, distance, adj[0], start);
      assert forall q <- adj[1..] :: q in adj;
      VisitAllKeeps(vs, op, curr, distance, adj[1..], start, end, blocked);
    }
  }

  /** Popping a known cell opens the next pop count. */
  lemma StartVisiting(vertices: map<Position, Vertex>, distance: nat, curr: Position, start: Position, end: Position,
                      blocked: set<Position>)
    requires Settled(vertices, distance, start, end, blocked)
    requires curr in vertices
    ensures Visiting(vertices, distance + 1, curr, start, end, blocked)
  {
    forall v <- vertices
      ensures VertexOk(vertices, v, distance + 1, start, end, blocked)
      ensures vertices[v].previous.Some? ==> vertices[v].local < distance + 1
    {
      assert VertexOk(vertices, v, distance, start, end, blocked);
    }
  }

  /** A settled search is traced. */
  lemma SettledTraced(vertices: map<Position, Vertex>, distance: nat, start: Position, end: Position, blocked: set<Position>)
    requires Settled(vertices, distance, start, end, blocked)
    ensures Traced(vertices, start, end, blocked)
  {
    forall v <- vertices
      ensures LinkOk(vertices, v, start, end, blocked)
    {
      assert VertexOk(vertices, v, distance, start, end, blocked);
    }
  }

  /** Popping a known cell and visiting its free neighbours keeps the
      vertices settled, one pop later. */
  lemma PopKeeps(vertices: map<Position, Vertex>, open: seq<Position>, curr: Position, distance: nat,
                 start: Position, end: Position, blocked: set<Position>)
    requires Settled(vertices, distance, start, end, blocked)
    requires curr in vertices
    ensures Settled(VisitAll(vertices, open, curr, distance + 1, AdjacentFree(blocked, curr, start), start).0,
                    distance + 1, start, end, blocked)
  {
    StartVisiting(vertices, distance, curr, start, end, blocked);
    VisitAllKeeps(vertices, open, curr, distance + 1, AdjacentFree(blocked, curr, start), start, end, blocked);
  }

  /** The exploring loop keeps every vertex linked, and settled at the
      final pop counter. */
  lemma {:induction false} ExploreTraced(vertices: map<Position, Vertex>, open: seq<Position>, distance: nat,
                                         start: Position, end: Position, blocked: set<Position>)
    requires forall q <- open :: q in vertices
    requires Settled(vertices, distance, start, end, blocked)
    ensures var r := Explore(vertices, open, distance, start, blocked);
            Traced(r.1, start, end, blocked) && Settled(r.1, r.2, start, end, blocked)
    decreases Measure(vertices, open)
  {
    if open == [] {
      SettledTraced(vertices, distance, start, end, blocked);
    } else {
      var curr := open[|open| - 1];
      PopKeeps(vertices, open[..|open| - 1], curr, distance, start, end, blocked);
      PopCounts(vertices, open, distance, start, blocked);
      var step := VisitAll(vertices, open[..|open| - 1], curr, distance + 1, AdjacentFree(blocked, curr, start), start);
      if curr == start {
        SettledTraced(step.0, distance + 1, start, end, blocked);
      } else {
        var sorted := SortOpen(step.0, step.1);
        ExploreTraced(step.0, sorted, distance + 1, start, end, blocked);
      }
    }
  }

  /** A traced map has the predecessor chain `Trace` follows. */
  lemma TracedChain(vertices: map<Position, Vertex>, start: Position, end: Position, blocked: set<Position>)
    requires Traced(vertices, start, end, blocked)
    ensures ChainOk(vertices)
  {
    forall v <- vertices | vertices[v].previous.Some?
      ensures vertices[v].previous.value in vertices && vertices[vertices[v].previous.value].local < vertices[v].local
    {
      assert LinkOk(vertices, v, start, end, blocked);
    }
  }

  /** The search from `end` towards `start` ends with every vertex linked. */
  lemma SearchTraced(blocked: set<Position>, start: Position, end: Position)
    ensures Traced(Explore(InitialVertices(start, end), [end], 0, start, blocked).1, start, end, blocked)
    ensures ChainOk(Explore(InitialVertices(start, end), [end], 0, start, blocked).1)
  {
    var init := InitialVertices(start, end);
    assert VertexOk(init, end, 0, start, end, blocked);
    ExploreTraced(init, [end], 0, start, end, blocked);
    TracedChain(Explore(init, [end], 0, start, blocked).1, start, end, blocked);
  }

  // ---------------------------------------------------------------------
  // What the path is

  /** Following predecessors from a known cell walks from neighbour to
      neighbour through known cells that are `end`, `start` or free, with
      `local` strictly falling, and stops at `end` or at a cell only reached
      after `usize::MAX` pops. */
  lemma {:induction false} TraceShape(vertices: map<Position, Vertex>, p: Position, start: Position, end: Position,
                                      blocked: set<Position>)
    requires Traced(vertices, start, end, blocked) && ChainOk(vertices)
    requires p in vertices
    ensures var r := Trace(vertices, Some(p));
            && r[0] == p
            && (forall i | 0 <= i < |r| :: r[i] in vertices && (r[i] == end || r[i] == start || r[i] !in blocked))
            && (forall i | 0 < i < |r| :: Adjacent(r[i - 1], r[i]))
            && (forall i, j | 0 <= i < j < |r| :: vertices[r[j]].local < vertices[r[i]].local)
            && vertices[r[|r| - 1]].previous.None?
            && (r[|r| - 1] == end || vertices[r[|r| - 1]].local == MAX_DISTANCE)
    decreases vertices[p].local
  {
    var r := Trace(vertices, Some(p));
    assert LinkOk(vertices, p, start, end, blocked);
    if vertices[p].previous.Some? {
      var q := vertices[p].previous.value;
      TraceShape(vertices, q, start, end, blocked);
      var rest := Trace(vertices, Some(q));
      assert r == [p] + rest;
      LocalsFall(vertices, p, rest);
    } else {
      assert r == [p];
    }
  }

  /** Putting a cell with a larger `local` in front of a walk whose `local`
      falls keeps it falling. */
  lemma LocalsFall(vertices: map<Position, Vertex>, p: Position, rest: seq<Position>)
    requires p in vertices && rest != [] && forall q <- rest :: q in vertices
    requires vertices[rest[0]].local < vertices[p].local
    requires forall i, j | 0 <= i < j < |rest| :: vertices[rest[j]].local < vertices[rest[i]].local
    ensures var r := [p] + rest;
            forall i, j | 0 <= i < j < |r| :: vertices[r[j]].local < vertices[r[i]].local
  {
    var r := [p] + rest;
    forall i, j | 0 <= i < j < |r|
      ensures vertices[r[j]].local < vertices[r[i]].local
    {
      if i == 0 {
        assert r[j] == rest[j - 1];
        assert j - 1 == 0 || vertices[rest[j - 1]].local < vertices[rest[0]].local;
      } else {
        assert r[i] == rest[i - 1] && r[j] == rest[j - 1];
      }
    }
  }

  /** `shortest_path` returns either nothing or a walk that starts at the
      unit, steps from neighbour to neighbour, never comes back to a cell,
      and only enters cells that are free or `end`. */
  lemma SearchPathShape(blocked: set<Position>, start: Position, end: Position)
    ensures var r := SearchPath(blocked, start, end);
            r != [] ==>
              && r[0] == start
              && (forall i | 0 < i < |r| :: Adjacent(r[i - 1], r[i]) && r[i] != start && (r[i] == end || r[i] !in blocked))
              && (forall i, j | 0 <= i < j < |r| :: r[i] != r[j])
  {
    var (found, vertices, _) := Explore(InitialVertices(start, end), [end], 0, start, blocked);
    SearchTraced(blocked, start, end);
    if found.Some? {
      var r := Trace(vertices, found);
      TraceShape(vertices, start, start, end, blocked);
      forall i | 0 < i < |r|
        ensures r[i] != start
      {
        assert vertices[r[i]].local < vertices[r[0]].local;
      }
      forall i, j | 0 <= i < j < |r|
        ensures r[i] != r[j]
      {
        assert vertices[r[j]].local < vertices[r[i]].local;
      }
    }
  }

  // ---------------------------------------------------------------------
  // The path reaches `end`

  /** `region` holds every free neighbour of each of its cells. */
  ghost predicate Encloses(region: set<Position>, blocked: set<Position>, start: Position)
  {
    forall v {:trigger ClosedAt(region, blocked, start, v)} | v in region :: ClosedAt(region, blocked, start, v)
  }

  /** Every free neighbour of `v` lies in `region`. */
  ghost predicate ClosedAt(region: set<Position>, blocked: set<Position>, start: Position, v: Position)
  {
    forall q <- AdjacentFree(blocked, v, start) :: q in region
  }

  /** Only `end` lacks a predecessor. */
  ghost predicate Rooted(vertices: map<Position, Vertex>, end: Position)
  {
    forall v <- vertices :: vertices[v].previous.None? ==> v == end
  }

  /** Settled before `usize::MAX` pops, only `end` lacks a predecessor. */
  lemma SettledRooted(vertices: map<Position, Vertex>, distance: nat, start: Position, end: Position, blocked: set<Position>)
    requires Settled(vertices, distance, start, end, blocked) && distance < MAX_DISTANCE
    ensures Rooted(vertices, end)
  {
    forall v <- vertices
      ensures vertices[v].previous.None? ==> v == end
    {
      assert VertexOk(vertices, v, distance, start, end, blocked);
    }
  }

  /** The exploring loop only comes to know cells of an enclosed region
      that holds the cells it knows at the outset. */
  lemma {:induction false} ExploreInRegion(vertices: map<Position, Vertex>, open: seq<Position>, distance: nat,
                                           start: Position, blocked: set<Position>, region: set<Position>)
    requires forall q <- open :: q in vertices
    requires Encloses(region, blocked, start) && vertices.Keys <= region
    ensures Explore(vertices, open, distance, start, blocked).1.Keys <= region
    decreases Measure(vertices, open)
  {
    if open != [] {
      PopCounts(vertices, open, distance, start, blocked);
      var curr := open[|open| - 1];
      var adj := AdjacentFree(blocked, curr, start);
      var step := VisitAll(vertices, open[..|open| - 1], curr, distance + 1, adj, start);
      assert ClosedAt(region, blocked, start, curr);
      forall q <- step.0
        ensures q in region
      {
        assert q in vertices || q in adj;
      }
      if curr != start {
        ExploreInRegion(step.0, SortOpen(step.0, step.1), distance + 1, start, blocked, region);
      }
    }
  }

  /** When the cells reachable from `end` lie in an enclosed region of fewer
      than `usize::MAX` cells, a path `shortest_path` returns ends at `end`. */
  lemma SearchPathEndsAtEnd(blocked: set<Position>, start: Position, end: Position, region: set<Position>)
    requires end in region && Encloses(region, blocked, start) && |region| < MAX_DISTANCE
    ensures var r := SearchPath(blocked, start, end);
            r != [] ==> r[|r| - 1] == end
  {
    var init := InitialVertices(start, end);
    var explored := Explore(init, [end], 0, start, blocked);
    assert VertexOk(init, end, 0, start, end, blocked);
    ExploreTraced(init, [end], 0, start, end, blocked);
    ExploreInRegion(init, [end], 0, start, blocked, region);
    SubsetCard(explored.1.Keys, region);
    SettledRooted(explored.1, explored.2, start, end, blocked);
    SearchTraced(blocked, start, end);
    if explored.0.Some? {
      TraceShape(explored.1, start, start, end, blocked);
      var r := Trace(explored.1, explored.0);
      var last := r[|r| - 1];
      assert last in explored.1 && explored.1[last].previous.None?;
    }
  }

  // ---------------------------------------------------------------------
  // The search finds a path when there is one

  /** Every free neighbour of `v` is known. */
  ghost predicate Expanded(vertices: map<Position, Vertex>, v: Position, blocked: set<Position>, start: Position)
  {
    forall q <- AdjacentFree(blocked, v, start) :: q in vertices
  }

  /** Every known cell is still open or has had its neighbours visited, and
      `start`, once known, has not been popped. */
  ghost predicate Frontier(vertices: map<Position, Vertex>, open: seq<Position>, blocked: set<Position>, start: Position)
  {
    && (forall v {:trigger Expanded(vertices, v, blocked, start)} | v in vertices ::
          v in open || Expanded(vertices, v, blocked, start))
    && (start in vertices ==> start in open)
  }

  /** One pop keeps the frontier. */
  lemma PopFrontier(vertices: map<Position, Vertex>, open: seq<Position>, distance: nat, start: Position,
                    blocked: set<Position>)
    requires open != [] && forall q <- open :: q in vertices
    requires Frontier(vertices, open, blocked, start)
    requires open[|open| - 1] != start
    ensures var curr := open[|open| - 1];
            var step := VisitAll(vertices, open[..|open| - 1], curr, distance, AdjacentFree(blocked, curr, start), start);
            Frontier(step.0, step.1, blocked, start)
  {
    var curr := open[|open| - 1];
    var rest := open[..|open| - 1];
    var adj := AdjacentFree(blocked, curr, start);
    var step := VisitAll(vertices, rest, curr, distance, adj, start);
    assert open == rest + [curr];
    PopFrontierAll(vertices, step.0, rest, step.1, curr, blocked, start);
  }

  /** `PopFrontier` over the maps and lists alone. */
  lemma PopFrontierAll(vertices: map<Position, Vertex>, visited: map<Position, Vertex>, rest: seq<Position>,
                       open: seq<Position>, curr: Position, blocked: set<Position>, start: Position)
    requires forall q :: q in visited <==> q in vertices || q in AdjacentFree(blocked, curr, start)
    requires forall q :: q in open <==> q in rest || (q in AdjacentFree(blocked, curr, start) && q !in vertices)
    requires Frontier(vertices, rest + [curr], blocked, start) && curr != start
    ensures Frontier(visited, open, blocked, start)
  {
    forall v | v in visited
      ensures v in open || Expanded(visited, v, blocked, start)
    {
      assert v in vertices ==> v in rest + [curr] || Expanded(vertices, v, blocked, start);
      assert v in rest + [curr] ==> v in rest || v == curr;
      PopFrontierCell(vertices, visited, rest, open, curr, blocked, start, v);
    }
  }

  /** One known cell after a pop of `curr`: it is still open, or it is
      `curr` itself, whose neighbours were just visited, or it was expanded
      before. */
  lemma PopFrontierCell(vertices: map<Position, Vertex>, visited: map<Position, Vertex>, rest: seq<Position>,
                        open: seq<Position>, curr: Position, blocked: set<Position>, start: Position, v: Position)
    requires forall q :: q in visited <==> q in vertices || q in AdjacentFree(blocked, curr, start)
    requires forall q :: q in open <==> q in rest || (q in AdjacentFree(blocked, curr, start) && q !in vertices)
    requires v in visited
    requires v in vertices ==> v in rest || v == curr || Expanded(vertices, v, blocked, start)
    ensures v in open || Expanded(visited, v, blocked, start)
  {
  }

  /** When the exploring loop ends without reaching `start`, every known
      cell has been expanded and `start` was never met. */
  lemma {:induction false} ExploreExhausts(vertices: map<Position, Vertex>, open: seq<Position>, distance: nat,
                                           start: Position, blocked: set<Position>)
    requires forall q <- open :: q in vertices
    requires Frontier(vertices, open, blocked, start)
    ensures var r := Explore(vertices, open, distance, start, blocked);
            r.0.None? ==> Frontier(r.1, [], blocked, start)
    decreases Measure(vertices, open)
  {
    if open != [] {
      var curr := open[|open| - 1];
      if curr != start {
        PopFrontier(vertices, open, distance + 1, start, blocked);
        PopCounts(vertices, open, distance, start, blocked);
        var step := VisitAll(vertices, open[..|open| - 1], curr, distance + 1, AdjacentFree(blocked, curr, start), start);
        var sorted := SortOpen(step.0, step.1);
        ExploreExhausts(step.0, sorted, distance + 1, start, blocked);
      }
    }
  }

  /** A walk from `start` to `end` through neighbouring cells whose inner
      cells are free. */
  ghost predicate Connects(blocked: set<Position>, start: Position, end: Position, w: seq<Position>)
  {
    && |w| > 0 && w[0] == start && w[|w| - 1] == end
    && (forall i | 0 < i < |w| :: Adjacent(w[i - 1], w[i]))
    && (forall i | 0 < i < |w| - 1 :: w[i] !in blocked)
  }

  /** With nothing left open, a known cell of the walk makes every earlier
      cell of it known, down to `start`. */
  lemma {:induction false} WalkBack(vertices: map<Position, Vertex>, blocked: set<Position>, start: Position,
                                    end: Position, w: seq<Position>, k: nat)
    requires Frontier(vertices, [], blocked, start) && Connects(blocked, start, end, w)
    requires k < |w| && w[k] in vertices
    ensures start in vertices
    decreases k
  {
    if k > 0 {
      AdjacentSymmetric(w[k - 1], w[k]);
      AdjacentFreeSpec(blocked, w[k], start, w[k - 1]);
      assert Expanded(vertices, w[k], blocked, start);
      WalkBack(vertices, blocked, start, end, w, k - 1);
    }
  }

  /** If a walk of free cells joins the unit at `start` to `end`, the
      search returns a path. */
  lemma SearchPathComplete(blocked: set<Position>, start: Position, end: Position, w: seq<Position>)
    requires Connects(blocked, start, end, w)
    ensures SearchPath(blocked, start, end) != []
  {
    var init := InitialVertices(start, end);
    assert Expanded(init, end, blocked, start) || end in [end];
    ExploreExhausts(init, [end], 0, start, blocked);
    var (found, vertices, _) := Explore(init, [end], 0, start, blocked);
    if found.None? {
      WalkBack(vertices, blocked, start, end, w, |w| - 1);
      assert false;
    }
  }

  // ---------------------------------------------------------------------
  // The search as the source runs it

  /** The body of the `for` loop of `shortest_path`: the entry for `a` is
      created if missing (and `a` pushed on the open list), then updated in
      place. */
  method VisitOne(vertices0: map<Position, Vertex>, open0: seq<Position>, curr: Position, distance: nat, a: Position,
                  start: Position)
    returns (vertices: map<Position, Vertex>, open: seq<Position>)
    ensures (vertices, open) == Visit(vertices0, open0, curr, distance, a, start)
  {
    open := open0;
    var isNew := a !in vertices0;
    if isNew {
      open := open + [a];
    }
    var v := if isNew then DefaultVertex else vertices0[a];
    ghost var v0 := v;
    if v.heuristic == MAX_DISTANCE {
      v := v.(heuristic := ManhattanDistance(a, start));
    }
    if distance < v.local {
      v := v.(local := distance, global := distance + v.heuristic, previous := Some(curr));
    } else if distance == v.local && v.previous.Some? && Before(v.previous.value, curr) {
      v := v.(previous := Some(curr));
    }
    assert v == Relax(v0, curr, distance, a, start);
    vertices := vertices0[a := v];
  }

  /** The `for` loop of `shortest_path` over the free neighbours `adj` of
      `curr`, updating the vertex map and the open list in place. */
  method VisitNeighbours(vertices0: map<Position, Vertex>, open0: seq<Position>, curr: Position, distance: nat,
                         adj: seq<Position>, start: Position)
    returns (vertices: map<Position, Vertex>, open: seq<Position>)
    ensures (vertices, open) == VisitAll(vertices0, open0, curr, distance, adj, start)
  {
    vertices, open := vertices0, open0;
    ghost var target := VisitAll(vertices0, open0, curr, distance, adj, start);
    var rest := adj;
    while rest != []
      invariant VisitAll(vertices, open, curr, distance, rest, start) == target
    {
      vertices, open := VisitOne(vertices, open, curr, distance, rest[0], start);
      rest := rest[1..];
    }
  }

  /** The `while let` loop of `shortest_path` that reads the path back from
      `found` through the predecessors. */
  method ReadPath(vertices: map<Position, Vertex>, found: Option<Position>) returns (path: seq<Position>)
    requires ChainOk(vertices)
    ensures path == Trace(vertices, found)
  {
    path := [];
    var previous := found;
    while previous.Some?
      invariant path + Trace(vertices, previous) == Trace(vertices, found)
      decreases if previous.None? then 0 else if previous.value in vertices then vertices[previous.value].local + 2 else 1
    {
      var position := previous.value;
      path := path + [position];
      previous := if position in vertices then vertices[position].previous else None;
    }
  }

  /** `shortest_path`: the search written as loops, with the open list and
      the vertex map updated in place; it returns the path `SearchPath`
      describes. */
  method ShortestPath(blocked: set<Position>, start: Position, end: Position) returns (path: seq<Position>)
    ensures path == SearchPath(blocked, start, end)
  {
    var found: Option<Position> := None;
    var vertices := InitialVertices(start, end);
    var open := [end];
    var distance: nat := 0;
    ghost var goal := Explore(InitialVertices(start, end), [end], 0, start, blocked);
    while open != []
      invariant forall q <- open :: q in vertices
      invariant found.None? && Explore(vertices, open, distance, start, blocked) == goal
      decreases Measure(vertices, open)
    {
      ghost var before := Explore(vertices, open, distance, start, blocked);
      PopCounts(vertices, open, distance, start, blocked);
      var curr := open[|open| - 1];
      open := open[..|open| - 1];
      distance := distance + 1;
      vertices, open := VisitNeighbours(vertices, open, curr, distance, AdjacentFree(blocked, curr, start), start);
      if curr == start {
        found := Some(curr);
        assert (found, vertices, distance) == before;
        break;
      }
      var sorted := SortOpen(vertices, open);
      open := sorted;
      assert Explore(vertices, open, distance, start, blocked) == before;
    }
    assert (found, vertices, distance) == goal;
    SearchTraced(blocked, start, end);
    path := ReadPath(vertices, found);
  }
}
