// Day 18: Settlers of The North Pole. A lumber collection area of open
// ground, trees and lumberyards changes every minute, each acre by a rule on
// its eight neighbours; after many minutes the area repeats, and the cycle
// lets the far future be read off a nearer generation.
module Day18 {
  import opened Common

  // ---------------------------------------------------------------------
  // Positions and neighbours

  /** An acre; `y` grows downward, `x` to the right. */
  datatype Position = Position(x: int, y: int)

  /** `Coord` is an `i16`. */
  const MinCoord: int := -0x8000
  const MaxCoord: int := 0x7FFF

  /** `ADJACENT_OFFSETS`, in the order the `Adjacent` iterator yields them. */
  const Offsets: seq<Position> := [
    Position(-1, -1), Position(0, -1), Position(1, -1), Position(-1, 0),
    Position(1, 0), Position(-1, 1), Position(0, 1), Position(1, 1)]

  /** `Position::adjacent`: the positions the iterator yields, in order. */
  function Adjacent(p: Position): (r: seq<Position>)
    ensures |r| == 8
  {
    seq(8, i requires 0 <= i < 8 => Position(p.x + Offsets[i].x, p.y + Offsets[i].y))
  }

  /** The neighbours are exactly the eight positions around `p`, never `p`
      itself, each yielded once. */
  lemma AdjacentExactly(p: Position, q: Position)
    ensures q in Adjacent(p) <==> q != p && -1 <= q.x - p.x <= 1 && -1 <= q.y - p.y <= 1
    ensures forall i, j | 0 <= i < j < 8 :: Adjacent(p)[i] != Adjacent(p)[j]
  {
    var adj := Adjacent(p);
    if q != p && -1 <= q.x - p.x <= 1 && -1 <= q.y - p.y <= 1 {
      var i := (q.y - p.y + 1) * 3 + (q.x - p.x + 1);
      var k := if i < 4 then i else i - 1;
      assert adj[k] == q;
    }
  }

  // ---------------------------------------------------------------------
  // The area

  datatype Resource = OpenGround | Trees | Lumberyard

  /** `Area`: the acres stored in its map; an acre not stored is open ground. */
  datatype Area = Area(resources: map<Position, Resource>)

  /** `Area::resource`: the stored resource, open ground where none is stored. */
  function ResourceAt(area: Area, p: Position): (r: Resource)
    ensures r != OpenGround ==> p in area.resources && area.resources[p] == r
  {
    if p in area.resources then area.resources[p] else OpenGround
  }

  /** `Area::set_resource`: the area with `r` stored at `p`, and the resource
      that was there before. */
  function SetResource(area: Area, p: Position, r: Resource): (res: (Area, Resource))
    ensures res.1 == ResourceAt(area, p)
    ensures ResourceAt(res.0, p) == r
    ensures forall q | q != p :: ResourceAt(res.0, q) == ResourceAt(area, q)
  {
    (Area(area.resources[p := r]), ResourceAt(area, p))
  }

  /** The positions at which `r` is stored. */
  function StoredAs(area: Area, r: Resource): set<Position>
  {
    set p | p in area.resources && area.resources[p] == r
  }

  /** `Area::count_resource`: how many stored acres hold `r`. */
  function CountResource(area: Area, r: Resource): (n: nat)
    ensures n <= |area.resources|
  {
    assert StoredAs(area, r) <= area.resources.Keys;
    SubsetCard(StoredAs(area, r), area.resources.Keys);
    |StoredAs(area, r)|
  }

  /** No open ground is stored, as the areas `parse` and `next_generation`
      build. */
  predicate NoOpenStored(area: Area)
  {
    forall p <- area.resources :: area.resources[p] != OpenGround
  }

  /** Where no open ground is stored, every stored acre is counted as trees
      or as a lumberyard, and counting trees or lumberyards counts exactly
      the acres `resource` reports as such. */
  lemma CountPartition(area: Area)
    requires NoOpenStored(area)
    ensures CountResource(area, OpenGround) == 0
    ensures CountResource(area, Trees) + CountResource(area, Lumberyard) == |area.resources|
    ensures forall p, r | r != OpenGround :: p in StoredAs(area, r) <==> ResourceAt(area, p) == r
  {
    var t, l := StoredAs(area, Trees), StoredAs(area, Lumberyard);
    assert StoredAs(area, OpenGround) == {};
    assert area.resources.Keys == t + l;
    assert t * l == {};
  }

  // ---------------------------------------------------------------------
  // Corners

  /** Every stored position fits the source's `i16` coordinates. */
  predicate InRange(keys: set<Position>)
  {
    forall p <- keys :: MinCoord <= p.x <= MaxCoord && MinCoord <= p.y <= MaxCoord
  }

  /** `tl` and `br` are what `Area::corners` computes for `keys`: each
      coordinate starts at the far end of the `i16` range and is pulled to
      the least or greatest coordinate of a key. */
  predicate IsCorners(keys: set<Position>, tl: Position, br: Position)
  {
    Encloses(keys, tl, br) && Attained(keys, tl, br)
  }

  /** Every key lies within the corners, and the corners within range. */
  predicate Encloses(keys: set<Position>, tl: Position, br: Position)
  {
    && (forall p <- keys :: tl.x <= p.x <= br.x && tl.y <= p.y <= br.y)
    && tl.x <= MaxCoord && tl.y <= MaxCoord && br.x >= MinCoord && br.y >= MinCoord
  }

  /** Each corner coordinate is a key's, or still the far end of the range. */
  predicate Attained(keys: set<Position>, tl: Position, br: Position)
  {
    && (tl.x == MaxCoord || exists p <- keys :: p.x == tl.x)
    && (tl.y == MaxCoord || exists p <- keys :: p.y == tl.y)
    && (br.x == MinCoord || exists p <- keys :: p.x == br.x)
    && (br.y == MinCoord || exists p <- keys :: p.y == br.y)
  }

  /** The corners are determined by the keys. */
  lemma CornersUnique(keys: set<Position>, tl: Position, br: Position, tl': Position, br': Position)
    requires InRange(keys) && IsCorners(keys, tl, br) && IsCorners(keys, tl', br')
    ensures tl == tl' && br == br'
  {
  }

  /** Corners exist for every set of keys in range. */
  lemma {:induction false} CornersExist(keys: set<Position>)
    requires InRange(keys)
    ensures exists tl, br :: IsCorners(keys, tl, br)
    decreases |keys|
  {
    if keys == {} {
      assert IsCorners(keys, Position(MaxCoord, MaxCoord), Position(MinCoord, MinCoord));
    } else {
      var p :| p in keys;
      CornersExist(keys - {p});
      var tl, br :| IsCorners(keys - {p}, tl, br);
      WidenCorners(keys - {p}, tl, br, p, Widen(tl, br, p).0, Widen(tl, br, p).1);
      assert keys - {p} + {p} == keys;
    }
  }

  /** The corners widened to take in `p`, as one pass of the loop does. */
  function Widen(tl: Position, br: Position, p: Position): (Position, Position)
  {
    (Position(if p.x < tl.x then p.x else tl.x, if p.y < tl.y then p.y else tl.y),
     Position(if p.x > br.x then p.x else br.x, if p.y > br.y then p.y else br.y))
  }

  lemma WidenCorners(keys: set<Position>, tl: Position, br: Position, p: Position, tl': Position, br': Position)
    requires IsCorners(keys, tl, br) && (tl', br') == Widen(tl, br, p)
    ensures IsCorners(keys + {p}, tl', br')
  {
  }

  /** The corners of an area's keys. */
  ghost function CornersOf(area: Area): (c: (Position, Position))
    requires InRange(area.resources.Keys)
    ensures IsCorners(area.resources.Keys, c.0, c.1)
  {
    CornersExist(area.resources.Keys);
    var tl, br :| IsCorners(area.resources.Keys, tl, br);
    (tl, br)
  }

  /** One pass of the loop in `Area::corners`: each coordinate moves out
      to `p`'s when `p` lies beyond it. */
  method TakeIn(tl: Position, br: Position, p: Position) returns (tl': Position, br': Position)
    ensures (tl', br') == Widen(tl, br, p)
  {
    tl', br' := tl, br;
    if p.x < tl'.x {
      tl' := tl'.(x := p.x);
    }
    if p.y < tl'.y {
      tl' := tl'.(y := p.y);
    }
    if p.x > br'.x {
      br' := br'.(x := p.x);
    }
    if p.y > br'.y {
      br' := br'.(y := p.y);
    }
  }

  /** `Area::corners`: the least and greatest coordinates over the keys. */
  method Corners(area: Area) returns (tl: Position, br: Position)
    requires InRange(area.resources.Keys)
    ensures (tl, br) == CornersOf(area)
  {
    tl, br := Position(MaxCoord, MaxCoord), Position(MinCoord, MinCoord);
    ghost var keys := area.resources.Keys;
    var todo := area.resources.Keys;
    ghost var done: set<Position> := {};
    while todo != {}
      invariant done + todo == keys && done !! todo
      invariant IsCorners(done, tl, br)
      decreases |todo|
    {
      var p :| p in todo;
      ghost var (tl0, br0) := (tl, br);
      tl, br := TakeIn(tl, br, p);
      WidenCorners(done, tl0, br0, p, tl, br);
      todo := todo - {p};
      done := done + {p};
    }
    CornersOfIs(area, tl, br);
  }

  /** The corners of the keys are the ones `CornersOf` picks. */
  lemma CornersOfIs(area: Area, tl: Position, br: Position)
    requires InRange(area.resources.Keys) && IsCorners(area.resources.Keys, tl, br)
    ensures (tl, br) == CornersOf(area)
  {
    CornersUnique(area.resources.Keys, tl, br, CornersOf(area).0, CornersOf(area).1);
  }

  // ---------------------------------------------------------------------
  // One minute

  /** How many entries of `rs` are `r`. */
  function CountIn(rs: seq<Resource>, r: Resource): (n: nat)
    ensures n <= |rs|
  {
    if rs == [] then 0
    else CountIn(rs[..|rs| - 1], r) + (if rs[|rs| - 1] == r then 1 else 0)
  }

  /** A prefix holds no more of `r` than the whole. */
  lemma {:induction false} CountInPrefix(rs: seq<Resource>, i: nat, r: Resource)
    requires i <= |rs|
    ensures CountIn(rs[..i], r) <= CountIn(rs, r)
    decreases |rs| - i
  {
    if i < |rs| {
      CountInPrefix(rs, i + 1, r);
      assert rs[..i + 1][..i] == rs[..i];
    } else {
      assert rs[..i] == rs;
    }
  }

  /** One more entry counted. */
  lemma CountInStep(rs: seq<Resource>, i: nat, r: Resource)
    requires i < |rs|
    ensures CountIn(rs[..i + 1], r) == CountIn(rs[..i], r) + (if rs[i] == r then 1 else 0)
  {
    assert rs[..i + 1][..i] == rs[..i];
  }

  /** The resources of the eight neighbours, in the iterator's order. */
  function Neighbours(area: Area, p: Position): (rs: seq<Resource>)
    ensures |rs| == 8
  {
    seq(8, i requires 0 <= i < 8 => ResourceAt(area, Adjacent(p)[i]))
  }

  /** The rules of one minute, as the puzzle states them: open ground grows
      trees next to three or more trees; trees become a lumberyard next to
      three or more lumberyards; a lumberyard stays next to at least one
      lumberyard and one acre of trees and otherwise becomes open ground. */
  function NextResource(area: Area, p: Position): Resource
  {
    var around := Neighbours(area, p);
    match ResourceAt(area, p)
    case OpenGround => if CountIn(around, Trees) >= 3 then Trees else OpenGround
    case Trees => if CountIn(around, Lumberyard) >= 3 then Lumberyard else Trees
    case Lumberyard =>
      if CountIn(around, Trees) >= 1 && CountIn(around, Lumberyard) >= 1 then Lumberyard else OpenGround
  }

  /** Whether `p` lies in the box with corners `tl` and `br`. */
  predicate InBox(p: Position, tl: Position, br: Position)
  {
    tl.x <= p.x <= br.x && tl.y <= p.y <= br.y
  }

  /** The positions of the box. */
  function Box(tl: Position, br: Position): set<Position>
  {
    set x: int, y: int | tl.x <= x <= br.x && tl.y <= y <= br.y :: Position(x, y)
  }

  /** The area a minute later, computed over the box only: every acre of the
      box that is not open ground afterwards, with its new resource. */
  function Evolve(area: Area, tl: Position, br: Position): Area
  {
    Area(map p | p in Box(tl, br) && NextResource(area, p) != OpenGround :: NextResource(area, p))
  }

  /** A minute later, exactly the acres of the box whose rule gives trees or
      a lumberyard are stored, with that resource; acres outside the box are
      open ground. */
  lemma EvolveStores(area: Area, tl: Position, br: Position, p: Position)
    ensures p in Evolve(area, tl, br).resources <==> InBox(p, tl, br) && NextResource(area, p) != OpenGround
    ensures ResourceAt(Evolve(area, tl, br), p) == if InBox(p, tl, br) then NextResource(area, p) else OpenGround
    ensures NoOpenStored(Evolve(area, tl, br))
  {
    if InBox(p, tl, br) {
      assert p in Box(tl, br);
    }
  }

  /** `next_generation`'s handling of open ground: count neighbouring trees,
      stopping at the third. */
  method GrowTrees(area: Area, p: Position) returns (r: Resource)
    requires ResourceAt(area, p) == OpenGround
    ensures r == NextResource(area, p)
  {
    var around := Neighbours(area, p);
    var adjacent := Adjacent(p);
    var numAdjTrees := 0;
    for i := 0 to 8
      invariant numAdjTrees == CountIn(around[..i], Trees) < 3
    {
      CountInStep(around, i, Trees);
      if ResourceAt(area, adjacent[i]) == Trees {
        numAdjTrees := numAdjTrees + 1;
        if numAdjTrees >= 3 {
          CountInPrefix(around, i + 1, Trees);
          return Trees;
        }
      }
    }
    assert around[..8] == around;
    return OpenGround;
  }

  /** `next_generation`'s handling of trees: count neighbouring lumberyards,
      stopping at the third. */
  method BuildLumberyard(area: Area, p: Position) returns (r: Resource)
    requires ResourceAt(area, p) == Trees
    ensures r == NextResource(area, p)
  {
    var around := Neighbours(area, p);
    var adjacent := Adjacent(p);
    var numAdjLumberyards := 0;
    for i := 0 to 8
      invariant numAdjLumberyards == CountIn(around[..i], Lumberyard) < 3
    {
      CountInStep(around, i, Lumberyard);
      if ResourceAt(area, adjacent[i]) == Lumberyard {
        numAdjLumberyards := numAdjLumberyards + 1;
        if numAdjLumberyards >= 3 {
          CountInPrefix(around, i + 1, Lumberyard);
          return Lumberyard;
        }
      }
    }
    assert around[..8] == around;
    return Trees;
  }

  /** `next_generation`'s handling of a lumberyard: count neighbouring trees
      and lumberyards, stopping once both are seen. */
  method KeepLumberyard(area: Area, p: Position) returns (r: Resource)
    requires ResourceAt(area, p) == Lumberyard
    ensures r == NextResource(area, p)
  {
    var around := Neighbours(area, p);
    var adjacent := Adjacent(p);
    var numTrees, numLumberyard := 0, 0;
    for i := 0 to 8
      invariant numTrees == CountIn(around[..i], Trees)
      invariant numLumberyard == CountIn(around[..i], Lumberyard)
      invariant !(numTrees >= 1 && numLumberyard >= 1)
    {
      CountInStep(around, i, Trees);
      CountInStep(around, i, Lumberyard);
      match ResourceAt(area, adjacent[i]) {
        case Trees => numTrees := numTrees + 1;
        case Lumberyard => numLumberyard := numLumberyard + 1;
        case OpenGround =>
      }
      if numTrees >= 1 && numLumberyard >= 1 {
        CountInPrefix(around, i + 1, Trees);
        CountInPrefix(around, i + 1, Lumberyard);
        return Lumberyard;
      }
    }
    assert around[..8] == around;
    return OpenGround;
  }

  /** The acres visited before column `x` of row `y`, in reading order. */
  predicate Visited(p: Position, tl: Position, br: Position, y: int, x: int)
  {
    tl.x <= p.x <= br.x && tl.y <= p.y && (p.y < y || (p.y == y && p.x < x))
  }

  /** `Area::next_generation`: a fresh area, filled row by row over the box
      from the acres of the old one. */
  method NextGeneration(area: Area, tl: Position, br: Position) returns (r: Area)
    ensures r == Evolve(area, tl, br)
  {
    var resources: map<Position, Resource> := map[];
    var y := tl.y;
    while y <= br.y
      invariant tl.y <= y && (y <= br.y + 1 || y == tl.y)
      invariant forall p :: p in resources <==> Visited(p, tl, br, y, tl.x) && NextResource(area, p) != OpenGround
      invariant forall p <- resources :: resources[p] == NextResource(area, p)
    {
      var x := tl.x;
      while x <= br.x
        invariant tl.x <= x && (x <= br.x + 1 || x == tl.x)
        invariant forall p :: p in resources <==> Visited(p, tl, br, y, x) && NextResource(area, p) != OpenGround
        invariant forall p <- resources :: resources[p] == NextResource(area, p)
      {
        var position := Position(x, y);
        var next;
        match ResourceAt(area, position) {
          case OpenGround => next := GrowTrees(area, position);
          case Trees => next := BuildLumberyard(area, position);
          case Lumberyard => next := KeepLumberyard(area, position);
        }
        if next != OpenGround {
          resources := resources[position := next];
        }
        x := x + 1;
      }
      y := y + 1;
    }
    r := Area(resources);
    forall p
      ensures p in r.resources <==> p in Evolve(area, tl, br).resources
    {
      EvolveStores(area, tl, br, p);
      assert Visited(p, tl, br, y, tl.x) <==> InBox(p, tl, br);
    }
  }

  // ---------------------------------------------------------------------
  // Many minutes

  /** `k` applications of `f` to `x`. */
  function Repeat<T>(f: T -> T, x: T, k: nat): T
  {
    if k == 0 then x else f(Repeat(f, x, k - 1))
  }

  /** One minute over the box with corners `tl` and `br`. */
  function Minute(tl: Position, br: Position): Area -> Area
  {
    a => Evolve(a, tl, br)
  }

  /** The area after `k` minutes, every minute computed over the same box. */
  function Iterate(area: Area, tl: Position, br: Position, k: nat): Area
  {
    Repeat(Minute(tl, br), area, k)
  }

  /** Each further minute evolves the area of the minute before. */
  lemma IterateNext(area: Area, tl: Position, br: Position, k: nat)
    ensures Iterate(area, tl, br, k + 1) == Evolve(Iterate(area, tl, br, k), tl, br)
  {
  }

  /** Two equal results `d` applications apart make every later result
      repeat with period `d`. */
  lemma {:induction false} Shift<T>(f: T -> T, x: T, a: nat, d: nat, m: nat)
    requires Repeat(f, x, a + d) == Repeat(f, x, a)
    ensures Repeat(f, x, a + m + d) == Repeat(f, x, a + m)
    decreases m
  {
    if m > 0 {
      Shift(f, x, a, d, m - 1);
      assert a + m + d - 1 == a + (m - 1) + d;
    }
  }

  /** From a repeat at `a` and `a + d`, result `a + j * d + m` is result
      `a + m`. */
  lemma {:induction false} Periodic<T>(f: T -> T, x: T, a: nat, d: nat, j: nat, m: nat)
    requires Repeat(f, x, a + d) == Repeat(f, x, a)
    ensures Repeat(f, x, a + j * d + m) == Repeat(f, x, a + m)
    decreases j
  {
    if j > 0 {
      Periodic(f, x, a, d, j - 1, m);
      Shift(f, x, a, d, (j - 1) * d + m);
      assert a + j * d + m == a + ((j - 1) * d + m) + d;
    }
  }

  /** Any result at or after a repeat at `a` and `a + d` is the one at `a`
      plus its distance from `a` modulo `d`. */
  lemma Congruent<T>(f: T -> T, x: T, a: nat, d: nat, k: nat)
    requires d >= 1 && a <= k && Repeat(f, x, a + d) == Repeat(f, x, a)
    ensures Repeat(f, x, k) == Repeat(f, x, a + (k - a) % d)
  {
    var j, m := (k - a) / d, (k - a) % d;
    assert k == a + j * d + m;
    Periodic(f, x, a, d, j, m);
  }

  /** `Area::nth_generation`: the area after `n` minutes, each computed
      over the corners of the starting area; from 1000 minutes on it skips
      whole periods once the areas repeat. */
  method NthGeneration(area: Area, n: nat) returns (r: Area)
    requires InRange(area.resources.Keys)
    ensures r == Iterate(area, CornersOf(area).0, CornersOf(area).1, n)
  {
    var tl, br := Corners(area);
    ghost var f := StepOf(tl, br);
    if n < 1000 {
      r := area;
      for no := 1 to n + 1
        invariant Reaches(f, area, no - 1, r)
      {
        r := Advance(r, tl, br, f, area, no);
      }
      StepRepeats(f, area, tl, br, n);
      return;
    }
    r := SkipCycles(area, tl, br, f, n);
    StepRepeats(f, area, tl, br, n);
  }

  /** The branch of `Area::nth_generation` for 1000 minutes or more: it
      remembers the minute at which each area was seen; once an area
      repeats and four more periods have passed, it stops at the minute
      congruent to `n` modulo the period. */
  method SkipCycles(area: Area, tl: Position, br: Position, ghost f: Area -> Area, n: nat) returns (r: Area)
    requires IsMinute(f, tl, br)
    ensures Reaches(f, area, n, r)
  {
    r := area;
    var breakAtNo: nat := n + 1;
    var prove := breakAtNo;
    var firstCycleStart: nat := 1;
    var repeatCycle: nat := 1;
    var seenPattern: map<Area, nat> := map[area := 0];
    var no := 1;
    while no <= n
      invariant 1 <= no <= n + 1
      invariant Reaches(f, area, no - 1, r)
      invariant Recorded(f, area, seenPattern, no)
      invariant repeatCycle >= 1
      invariant prove == n + 1 || (prove == firstCycleStart + repeatCycle * 4 && firstCycleStart < no)
      invariant prove == n + 1 || Recurs(f, area, firstCycleStart, repeatCycle)
      invariant breakAtNo == n + 1 || Recurs(f, area, n, breakAtNo - n)
    {
      r := Advance(r, tl, br, f, area, no);
      if r in seenPattern {
        var prev := seenPattern[r];
        var difference := no - prev;
        SeenAgain(f, area, seenPattern, no, r);
        if difference != repeatCycle {
          repeatCycle := difference;
          firstCycleStart := prev;
          prove := firstCycleStart + repeatCycle * 4;
        }
      }
      Record(f, area, seenPattern, no, r);
      seenPattern := seenPattern[r := no];
      if no == breakAtNo {
        break;
      }
      if no == prove {
        breakAtNo := (n - firstCycleStart) % repeatCycle + no;
        BreakCongruent(f, area, firstCycleStart, repeatCycle, n, no, breakAtNo);
      }
      no := no + 1;
    }
  }

  /** One minute of the loops in `nth_generation`, counted. */
  method Advance(r: Area, tl: Position, br: Position, ghost f: Area -> Area, ghost area: Area, ghost k: nat)
    returns (next: Area)
    requires IsMinute(f, tl, br) && k >= 1 && Reaches(f, area, k - 1, r)
    ensures Reaches(f, area, k, next)
  {
    next := NextGeneration(r, tl, br);
    StepReaches(f, area, k, r, next);
  }

  /** `f` computes one minute over the box with corners `tl` and `br`. */
  ghost predicate IsMinute(f: Area -> Area, tl: Position, br: Position)
  {
    forall a {:trigger Evolve(a, tl, br)} :: f(a) == Evolve(a, tl, br)
  }

  /** A step function that is one minute. */
  lemma StepOf(tl: Position, br: Position) returns (f: Area -> Area)
    ensures IsMinute(f, tl, br)
  {
    f := Minute(tl, br);
  }

  /** Repeating a function that is one minute counts minutes. */
  lemma {:induction false} StepRepeats(f: Area -> Area, area: Area, tl: Position, br: Position, k: nat)
    requires IsMinute(f, tl, br)
    ensures Repeat(f, area, k) == Iterate(area, tl, br, k)
  {
    if k > 0 {
      StepRepeats(f, area, tl, br, k - 1);
      IterateNext(area, tl, br, k - 1);
    }
  }

  /** `r` is the result of `k` applications of `f` to `x`. */
  ghost predicate Reaches<T>(f: T -> T, x: T, k: nat, r: T)
  {
    Repeat(f, x, k) == r
  }

  /** Every value in `seen` is the result of as many applications as it
      is mapped to, fewer than `no`. */
  ghost predicate Recorded<T>(f: T -> T, x: T, seen: map<T, nat>, no: nat)
  {
    forall a <- seen :: seen[a] < no && Repeat(f, x, seen[a]) == a
  }

  /** The result after `a + d` applications is the one after `a`. */
  ghost predicate Recurs<T>(f: T -> T, x: T, a: nat, d: int)
  {
    a + d >= 0 && Repeat(f, x, a + d) == Repeat(f, x, a)
  }

  lemma StepReaches<T>(f: T -> T, x: T, k: nat, before: T, after: T)
    requires k >= 1 && Reaches(f, x, k - 1, before) && after == f(before)
    ensures Reaches(f, x, k, after)
  {
  }

  lemma SeenAgain<T>(f: T -> T, x: T, seen: map<T, nat>, no: nat, r: T)
    requires Recorded(f, x, seen, no) && Reaches(f, x, no, r) && r in seen
    ensures seen[r] < no && Recurs(f, x, seen[r], no - seen[r])
  {
  }

  lemma Record<T>(f: T -> T, x: T, seen: map<T, nat>, no: nat, r: T)
    requires Recorded(f, x, seen, no) && Reaches(f, x, no, r)
    ensures Recorded(f, x, seen[r := no], no + 1)
  {
  }

  /** Stopping four periods after the first repeat, at the result
      congruent to `n`, gives the `n`th result. */
  lemma BreakCongruent<T>(f: T -> T, x: T, start: nat, cycle: nat, n: nat, no: nat, breakAt: nat)
    requires cycle >= 1 && no == start + cycle * 4 && start <= n
    requires Recurs(f, x, start, cycle)
    requires breakAt == (n - start) % cycle + no
    ensures Recurs(f, x, n, breakAt - n)
  {
    var m := (n - start) % cycle;
    Congruent(f, x, start, cycle, n);
    Congruent(f, x, start, cycle, breakAt);
    assert breakAt - start == 4 * cycle + m;
    DivModUnique(breakAt - start, cycle, 4, m);
  }

  /** After at least one minute only acres of the box are stored, and none
      of them open ground. */
  lemma IterateInBox(area: Area, tl: Position, br: Position, k: nat)
    requires k >= 1
    ensures NoOpenStored(Iterate(area, tl, br, k))
    ensures forall p <- Iterate(area, tl, br, k).resources :: InBox(p, tl, br)
  {
    IterateNext(area, tl, br, k - 1);
    var before := Iterate(area, tl, br, k - 1);
    forall p <- Iterate(area, tl, br, k).resources
      ensures InBox(p, tl, br)
    {
      EvolveStores(before, tl, br, p);
    }
    EvolveStores(before, tl, br, tl);
  }

  // ---------------------------------------------------------------------
  // The puzzle

  /** The total resource value: wooded acres times lumberyards. */
  function ResourceValue(area: Area): nat
  {
    CountResource(area, Trees) * CountResource(area, Lumberyard)
  }

  /** The minutes of the two parts of the puzzle. */
  const ShortRun: nat := 10
  const LongRun: nat := 1_000_000_000

  /** The value of the area after `minutes` minutes. */
  method TotalResourceValue(area: Area, minutes: nat) returns (v: nat)
    requires InRange(area.resources.Keys)
    ensures v == ResourceValue(Iterate(area, CornersOf(area).0, CornersOf(area).1, minutes))
  {
    var later := NthGeneration(area, minutes);
    v := ResourceValue(later);
  }

  /** `total_resource_value_after_10_minutes`. */
  method TotalResourceValueAfter10Minutes(area: Area) returns (v: nat)
    requires InRange(area.resources.Keys)
    ensures v == ResourceValue(Iterate(area, CornersOf(area).0, CornersOf(area).1, ShortRun))
  {
    v := TotalResourceValue(area, ShortRun);
  }

  /** `total_resource_value_after_1_000_000_000_minutes`. */
  method TotalResourceValueAfterBillionMinutes(area: Area) returns (v: nat)
    requires InRange(area.resources.Keys)
    ensures v == ResourceValue(Iterate(area, CornersOf(area).0, CornersOf(area).1, LongRun))
  {
    v := TotalResourceValue(area, LongRun);
  }

  // ---------------------------------------------------------------------
  // Display

  /** The symbol `Display for Area` writes for a resource. */
  function Symbol(r: Resource): char
  {
    match r
    case OpenGround => '.'
    case Trees => '|'
    case Lumberyard => '#'
  }

  /** The symbols of row `y` from column `x0` through column `x1`. */
  function Row(area: Area, y: int, x0: int, x1: int): (s: string)
    ensures |s| == if x1 < x0 then 0 else x1 - x0 + 1
    ensures forall i | 0 <= i < |s| :: s[i] == '.' || s[i] == '|' || s[i] == '#'
    decreases x1 - x0 + 1
  {
    if x1 < x0 then "" else Row(area, y, x0, x1 - 1) + [Symbol(ResourceAt(area, Position(x1, y)))]
  }

  /** The rows from `tl.y` through `y1`, each from column `tl.x` through `x1`. */
  function Rows(area: Area, tl: Position, x1: int, y1: int): (rows: seq<string>)
    ensures |rows| == if y1 < tl.y then 0 else y1 - tl.y + 1
  {
    seq(if y1 < tl.y then 0 else y1 - tl.y + 1, k => Row(area, tl.y + k, tl.x, x1))
  }

  /** `Display for Area`: the rows of the box with the area's corners, each
      ended by a newline. */
  ghost function Show(area: Area): string
    requires InRange(area.resources.Keys)
  {
    var (tl, br) := CornersOf(area);
    Terminated(Rows(area, tl, br.x, br.y))
  }

  /** `Display for Area::fmt`, writing into a string. */
  method Display(area: Area) returns (s: string)
    requires InRange(area.resources.Keys)
    ensures s == Show(area)
  {
    var tl, br := Corners(area);
    s := "";
    var y := tl.y;
    while y <= br.y
      invariant tl.y <= y && (y <= br.y + 1 || y == tl.y)
      invariant s == Terminated(Rows(area, tl, br.x, y - 1))
    {
      var line := "";
      var x := tl.x;
      while x <= br.x
        invariant tl.x <= x && (x <= br.x + 1 || x == tl.x)
        invariant line == Row(area, y, tl.x, x - 1)
      {
        line := line + [Symbol(ResourceAt(area, Position(x, y)))];
        x := x + 1;
      }
      assert line == Row(area, y, tl.x, br.x);
      RowsNext(area, tl, br.x, y);
      TerminatedSnoc(Rows(area, tl, br.x, y - 1), line);
      s := s + (line + "\n");
      y := y + 1;
    }
  }

  /** One more row at the bottom. */
  lemma RowsNext(area: Area, tl: Position, x1: int, y: int)
    requires tl.y <= y
    ensures Rows(area, tl, x1, y) == Rows(area, tl, x1, y - 1) + [Row(area, y, tl.x, x1)]
  {
  }

  /** The symbol in column `x` of a row. */
  lemma {:induction false} RowAt(area: Area, y: int, x0: int, x1: int, x: int)
    requires x0 <= x <= x1
    ensures Row(area, y, x0, x1)[x - x0] == Symbol(ResourceAt(area, Position(x, y)))
    decreases x1 - x0
  {
    if x < x1 {
      RowAt(area, y, x0, x1 - 1, x);
    }
  }

  // ---------------------------------------------------------------------
  // Parsing

  /** What `parse` makes of a character: an acre, whitespace to skip, or
      anything else, on which it panics. */
  datatype Glyph = Acre(resource: Resource) | Blank | Foreign

  function ReadGlyph(c: char): (g: Glyph)
    ensures g.Acre? ==> Symbol(g.resource) == c
  {
    if c == '.' then Acre(OpenGround)
    else if c == '|' then Acre(Trees)
    else if c == '#' then Acre(Lumberyard)
    else if IsWhitespace(c) then Blank
    else Foreign
  }

  /** Every symbol reads back as its resource. */
  lemma ReadSymbol(r: Resource)
    ensures ReadGlyph(Symbol(r)) == Acre(r)
  {
  }

  /** `v as Coord` for a column or row index: the low 16 bits, read as a
      two's-complement `i16`. */
  function I16(v: nat): (c: int)
    ensures MinCoord <= c <= MaxCoord
    ensures v <= MaxCoord ==> c == v
  {
    (v + 0x8000) % 0x1_0000 - 0x8000
  }

  /** The position `parse` gives to column `x` of line `y`. */
  function At(x: nat, y: nat): Position
  {
    Position(I16(x), I16(y))
  }

  /** The area after `parse` has read the first `k` characters of `line`,
      line number `y`, on top of `area`; `None` once it meets a foreign
      character. */
  function ReadRow(area: Area, line: string, y: nat, k: nat): Option<Area>
    requires k <= |line|
  {
    if k == 0 then Some(area)
    else match ReadRow(area, line, y, k - 1)
      case None => None
      case Some(a) =>
        match ReadGlyph(line[k - 1])
        case Foreign => None
        case Blank => Some(a)
        case Acre(r) => Some(if r == OpenGround then a else SetResource(a, At(k - 1, y), r).0)
  }

  /** The area after `parse` has read the first `k` lines. */
  function ReadRows(lines: seq<string>, k: nat): Option<Area>
    requires k <= |lines|
  {
    if k == 0 then Some(Area(map[]))
    else match ReadRows(lines, k - 1)
      case None => None
      case Some(a) => ReadRow(a, lines[k - 1], k - 1, |lines[k - 1]|)
  }

  /** `parse`: every line of the input read into one area; `None` where
      the source panics. */
  function ParseArea(input: string): Option<Area>
  {
    ReadRows(Lines(input), |Lines(input)|)
  }

  /** `parse`, reading character by character. */
  method Parse(input: string) returns (r: Option<Area>)
    ensures r == ParseArea(input)
  {
    var lines := Lines(input);
    var area := Area(map[]);
    for y := 0 to |lines|
      invariant ReadRows(lines, y) == Some(area)
    {
      var line := lines[y];
      ghost var start := area;
      for x := 0 to |line|
        invariant ReadRow(start, line, y, x) == Some(area)
      {
        var chr := line[x];
        var resource;
        if chr == '.' {
          resource := OpenGround;
        } else if chr == '|' {
          resource := Trees;
        } else if chr == '#' {
          resource := Lumberyard;
        } else if IsWhitespace(chr) {
          continue;
        } else {
          RowStaysFailed(start, line, y, x + 1);
          RowsStayFailed(lines, y + 1);
          return None;
        }
        if resource != OpenGround {
          area := SetResource(area, At(x, y), resource).0;
        }
      }
    }
    r := Some(area);
  }

  /** Once a line has failed, it stays failed. */
  lemma {:induction false} RowStaysFailed(area: Area, line: string, y: nat, k: nat)
    requires k <= |line| && ReadRow(area, line, y, k) == None
    ensures ReadRow(area, line, y, |line|) == None
    decreases |line| - k
  {
    if k < |line| {
      RowStaysFailed(area, line, y, k + 1);
    }
  }

  /** Once a line has failed, the whole input has. */
  lemma {:induction false} RowsStayFailed(lines: seq<string>, k: nat)
    requires k <= |lines| && ReadRows(lines, k) == None
    ensures ReadRows(lines, |lines|) == None
    decreases |lines| - k
  {
    if k < |lines| {
      RowsStayFailed(lines, k + 1);
    }
  }

  /** The resource `parse` records for a character: the acre's, or open
      ground for whitespace and foreign characters. */
  function GlyphResource(c: char): Resource
  {
    match ReadGlyph(c)
    case Acre(r) => r
    case _ => OpenGround
  }

  /** The resource the text shows at `p`; open ground outside its lines and
      columns. */
  function CellAt(lines: seq<string>, p: Position): Resource
  {
    if 0 <= p.y < |lines| && 0 <= p.x < |lines[p.y]| then GlyphResource(lines[p.y][p.x]) else OpenGround
  }

  /** No line or column index of the text needs more than an `i16`. */
  predicate Fits(lines: seq<string>)
  {
    |lines| <= MaxCoord + 1 && forall l <- lines :: |l| <= MaxCoord + 1
  }

  /** Reading a line: it fails exactly at a foreign character, and
      otherwise adds the line's trees and lumberyards and nothing else. */
  lemma {:induction false} RowReads(area: Area, line: string, y: nat, k: nat)
    requires k <= |line| <= MaxCoord + 1 && y <= MaxCoord && NoOpenStored(area)
    ensures ReadRow(area, line, y, k).Some? <==> forall x | 0 <= x < k :: !ReadGlyph(line[x]).Foreign?
    ensures ReadRow(area, line, y, k).Some? ==> NoOpenStored(ReadRow(area, line, y, k).value)
    ensures ReadRow(area, line, y, k).Some? ==>
              forall p :: ResourceAt(ReadRow(area, line, y, k).value, p) ==
                          if p.y == y && 0 <= p.x < k && GlyphResource(line[p.x]) != OpenGround
                          then GlyphResource(line[p.x]) else ResourceAt(area, p)
    decreases k
  {
    if k > 0 {
      RowReads(area, line, y, k - 1);
      if ReadRow(area, line, y, k - 1).Some? {
        var a := ReadRow(area, line, y, k - 1).value;
        var c := line[k - 1];
        if ReadGlyph(c).Acre? && ReadGlyph(c).resource != OpenGround {
          assert At(k - 1, y) == Position(k - 1, y);
          var b := SetResource(a, At(k - 1, y), ReadGlyph(c).resource).0;
          assert ReadRow(area, line, y, k) == Some(b);
          forall p <- b.resources
            ensures b.resources[p] != OpenGround
          {
            if p != At(k - 1, y) {
              assert p in a.resources;
            }
          }
        }
      }
    }
  }

  /** Reading the first `k` lines: it fails exactly at a foreign character,
      and otherwise stores exactly the trees and lumberyards of those
      lines. */
  lemma {:induction false} RowsRead(lines: seq<string>, k: nat)
    requires k <= |lines| && Fits(lines)
    ensures ReadRows(lines, k).Some? <==>
              forall y, x | 0 <= y < k && 0 <= x < |lines[y]| :: !ReadGlyph(lines[y][x]).Foreign?
    ensures ReadRows(lines, k).Some? ==> NoOpenStored(ReadRows(lines, k).value)
    ensures ReadRows(lines, k).Some? ==>
              forall p :: ResourceAt(ReadRows(lines, k).value, p) == CellAt(lines[..k], p)
    decreases k
  {
    if k > 0 {
      RowsRead(lines, k - 1);
      var line := lines[k - 1];
      assert line in lines;
      if ReadRows(lines, k - 1).Some? {
        var a := ReadRows(lines, k - 1).value;
        RowReads(a, line, k - 1, |line|);
        if ReadRows(lines, k).Some? {
          forall p
            ensures ResourceAt(ReadRows(lines, k).value, p) == CellAt(lines[..k], p)
          {
            assert lines[..k][..k - 1] == lines[..k - 1];
          }
        } else {
          var x :| 0 <= x < |line| && ReadGlyph(line[x]).Foreign?;
          assert lines[k - 1][x] == line[x];
        }
      } else {
        var y, x :| 0 <= y < k - 1 && 0 <= x < |lines[y]| && ReadGlyph(lines[y][x]).Foreign?;
        assert 0 <= y < k;
      }
    }
  }

  /** `parse` fails exactly at a foreign character; otherwise it stores the
      text's trees and lumberyards at their column and line, and no open
      ground. */
  lemma ParseReads(input: string)
    requires Fits(Lines(input))
    ensures ParseArea(input).Some? <==>
              forall y, x | 0 <= y < |Lines(input)| && 0 <= x < |Lines(input)[y]| :: !ReadGlyph(Lines(input)[y][x]).Foreign?
    ensures ParseArea(input).Some? ==> NoOpenStored(ParseArea(input).value)
    ensures ParseArea(input).Some? ==> forall p :: ResourceAt(ParseArea(input).value, p) == CellAt(Lines(input), p)
  {
    var lines := Lines(input);
    RowsRead(lines, |lines|);
    assert lines[..|lines|] == lines;
  }

  /** Two areas that store no open ground and agree on every acre are
      equal. */
  lemma SameAcres(a: Area, b: Area)
    requires NoOpenStored(a) && NoOpenStored(b)
    requires forall p :: ResourceAt(a, p) == ResourceAt(b, p)
    ensures a == b
  {
    forall p
      ensures p in a.resources <==> p in b.resources
      ensures p in a.resources ==> a.resources[p] == b.resources[p]
    {
      assert ResourceAt(a, p) == ResourceAt(b, p);
    }
    assert a.resources == b.resources;
  }

  /** A row holds no line break. */
  lemma PlainRow(area: Area, y: int, x0: int, x1: int)
    ensures '\n' !in Row(area, y, x0, x1)
    ensures Row(area, y, x0, x1) == [] || Row(area, y, x0, x1)[|Row(area, y, x0, x1)| - 1] != '\r'
  {
  }

  /** The lines of an area's display are its rows. */
  lemma ShownLines(area: Area)
    requires InRange(area.resources.Keys)
    ensures Lines(Show(area)) == Rows(area, CornersOf(area).0, CornersOf(area).1.x, CornersOf(area).1.y)
  {
    var (tl, br) := CornersOf(area);
    var lines := Rows(area, tl, br.x, br.y);
    forall l <- lines
      ensures '\n' !in l && (l == [] || l[|l| - 1] != '\r')
    {
      var k :| 0 <= k < |lines| && lines[k] == l;
      PlainRow(area, tl.y + k, tl.x, br.x);
    }
    LinesOfTerminated(lines);
  }

  /** An area that stores no open ground and whose acres reach line 0 and
      column 0 is read back from its display. */
  lemma DisplayRoundTrip(area: Area)
    requires InRange(area.resources.Keys) && NoOpenStored(area)
    requires area.resources != map[] ==> CornersOf(area).0 == Position(0, 0)
    ensures ParseArea(Show(area)) == Some(area)
  {
    var (tl, br) := CornersOf(area);
    ShownLines(area);
    if area.resources == map[] {
      assert Rows(area, tl, br.x, br.y) == [];
    } else {
      var q :| q in area.resources;
      assert 0 <= q.x <= br.x && 0 <= q.y <= br.y;
      RowsReadBack(area, Show(area), br);
    }
  }

  /** The display of an area with corners `(0, 0)` and `br` reads back as
      the area. */
  lemma RowsReadBack(area: Area, text: string, br: Position)
    requires NoOpenStored(area) && 0 <= br.x <= MaxCoord && 0 <= br.y <= MaxCoord
    requires forall p <- area.resources :: InBox(p, Position(0, 0), br)
    requires Lines(text) == Rows(area, Position(0, 0), br.x, br.y)
    ensures ParseArea(text) == Some(area)
  {
    var lines := Lines(text);
    RowsFit(area, br);
    ParseReads(text);
    RowsReadable(area, br);
    var a := ParseArea(text).value;
    forall p
      ensures ResourceAt(a, p) == ResourceAt(area, p)
    {
      assert ResourceAt(a, p) == CellAt(lines, p);
      if 0 <= p.y < |lines| {
        assert lines[p.y] == Row(area, p.y, 0, br.x);
      }
      if 0 <= p.y < |lines| && 0 <= p.x <= br.x {
        RowAt(area, p.y, 0, br.x, p.x);
        assert lines[p.y][p.x] == Symbol(ResourceAt(area, Position(p.x, p.y)));
        ReadSymbol(ResourceAt(area, p));
      } else {
        assert CellAt(lines, p) == OpenGround;
        assert !InBox(p, Position(0, 0), br);
      }
    }
    SameAcres(a, area);
  }

  /** The rows of a box from `(0, 0)` to `br` fit the source's coordinates. */
  lemma RowsFit(area: Area, br: Position)
    requires 0 <= br.x <= MaxCoord && 0 <= br.y <= MaxCoord
    ensures Fits(Rows(area, Position(0, 0), br.x, br.y))
  {
    var lines := Rows(area, Position(0, 0), br.x, br.y);
    forall l <- lines
      ensures |l| <= MaxCoord + 1
    {
      var k :| 0 <= k < |lines| && lines[k] == l;
      assert lines[k] == Row(area, k, 0, br.x);
    }
  }

  /** The rows of a display hold no foreign character. */
  lemma RowsReadable(area: Area, br: Position)
    ensures var lines := Rows(area, Position(0, 0), br.x, br.y);
            forall y, x | 0 <= y < |lines| && 0 <= x < |lines[y]| :: !ReadGlyph(lines[y][x]).Foreign?
  {
    var lines := Rows(area, Position(0, 0), br.x, br.y);
    forall y, x | 0 <= y < |lines| && 0 <= x < |lines[y]|
      ensures !ReadGlyph(lines[y][x]).Foreign?
    {
      assert lines[y] == Row(area, y, 0, br.x);
    }
  }
}
