// Day 17: Reservoir Research. Clay veins are read from a scan; water falls
// from a spring, spreads over clay and settles, and the tiles it reaches
// and the tiles it fills are counted.
module Day17 {
  import opened Common

  // ---------------------------------------------------------------------
  // Tiles

  datatype Matter = Sand | Clay | Water | Drop

  /** A tile; `y` grows downward. */
  datatype Position = Position(x: int, y: int)

  /** `Coord` is a `u16`. */
  const MinCoord: int := 0
  const MaxCoord: int := 0xFFFF

  /** The default spring's column. */
  const SpringX: int := 500

  type Tiles = map<Position, Matter>

  /** `tiles.get(p).unwrap_or(&Sand)`: a tile not in the map is sand. */
  function MatterAt(tiles: Tiles, p: Position): Matter
  {
    if p in tiles then tiles[p] else Sand
  }

  /** Water reaches a tile it flows through or settles on. */
  predicate IsWet(m: Matter) { m == Water || m == Drop }

  /** `after` keeps every tile of `before`, and every tile it adds or
      changes holds water. */
  predicate Wets(before: Tiles, after: Tiles)
  {
    && before.Keys <= after.Keys
    && forall p <- after.Keys :: p !in before || after[p] != before[p] ==> IsWet(after[p])
  }

  lemma WetsTransitive(a: Tiles, b: Tiles, c: Tiles)
    requires Wets(a, b) && Wets(b, c)
    ensures Wets(a, c)
  {
  }

  // ---------------------------------------------------------------------
  // The area of the tiles

  /** Every position fits the source's `u16` coordinates. */
  predicate InRange(keys: set<Position>)
  {
    forall p <- keys :: MinCoord <= p.x <= MaxCoord && MinCoord <= p.y <= MaxCoord
  }

  /** `tl` and `br` are what `area_of_tiles` computes for `keys`: each
      coordinate starts at the far end of the `u16` range and is pulled to
      the least or greatest coordinate of a key. */
  predicate IsArea(keys: set<Position>, tl: Position, br: Position)
  {
    Encloses(keys, tl, br) && Attained(keys, tl, br)
  }

  /** Every key lies within the corners, and the corners within range. */
  predicate Encloses(keys: set<Position>, tl: Position, br: Position)
  {
    && (forall p <- keys :: tl.x <= p.x <= br.x && tl.y <= p.y <= br.y)
    && tl.x <= MaxCoord && tl.y <= MaxCoord && br.x >= MinCoord && br.y >= MinCoord
  }

  /** Each corner coordinate is a key's, or still the far end of the range. */
  predicate Attained(keys: set<Position>, tl: Position, br: Position)
  {
    && (tl.x == MaxCoord || exists p <- keys :: p.x == tl.x)
    && (tl.y == MaxCoord || exists p <- keys :: p.y == tl.y)
    && (br.x == MinCoord || exists p <- keys :: p.x == br.x)
    && (br.y == MinCoord || exists p <- keys :: p.y == br.y)
  }

  /** The area is determined by the keys. */
  lemma AreaUnique(keys: set<Position>, tl: Position, br: Position, tl': Position, br': Position)
    requires InRange(keys) && IsArea(keys, tl, br) && IsArea(keys, tl', br')
    ensures tl == tl' && br == br'
  {
  }

  /** An area exists for every set of keys in range. */
  lemma {:induction false} AreaExists(keys: set<Position>)
    requires InRange(keys)
    ensures exists tl, br :: IsArea(keys, tl, br)
    decreases |keys|
  {
    if keys == {} {
      assert IsArea(keys, Position(MaxCoord, MaxCoord), Position(MinCoord, MinCoord));
    } else {
      var p :| p in keys;
      AreaExists(keys - {p});
      var tl, br :| IsArea(keys - {p}, tl, br);
      WidenArea(keys - {p}, tl, br, p, Widen(tl, br, p).0, Widen(tl, br, p).1);
      assert keys - {p} + {p} == keys;
    }
  }

  /** The corners widened to take in `p`, as one pass of the loop does. */
  function Widen(tl: Position, br: Position, p: Position): (Position, Position)
  {
    (Position(if p.x < tl.x then p.x else tl.x, if p.y < tl.y then p.y else tl.y),
     Position(if p.x > br.x then p.x else br.x, if p.y > br.y then p.y else br.y))
  }

  lemma WidenArea(keys: set<Position>, tl: Position, br: Position, p: Position, tl': Position, br': Position)
    requires IsArea(keys, tl, br) && (tl', br') == Widen(tl, br, p)
    ensures IsArea(keys + {p}, tl', br')
  {
  }

  /** The area of a set of tiles. */
  ghost function AreaOf(keys: set<Position>): (c: (Position, Position))
    requires InRange(keys)
    ensures IsArea(keys, c.0, c.1)
  {
    AreaExists(keys);
    var tl, br :| IsArea(keys, tl, br);
    (tl, br)
  }

  /** One pass of the loop in `area_of_tiles`: each coordinate moves out to
      `p`'s when `p` lies beyond it. */
  method TakeIn(tl: Position, br: Position, p: Position) returns (tl': Position, br': Position)
    ensures (tl', br') == Widen(tl, br, p)
  {
    tl', br' := tl, br;
    if p.x < tl'.x {
      tl' := tl'.(x := p.x);
    }
    if p.y < tl'.y {
      tl' := tl'.(y := p.y);
    }
    if p.x > br'.x {
      br' := br'.(x := p.x);
    }
    if p.y > br'.y {
      br' := br'.(y := p.y);
    }
  }

  /** `area_of_tiles`: the least and greatest coordinates over the tiles,
      `Position::MAX` and `Position::MIN` when there are none. */
  method AreaOfTiles(keys: set<Position>) returns (tl: Position, br: Position)
    requires InRange(keys)
    ensures (tl, br) == AreaOf(keys)
  {
    tl, br := Position(MaxCoord, MaxCoord), Position(MinCoord, MinCoord);
    var todo := keys;
    ghost var done: set<Position> := {};
    while todo != {}
      invariant done + todo == keys && done !! todo
      invariant IsArea(done, tl, br)
      decreases |todo|
    {
      var p :| p in todo;
      ghost var (tl0, br0) := (tl, br);
      tl, br := TakeIn(tl, br, p);
      WidenArea(done, tl0, br0, p, tl, br);
      todo := todo - {p};
      done := done + {p};
    }
    AreaUnique(keys, tl, br, AreaOf(keys).0, AreaOf(keys).1);
  }

  // ---------------------------------------------------------------------
  // One drop of water

  /** Where a drop is headed: straight down, or outward along its row
      towards the columns `left` and `right`. */
  datatype Drops = Down | LeftRight(left: int, right: int)

  /** A drop at a position. */
  type Flowing = (Position, Drops)

  /** The tiles and the drops still moving. */
  datatype Course = Course(tiles: Tiles, water: seq<Flowing>)

  /** What one drop does in one pass of `WaterCourse::next`: the tiles it
      writes and the drops it passes on to the next pass. */
  function Flow(maxY: int, tiles: Tiles, drop: Flowing): (Tiles, seq<Flowing>)
  {
    var c := drop.0;
    match drop.1
    case Down =>
      var below := Position(c.x, c.y + 1);
      (match MatterAt(tiles, below)
       case Sand => (tiles[c := Drop], if below.y <= maxY then [(below, Down)] else [])
       case Clay => (tiles[c := Water], [(c, LeftRight(c.x - 1, c.x + 1))])
       case Water =>
         var t := tiles[c := Drop];
         (t, if MatterAt(t, Position(below.x, below.y + 1)) != Drop
             then [(below, LeftRight(below.x - 1, below.x + 1))] else [])
       case Drop => (tiles, []))
    case LeftRight(lx, rx) =>
      var left, right := Position(lx, c.y), Position(rx, c.y);
      var belowLeft, belowRight := Position(left.x, c.y + 1), Position(right.x, c.y + 1);
      match (MatterAt(tiles, left), MatterAt(tiles, right))
      case (Sand, Sand) | (Sand, Drop) | (Drop, Sand) | (Drop, Drop) =>
        (match (MatterAt(tiles, belowLeft), MatterAt(tiles, belowRight))
         case (Drop, Drop) | (Sand, Drop) | (Drop, Sand) => (tiles, [])
         case (Sand, Sand) =>
           (tiles[left := Water][right := Water], [(belowLeft, Down), (belowRight, Down)])
         case (Sand, _) => (tiles[right := Water], [(c, LeftRight(left.x, right.x + 1))])
         case (_, Sand) => (tiles[left := Water], [(c, LeftRight(left.x - 1, right.x))])
         case (_, _) =>
           (tiles[left := Water][right := Water], [(c, LeftRight(left.x - 1, right.x + 1))]))
      case (Sand, _) | (Drop, _) =>
        var t := tiles[left := Water];
        (match MatterAt(t, belowLeft)
         case Drop => (t, [])
         case Sand => (t, [(belowLeft, Down)])
         case Water | Clay => (t, [(c, LeftRight(left.x - 1, right.x))]))
      case (_, Sand) | (_, Drop) =>
        var t := tiles[right := Water];
        (match MatterAt(t, belowRight)
         case Drop => (t, [])
         case Sand => (t, [(belowRight, Down)])
         case Water | Clay => (t, [(c, LeftRight(left.x, right.x + 1))]))
      case (Water, _) =>
        (match MatterAt(tiles, belowLeft)
         case Drop | Sand => (tiles, [])
         case Water | Clay => (tiles, [(c, LeftRight(left.x - 1, right.x))]))
      case (_, Water) =>
        (match MatterAt(tiles, belowRight)
         case Drop | Sand => (tiles, [])
         case Water | Clay => (tiles, [(c, LeftRight(left.x, right.x + 1))]))
      case (Clay, Clay) =>
        var above := Position(c.x, c.y - 1);
        (tiles[above := Water], [(above, LeftRight(c.x - 1, c.x + 1))])
  }

  /** A drop only ever writes water, never removes a tile, touches only its
      own row and the row above, and passes on at most two drops. */
  lemma FlowWets(maxY: int, tiles: Tiles, drop: Flowing)
    ensures var r := Flow(maxY, tiles, drop);
            && Wets(tiles, r.0)
            && |r.1| <= 2
            && forall p <- r.0.Keys :: p !in tiles || r.0[p] != tiles[p] ==> drop.0.y - 1 <= p.y <= drop.0.y
  {
    match drop.1
    case Down =>
    case LeftRight(_, _) =>
  }

  /** The rules for a falling drop: it writes only its own tile, and what it
      writes and where it goes depend on the tile below it. */
  lemma DownRules(maxY: int, tiles: Tiles, c: Position)
    ensures var below := Position(c.x, c.y + 1);
            var r := Flow(maxY, tiles, (c, Down));
            && (forall p | p != c :: MatterAt(r.0, p) == MatterAt(tiles, p))
            // Onto a falling drop it merges and nothing changes; otherwise
            // it settles as water on clay and is a falling drop elsewhere.
            && (MatterAt(tiles, below) == Drop ==> r == (tiles, []))
            && (MatterAt(tiles, below) != Drop ==>
                  c in r.0 && IsWet(r.0[c]) && (r.0[c] == Water <==> MatterAt(tiles, below) == Clay))
            // It keeps falling through sand down to the lowest scanned row.
            && (r.1 == [(below, Down)] <==> MatterAt(tiles, below) == Sand && below.y <= maxY)
            // It spreads sideways on clay, and on water unless that water
            // is itself falling further.
            && (r.1 == [(c, LeftRight(c.x - 1, c.x + 1))] <==> MatterAt(tiles, below) == Clay)
            && (r.1 == [(below, LeftRight(c.x - 1, c.x + 1))] <==>
                  MatterAt(tiles, below) == Water && MatterAt(tiles, Position(c.x, c.y + 2)) != Drop)
  {
  }

  // ---------------------------------------------------------------------
  // Passes
  //
  // The passes are stated over any rule for one drop; the water course's
  // rule is `Flow` with its lowest row, and `IsFlow` ties a rule to it.

  type Rule = (Tiles, Flowing) -> (Tiles, seq<Flowing>)

  /** `rule` is `Flow` with lowest row `maxY`. */
  ghost predicate IsFlow(rule: Rule, maxY: int)
  {
    forall t, d {:trigger Flow(maxY, t, d)} :: rule(t, d) == Flow(maxY, t, d)
  }

  /** `rule` only ever adds water. */
  ghost predicate Wetting(rule: Rule)
  {
    forall t, d :: Wets(t, rule(t, d).0)
  }

  /** The water course's rule for one drop. */
  ghost function FlowOf(maxY: int): Rule
  {
    (t, d) => Flow(maxY, t, d)
  }

  lemma FlowOfIs(maxY: int)
    ensures IsFlow(FlowOf(maxY), maxY) && Wetting(FlowOf(maxY))
  {
    forall t, d
      ensures Wets(t, FlowOf(maxY)(t, d).0)
    {
      FlowWets(maxY, t, d);
    }
  }

  /** One pass of `WaterCourse::next`: the drops of `water` flow one after
      the other, each seeing the tiles the ones before it wrote; the drops
      they pass on are collected in order. */
  ghost function Pass(rule: Rule, tiles: Tiles, water: seq<Flowing>): Course
    decreases |water|
  {
    if water == [] then Course(tiles, [])
    else
      var before := Pass(rule, tiles, water[..|water| - 1]);
      var (t, d) := rule(before.tiles, water[|water| - 1]);
      Course(t, before.water + d)
  }

  /** A pass only adds water. */
  lemma {:induction false} PassWets(rule: Rule, tiles: Tiles, water: seq<Flowing>)
    requires Wetting(rule)
    ensures Wets(tiles, Pass(rule, tiles, water).tiles)
    decreases |water|
  {
    if water != [] {
      var before := Pass(rule, tiles, water[..|water| - 1]);
      PassWets(rule, tiles, water[..|water| - 1]);
      WetsTransitive(tiles, before.tiles, Pass(rule, tiles, water).tiles);
    }
  }

  /** What one call of `next` leaves, and whether it answered `Some`. */
  datatype Stepped = Stepped(course: Course, more: bool)

  /** `next` from `c`, allowed `fuel` more passes after the first: a pass
      that drains every drop answers `None`, one that adds a tile answers
      `Some`, and one that adds none (it may still change tiles) runs again.
      `None` here means the fuel ran out. */
  ghost function Resteps(rule: Rule, c: Course, fuel: nat): Option<Stepped>
    decreases fuel
  {
    var after := Pass(rule, c.tiles, c.water);
    if after.water == [] then Some(Stepped(after, false))
    else if |after.tiles| == |c.tiles| then
      if fuel == 0 then None else Resteps(rule, after, fuel - 1)
    else Some(Stepped(after, true))
  }

  /** `next` only adds water; it answers `Some` exactly when drops remain,
      and then it has added a tile. */
  lemma {:induction false} RestepsWets(rule: Rule, c: Course, fuel: nat)
    requires Wetting(rule)
    ensures var r := Resteps(rule, c, fuel);
            && (r.Some? ==> Wets(c.tiles, r.value.course.tiles))
            && (r.Some? ==> (r.value.more <==> r.value.course.water != []))
            && (r.Some? && r.value.more ==> |c.tiles| < |r.value.course.tiles|)
    decreases fuel
  {
    var after := Pass(rule, c.tiles, c.water);
    PassWets(rule, c.tiles, c.water);
    SubsetCard(c.tiles.Keys, after.tiles.Keys);
    if after.water != [] && |after.tiles| == |c.tiles| && fuel > 0 {
      RestepsWets(rule, after, fuel - 1);
      var r := Resteps(rule, after, fuel - 1);
      if r.Some? {
        WetsTransitive(c.tiles, after.tiles, r.value.course.tiles);
      }
    }
  }

  /** More fuel changes nothing once the passes have settled. */
  lemma {:induction false} RestepsStable(rule: Rule, c: Course, fuel: nat, fuel': nat)
    requires Resteps(rule, c, fuel).Some? && fuel <= fuel'
    ensures Resteps(rule, c, fuel') == Resteps(rule, c, fuel)
    decreases fuel
  {
    var after := Pass(rule, c.tiles, c.water);
    if after.water != [] && |after.tiles| == |c.tiles| {
      RestepsStable(rule, after, fuel - 1, fuel' - 1);
    }
  }

  /** `next` returns: its passes stop re-running. */
  ghost predicate Settles(rule: Rule, c: Course)
  {
    exists fuel: nat :: Resteps(rule, c, fuel).Some?
  }

  /** What `next` leaves when it returns. */
  ghost function Settled(rule: Rule, c: Course): Stepped
    requires Settles(rule, c)
  {
    var fuel: nat :| Resteps(rule, c, fuel).Some?;
    Resteps(rule, c, fuel).value
  }

  /** Whatever fuel settles the passes gives what `next` leaves. */
  lemma SettledIs(rule: Rule, c: Course, fuel: nat)
    requires Resteps(rule, c, fuel).Some?
    ensures Settles(rule, c) && Resteps(rule, c, fuel) == Some(Settled(rule, c))
  {
    var fuel': nat :| Resteps(rule, c, fuel').Some? && Some(Settled(rule, c)) == Resteps(rule, c, fuel');
    if fuel <= fuel' {
      RestepsStable(rule, c, fuel, fuel');
    } else {
      RestepsStable(rule, c, fuel', fuel);
    }
  }

  /** What `next` leaves has only added water; `next` answers `Some`
      exactly when drops remain, and then it has added a tile. */
  lemma SettledWets(rule: Rule, c: Course)
    requires Wetting(rule) && Settles(rule, c)
    ensures var s := Settled(rule, c);
            && Wets(c.tiles, s.course.tiles)
            && (s.more <==> s.course.water != [])
            && (s.more ==> |c.tiles| < |s.course.tiles|)
  {
    var fuel: nat :| Resteps(rule, c, fuel).Some?;
    RestepsWets(rule, c, fuel);
    SettledIs(rule, c, fuel);
  }

  // ---------------------------------------------------------------------
  // The water course

  /** `WaterCourse`: the scanned tiles with the water written into them,
      the drops still moving, the spring and the lowest scanned row. */
  class WaterCourse {
    const maxY: int
    const spring: Position
    var tiles: Tiles
    var water: seq<Flowing>
    /** The rule the water follows, `Flow` with this lowest row. */
    ghost const rule: Rule

    function State(): Course
      reads this
    {
      Course(tiles, water)
    }

    /** `WaterCourse::new`: one drop falls from just below the spring. */
    constructor (tiles: Tiles, spring: Position, maxY: int)
      ensures this.maxY == maxY && this.spring == spring && this.tiles == tiles
      ensures water == [(Position(spring.x, spring.y + 1), Down)]
      ensures IsFlow(rule, maxY) && Wetting(rule)
    {
      this.maxY := maxY;
      this.spring := spring;
      this.tiles := tiles;
      this.water := [(Position(spring.x, spring.y + 1), Down)];
      this.rule := FlowOf(maxY);
      FlowOfIs(maxY);
    }

    /** `Iterator::next`: drain the drops, let each flow, and keep the drops
        they pass on. `None` (`false`) once no drop is left; a pass that adds
        no tile runs again before answering. */
    method Next() returns (more: bool)
      requires IsFlow(rule, maxY) && Wetting(rule) && Settles(rule, State())
      modifies this
      ensures Stepped(State(), more) == Settled(rule, old(State()))
      ensures Wets(old(tiles), tiles) && |old(tiles)| <= |tiles|
      ensures more <==> water != []
      ensures more ==> |old(tiles)| < |tiles|
    {
      ghost var target := Settled(rule, State());
      ghost var fuel: nat :| Resteps(rule, State(), fuel).Some?;
      SettledIs(rule, State(), fuel);
      SettledWets(rule, State());
      SubsetCard(tiles.Keys, target.course.tiles.Keys);
      while true
        invariant Resteps(rule, State(), fuel) == Some(target)
        decreases fuel
      {
        var before := |tiles|;
        ghost var start := State();
        Drain();
        if water == [] {
          return false;
        } else if |tiles| == before {
          fuel := fuel - 1;
        } else {
          return true;
        }
      }
    }

    /** The body of `next` up to its answer: every drop drained from
        `water` flows in turn, and the drops they pass on replace them. */
    method Drain()
      requires IsFlow(rule, maxY)
      modifies this
      ensures State() == Pass(rule, old(tiles), old(water))
    {
      var drained := water;
      water := [];
      var nextDrops: seq<Flowing> := [];
      ghost var tiles0 := tiles;
      for i := 0 to |drained|
        invariant Course(tiles, nextDrops) == Pass(rule, tiles0, drained[..i])
        invariant water == []
      {
        assert drained[..i + 1][..i] == drained[..i];
        var (t, d) := Flow(maxY, tiles, drained[i]);
        tiles := t;
        nextDrops := nextDrops + d;
      }
      assert drained[..|drained|] == drained;
      water := water + nextDrops;
    }
  }

  // ---------------------------------------------------------------------
  // Walking the water course to its end

  /** The state after calling `next` until it answers `None`, with at most
      `k` calls answering `Some` first; `None` when `next` itself does not
      return or the calls run out. */
  ghost function Walk(rule: Rule, c: Course, k: nat): Option<Course>
    decreases k
  {
    if !Settles(rule, c) then None
    else
      var s := Settled(rule, c);
      if !s.more then Some(s.course)
      else if k == 0 then None
      else Walk(rule, s.course, k - 1)
  }

  /** A walk that ends has only added water, and leaves no drop moving. */
  lemma {:induction false} WalkWets(rule: Rule, c: Course, k: nat)
    requires Wetting(rule) && Walk(rule, c, k).Some?
    ensures Wets(c.tiles, Walk(rule, c, k).value.tiles) && Walk(rule, c, k).value.water == []
    decreases k
  {
    var s := Settled(rule, c);
    SettledWets(rule, c);
    if s.more {
      WalkWets(rule, s.course, k - 1);
      WetsTransitive(c.tiles, s.course.tiles, Walk(rule, c, k).value.tiles);
    }
  }

  lemma {:induction false} WalkStable(rule: Rule, c: Course, k: nat, k': nat)
    requires Walk(rule, c, k).Some? && k <= k'
    ensures Walk(rule, c, k') == Walk(rule, c, k)
    decreases k
  {
    if Settled(rule, c).more {
      WalkStable(rule, Settled(rule, c).course, k - 1, k' - 1);
    }
  }

  /** The water course runs dry: `next` eventually answers `None`. */
  ghost predicate RunsDry(rule: Rule, c: Course)
  {
    exists k: nat :: Walk(rule, c, k).Some?
  }

  /** The tiles once the water course has run dry. */
  ghost function Final(rule: Rule, c: Course): Course
    requires RunsDry(rule, c)
  {
    var k: nat :| Walk(rule, c, k).Some?;
    Walk(rule, c, k).value
  }

  lemma FinalIs(rule: Rule, c: Course, k: nat)
    requires Walk(rule, c, k).Some?
    ensures RunsDry(rule, c) && Walk(rule, c, k) == Some(Final(rule, c))
  {
    var k': nat :| Walk(rule, c, k').Some? && Some(Final(rule, c)) == Walk(rule, c, k');
    if k <= k' {
      WalkStable(rule, c, k, k');
    } else {
      WalkStable(rule, c, k', k);
    }
  }

  // ---------------------------------------------------------------------
  // Rules that agree

  /** Two rules that agree on every drop. */
  ghost predicate Agree(rule: Rule, rule': Rule)
  {
    forall t, d :: rule(t, d) == rule'(t, d)
  }

  lemma {:induction false} PassAgree(rule: Rule, rule': Rule, tiles: Tiles, water: seq<Flowing>)
    requires Agree(rule, rule')
    ensures Pass(rule, tiles, water) == Pass(rule', tiles, water)
    decreases |water|
  {
    if water != [] {
      PassAgree(rule, rule', tiles, water[..|water| - 1]);
    }
  }

  lemma {:induction false} RestepsAgree(rule: Rule, rule': Rule, c: Course, fuel: nat)
    requires Agree(rule, rule')
    ensures Resteps(rule, c, fuel) == Resteps(rule', c, fuel)
    decreases fuel
  {
    PassAgree(rule, rule', c.tiles, c.water);
    if fuel > 0 {
      RestepsAgree(rule, rule', Pass(rule, c.tiles, c.water), fuel - 1);
    }
  }

  lemma SettledAgree(rule: Rule, rule': Rule, c: Course)
    requires Agree(rule, rule')
    ensures Settles(rule, c) <==> Settles(rule', c)
    ensures Settles(rule, c) ==> Settled(rule, c) == Settled(rule', c)
  {
    if Settles(rule, c) {
      var fuel: nat :| Resteps(rule, c, fuel).Some?;
      RestepsAgree(rule, rule', c, fuel);
      SettledIs(rule, c, fuel);
      SettledIs(rule', c, fuel);
    }
    if Settles(rule', c) {
      var fuel: nat :| Resteps(rule', c, fuel).Some?;
      RestepsAgree(rule, rule', c, fuel);
    }
  }

  lemma {:induction false} WalkAgree(rule: Rule, rule': Rule, c: Course, k: nat)
    requires Agree(rule, rule')
    ensures Walk(rule, c, k) == Walk(rule', c, k)
    decreases k
  {
    SettledAgree(rule, rule', c);
    if Settles(rule, c) && k > 0 {
      WalkAgree(rule, rule', Settled(rule, c).course, k - 1);
    }
  }

  /** Every rule that is `Flow` walks the course as `FlowOf` does. */
  lemma FinalAgree(rule: Rule, maxY: int, c: Course)
    requires IsFlow(rule, maxY)
    ensures RunsDry(rule, c) <==> RunsDry(FlowOf(maxY), c)
    ensures RunsDry(rule, c) ==> Final(rule, c) == Final(FlowOf(maxY), c)
  {
    forall t, d
      ensures rule(t, d) == FlowOf(maxY)(t, d)
    {
      assert FlowOf(maxY)(t, d) == Flow(maxY, t, d);
    }
    if RunsDry(rule, c) {
      var k: nat :| Walk(rule, c, k).Some?;
      WalkAgree(rule, FlowOf(maxY), c, k);
      FinalIs(rule, c, k);
      FinalIs(FlowOf(maxY), c, k);
    }
    if RunsDry(FlowOf(maxY), c) {
      var k: nat :| Walk(FlowOf(maxY), c, k).Some?;
      WalkAgree(rule, FlowOf(maxY), c, k);
    }
  }

  // ---------------------------------------------------------------------
  // The solvers

  /** Where the solvers start: one drop at the default spring's column, on
      the least scanned row, since the spring is placed one row above it. */
  ghost function Start(scan: Tiles): Course
    requires InRange(scan.Keys)
  {
    Course(scan, [(Position(SpringX, AreaOf(scan.Keys).0.y), Down)])
  }

  /** The rule of the solvers' water course: the lowest scanned row bounds
      the fall. */
  ghost function ScanRule(scan: Tiles): Rule
    requires InRange(scan.Keys)
  {
    FlowOf(AreaOf(scan.Keys).1.y)
  }

  /** The walk of both solvers: the spring one row above the scan's least
      row, then `next` until it answers `None`. */
  method WalkWaterCourse(scan: Tiles) returns (course: WaterCourse)
    requires InRange(scan.Keys) && RunsDry(ScanRule(scan), Start(scan))
    ensures course.spring == Position(SpringX, AreaOf(scan.Keys).0.y - 1)
    ensures course.State() == Final(ScanRule(scan), Start(scan))
  {
    var topLeft, bottomRight := AreaOfTiles(scan.Keys);
    var spring := Position(SpringX, topLeft.y - 1);
    course := new WaterCourse(scan, spring, bottomRight.y);
    FinalAgree(course.rule, course.maxY, course.State());
    RunDry(course);
  }

  /** `while let Some(_) = water_walker.next() {}`: call `next` until it
      answers `None`. */
  method RunDry(course: WaterCourse)
    requires IsFlow(course.rule, course.maxY) && Wetting(course.rule)
    requires RunsDry(course.rule, course.State())
    modifies course
    ensures course.State() == Final(course.rule, old(course.State()))
  {
    ghost var rule := course.rule;
    ghost var k: nat :| Walk(rule, course.State(), k).Some?;
    FinalIs(rule, course.State(), k);
    ghost var final := Final(rule, course.State());
    WalkStep(rule, course.State(), k, final);
    var more := course.Next();
    while more
      invariant more ==> k >= 1 && Walk(rule, course.State(), k - 1) == Some(final)
      invariant !more ==> course.State() == final
      decreases k
    {
      k := k - 1;
      WalkStep(rule, course.State(), k, final);
      more := course.Next();
    }
  }

  /** One call of `next` on a walk that ends: `next` returns, and either
      answers `None` on the final state or leaves a shorter walk to it. */
  lemma WalkStep(rule: Rule, c: Course, k: nat, final: Course)
    requires Walk(rule, c, k) == Some(final)
    ensures Settles(rule, c)
    ensures var s := Settled(rule, c);
            if s.more then k >= 1 && Walk(rule, s.course, k - 1) == Some(final)
            else s.course == final
  {
  }

  /** The tiles water reaches, falling or settled. */
  function Reached(tiles: Tiles): (r: set<Position>)
    ensures forall p <- r :: p in tiles && IsWet(tiles[p])
    ensures forall p <- tiles.Keys :: IsWet(tiles[p]) ==> p in r
  {
    set p <- tiles.Keys | IsWet(tiles[p])
  }

  /** The tiles holding settled water. */
  function Retained(tiles: Tiles): (r: set<Position>)
    ensures forall p <- r :: p in tiles && tiles[p] == Water
    ensures forall p <- tiles.Keys :: tiles[p] == Water ==> p in r
  {
    set p <- tiles.Keys | tiles[p] == Water
  }

  /** Part 1, `num_tiles_flooded_by_water`: the tiles holding water, falling
      or settled, once the spring's water course has run. */
  method NumTilesFloodedByWater(scan: Tiles) returns (n: nat)
    requires InRange(scan.Keys) && RunsDry(ScanRule(scan), Start(scan))
    ensures n == |Reached(Final(ScanRule(scan), Start(scan)).tiles)|
  {
    var course := WalkWaterCourse(scan);
    n := |Reached(course.tiles)|;
  }

  /** Part 2, `num_tiles_flooded_by_water_after_spring_has_run_dry`: the
      tiles holding settled water. */
  method NumTilesRetained(scan: Tiles) returns (n: nat)
    requires InRange(scan.Keys) && RunsDry(ScanRule(scan), Start(scan))
    ensures n == |Retained(Final(ScanRule(scan), Start(scan)).tiles)|
  {
    var course := WalkWaterCourse(scan);
    n := |Retained(course.tiles)|;
  }

  /** The water retained is part of the water that reached a tile, and the
      water course only adds water to the scan: it keeps every scanned
      tile, and every tile it adds or changes holds water. */
  lemma RetainedWithinReached(scan: Tiles)
    requires InRange(scan.Keys) && RunsDry(ScanRule(scan), Start(scan))
    ensures var t := Final(ScanRule(scan), Start(scan)).tiles;
            && |Retained(t)| <= |Reached(t)|
            && scan.Keys <= t.Keys
            && forall p <- t.Keys :: p !in scan || t[p] != scan[p] ==> p in Reached(t)
  {
    var rule := ScanRule(scan);
    var t := Final(rule, Start(scan)).tiles;
    FlowOfIs(AreaOf(scan.Keys).1.y);
    var k: nat :| Walk(rule, Start(scan), k).Some?;
    WalkWets(rule, Start(scan), k);
    FinalIs(rule, Start(scan), k);
    SubsetCard(Retained(t), Reached(t));
  }

  // ---------------------------------------------------------------------
  // Parsing the scan

  /** Which bound the digits being read are for. */
  datatype Param = XMin | XMax | YMin | YMax

  /** The state of `parse` within one line: the bound the digits are for,
      the digits read so far and the four bounds. */
  datatype Reader = Reader(param: Param, value: string, xMin: int, xMax: int, yMin: int, yMax: int)

  /** The state at the start of every line. */
  const Fresh: Reader := Reader(XMin, "", 0, 0, 0, 0)

  /** The closure `save_value` followed by `value.clear()`: a minimum sets
      both bounds of its axis, a maximum only its own; `None` where the
      `u16` parse panics. */
  function Save(rd: Reader): (r: Option<Reader>)
    ensures AllDigits(rd.value) ==> (r.Some? <==> rd.value != [] && DigitsValue(rd.value) <= U16_MAX)
    ensures r.Some? ==> r.value.value == [] && r.value.param == rd.param
  {
    assert rd.value != [] ==> rd.value[0] in rd.value;
    match ParseInt(rd.value, 0, U16_MAX)
    case None => None
    case Some(n) =>
      Some(match rd.param
        case XMin => rd.(xMin := n, xMax := n, value := "")
        case XMax => rd.(xMax := n, value := "")
        case YMin => rd.(yMin := n, yMax := n, value := "")
        case YMax => rd.(yMax := n, value := ""))
  }

  /** Save the value read so far, if any. */
  function SaveAny(rd: Reader): Option<Reader>
  {
    if rd.value != [] then Save(rd) else Some(rd)
  }

  /** What one character of a line does; `None` where `parse` panics. */
  function ReadChar(rd: Reader, c: char): Option<Reader>
  {
    if c == 'x' then Some(rd.(param := XMin))
    else if c == 'y' then Some(rd.(param := YMin))
    else if c == '.' then
      match SaveAny(rd)
      case None => None
      case Some(s) => Some(s.(param := if s.param == XMin then XMax else if s.param == YMin then YMax else s.param))
    else if c == ',' then SaveAny(rd)
    else if c == '=' then Some(rd)
    else if IsDigit(c) then Some(rd.(value := rd.value + [c]))
    else if IsWhitespace(c) then Some(rd)
    else None
  }

  /** The characters of `s` read one after the other from `rd`. */
  function ReadFrom(rd: Reader, s: string): Option<Reader>
    decreases |s|
  {
    if s == [] then Some(rd)
    else
      match ReadChar(rd, s[0])
      case None => None
      case Some(r) => ReadFrom(r, s[1..])
  }

  /** The tiles `x0..=x1` by `y0..=y1`; none when a range is empty. */
  function Rect(x0: int, x1: int, y0: int, y1: int): set<Position>
  {
    set x: int, y: int | x0 <= x <= x1 && y0 <= y <= y1 :: Position(x, y)
  }

  /** The clay one line of the scan adds: the tiles between its bounds
      when it ends in a value, none when it does not; `None` where
      `parse` panics. */
  function LineClay(line: string): Option<set<Position>>
  {
    match ReadFrom(Fresh, line)
    case None => None
    case Some(rd) =>
      if rd.value == [] then Some({})
      else
        match Save(rd)
        case None => None
        case Some(s) => Some(Rect(s.xMin, s.xMax, s.yMin, s.yMax))
  }

  /** The clay of the first `k` lines, each read by `clay`: `None` as soon
      as a line panics, otherwise every tile some line adds. */
  function ScanLines(clay: string -> Option<set<Position>>, lines: seq<string>, k: nat): Option<set<Position>>
    requires k <= |lines|
  {
    if k == 0 then Some({})
    else
      match ScanLines(clay, lines, k - 1)
      case None => None
      case Some(t) =>
        match clay(lines[k - 1])
        case None => None
        case Some(r) => Some(t + r)
  }

  /** The scan reads exactly when every line does, and its clay is every
      tile some line adds. */
  lemma {:induction false} ScanReads(clay: string -> Option<set<Position>>, lines: seq<string>, k: nat)
    requires k <= |lines|
    ensures var r := ScanLines(clay, lines, k);
            && (r.Some? <==> forall i | 0 <= i < k :: clay(lines[i]).Some?)
            && (r.Some? ==> forall p :: p in r.value <==>
                  exists i | 0 <= i < k :: clay(lines[i]).Some? && p in clay(lines[i]).value)
  {
    if k > 0 {
      ScanReads(clay, lines, k - 1);
    }
  }

  /** The clay tiles of a scan. */
  function ParseScan(input: string): Option<set<Position>>
  {
    ScanLines(LineClay, Lines(input), |Lines(input)|)
  }

  /** The map `parse` builds: clay on every tile of the set. */
  function ClayTiles(s: set<Position>): (t: Tiles)
    ensures t.Keys == s && forall p <- t.Keys :: t[p] == Clay
  {
    map p | p in s :: Clay
  }

  /** Reading `s + t` reads `s`, then `t` from where `s` left off; a
      character of `s` that panics leaves `t` unread. */
  lemma {:induction false} ReadThen(rd: Reader, s: string, t: string)
    ensures ReadFrom(rd, s + t) ==
              match ReadFrom(rd, s) case None => None case Some(mid) => ReadFrom(mid, t)
    decreases |s|
  {
    if s == [] {
      assert s + t == t;
    } else {
      assert (s + t)[0] == s[0] && (s + t)[1..] == s[1..] + t;
      match ReadChar(rd, s[0])
      case None =>
      case Some(r) => ReadThen(r, s[1..], t);
    }
  }

  /** One more character of a line. */
  lemma ReadNext(rd: Reader, line: string, j: nat)
    requires j < |line|
    ensures ReadFrom(rd, line[..j + 1]) ==
              match ReadFrom(rd, line[..j]) case None => None case Some(mid) => ReadChar(mid, line[j])
  {
    assert line[..j + 1] == line[..j] + [line[j]];
    ReadThen(rd, line[..j], [line[j]]);
  }

  /** A line that panics stops the scan. */
  lemma {:induction false} ScanStuck(lines: seq<string>, k: nat)
    requires k < |lines| && LineClay(lines[k]).None?
    ensures ScanLines(LineClay, lines, |lines|).None?
  {
    ScanReads(LineClay, lines, |lines|);
  }

  /** Adding a tile to the map adds it to the set. */
  lemma ClayAdd(s: set<Position>, p: Position)
    ensures ClayTiles(s)[p := Clay] == ClayTiles(s + {p})
  {
  }

  /** `parse`: each line read character by character; at its end, when a
      value is left, the tiles between its bounds become clay. `None`
      where `parse` panics. */
  method Parse(input: string) returns (r: Option<Tiles>)
    ensures r.None? <==> ParseScan(input).None?
    ensures r.Some? ==> r.value == ClayTiles(ParseScan(input).value)
  {
    var clayTiles: Tiles := map[];
    var lines := Lines(input);
    for i := 0 to |lines|
      invariant ScanLines(LineClay, lines, i).Some?
      invariant clayTiles == ClayTiles(ScanLines(LineClay, lines, i).value)
    {
      ghost var before := ScanLines(LineClay, lines, i).value;
      var next := ParseLine(clayTiles, lines[i]);
      if next.None? {
        ScanStuck(lines, i);
        return None;
      }
      clayTiles := next.value;
      OverlayClay(before, LineClay(lines[i]).value);
    }
    r := Some(clayTiles);
  }

  /** The body of the loop over the lines: the line read character by
      character, then the clay between its bounds added to `tiles`. */
  method ParseLine(tiles: Tiles, line: string) returns (r: Option<Tiles>)
    ensures r.None? <==> LineClay(line).None?
    ensures r.Some? ==> r.value == Overlay(tiles, LineClay(line).value)
  {
    var rd := Fresh;
    for j := 0 to |line|
      invariant ReadFrom(Fresh, line[..j]) == Some(rd)
    {
      ReadNext(Fresh, line, j);
      var next := Read(rd, line[j]);
      if next.None? {
        assert line == line[..j + 1] + line[j + 1..];
        ReadThen(Fresh, line[..j + 1], line[j + 1..]);
        return None;
      }
      rd := next.value;
    }
    assert line[..|line|] == line;
    if rd.value != [] {
      var saved := Save(rd);
      if saved.None? {
        return None;
      }
      rd := saved.value;
      var filled := FillClay(tiles, rd.xMin, rd.xMax, rd.yMin, rd.yMax);
      return Some(filled);
    }
    assert Overlay(tiles, {}) == tiles;
    r := Some(tiles);
  }

  /** The body of the loop over a line's characters; `None` where
      `parse` panics. */
  method Read(rd: Reader, chr: char) returns (r: Option<Reader>)
    ensures r == ReadChar(rd, chr)
  {
    var next := rd;
    if chr == 'x' {
      next := next.(param := XMin);
    } else if chr == 'y' {
      next := next.(param := YMin);
    } else if chr == '.' {
      if next.value != [] {
        var saved := Save(next);
        if saved.None? {
          return None;
        }
        next := saved.value;
      }
      next := next.(param := if next.param == XMin then XMax else if next.param == YMin then YMax else next.param);
    } else if chr == ',' {
      if next.value != [] {
        var saved := Save(next);
        if saved.None? {
          return None;
        }
        next := saved.value;
      }
    } else if chr == '=' {
    } else if IsDigit(chr) {
      next := next.(value := next.value + [chr]);
    } else if IsWhitespace(chr) {
    } else {
      return None;
    }
    r := Some(next);
  }

  /** `tiles` with clay on every tile of `s`. */
  function Overlay(tiles: Tiles, s: set<Position>): Tiles
  {
    map p | p in tiles.Keys + s :: if p in s then Clay else tiles[p]
  }

  lemma OverlayAdd(tiles: Tiles, s: set<Position>, p: Position)
    ensures Overlay(tiles, s)[p := Clay] == Overlay(tiles, s + {p})
  {
  }

  lemma OverlayClay(s: set<Position>, s': set<Position>)
    ensures Overlay(ClayTiles(s), s') == ClayTiles(s + s')
  {
  }

  /** A row of tiles grows by one at its right end. */
  lemma RowGrows(x0: int, x: int, y: int)
    requires x0 <= x
    ensures Rect(x0, x - 1, y, y) + {Position(x, y)} == Rect(x0, x, y, y)
  {
  }

  /** A rectangle grows by a full row at its bottom. */
  lemma RectGrows(x0: int, x1: int, y0: int, y: int)
    requires y0 <= y
    ensures Rect(x0, x1, y0, y - 1) + Rect(x0, x1, y, y) == Rect(x0, x1, y0, y)
  {
  }

  /** The two loops `for y in y_min..=y_max { for x in x_min..=x_max { .. } }`
      at the end of a line: every tile between the bounds becomes clay. */
  method FillClay(tiles: Tiles, x0: int, x1: int, y0: int, y1: int) returns (r: Tiles)
    ensures r == Overlay(tiles, Rect(x0, x1, y0, y1))
  {
    r := tiles;
    assert Rect(x0, x1, y0, y0 - 1) == {};
    assert tiles == Overlay(tiles, {});
    var y := y0;
    while y <= y1
      invariant y0 <= y && (y <= y1 + 1 || y == y0)
      invariant r == Overlay(tiles, Rect(x0, x1, y0, y - 1))
      decreases y1 + 1 - y
    {
      ghost var before := r;
      r := FillRow(r, x0, x1, y);
      OverlayTwice(tiles, Rect(x0, x1, y0, y - 1), Rect(x0, x1, y, y));
      RectGrows(x0, x1, y0, y);
      y := y + 1;
    }
    assert Rect(x0, x1, y0, y - 1) == Rect(x0, x1, y0, y1);
  }

  /** The inner loop: the tiles `x0..=x1` of row `y` become clay. */
  method FillRow(tiles: Tiles, x0: int, x1: int, y: int) returns (r: Tiles)
    ensures r == Overlay(tiles, Rect(x0, x1, y, y))
  {
    r := tiles;
    var x := x0;
    assert Rect(x0, x0 - 1, y, y) == {};
    assert tiles == Overlay(tiles, {});
    while x <= x1
      invariant x0 <= x && (x <= x1 + 1 || x == x0)
      invariant r == Overlay(tiles, Rect(x0, x - 1, y, y))
      decreases x1 + 1 - x
    {
      OverlayAdd(tiles, Rect(x0, x - 1, y, y), Position(x, y));
      RowGrows(x0, x, y);
      r := r[Position(x, y) := Clay];
      x := x + 1;
    }
    assert Rect(x0, x - 1, y, y) == Rect(x0, x1, y, y);
  }

  lemma OverlayTwice(tiles: Tiles, s: set<Position>, s': set<Position>)
    ensures Overlay(Overlay(tiles, s), s') == Overlay(tiles, s + s')
  {
  }

  /** Reading `s + t` from `rd` when `s` leaves `mid`. */
  lemma ReadOn(rd: Reader, s: string, t: string, mid: Reader)
    requires ReadFrom(rd, s) == Some(mid)
    ensures ReadFrom(rd, s + t) == ReadFrom(mid, t)
  {
    ReadThen(rd, s, t);
  }

  /** Digits are collected into the value. */
  lemma {:induction false} ReadDigits(rd: Reader, ds: string)
    requires AllDigits(ds)
    ensures ReadFrom(rd, ds) == Some(rd.(value := rd.value + ds))
    decreases |ds|
  {
    if ds == [] {
      assert rd.value + ds == rd.value;
    } else {
      assert ds[0] in ds;
      var r := rd.(value := rd.value + [ds[0]]);
      ReadDigits(r, ds[1..]);
      assert r.value + ds[1..] == rd.value + ds;
    }
  }

  /** A vein as the scan writes it, `x=A, y=B..C` or `y=A, x=B..C`, is
      the clay between its bounds, both ends included. */
  lemma ReadsVein(a: nat, b: nat, c: nat)
    requires a <= U16_MAX && b <= U16_MAX && c <= U16_MAX
    ensures LineClay("x=" + ShowNat(a) + ", y=" + ShowNat(b) + ".." + ShowNat(c)) == Some(Rect(a, a, b, c))
    ensures LineClay("y=" + ShowNat(a) + ", x=" + ShowNat(b) + ".." + ShowNat(c)) == Some(Rect(b, c, a, a))
  {
    ReadsRange(XMin, YMin, a, b, c);
    ReadsRange(YMin, XMin, a, b, c);
  }

  /** The reading of `p=A, q=B..C` for the two axes `p` and `q`. */
  lemma ReadsRange(p: Param, q: Param, a: nat, b: nat, c: nat)
    requires (p, q) == (XMin, YMin) || (p, q) == (YMin, XMin)
    requires a <= U16_MAX && b <= U16_MAX && c <= U16_MAX
    ensures var line := [Axis(p), '='] + ShowNat(a) + [',', ' ', Axis(q), '='] + ShowNat(b) + ['.', '.'] + ShowNat(c);
            LineClay(line) == Some(if p == XMin then Rect(a, a, b, c) else Rect(b, c, a, a))
  {
    var head := [Axis(p), '='] + ShowNat(a) + [',', ' ', Axis(q), '='] + ShowNat(b);
    var tail := ['.', '.'] + ShowNat(c);
    var r4 := ReadsHead(p, q, a, b);
    var r5 := ReadsTail(r4, c);
    Associates(head, ['.', '.'], ShowNat(c));
    ReadOn(Fresh, head, tail, r4);
    var r6 := Save(r5).value;
    if p == XMin {
      assert (r6.xMin, r6.xMax, r6.yMin, r6.yMax) == (a, a, b, c);
    } else {
      assert (r6.xMin, r6.xMax, r6.yMin, r6.yMax) == (b, c, a, a);
    }
  }

  /** The reading of `..C` after a minimum: the minimum is saved and the
      maximum's digits are collected. */
  lemma ReadsTail(rd: Reader, c: nat) returns (r5: Reader)
    requires rd.param == XMin || rd.param == YMin
    requires rd.value != [] && Save(rd).Some?
    ensures ReadFrom(rd, ['.', '.'] + ShowNat(c)) == Some(r5)
    ensures r5 == Save(rd).value.(param := if rd.param == XMin then XMax else YMax, value := ShowNat(c))
  {
    var C := ShowNat(c);
    var mid := Save(rd).value.(param := if rd.param == XMin then XMax else YMax);
    ReadsDots(rd);
    assert mid.value + C == C;
    ReadDigits(mid, C);
    ReadOn(rd, ['.', '.'], C, mid);
    r5 := mid.(value := C);
  }

  /** The reading of `p=A, q=B`: the first axis is saved, the second's
      digits are collected. */
  lemma ReadsHead(p: Param, q: Param, a: nat, b: nat) returns (r4: Reader)
    requires (p, q) == (XMin, YMin) || (p, q) == (YMin, XMin)
    requires a <= U16_MAX && b <= U16_MAX
    ensures ReadFrom(Fresh, [Axis(p), '='] + ShowNat(a) + [',', ' ', Axis(q), '='] + ShowNat(b)) == Some(r4)
    ensures r4 == if p == XMin then Reader(q, ShowNat(b), a, a, 0, 0) else Reader(q, ShowNat(b), 0, 0, a, a)
  {
    var first := [Axis(p), '='] + ShowNat(a);
    var second := [',', ' ', Axis(q), '='] + ShowNat(b);
    var r2 := ReadsValue(Fresh, p, a);
    var r3 := Save(r2).value.(param := q);
    ReadsSeparator(r2, q);
    assert r3.value + ShowNat(b) == ShowNat(b);
    ReadDigits(r3, ShowNat(b));
    ReadOn(r2, [',', ' ', Axis(q), '='], ShowNat(b), r3);
    Associates(first, [',', ' ', Axis(q), '='], ShowNat(b));
    ReadOn(Fresh, first, second, r2);
    r4 := r3.(value := ShowNat(b));
  }

  /** The reading of `p=A` from a reader with no value pending. */
  lemma ReadsValue(rd: Reader, p: Param, a: nat) returns (r: Reader)
    requires p == XMin || p == YMin
    requires rd.value == []
    ensures ReadFrom(rd, [Axis(p), '='] + ShowNat(a)) == Some(r)
    ensures r == rd.(param := p, value := ShowNat(a))
  {
    var r1 := rd.(param := p);
    ReadsAxis(rd, p);
    assert r1.value + ShowNat(a) == ShowNat(a);
    ReadDigits(r1, ShowNat(a));
    ReadOn(rd, [Axis(p), '='], ShowNat(a), r1);
    r := r1.(value := ShowNat(a));
  }

  /** The letter the scan writes for the axis of a minimum. */
  function Axis(p: Param): char
  {
    if p == XMin then 'x' else 'y'
  }

  lemma ReadsAxis(rd: Reader, p: Param)
    requires p == XMin || p == YMin
    ensures ReadFrom(rd, [Axis(p), '=']) == Some(rd.(param := p))
  {
    assert [Axis(p), '='][1..] == ['='] && ['='][1..] == [];
  }

  /** `, q=` after a value: the value is saved, then the axis switches. */
  lemma ReadsSeparator(rd: Reader, q: Param)
    requires q == XMin || q == YMin
    requires rd.value != [] && Save(rd).Some?
    ensures ReadFrom(rd, [',', ' ', Axis(q), '=']) == Some(Save(rd).value.(param := q))
  {
    var saved := Save(rd).value;
    assert [',', ' ', Axis(q), '='][1..] == [' ', Axis(q), '='];
    assert [' ', Axis(q), '='][1..] == [Axis(q), '='];
    ReadsAxis(saved, q);
  }

  /** `..` after a minimum: the value is saved and the maximum is next. */
  lemma ReadsDots(rd: Reader)
    requires rd.param == XMin || rd.param == YMin
    requires rd.value != [] && Save(rd).Some?
    ensures ReadFrom(rd, ['.', '.']) ==
              Some(Save(rd).value.(param := if rd.param == XMin then XMax else YMax))
  {
    assert ['.', '.'][1..] == ['.'] && ['.'][1..] == [];
  }
}
