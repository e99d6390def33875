// Day 15: Beverage Bandits, the combat. Elves and Goblins stand on the free
// cells of a cave; every round each unit, in reading order of the cells the
// units held when the round began, either attacks an adjacent enemy or steps
// towards the nearest cell next to an enemy and then attacks if it can. A
// unit whose hit points drop to zero or below is removed at once.
module Day15Combat {
  import opened Common
  import opened Day15Grid
  import opened Day15Search

  /** `HitPoints::default`: every unit starts with 200 hit points. */
  const DEFAULT_HIT_POINTS: int := 200

  /** `AttackPower::default`: both sides hit with power 3. */
  const DEFAULT_ATTACK_POWER: int := 3

  /** The first attack power the power search gives the Elves. */
  const FIRST_FAKED_POWER: int := 4

  /** `Elf` and `Goblin`: an id and the hit points left. */
  datatype Unit = Unit(id: nat, hitPoints: int)

  /** The units of one side, by the cell they stand on. */
  type Units = map<Position, Unit>

  /** `FightResult`: who is left standing, with the hit points they keep. */
  datatype FightResult = WinnerElves(hp: int) | WinnerGoblins(hp: int) | Tie | Ongoing

  // ---------------------------------------------------------------------
  // Choosing whom to attack (`enemy_to_attack`)

  /** The comparator of `enemy_to_attack`: fewer hit points first, reading
      order between equals. */
  predicate Weaker(enemies: Units, p: Position, q: Position)
    requires p in enemies && q in enemies
  {
    enemies[p].hitPoints < enemies[q].hitPoints
    || (enemies[p].hitPoints == enemies[q].hitPoints && Before(p, q))
  }

  /** `Weaker` orders distinct cells strictly and totally. */
  lemma WeakerOrder(enemies: Units, a: Position, b: Position, c: Position)
    requires a in enemies && b in enemies && c in enemies
    ensures Weaker(enemies, a, b) ==> !Weaker(enemies, b, a)
    ensures Weaker(enemies, a, b) && Weaker(enemies, b, c) ==> Weaker(enemies, a, c)
    ensures a == b || Weaker(enemies, a, b) || Weaker(enemies, b, a)
  {
    BeforeIsStrictTotalOrder(a, b, c);
  }

  /** The weakest enemy among the cells `cands` (`min_by` over the enemies
      standing there). */
  function Weakest(enemies: Units, cands: seq<Position>): (r: Option<Position>)
    ensures r.None? <==> forall q <- cands :: q !in enemies
    ensures r.Some? ==> r.value in cands && r.value in enemies
    ensures r.Some? ==> forall q <- cands :: q in enemies && q != r.value ==> Weaker(enemies, r.value, q)
  {
    if cands == [] then None
    else
      var rest := Weakest(enemies, cands[1..]);
      if cands[0] !in enemies then rest
      else if rest.None? || cands[0] == rest.value || Weaker(enemies, cands[0], rest.value) then
        assert forall q <- cands[1..] :: q in enemies && q != cands[0] ==> Weaker(enemies, cands[0], q) by {
          forall q <- cands[1..] | q in enemies && q != cands[0]
            ensures Weaker(enemies, cands[0], q)
          {
            WeakerOrder(enemies, cands[0], rest.value, q);
          }
        }
        Some(cands[0])
      else
        WeakerOrder(enemies, cands[0], rest.value, cands[0]);
        rest
  }

  /** `enemy_to_attack`: the weakest enemy on a neighbouring cell. */
  function EnemyToAttack(unit: Position, enemies: Units): (r: Option<Position>)
    ensures r.None? <==> forall q <- Neighbours(unit) :: q !in enemies
    ensures r.Some? ==> r.value in Neighbours(unit) && r.value in enemies
  {
    Weakest(enemies, Neighbours(unit))
  }

  /** There is an enemy to attack exactly when one stands next to the unit;
      it is then the one with the fewest hit points, the first in reading
      order among equals. */
  lemma EnemyToAttackSpec(unit: Position, enemies: Units)
    ensures var r := EnemyToAttack(unit, enemies);
            && (r.None? <==> forall q :: Adjacent(unit, q) ==> q !in enemies)
            && (r.Some? ==> Adjacent(unit, r.value) && r.value in enemies)
            && (r.Some? ==> forall q | Adjacent(unit, q) && q in enemies && q != r.value :: Weaker(enemies, r.value, q))
  {
    forall q {
      NeighboursAreAdjacent(unit, q);
    }
  }

  // ---------------------------------------------------------------------
  // Attacking (`attack_enemy`) and moving (`move_unit`)

  /** The enemies after the one at `position` is hit with `power`. */
  function Attacked(enemies: Units, position: Position, power: int): (r: Units)
    ensures forall q | q != position :: (q in r <==> q in enemies) && (q in r ==> r[q] == enemies[q])
    ensures position in r <==> position in enemies && enemies[position].hitPoints - power > 0
    ensures position in r ==> r[position] == enemies[position].(hitPoints := enemies[position].hitPoints - power)
    ensures r.Keys <= enemies.Keys
  {
    if position !in enemies then enemies
    else
      var hp := enemies[position].hitPoints - power;
      if hp <= 0 then enemies - {position}
      else enemies[position := enemies[position].(hitPoints := hp)]
  }

  /** `attack_enemy`: lowers the hit points of the enemy at `position` in
      place and removes it when none are left, returning it then. */
  method AttackEnemy(position: Position, power: int, enemies0: Units)
    returns (enemies: Units, killed: Option<(Position, Unit)>)
    ensures enemies == Attacked(enemies0, position, power)
    ensures killed.Some? <==> position in enemies0 && position !in enemies
    ensures killed.Some? ==> killed.value.0 == position && killed.value.1.id == enemies0[position].id
    ensures killed.Some? ==> killed.value.1.hitPoints == enemies0[position].hitPoints - power <= 0
  {
    enemies := enemies0;
    var died := false;
    if position in enemies {
      var enemy := enemies[position];
      enemy := enemy.(hitPoints := enemy.hitPoints - power);
      enemies := enemies[position := enemy];
      died := enemy.hitPoints <= 0;
    }
    killed := None;
    if died {
      killed := Some((position, enemies[position]));
      enemies := enemies - {position};
    }
  }

  /** The units after the one at `unit` moved to `target`. */
  function Moved(units: Units, unit: Position, target: Position): (r: Units)
    ensures unit !in units ==> r == units
    ensures unit in units ==> target in r && r[target] == units[unit]
    ensures unit in units && unit != target ==> unit !in r
    ensures unit in units ==> forall q | q != unit && q != target :: (q in r <==> q in units) && (q in r ==> r[q] == units[q])
    ensures unit in units && target !in units ==> |r.Keys| == |units.Keys|
  {
    if unit !in units then units
    else
      var moved := (units - {unit})[target := units[unit]];
      assert target !in units ==> moved.Keys == units.Keys - {unit} + {target};
      moved
  }

  /** `move_unit`: takes the unit at `unit` off the map and puts it back at
      `target`; nothing happens when no unit stands at `unit`. */
  method MoveUnit(unit: Position, target: Position, units0: Units) returns (units: Units, r: Option<Position>)
    ensures units == Moved(units0, unit, target)
    ensures r.Some? <==> unit in units0
    ensures r.Some? ==> r.value == target
  {
    units := units0;
    r := None;
    if unit in units {
      var u := units[unit];
      units := units - {unit};
      units := units[target := u];
      r := Some(target);
    }
  }

  // ---------------------------------------------------------------------
  // Where to go (`move_*_towards_*`, `path_to_nearest_target`)

  /** The cells a wall or a unit occupies: everything
      `is_free_position` rejects. */
  function Blocked(walls: set<Position>, friends: Units, enemies: Units): (r: set<Position>)
    ensures forall p :: p !in r <==> TileAt(walls, p) == OpenCavern && p !in friends && p !in enemies
  {
    walls + friends.Keys + enemies.Keys
  }

  /** The targets a unit at `unit` heads for: free cells next to an enemy,
      other than its own cell. */
  function Targets(blocked: set<Position>, enemies: set<Position>, unit: Position): set<Position>
  {
    set e, q | e in enemies && q in Neighbours(e) && q != unit && q !in blocked :: q
  }

  /** A target is exactly a free cell, not the unit's own, next to an enemy. */
  lemma TargetsSpec(blocked: set<Position>, enemies: set<Position>, unit: Position, q: Position)
    ensures q in Targets(blocked, enemies, unit) <==> q != unit && q !in blocked && exists e <- enemies :: Adjacent(e, q)
  {
    forall e <- enemies {
      NeighboursAreAdjacent(e, q);
    }
  }

  /** The loop of `move_*_towards_*` that collects the targets, one enemy
      and one neighbour at a time. */
  method CollectTargets(blocked: set<Position>, enemies: set<Position>, unit: Position) returns (targets: set<Position>)
    ensures targets == Targets(blocked, enemies, unit)
  {
    targets := {};
    var todo := enemies;
    while todo != {}
      invariant todo <= enemies
      invariant targets == Targets(blocked, enemies - todo, unit)
      decreases |todo|
    {
      var e :| e in todo;
      targets := CollectAround(blocked, unit, Neighbours(e), targets);
      TargetsAdd(blocked, enemies - todo, e, unit);
      todo := todo - {e};
      assert enemies - todo == (enemies - (todo + {e})) + {e};
    }
  }

  /** The inner loop of the collection: the neighbours of one enemy. */
  method CollectAround(blocked: set<Position>, unit: Position, ns: seq<Position>, before: set<Position>)
    returns (targets: set<Position>)
    ensures targets == before + set q | q in ns && q != unit && q !in blocked
  {
    targets := before;
    for i := 0 to |ns|
      invariant targets == before + set q | q in ns[..i] && q != unit && q !in blocked
    {
      if ns[i] != unit && ns[i] !in blocked {
        targets := targets + {ns[i]};
      }
      assert ns[..i + 1] == ns[..i] + [ns[i]];
    }
    assert ns[..|ns|] == ns;
  }

  /** Collecting one more enemy adds the free neighbours of that enemy. */
  lemma TargetsAdd(blocked: set<Position>, done: set<Position>, e: Position, unit: Position)
    ensures Targets(blocked, done + {e}, unit)
         == Targets(blocked, done, unit) + set q | q in Neighbours(e) && q != unit && q !in blocked
  {
  }

  /** The comparator of `path_to_nearest_target`: the shorter path first,
      then the one whose last cell comes first in reading order. */
  predicate Nearer(p: seq<Position>, q: seq<Position>)
    requires p != [] && q != []
  {
    |p| < |q| || (|p| == |q| && Before(p[|p| - 1], q[|q| - 1]))
  }

  /** `Nearer` is a strict order whose complement is transitive too. */
  lemma NearerOrder(a: seq<Position>, b: seq<Position>, c: seq<Position>)
    requires a != [] && b != [] && c != []
    ensures Nearer(a, b) ==> !Nearer(b, a)
    ensures Nearer(a, b) && Nearer(b, c) ==> Nearer(a, c)
    ensures !Nearer(a, b) && !Nearer(b, c) ==> !Nearer(a, c)
  {
    BeforeIsStrictTotalOrder(a[|a| - 1], b[|b| - 1], c[|c| - 1]);
    BeforeIsStrictTotalOrder(c[|c| - 1], b[|b| - 1], a[|a| - 1]);
  }

  /** One step of `min_by`: the path `p` replaces the best path so far only
      when it is non-empty and strictly nearer. */
  function NextBest(best: Option<seq<Position>>, p: seq<Position>): (r: Option<seq<Position>>)
    requires best.Some? ==> best.value != []
    ensures r.Some? ==> r.value != []
  {
    if p != [] && (best.None? || Nearer(p, best.value)) then Some(p) else best
  }

  /** `min_by` with `Nearer` over the non-empty paths of `paths`, starting
      from the best path `best` met so far; a later path wins only when it
      is strictly nearer. */
  function NearestFrom(best: Option<seq<Position>>, paths: seq<seq<Position>>): (r: Option<seq<Position>>)
    requires best.Some? ==> best.value != []
    ensures r.None? <==> best.None? && forall p <- paths :: p == []
    ensures r.Some? ==> r.value != [] && (r == best || r.value in paths)
    ensures r.Some? && best.Some? ==> !Nearer(best.value, r.value)
    ensures r.Some? ==> forall p <- paths :: p != [] ==> !Nearer(p, r.value)
    decreases |paths|
  {
    if paths == [] then best
    else
      var p := paths[0];
      var next := NextBest(best, p);
      var r := NearestFrom(next, paths[1..]);
      assert forall q <- paths :: q == p || q in paths[1..];
      assert forall q <- paths[1..] :: q in paths;
      assert r.None? <==> best.None? && forall q <- paths :: q == [] by {
        assert next.None? <==> best.None? && p == [];
        assert p in paths;
        assert (forall q <- paths :: q == []) <==> p == [] && forall q <- paths[1..] :: q == [];
      }
      assert r.Some? ==> (best.Some? ==> !Nearer(best.value, r.value)) && (p != [] ==> !Nearer(p, r.value)) by {
        if r.Some? && next.Some? {
          assert !Nearer(next.value, r.value);
          if best.Some? {
            NearerOrder(best.value, next.value, r.value);
            NearerOrder(next.value, best.value, r.value);
          }
          if p != [] {
            NearerOrder(p, next.value, r.value);
            if best.Some? {
              NearerOrder(p, best.value, r.value);
            }
          }
        }
      }
      r
  }

  /** A path search: the path from `start` to `end` avoiding `blocked`. */
  type PathSearch = (set<Position>, Position, Position) -> seq<Position>

  /** `shortest_path` as a path search. */
  const ShortestPaths: PathSearch := (blocked, start, end) => SearchPath(blocked, start, end)

  /** The searches from `unit`, one target at a time. */
  function SearchFrom(search: PathSearch, blocked: set<Position>, unit: Position): Position -> seq<Position>
  {
    t => search(blocked, unit, t)
  }

  /** A search whose paths start at the unit and whose first step goes to a
      neighbouring cell that is the target or free. */
  ghost predicate Shaped(search: PathSearch)
  {
    forall blocked, start, end ::
      var r := search(blocked, start, end);
      r != [] ==> r[0] == start && (|r| > 1 ==> Adjacent(r[0], r[1]) && (r[1] == end || r[1] !in blocked))
  }

  /** `shortest_path` is such a search. */
  lemma ShortestPathsShaped()
    ensures Shaped(ShortestPaths)
  {
    forall blocked, start, end
      ensures var r := ShortestPaths(blocked, start, end);
              r != [] ==> r[0] == start && (|r| > 1 ==> Adjacent(r[0], r[1]) && (r[1] == end || r[1] !in blocked))
    {
      SearchPathShape(blocked, start, end);
    }
  }

  /** The paths found to each target of `ts`, by the search `search`. */
  function Paths(search: Position -> seq<Position>, ts: seq<Position>): seq<seq<Position>>
  {
    seq(|ts|, i requires 0 <= i < |ts| => search(ts[i]))
  }

  /** `path_to_nearest_target` with the targets taken in reading order;
      `search` finds the path to one target. */
  ghost function NearestPath(search: Position -> seq<Position>, targets: set<Position>): Option<seq<Position>>
  {
    NearestFrom(None, Paths(search, Ordered(targets)))
  }

  /** There is a nearest path exactly when some target is reachable; it is
      the path to one of the targets, and no path to another target is
      shorter, nor as long and ending earlier in reading order. */
  lemma NearestPathSpec(search: Position -> seq<Position>, targets: set<Position>)
    ensures var r := NearestPath(search, targets);
            && (r.None? <==> forall t <- targets :: search(t) == [])
            && (r.Some? ==> r.value != [] && exists t <- targets :: r.value == search(t))
            && (r.Some? ==> forall t <- targets :: search(t) != [] ==> !Nearer(search(t), r.value))
  {
    var ts := Ordered(targets);
    var paths := Paths(search, ts);
    var r := NearestFrom(None, paths);
    OrderedMembers(targets);
    forall t <- targets
      ensures search(t) in paths
    {
      var i :| 0 <= i < |ts| && ts[i] == t;
      assert paths[i] == search(t);
    }
    if r.Some? {
      var i :| 0 <= i < |paths| && paths[i] == r.value;
      assert ts[i] in targets;
    }
  }

  /** Taking the first of the targets `ts` is one step of `min_by`. */
  lemma NearestStep(search: Position -> seq<Position>, best: Option<seq<Position>>, ts: seq<Position>)
    requires ts != [] && (best.Some? ==> best.value != [])
    ensures NearestFrom(best, Paths(search, ts)) == NearestFrom(NextBest(best, search(ts[0])), Paths(search, ts[1..]))
  {
    assert Paths(search, ts)[1..] == Paths(search, ts[1..]);
  }

  /** `path_to_nearest_target`: one search per target, keeping the nearest
      non-empty path. */
  method PathToNearestTarget(blocked: set<Position>, unit: Position, targets: set<Position>)
    returns (r: Option<seq<Position>>)
    ensures r == NearestPath(SearchFrom(ShortestPaths, blocked, unit), targets)
  {
    ghost var search := SearchFrom(ShortestPaths, blocked, unit);
    var ts := SortPositions(targets);
    r := None;
    var rest := ts;
    while rest != []
      invariant r.Some? ==> r.value != []
      invariant NearestFrom(r, Paths(search, rest)) == NearestPath(search, targets)
      decreases |rest|
    {
      var path := ShortestPath(blocked, unit, rest[0]);
      NearestStep(search, r, rest);
      r := NextBest(r, path);
      rest := rest[1..];
    }
  }

  /** The cell a unit at `unit` steps to: the second cell of its nearest
      path, if it has one. */
  ghost function StepTowards(search: PathSearch, walls: set<Position>, friends: Units, enemies: Units,
                             unit: Position): Option<Position>
  {
    var blocked := Blocked(walls, friends, enemies);
    var path := NearestPath(SearchFrom(search, blocked, unit), Targets(blocked, enemies.Keys, unit));
    if path.Some? && |path.value| > 1 then Some(path.value[1]) else None
  }

  /** A step goes to a free neighbouring cell. */
  lemma StepIsFree(search: PathSearch, walls: set<Position>, friends: Units, enemies: Units, unit: Position)
    requires Shaped(search)
    ensures var s := StepTowards(search, walls, friends, enemies, unit);
            s.Some? ==> Adjacent(unit, s.value) && TileAt(walls, s.value) == OpenCavern
                        && s.value !in friends && s.value !in enemies
  {
    var blocked := Blocked(walls, friends, enemies);
    var targets := Targets(blocked, enemies.Keys, unit);
    var from := SearchFrom(search, blocked, unit);
    NearestPathSpec(from, targets);
    var path := NearestPath(from, targets);
    if path.Some? && |path.value| > 1 {
      var t :| t in targets && path.value == from(t);
      assert path.value == search(blocked, unit, t);
      TargetsSpec(blocked, enemies.Keys, unit, t);
    }
  }

  /** `move_*_towards_*`: finds the step and moves the unit there in place. */
  method MoveTowards(walls: set<Position>, friends0: Units, enemies: Units, unit: Position)
    returns (friends: Units, step: Option<Position>)
    requires unit in friends0
    ensures step == StepTowards(ShortestPaths, walls, friends0, enemies, unit)
    ensures friends == if step.Some? then Moved(friends0, unit, step.value) else friends0
  {
    var blocked := walls + friends0.Keys + enemies.Keys;
    var targets := CollectTargets(blocked, enemies.Keys, unit);
    var path := PathToNearestTarget(blocked, unit, targets);
    var step1 := if path.Some? && |path.value| > 1 then Some(path.value[1]) else None;
    friends := friends0;
    step := None;
    if step1.Some? {
      friends, step := MoveUnit(unit, step1.value, friends);
    }
  }

  // ---------------------------------------------------------------------
  // One unit's turn

  /** Every unit of `units` has hit points left. */
  predicate Alive(units: Units)
  {
    forall p <- units :: units[p].hitPoints > 0
  }

  /** The turn of the unit at `unit`, one of `friends`: it attacks the enemy
      to attack if there is one; otherwise it steps towards the nearest
      target and, if an enemy is then adjacent, attacks it. The result holds
      the friends and the enemies afterwards. */
  ghost function Turn(search: PathSearch, walls: set<Position>, friends: Units, enemies: Units, power: int,
                      unit: Position): (r: (Units, Units))
    requires unit in friends
    ensures r.1.Keys <= enemies.Keys
    ensures var step := StepTowards(search, walls, friends, enemies, unit);
            r.0 == friends || (step.Some? && r.0 == Moved(friends, unit, step.value))
  {
    var target := EnemyToAttack(unit, enemies);
    if target.Some? then (friends, Attacked(enemies, target.value, power))
    else
      var step := StepTowards(search, walls, friends, enemies, unit);
      if step.None? then (friends, enemies)
      else
        var moved := Moved(friends, unit, step.value);
        var next := EnemyToAttack(step.value, enemies);
        if next.Some? then (moved, Attacked(enemies, next.value, power)) else (moved, enemies)
  }

  /** A turn keeps the two sides on different cells. */
  lemma TurnApart(search: PathSearch, walls: set<Position>, friends: Units, enemies: Units, power: int,
                  unit: Position)
    requires Shaped(search) && unit in friends && friends.Keys !! enemies.Keys
    ensures var t := Turn(search, walls, friends, enemies, power, unit);
            t.0.Keys !! t.1.Keys
  {
    var step := StepTowards(search, walls, friends, enemies, unit);
    if step.Some? {
      StepIsFree(search, walls, friends, enemies, unit);
      MovedApart(friends, enemies, unit, step.value);
    }
  }

  /** A unit that steps onto a cell no enemy holds stays apart from them. */
  lemma MovedApart(friends: Units, enemies: Units, unit: Position, target: Position)
    requires friends.Keys !! enemies.Keys && target !in enemies
    ensures Moved(friends, unit, target).Keys !! enemies.Keys
  {
  }

  /** A turn keeps the number of friends and only removes enemies. */
  lemma TurnCounts(search: PathSearch, walls: set<Position>, friends: Units, enemies: Units, power: int,
                   unit: Position)
    requires Shaped(search) && unit in friends
    ensures var t := Turn(search, walls, friends, enemies, power, unit);
            |t.0.Keys| == |friends.Keys| && t.1.Keys <= enemies.Keys
  {
    StepIsFree(search, walls, friends, enemies, unit);
  }

  /** A turn leaves only living units. */
  lemma TurnAlive(search: PathSearch, walls: set<Position>, friends: Units, enemies: Units, power: int,
                  unit: Position)
    requires unit in friends
    ensures var t := Turn(search, walls, friends, enemies, power, unit);
            (Alive(friends) ==> Alive(t.0)) && (Alive(enemies) ==> Alive(t.1))
  {
  }

  /** A unit's turn as the source runs it, updating both maps in place. */
  method TakeTurn(walls: set<Position>, friends0: Units, enemies0: Units, power: int, unit: Position)
    returns (friends: Units, enemies: Units)
    requires unit in friends0
    ensures (friends, enemies) == Turn(ShortestPaths, walls, friends0, enemies0, power, unit)
  {
    friends, enemies := friends0, enemies0;
    var killed: Option<(Position, Unit)>;
    var target := EnemyToAttack(unit, enemies);
    if target.Some? {
      enemies, killed := AttackEnemy(target.value, power, enemies);
    } else {
      var newPosition;
      friends, newPosition := MoveTowards(walls, friends, enemies, unit);
      if newPosition.Some? {
        var next := EnemyToAttack(newPosition.value, enemies);
        if next.Some? {
          enemies, killed := AttackEnemy(next.value, power, enemies);
        }
      }
    }
  }

  // ---------------------------------------------------------------------
  // Rounds (`fight_one_round`, `status`)

  /** The state of a `Combat` as a value. */
  datatype Battle = Battle(walls: set<Position>, elves: Units, goblins: Units, rounds: nat,
                           elvesPower: int, goblinsPower: int)

  /** No cell holds both an Elf and a Goblin. */
  predicate Apart(b: Battle)
  {
    b.elves.Keys !! b.goblins.Keys
  }

  /** Both sides have only living units. */
  predicate AllAlive(b: Battle)
  {
    Alive(b.elves) && Alive(b.goblins)
  }

  /** The turn of whatever unit stands at `unit`; a cell no unit holds any
      more is skipped. */
  ghost function UnitTurn(search: PathSearch, b: Battle, unit: Position): Battle
  {
    if unit in b.elves then
      var t := Turn(search, b.walls, b.elves, b.goblins, b.elvesPower, unit);
      b.(elves := t.0, goblins := t.1)
    else if unit in b.goblins then
      var t := Turn(search, b.walls, b.goblins, b.elves, b.goblinsPower, unit);
      b.(elves := t.1, goblins := t.0)
    else b
  }

  /** One unit's turn keeps the sides apart, adds no unit, leaves only
      living units, and changes neither walls, round count nor powers. */
  lemma UnitTurnKeeps(search: PathSearch, b: Battle, unit: Position)
    ensures var n := UnitTurn(search, b, unit);
            && n.walls == b.walls && n.rounds == b.rounds
            && n.elvesPower == b.elvesPower && n.goblinsPower == b.goblinsPower
            && (Shaped(search) && Apart(b) ==>
                  && Apart(n)
                  && |n.elves.Keys| <= |b.elves.Keys| && |n.goblins.Keys| <= |b.goblins.Keys|
                  && (AllAlive(b) ==> AllAlive(n)))
  {
    if Shaped(search) && Apart(b) {
      var n := UnitTurn(search, b, unit);
      if unit in b.elves {
        TurnApart(search, b.walls, b.elves, b.goblins, b.elvesPower, unit);
        TurnCounts(search, b.walls, b.elves, b.goblins, b.elvesPower, unit);
        TurnAlive(search, b.walls, b.elves, b.goblins, b.elvesPower, unit);
        SubsetCard(n.goblins.Keys, b.goblins.Keys);
      } else if unit in b.goblins {
        TurnApart(search, b.walls, b.goblins, b.elves, b.goblinsPower, unit);
        TurnCounts(search, b.walls, b.goblins, b.elves, b.goblinsPower, unit);
        TurnAlive(search, b.walls, b.goblins, b.elves, b.goblinsPower, unit);
        SubsetCard(n.elves.Keys, b.elves.Keys);
      }
    }
  }

  /** The `for` loop of `fight_one_round` over the cells `units`, with
      `acted` units counted so far; it stops after the turn that leaves one
      side without units. The result holds the battle and the count: the
      sides stay apart, no unit is added, and when both sides still stand
      at the end every listed unit was reached. */
  ghost function Turns(search: PathSearch, b: Battle, units: seq<Position>, acted: nat): (r: (Battle, nat))
    ensures r.0.walls == b.walls && r.0.rounds == b.rounds
    ensures r.0.elvesPower == b.elvesPower && r.0.goblinsPower == b.goblinsPower
    ensures acted <= r.1 <= acted + |units|
    ensures r.0.elves != map[] && r.0.goblins != map[] ==> r.1 == acted + |units|
    ensures Shaped(search) && Apart(b) ==>
              && Apart(r.0)
              && |r.0.elves.Keys| <= |b.elves.Keys| && |r.0.goblins.Keys| <= |b.goblins.Keys|
              && (AllAlive(b) ==> AllAlive(r.0))
    decreases |units|
  {
    if units == [] then (b, acted)
    else
      var next := UnitTurn(search, b, units[0]);
      UnitTurnKeeps(search, b, units[0]);
      if next.elves == map[] || next.goblins == map[] then (next, acted + 1)
      else Turns(search, next, units[1..], acted + 1)
  }

  /** One step of `Turns`. */
  lemma TurnsStep(search: PathSearch, b: Battle, units: seq<Position>, acted: nat)
    requires units != []
    ensures var next := UnitTurn(search, b, units[0]);
            Turns(search, b, units, acted)
              == if next.elves == map[] || next.goblins == map[] then (next, acted + 1)
                 else Turns(search, next, units[1..], acted + 1)
  {
  }

  /** `fight_one_round`: every unit takes its turn in the reading order of
      the cells held at the start; the round counts only when every listed
      unit was reached. */
  ghost function Round(search: PathSearch, b: Battle): (r: Battle)
    ensures r.walls == b.walls && r.elvesPower == b.elvesPower && r.goblinsPower == b.goblinsPower
    ensures r.rounds == b.rounds || r.rounds == b.rounds + 1
  {
    var units := Ordered(b.elves.Keys + b.goblins.Keys);
    var t := Turns(search, b, units, 0);
    if t.1 == |b.elves.Keys| + |b.goblins.Keys| then t.0.(rounds := t.0.rounds + 1) else t.0
  }

  /** A round keeps the sides apart, adds no unit, leaves only living
      units, and raises the round count by at most one; a round after which
      both sides still stand always counts. */
  lemma RoundKeeps(search: PathSearch, b: Battle)
    requires Shaped(search) && Apart(b)
    ensures var n := Round(search, b);
            && Apart(n)
            && n.walls == b.walls && n.elvesPower == b.elvesPower && n.goblinsPower == b.goblinsPower
            && |n.elves.Keys| <= |b.elves.Keys| && |n.goblins.Keys| <= |b.goblins.Keys|
            && (AllAlive(b) ==> AllAlive(n))
            && (n.rounds == b.rounds || n.rounds == b.rounds + 1)
            && (n.elves != map[] && n.goblins != map[] ==> n.rounds == b.rounds + 1)
  {
    assert b.elves.Keys * b.goblins.Keys == {};
  }

  /** A round of the source keeps the sides apart and adds no Elf. */
  lemma RoundKeepsShortest(b: Battle)
    requires Apart(b)
    ensures var n := Round(ShortestPaths, b);
            Apart(n) && |n.elves.Keys| <= |b.elves.Keys|
  {
    ShortestPathsShaped();
    RoundKeeps(ShortestPaths, b);
  }

  /** The round as the turns of the units in reading order leave it. */
  lemma RoundOf(search: PathSearch, b: Battle, units: seq<Position>, t: (Battle, nat), n: Battle)
    requires units == Ordered(b.elves.Keys + b.goblins.Keys) && t == Turns(search, b, units, 0)
    requires n == if t.1 == |b.elves.Keys| + |b.goblins.Keys| then t.0.(rounds := t.0.rounds + 1) else t.0
    ensures n == Round(search, b)
  {
  }

  /** The sum of the hit points of `units` (the `fold` of `status`), taken
      in reading order. */
  function SumHitPoints(units: Units): int
    decreases |units.Keys|
  {
    if units == map[] then 0
    else
      FirstExists(units.Keys);
      var p :| p in units && forall q | q in units :: q == p || Before(p, q);
      assert (units - {p}).Keys == units.Keys - {p};
      units[p].hitPoints + SumHitPoints(units - {p})
  }

  /** The sum starts with the unit first in reading order. */
  lemma SumHitPointsFirst(units: Units, m: Position)
    requires m in units && forall q | q in units :: q == m || Before(m, q)
    ensures SumHitPoints(units) == units[m].hitPoints + SumHitPoints(units - {m})
  {
    FirstExists(units.Keys);
    var p :| p in units && forall q | q in units :: q == p || Before(p, q);
    assert p == m by {
      BeforeIsStrictTotalOrder(p, m, p);
    }
  }

  /** The sum does not depend on the order: any unit can be taken out first. */
  lemma {:induction false} SumHitPointsRemove(units: Units, p: Position)
    requires p in units
    ensures SumHitPoints(units) == units[p].hitPoints + SumHitPoints(units - {p})
    decreases |units.Keys|
  {
    FirstExists(units.Keys);
    var m :| m in units && forall q | q in units :: q == m || Before(m, q);
    SumHitPointsFirst(units, m);
    if m != p {
      var rest := units - {p};
      FewerKeys(units, m);
      SumHitPointsRemove(units - {m}, p);
      FirstOfRest(units, m, p);
      SumHitPointsFirst(rest, m);
      RemoveBoth(units, m, p);
    }
  }

  lemma FewerKeys(units: Units, m: Position)
    requires m in units
    ensures |(units - {m}).Keys| < |units.Keys|
  {
    assert (units - {m}).Keys == units.Keys - {m};
  }

  /** The first unit stays first when another is taken out. */
  lemma FirstOfRest(units: Units, m: Position, p: Position)
    requires m in units && m != p && forall q | q in units :: q == m || Before(m, q)
    ensures m in units - {p} && forall q | q in units - {p} :: q == m || Before(m, q)
  {
  }

  lemma RemoveBoth(units: Units, m: Position, p: Position)
    ensures units - {m} - {p} == units - {p} - {m}
  {
  }

  /** Living units have at least one hit point each. */
  lemma {:induction false} SumHitPointsAlive(units: Units)
    requires Alive(units)
    ensures SumHitPoints(units) >= |units.Keys|
    decreases |units.Keys|
  {
    if units != map[] {
      var p :| p in units;
      SumHitPointsRemove(units, p);
      assert (units - {p}).Keys == units.Keys - {p};
      SumHitPointsAlive(units - {p});
    }
  }

  /** `Combat::status`: a tie when nobody is left, the winners' remaining
      hit points when only one side is, and `Ongoing` otherwise. */
  function Outcome(elves: Units, goblins: Units): (r: FightResult)
    ensures r == Tie <==> elves == map[] && goblins == map[]
    ensures r == Ongoing <==> elves != map[] && goblins != map[]
    ensures r.WinnerGoblins? ==> elves == map[] && r.hp == SumHitPoints(goblins)
    ensures r.WinnerElves? ==> goblins == map[] && r.hp == SumHitPoints(elves)
  {
    if elves == map[] then
      if goblins == map[] then Tie else WinnerGoblins(SumHitPoints(goblins))
    else if goblins == map[] then WinnerElves(SumHitPoints(elves))
    else Ongoing
  }

  /** `calculate_outcome`: the winners' hit points times the full rounds,
      0 for a tie; an ongoing fight has no outcome. */
  function CalculateOutcome(fight: FightResult, rounds: nat): (r: int)
    requires fight != Ongoing
    ensures fight.Tie? ==> r == 0
    ensures !fight.Tie? && fight.hp > 0 ==> r >= rounds && (r == 0 <==> rounds == 0)
  {
    if fight.Tie? then 0 else fight.hp * rounds
  }

  /** The outcome of a finished battle of living units is zero only for a
      tie or when no full round was fought, and is at least the round count
      times the survivors. */
  lemma FinalScore(b: Battle)
    requires AllAlive(b) && Outcome(b.elves, b.goblins) != Ongoing
    ensures var fight := Outcome(b.elves, b.goblins);
            var score := CalculateOutcome(fight, b.rounds);
            && (score == 0 <==> fight == Tie || b.rounds == 0)
            && score >= b.rounds * (|b.elves.Keys| + |b.goblins.Keys|)
  {
    var fight := Outcome(b.elves, b.goblins);
    SumHitPointsAlive(b.elves);
    SumHitPointsAlive(b.goblins);
    if !fight.Tie? {
      var survivors := |b.elves.Keys| + |b.goblins.Keys|;
      assert fight.hp >= survivors >= 1;
      MulMonotone(survivors, fight.hp, b.rounds);
    }
  }

  /** Multiplying by a natural number keeps an ordering. */
  lemma MulMonotone(a: int, b: int, n: nat)
    requires 1 <= a <= b
    ensures a * n <= b * n && (b * n == 0 <==> n == 0)
  {
  }

  /** The rounds of the source's search, as a step from battle to battle. */
  ghost function Rounds(search: PathSearch): Battle -> Battle
  {
    b => Round(search, b)
  }

  /** `n` rounds from `b`, each of them a `round`. */
  ghost function Play(round: Battle -> Battle, b: Battle, n: nat): Battle
    decreases n
  {
    if n == 0 then b else round(Play(round, b, n - 1))
  }

  /** The fight from `b` is decided after round `n`. */
  ghost predicate EndsAfter(round: Battle -> Battle, b: Battle, n: nat)
  {
    var after := Play(round, b, n);
    Outcome(after.elves, after.goblins) != Ongoing
  }

  /** No round from round 1 up to, but not including, round `n` decides
      the fight from `b`. */
  ghost predicate Undecided(round: Battle -> Battle, b: Battle, n: nat)
    decreases n
  {
    n <= 1 || (Undecided(round, b, n - 1) && !EndsAfter(round, b, n - 1))
  }

  /** An undecided fight was not decided by any earlier round. */
  lemma {:induction false} UndecidedBefore(round: Battle -> Battle, b: Battle, n: nat, k: nat)
    requires Undecided(round, b, n) && 0 < k < n
    ensures !EndsAfter(round, b, k)
    decreases n
  {
    if k < n - 1 {
      UndecidedBefore(round, b, n - 1, k);
    }
  }

  /** Round `n`, and no earlier round from round 1 on, decides the fight. */
  ghost predicate FirstEnd(round: Battle -> Battle, b: Battle, n: nat)
  {
    n > 0 && EndsAfter(round, b, n) && Undecided(round, b, n)
  }

  /** Only one round can be the first to decide a fight. */
  lemma FirstEndUnique(round: Battle -> Battle, b: Battle, n: nat, m: nat)
    requires FirstEnd(round, b, n) && FirstEnd(round, b, m)
    ensures n == m
  {
    if n < m {
      UndecidedBefore(round, b, m, n);
    } else if m < n {
      UndecidedBefore(round, b, n, m);
    }
  }

  /** Playing `k + 1` rounds is playing one and then `k` more. */
  lemma {:induction false} PlayShift(round: Battle -> Battle, b: Battle, k: nat)
    ensures Play(round, b, k + 1) == Play(round, round(b), k)
    decreases k
  {
    if k > 0 {
      PlayShift(round, b, k - 1);
    }
  }

  /** A fight whose first round leaves it undecided, and that is
      undecided before round `m` from the battle after that round, is
      undecided before round `m + 1` from `b`. */
  lemma {:induction false} UndecidedShift(round: Battle -> Battle, b: Battle, m: nat)
    requires !EndsAfter(round, b, 1) && Undecided(round, round(b), m)
    ensures Undecided(round, b, m + 1)
    decreases m
  {
    if m > 1 {
      UndecidedShift(round, b, m - 1);
      PlayShift(round, b, m - 1);
    }
  }

  /** The first round: it decides the fight exactly when the battle
      after it is decided, and then it is the first to. */
  lemma FirstRound(round: Battle -> Battle, b: Battle)
    ensures Play(round, b, 1) == round(b)
    ensures var next := round(b);
            Outcome(next.elves, next.goblins) != Ongoing ==> FirstEnd(round, b, 1)
  {
  }

  /** A fight that the first round leaves undecided ends first one round
      later than the fight from the battle after that round. */
  lemma FirstEndShift(round: Battle -> Battle, b: Battle, m: nat)
    requires !EndsAfter(round, b, 1) && FirstEnd(round, round(b), m)
    ensures FirstEnd(round, b, m + 1) && Play(round, b, m + 1) == Play(round, round(b), m)
  {
    PlayShift(round, b, m);
    UndecidedShift(round, b, m);
  }

  /** The battle once some round among the next `k` decides the fight
      from `b`, or `None` when none of them does. */
  ghost function Finish(round: Battle -> Battle, b: Battle, k: nat): Option<Battle>
    decreases k
  {
    if k == 0 then None
    else
      var next := round(b);
      if Outcome(next.elves, next.goblins) != Ongoing then Some(next)
      else Finish(round, next, k - 1)
  }

  /** A fight that round `n` decides is decided within `n` rounds. */
  lemma {:induction false} FinishSome(round: Battle -> Battle, b: Battle, n: nat)
    requires n > 0 && EndsAfter(round, b, n)
    ensures Finish(round, b, n).Some?
    decreases n
  {
    PlayShift(round, b, n - 1);
    if n > 1 {
      FinishSome(round, round(b), n - 1);
    }
  }

  /** `Finish` stops at the first round that decides the fight. */
  lemma {:induction false} FinishFirst(round: Battle -> Battle, b: Battle, n: nat)
    requires Finish(round, b, n).Some?
    ensures exists m :: FirstEnd(round, b, m) && Finish(round, b, n) == Some(Play(round, b, m))
    decreases n
  {
    var next := round(b);
    FirstRound(round, b);
    if Outcome(next.elves, next.goblins) == Ongoing {
      FinishFirst(round, next, n - 1);
      var m: nat :| FirstEnd(round, next, m) && Finish(round, next, n - 1) == Some(Play(round, next, m));
      FirstEndShift(round, b, m);
    }
  }

  /** One round of the source towards the battle `goal` that `Finish`
      promises, with `rest` rounds left after it. */
  lemma FinishAdvance(b: Battle, next: Battle, k: nat, rest: int, goal: Battle)
    requires Finish(Rounds(ShortestPaths), b, k) == Some(goal)
    requires next == Round(ShortestPaths, b) && rest == k - 1
    ensures rest >= 0
    ensures Outcome(next.elves, next.goblins) == Ongoing ==> Finish(Rounds(ShortestPaths), next, rest) == Some(goal)
    ensures Outcome(next.elves, next.goblins) != Ongoing ==> next == goal
  {
  }

  /** One more round: `played` rounds are `done` rounds and one more. */
  lemma PlayStep(round: Battle -> Battle, b: Battle, done: nat, played: nat)
    requires played == done + 1
    ensures Play(round, b, played) == round(Play(round, b, done))
  {
  }

  /** One more round of the source: the battle after `done` rounds and
      one round is the battle after `played`, one more, rounds. */
  lemma PlayNext(b: Battle, done: nat, before: Battle, after: Battle) returns (played: nat)
    requires before == Play(Rounds(ShortestPaths), b, done) && after == Round(ShortestPaths, before)
    ensures played == done + 1 && after == Play(Rounds(ShortestPaths), b, played)
  {
    played := done + 1;
    PlayStep(Rounds(ShortestPaths), b, done, played);
  }

  /** The same number of rounds. */
  lemma PlaySame(round: Battle -> Battle, b: Battle, m: nat, n: nat)
    requires m == n
    ensures Play(round, b, m) == Play(round, b, n)
  {
  }

  // ---------------------------------------------------------------------
  // The least attack power (`least_attach_power_for_elves_to_win`)

  /** An Elf of the starting combat `init` has fallen in `b` (the
      `lost_lives > 0` of the search). */
  predicate ElfLost(init: Battle, b: Battle)
  {
    |b.elves.Keys| < |init.elves.Keys|
  }

  /** One attempt at a fixed power: the battle after the first of at most
      `k` rounds from `b` that costs an Elf or decides the fight. */
  ghost function Trial(round: Battle -> Battle, init: Battle, b: Battle, k: nat): (r: Option<Battle>)
    ensures r.Some? ==> ElfLost(init, r.value) || Outcome(r.value.elves, r.value.goblins) != Ongoing
    decreases k
  {
    if k == 0 then None
    else
      var next := round(b);
      if ElfLost(init, next) || Outcome(next.elves, next.goblins) != Ongoing then Some(next)
      else Trial(round, init, next, k - 1)
  }

  /** An attempt that ends within `k` rounds ends the same way when it is
      given more. */
  lemma {:induction false} TrialMore(round: Battle -> Battle, init: Battle, b: Battle, k: nat, m: nat)
    requires k <= m && Trial(round, init, b, k).Some?
    ensures Trial(round, init, b, m) == Trial(round, init, b, k)
    decreases k, 1
  {
    var next := round(b);
    if !(ElfLost(init, next) || Outcome(next.elves, next.goblins) != Ongoing) {
      TrialMoreLater(round, init, b, next, k, m);
    }
  }

  /** `TrialMore` after a round that decides nothing. */
  lemma {:induction false} TrialMoreLater(round: Battle -> Battle, init: Battle, b: Battle, next: Battle, k: nat, m: nat)
    requires 0 < k <= m && next == round(b)
    requires !(ElfLost(init, next) || Outcome(next.elves, next.goblins) != Ongoing)
    requires Trial(round, init, next, k - 1).Some?
    ensures Trial(round, init, b, m) == Trial(round, init, b, k)
    decreases k, 0
  {
    TrialMore(round, init, next, k - 1, m - 1);
    assert Trial(round, init, b, m) == Trial(round, init, next, m - 1);
  }

  /** The attempt with the Elves at `power` costs an Elf. */
  ghost predicate LosesAnElf(round: Battle -> Battle, init: Battle, power: int)
  {
    exists k :: var t := Trial(round, init, init.(elvesPower := power), k);
                t.Some? && ElfLost(init, t.value)
  }

  /** The attempt with the Elves at `power` ends within `k` rounds in a
      decided fight of `rounds` full rounds, with every Elf alive. */
  ghost predicate WinsAt(round: Battle -> Battle, init: Battle, power: int, k: nat, rounds: nat, fight: FightResult)
  {
    var t := Trial(round, init, init.(elvesPower := power), k);
    && t.Some? && !ElfLost(init, t.value)
    && t.value.rounds == rounds && fight == Outcome(t.value.elves, t.value.goblins)
  }

  /** What part two asks for: `power` is the least attack power from the
      first faked one on at which no Elf falls, and its fight ends after
      `rounds` full rounds with `fight`. */
  ghost predicate LeastWinning(round: Battle -> Battle, init: Battle, power: int, rounds: nat, fight: FightResult)
  {
    && power >= FIRST_FAKED_POWER && fight != Ongoing
    && (forall q :: FIRST_FAKED_POWER <= q < power ==> LosesAnElf(round, init, q))
    && (exists k :: WinsAt(round, init, power, k, rounds, fight))
  }

  /** The search from `power` on, as it is evidently meant: every attempt
      that costs an Elf starts over from `init` one power higher, and the
      first attempt that does not gives the answer. `fuel` bounds both the
      attempts and the rounds of each. */
  ghost function PowerSearch(round: Battle -> Battle, init: Battle, power: int, fuel: nat): (r: Option<(int, Battle)>)
    ensures r.Some? ==> r.value.0 >= power && !ElfLost(init, r.value.1)
    ensures r.Some? ==> Outcome(r.value.1.elves, r.value.1.goblins) != Ongoing
    decreases fuel
  {
    if fuel == 0 then None
    else
      match Trial(round, init, init.(elvesPower := power), fuel)
      case None => None
      case Some(end) =>
        if ElfLost(init, end) then PowerSearch(round, init, power + 1, fuel - 1) else Some((power, end))
  }

  /** Every power the search passes over costs an Elf. */
  lemma {:induction false} PowerSearchLeast(round: Battle -> Battle, init: Battle, power: int, fuel: nat)
    requires PowerSearch(round, init, power, fuel).Some?
    ensures var r := PowerSearch(round, init, power, fuel).value;
            r.0 >= power && forall q :: power <= q < r.0 ==> LosesAnElf(round, init, q)
    decreases fuel, 1
  {
    var t := Trial(round, init, init.(elvesPower := power), fuel);
    if ElfLost(init, t.value) {
      PowerSearchLeastLater(round, init, power, fuel);
    } else {
      assert PowerSearch(round, init, power, fuel) == Some((power, t.value));
    }
  }

  /** The attempt at `power` cost an Elf: it is one of the powers passed
      over, and the rest come from the search one power higher. */
  lemma {:induction false} PowerSearchLeastLater(round: Battle -> Battle, init: Battle, power: int, fuel: nat)
    requires PowerSearch(round, init, power, fuel).Some?
    requires var t := Trial(round, init, init.(elvesPower := power), fuel); t.Some? && ElfLost(init, t.value)
    ensures var r := PowerSearch(round, init, power, fuel).value;
            r.0 >= power && forall q :: power <= q < r.0 ==> LosesAnElf(round, init, q)
    decreases fuel, 0
  {
    var r := PowerSearch(round, init, power + 1, fuel - 1);
    assert PowerSearch(round, init, power, fuel) == r;
    PowerSearchLeast(round, init, power + 1, fuel - 1);
    assert LosesAnElf(round, init, power) by {
      var t := Trial(round, init, init.(elvesPower := power), fuel);
      assert t.Some? && ElfLost(init, t.value);
    }
  }

  /** The search answers with a power whose attempt costs no Elf and ends
      in a decided fight; when the combat has Elves, they win it. */
  lemma PowerSearchEnd(round: Battle -> Battle, init: Battle, power: int, fuel: nat)
    requires PowerSearch(round, init, power, fuel).Some?
    ensures var r := PowerSearch(round, init, power, fuel).value;
            && Trial(round, init, init.(elvesPower := r.0), fuel) == Some(r.1)
            && !ElfLost(init, r.1) && Outcome(r.1.elves, r.1.goblins) != Ongoing
            && (init.elves != map[] ==> Outcome(r.1.elves, r.1.goblins).WinnerElves?)
  {
    var r := PowerSearch(round, init, power, fuel).value;
    PowerSearchFound(round, init, power, fuel);
    NoLossWins(init, r.1);
  }

  /** The search's answer is the outcome of its last attempt, which cost no
      Elf. */
  lemma {:induction false} PowerSearchFound(round: Battle -> Battle, init: Battle, power: int, fuel: nat)
    requires PowerSearch(round, init, power, fuel).Some?
    ensures var r := PowerSearch(round, init, power, fuel).value;
            Trial(round, init, init.(elvesPower := r.0), fuel) == Some(r.1) && !ElfLost(init, r.1)
    decreases fuel, 1
  {
    var t := Trial(round, init, init.(elvesPower := power), fuel);
    if ElfLost(init, t.value) {
      PowerSearchFoundLater(round, init, power, fuel);
    } else {
      assert PowerSearch(round, init, power, fuel) == Some((power, t.value));
    }
  }

  /** The attempt at `power` cost an Elf, so the answer comes from the
      search one power higher. */
  lemma {:induction false} PowerSearchFoundLater(round: Battle -> Battle, init: Battle, power: int, fuel: nat)
    requires PowerSearch(round, init, power, fuel).Some?
    requires var t := Trial(round, init, init.(elvesPower := power), fuel); t.Some? && ElfLost(init, t.value)
    ensures var r := PowerSearch(round, init, power, fuel).value;
            Trial(round, init, init.(elvesPower := r.0), fuel) == Some(r.1) && !ElfLost(init, r.1)
    decreases fuel, 0
  {
    var r := PowerSearch(round, init, power + 1, fuel - 1);
    assert PowerSearch(round, init, power, fuel) == r;
    PowerSearchFound(round, init, power + 1, fuel - 1);
    TrialMore(round, init, init.(elvesPower := r.value.0), fuel - 1, fuel);
  }

  /** A decided fight in which no Elf died, among at least one Elf, is won by
      the Elves. */
  lemma NoLossWins(init: Battle, end: Battle)
    requires !ElfLost(init, end) && Outcome(end.elves, end.goblins) != Ongoing
    ensures init.elves != map[] ==> Outcome(end.elves, end.goblins).WinnerElves?
  {
    if init.elves != map[] {
      var e :| e in init.elves;
      assert e in init.elves.Keys;
      assert |end.elves.Keys| > 0;
      assert end.elves != map[];
    }
  }

  /** The search from the first faked power finds what part two asks for. */
  lemma PowerSearchWins(round: Battle -> Battle, init: Battle, fuel: nat)
    requires PowerSearch(round, init, FIRST_FAKED_POWER, fuel).Some?
    ensures var r := PowerSearch(round, init, FIRST_FAKED_POWER, fuel).value;
            LeastWinning(round, init, r.0, r.1.rounds, Outcome(r.1.elves, r.1.goblins))
  {
    PowerSearchLeast(round, init, FIRST_FAKED_POWER, fuel);
    PowerSearchEnd(round, init, FIRST_FAKED_POWER, fuel);
    var r := PowerSearch(round, init, FIRST_FAKED_POWER, fuel).value;
    assert WinsAt(round, init, r.0, fuel, r.1.rounds, Outcome(r.1.elves, r.1.goblins));
  }

  /** There is one answer: two least winning powers are the same, and so
      are their fights. */
  lemma LeastWinningUnique(round: Battle -> Battle, init: Battle, p1: int, r1: nat, f1: FightResult,
                           p2: int, r2: nat, f2: FightResult)
    requires LeastWinning(round, init, p1, r1, f1) && LeastWinning(round, init, p2, r2, f2)
    ensures p1 == p2 && r1 == r2 && f1 == f2
  {
    if p1 != p2 {
      var (lo, hi) := if p1 < p2 then (p1, p2) else (p2, p1);
      assert LosesAnElf(round, init, lo);
      var k: nat :| WinsAt(round, init, lo, k, if p1 < p2 then r1 else r2, if p1 < p2 then f1 else f2);
      var j: nat :| var t := Trial(round, init, init.(elvesPower := lo), j); t.Some? && ElfLost(init, t.value);
      TrialAgree(round, init, init.(elvesPower := lo), k, j);
    }
    var k1: nat :| WinsAt(round, init, p1, k1, r1, f1);
    var k2: nat :| WinsAt(round, init, p2, k2, r2, f2);
    TrialAgree(round, init, init.(elvesPower := p1), k1, k2);
  }

  /** Two attempts from the same battle that both end agree. */
  lemma TrialAgree(round: Battle -> Battle, init: Battle, b: Battle, k: nat, j: nat)
    requires Trial(round, init, b, k).Some? && Trial(round, init, b, j).Some?
    ensures Trial(round, init, b, k) == Trial(round, init, b, j)
  {
    if k <= j {
      TrialMore(round, init, b, k, j);
    } else {
      TrialMore(round, init, b, j, k);
    }
  }

  /** The search loop of the source as written: after each round it starts
      over when an Elf has fallen, and then stops if that round decided the
      fight, answering with the power and rounds of the fresh copy. */
  ghost function SearchAsWritten(round: Battle -> Battle, init: Battle, b: Battle, fuel: nat): (r: Option<(int, nat, FightResult)>)
    ensures r.Some? ==> r.value.2 != Ongoing
    decreases fuel
  {
    if fuel == 0 then None
    else
      var next := round(b);
      var combat := if ElfLost(init, next) then init.(elvesPower := b.elvesPower + 1) else next;
      var fight := Outcome(next.elves, next.goblins);
      if fight != Ongoing then Some((combat.elvesPower, combat.rounds, fight))
      else SearchAsWritten(round, init, combat, fuel - 1)
  }

  /** When the round that decides a fight also costs an Elf, the source
      stops with the power it has not tried yet, the round count of the
      starting combat, and the result of the fight it abandoned: when the
      last Elf fell, a Goblin victory, which the evidently intended search
      never answers with. */
  lemma SearchStopsOnLostElf(round: Battle -> Battle, init: Battle, b: Battle, fuel: nat)
    requires fuel > 0
    requires var next := round(b); ElfLost(init, next) && Outcome(next.elves, next.goblins) != Ongoing
    ensures var next := round(b);
            SearchAsWritten(round, init, b, fuel)
              == Some((b.elvesPower + 1, init.rounds, Outcome(next.elves, next.goblins)))
    ensures round(b).elves == map[] && round(b).goblins != map[] ==>
              SearchAsWritten(round, init, b, fuel).value.2.WinnerGoblins?
  {
  }

  /** A `PowerSearch` that goes on: the next `fuel` bound. */
  lemma PowerAttempt(init: Battle, power: int, f: nat, goal: (int, Battle)) returns (end: Battle)
    requires PowerSearch(Rounds(ShortestPaths), init, power, f) == Some(goal)
    ensures f > 0 && Trial(Rounds(ShortestPaths), init, init.(elvesPower := power), f) == Some(end)
    ensures !ElfLost(init, end) ==> goal == (power, end)
  {
    end := Trial(Rounds(ShortestPaths), init, init.(elvesPower := power), f).value;
  }

  /** After an attempt that cost an Elf the search goes on one power higher
      with one attempt fewer. */
  lemma PowerAdvance(init: Battle, power: int, next: int, f: nat, rest: int, end: Battle, goal: (int, Battle))
    requires PowerSearch(Rounds(ShortestPaths), init, power, f) == Some(goal)
    requires Trial(Rounds(ShortestPaths), init, init.(elvesPower := power), f) == Some(end) && ElfLost(init, end)
    requires next == power + 1 && rest == f - 1
    ensures rest >= 0 && PowerSearch(Rounds(ShortestPaths), init, next, rest) == Some(goal)
  {
  }

  /** One round of an attempt, seen from the battle it will end in. */
  lemma TrialAdvance(init: Battle, b: Battle, next: Battle, k: nat, rest: int, goal: Battle)
    requires Apart(b) && Trial(Rounds(ShortestPaths), init, b, k) == Some(goal)
    requires next == Round(ShortestPaths, b) && rest == k - 1
    ensures rest >= 0 && Apart(next) && |next.elves.Keys| <= |b.elves.Keys|
    ensures ElfLost(init, next) || Outcome(next.elves, next.goblins) != Ongoing ==> next == goal
    ensures !ElfLost(init, next) && Outcome(next.elves, next.goblins) == Ongoing ==>
              Trial(Rounds(ShortestPaths), init, next, rest) == Some(goal)
  {
    RoundKeepsShortest(b);
  }

  // ---------------------------------------------------------------------
  // The combat as the source runs it

  /** `IdSequence`: hands out ids 1, 2, 3, ...; `step` is kept but
      `next_val` always adds one. */
  class IdSequence {
    var step: nat
    var last: nat

    /** `IdSequence::new`. */
    constructor (step: nat)
      ensures this.step == step && last == 0
    {
      this.step := step;
      last := 0;
    }

    /** `IdSequence::next_val`: the id after the last one handed out. */
    method NextVal() returns (id: nat)
      modifies this
      ensures last == old(last) + 1 && id == last && step == old(step)
    {
      last := last + 1;
      id := last;
    }
  }

  /** `Combat`: the walls, the units of each side by cell, the full rounds
      fought and the two attack powers. */
  class Combat {
    var walls: set<Position>
    var elves: Units
    var goblins: Units
    var rounds: nat
    var elvesAttackPower: int
    var goblinsAttackPower: int

    /** The combat as a value. */
    ghost function State(): Battle
      reads this
    {
      Battle(walls, elves, goblins, rounds, elvesAttackPower, goblinsAttackPower)
    }

    /** `Combat::new`: no round fought, both sides at the default power. */
    constructor (walls: set<Position>, elves: Units, goblins: Units)
      ensures State() == Battle(walls, elves, goblins, 0, DEFAULT_ATTACK_POWER, DEFAULT_ATTACK_POWER)
    {
      this.walls := walls;
      this.elves := elves;
      this.goblins := goblins;
      rounds := 0;
      elvesAttackPower := DEFAULT_ATTACK_POWER;
      goblinsAttackPower := DEFAULT_ATTACK_POWER;
    }

    /** `Combat::clone`. */
    method Clone() returns (c: Combat)
      ensures fresh(c) && c.State() == State()
    {
      c := new Combat(walls, elves, goblins);
      c.rounds := rounds;
      c.elvesAttackPower := elvesAttackPower;
      c.goblinsAttackPower := goblinsAttackPower;
    }

    /** The turn of the unit at `unit`, if one is still there. */
    method PlayUnit(unit: Position)
      modifies this
      ensures State() == UnitTurn(ShortestPaths, old(State()), unit)
    {
      if unit in elves {
        elves, goblins := TakeTurn(walls, elves, goblins, elvesAttackPower, unit);
      } else if unit in goblins {
        goblins, elves := TakeTurn(walls, goblins, elves, goblinsAttackPower, unit);
      }
    }

    /** The `for` loop of `fight_one_round` over the cells `units`: returns
        how many turns were taken before one side was wiped out. */
    method PlayUnits(units: seq<Position>) returns (acted: nat)
      modifies this
      ensures (State(), acted) == Turns(ShortestPaths, old(State()), units, 0)
    {
      ghost var goal := Turns(ShortestPaths, State(), units, 0);
      acted := 0;
      var rest := units;
      var over := false;
      while rest != [] && !over
        invariant if over then (State(), acted) == goal else Turns(ShortestPaths, State(), rest, acted) == goal
        decreases |rest|
      {
        TurnsStep(ShortestPaths, State(), rest, acted);
        PlayUnit(rest[0]);
        acted := acted + 1;
        rest := rest[1..];
        over := elves == map[] || goblins == map[];
      }
    }

    /** The units' turns of `Combat::fight_one_round`. */
    method PlayRound()
      modifies this
      ensures State() == Round(ShortestPaths, old(State()))
    {
      ghost var b0 := State();
      var units := SortPositions(elves.Keys + goblins.Keys);
      var numUnits := |elves.Keys| + |goblins.Keys|;
      var acted := PlayUnits(units);
      ghost var played := State();
      ghost var counted := if acted == numUnits then played.(rounds := played.rounds + 1) else played;
      if acted == numUnits {
        rounds := rounds + 1;
      }
      assert State() == counted;
      RoundOf(ShortestPaths, b0, units, (played, acted), counted);
    }

    /** `Combat::status`. */
    method Status() returns (r: FightResult)
      ensures r == Outcome(elves, goblins)
    {
      r := Outcome(elves, goblins);
    }

    /** `Combat::fight_one_round`, returning the status after the round. */
    method FightOneRound() returns (r: FightResult)
      modifies this
      ensures State() == Round(ShortestPaths, old(State()))
      ensures r == Outcome(elves, goblins)
    {
      PlayRound();
      r := Status();
    }

    /** `Combat::fight`: rounds until one decides the fight. It stops only
        then, so some round must. */
    method Fight() returns (r: FightResult)
      requires exists n :: n > 0 && EndsAfter(Rounds(ShortestPaths), State(), n)
      modifies this
      ensures exists n :: FirstEnd(Rounds(ShortestPaths), old(State()), n) && State() == Play(Rounds(ShortestPaths), old(State()), n)
      ensures r == Outcome(elves, goblins) && r != Ongoing
    {
      ghost var b0 := State();
      ghost var n: nat :| n > 0 && EndsAfter(Rounds(ShortestPaths), b0, n);
      FinishSome(Rounds(ShortestPaths), b0, n);
      FinishFirst(Rounds(ShortestPaths), b0, n);
      r := FightUntil(n, Finish(Rounds(ShortestPaths), b0, n).value);
    }

    /** The rounds of `fight`: the fight that some round among the next
        `left` decides, with `goal` the battle after that round. */
    method FightUntil(ghost left: nat, ghost goal: Battle) returns (r: FightResult)
      requires Finish(Rounds(ShortestPaths), State(), left) == Some(goal)
      modifies this
      ensures State() == goal
      ensures r == Outcome(elves, goblins) && r != Ongoing
    {
      ghost var k := left;
      r := Ongoing;
      while r == Ongoing
        invariant r == Ongoing ==> Finish(Rounds(ShortestPaths), State(), k) == Some(goal)
        invariant r != Ongoing ==> State() == goal && r == Outcome(elves, goblins)
        decreases k
      {
        r, k := FightTowards(k, goal);
      }
    }

    /** One round of `fight`, seen from the round that will decide it. */
    method FightTowards(ghost k: nat, ghost goal: Battle) returns (r: FightResult, ghost rest: nat)
      requires Finish(Rounds(ShortestPaths), State(), k) == Some(goal)
      modifies this
      ensures rest < k
      ensures r == Outcome(elves, goblins)
      ensures r == Ongoing ==> Finish(Rounds(ShortestPaths), State(), rest) == Some(goal)
      ensures r != Ongoing ==> State() == goal
    {
      ghost var b := State();
      r := FightOneRound();
      rest := k - 1;
      FinishAdvance(b, State(), k, rest, goal);
    }

    /** `Combat::n_fights`: exactly `n` rounds, returning the last status
        (`Ongoing` when no round is fought). */
    method NFights(n: nat) returns (r: FightResult)
      modifies this
      ensures State() == Play(Rounds(ShortestPaths), old(State()), n)
      ensures r == if n == 0 then Ongoing else Outcome(elves, goblins)
    {
      ghost var b0 := State();
      r := Ongoing;
      ghost var played: nat := 0;
      var i := 0;
      while i < n
        invariant i <= n && played == i
        invariant State() == Play(Rounds(ShortestPaths), b0, played)
        invariant r == if i == 0 then Ongoing else Outcome(elves, goblins)
      {
        ghost var before := State();
        r := FightOneRound();
        played := PlayNext(b0, played, before, State());
        i := i + 1;
      }
      PlaySame(Rounds(ShortestPaths), b0, played, n);
    }

    /** The rounds of one attempt of the power search: fought until one of
        the `orig` Elves of `init` falls or the fight is decided, with
        `goal` the battle that attempt ends in. */
    method TrialRounds(orig: nat, ghost init: Battle, ghost k: nat, ghost goal: Battle) returns (r: FightResult)
      requires Apart(State()) && orig == |init.elves.Keys| && |elves.Keys| <= orig
      requires Trial(Rounds(ShortestPaths), init, State(), k) == Some(goal)
      modifies this
      ensures State() == goal && r == Outcome(elves, goblins) && |elves.Keys| <= orig
    {
      ghost var left := k;
      var over := false;
      r := Ongoing;
      while !over
        invariant Apart(State()) && |elves.Keys| <= orig
        invariant !over ==> Trial(Rounds(ShortestPaths), init, State(), left) == Some(goal)
        invariant over ==> State() == goal && r == Outcome(elves, goblins)
        decreases left
      {
        over, r, left := TrialStep(orig, init, left, goal);
      }
    }

    /** One round of an attempt: `over` when it cost an Elf or decided the
        fight. */
    method TrialStep(orig: nat, ghost init: Battle, ghost k: nat, ghost goal: Battle)
      returns (over: bool, r: FightResult, ghost rest: nat)
      requires Apart(State()) && orig == |init.elves.Keys| && |elves.Keys| <= orig
      requires Trial(Rounds(ShortestPaths), init, State(), k) == Some(goal)
      modifies this
      ensures Apart(State()) && |elves.Keys| <= orig && rest < k
      ensures r == Outcome(elves, goblins)
      ensures !over ==> Trial(Rounds(ShortestPaths), init, State(), rest) == Some(goal)
      ensures over ==> State() == goal
    {
      ghost var b := State();
      r := FightOneRound();
      over := |elves.Keys| < orig || r != Ongoing;
      rest := k - 1;
      TrialAdvance(init, b, State(), k, rest, goal);
    }
  }

  /** `fight`, part one: the outcome of the fight of a copy of the combat. */
  method Part1(combatMap: Combat) returns (outcome: int)
    requires exists n :: n > 0 && EndsAfter(Rounds(ShortestPaths), combatMap.State(), n)
    ensures exists n :: FirstEnd(Rounds(ShortestPaths), combatMap.State(), n)
                        && var b := Play(Rounds(ShortestPaths), combatMap.State(), n);
                           outcome == CalculateOutcome(Outcome(b.elves, b.goblins), b.rounds)
  {
    var combat := combatMap.Clone();
    var result := combat.Fight();
    outcome := CalculateOutcome(result, combat.rounds);
    ghost var n :| FirstEnd(Rounds(ShortestPaths), combatMap.State(), n)
                   && combat.State() == Play(Rounds(ShortestPaths), combatMap.State(), n);
    assert outcome == CalculateOutcome(Outcome(combat.State().elves, combat.State().goblins), combat.State().rounds);
  }

  /** One attempt of the power search on a fresh copy of `initial` with the
      Elves at `power`: how many Elves fell, and the rounds and result of
      the fight; `next` is the power of the next attempt. */
  method TryPower(initial: Combat, power: int, ghost f: nat, ghost goal: (int, Battle))
    returns (lostLives: nat, rounds: nat, fight: FightResult, next: int, ghost rest: nat)
    requires Apart(initial.State())
    requires PowerSearch(Rounds(ShortestPaths), initial.State(), power, f) == Some(goal)
    ensures rest < f
    ensures lostLives > 0 ==> PowerSearch(Rounds(ShortestPaths), initial.State(), next, rest) == Some(goal)
    ensures lostLives == 0 ==> goal.0 == power && rounds == goal.1.rounds && fight == Outcome(goal.1.elves, goal.1.goblins)
  {
    ghost var init := initial.State();
    ghost var end := PowerAttempt(init, power, f, goal);
    var combat := initial.Clone();
    combat.elvesAttackPower := power;
    var orig := |initial.elves.Keys|;
    fight := combat.TrialRounds(orig, init, f, end);
    lostLives := orig - |combat.elves.Keys|;
    rounds := combat.rounds;
    next := power + 1;
    rest := f - 1;
    if lostLives > 0 {
      PowerAdvance(init, power, next, f, rest, end, goal);
    }
  }

  /** `least_attach_power_for_elves_to_win`, as it is evidently meant: each
      attempt that costs an Elf starts over from `initial` one power higher,
      and the first that does not answers with its power, rounds and result.
      It stops only then, so some attempt must succeed. */
  method LeastAttackPower(initial: Combat) returns (power: int, rounds: nat, fight: FightResult)
    requires Apart(initial.State())
    requires exists fuel :: PowerSearch(Rounds(ShortestPaths), initial.State(), FIRST_FAKED_POWER, fuel).Some?
    ensures LeastWinning(Rounds(ShortestPaths), initial.State(), power, rounds, fight)
  {
    ghost var init := initial.State();
    ghost var fuel: nat :| PowerSearch(Rounds(ShortestPaths), init, FIRST_FAKED_POWER, fuel).Some?;
    ghost var goal := PowerSearch(Rounds(ShortestPaths), init, FIRST_FAKED_POWER, fuel).value;
    PowerSearchWins(Rounds(ShortestPaths), init, fuel);
    ghost var f := fuel;
    power := FIRST_FAKED_POWER;
    rounds, fight := 0, Ongoing;
    var searching := true;
    while searching
      invariant searching ==> PowerSearch(Rounds(ShortestPaths), init, power, f) == Some(goal)
      invariant !searching ==> goal.0 == power && rounds == goal.1.rounds && fight == Outcome(goal.1.elves, goal.1.goblins)
      decreases f
    {
      var lostLives, next;
      lostLives, rounds, fight, next, f := TryPower(initial, power, f, goal);
      if lostLives > 0 {
        power := next;
      } else {
        searching := false;
      }
    }
  }

  /** `fake_fight`, part two: the outcome of the fight at the least attack
      power at which no Elf falls. */
  method Part2(combatMap: Combat) returns (outcome: int)
    requires Apart(combatMap.State())
    requires exists fuel :: PowerSearch(Rounds(ShortestPaths), combatMap.State(), FIRST_FAKED_POWER, fuel).Some?
    ensures exists power, rounds: nat, fight :: LeastWinning(Rounds(ShortestPaths), combatMap.State(), power, rounds, fight)
                                               && outcome == CalculateOutcome(fight, rounds)
  {
    var power, rounds, fight := LeastAttackPower(combatMap);
    outcome := CalculateOutcome(fight, rounds);
  }

  // ---------------------------------------------------------------------
  // Reading the cave (`parse`)

  /** The character at `p` of the puzzle input, by row and column; `None`
      past the end of its line or below the last line. */
  function CharAt(lines: seq<string>, p: Position): (r: Option<char>)
    ensures r.Some? <==> p.y < |lines| && p.x < |lines[p.y]|
  {
    if p.y < |lines| && p.x < |lines[p.y]| then Some(lines[p.y][p.x]) else None
  }

  /** The characters `parse` accepts: open floor, a wall, an Elf, a Goblin,
      or whitespace; anything else stops it. */
  predicate Known(c: char)
  {
    c == '.' || c == '#' || c == 'E' || c == 'G' || IsWhitespace(c)
  }

  /** Some character of the input is not one `parse` accepts. */
  ghost predicate Unreadable(lines: seq<string>)
  {
    exists p :: CharAt(lines, p).Some? && !Known(CharAt(lines, p).value)
  }

  /** The units of one side as `parse` creates them: full hit points and
      ids 1, 2, ... handed out in reading order. */
  predicate Numbered(units: Units)
  {
    && (forall p <- units :: units[p].hitPoints == DEFAULT_HIT_POINTS && 1 <= units[p].id <= |units.Keys|)
    && (forall p <- units, q <- units :: Before(p, q) ==> units[p].id < units[q].id)
  }

  /** What `parse` collects: the walls and the units of each side. */
  datatype Layout = Layout(walls: set<Position>, elves: Units, goblins: Units)

  /** `layout` holds the walls, Elves and Goblins drawn in `lines`. */
  ghost predicate ReadFrom(lines: seq<string>, layout: Layout)
  {
    && (forall p :: p in layout.walls <==> CharAt(lines, p) == Some('#'))
    && (forall p :: p in layout.elves <==> CharAt(lines, p) == Some('E'))
    && (forall p :: p in layout.goblins <==> CharAt(lines, p) == Some('G'))
    && Numbered(layout.elves) && Numbered(layout.goblins)
  }

  /** A cave read from the input puts no Elf and Goblin on the same cell
      and no unit in a wall, and gives each unit of a side its own id. */
  lemma ReadApart(lines: seq<string>, layout: Layout)
    requires ReadFrom(lines, layout)
    ensures layout.elves.Keys !! layout.goblins.Keys
    ensures layout.walls !! layout.elves.Keys && layout.walls !! layout.goblins.Keys
    ensures forall p <- layout.elves, q <- layout.elves :: p != q ==> layout.elves[p].id != layout.elves[q].id
  {
    forall p <- layout.elves, q <- layout.elves | p != q
      ensures layout.elves[p].id != layout.elves[q].id
    {
      BeforeIsStrictTotalOrder(p, q, p);
    }
  }

  /** The cells of the input already read: rows above `y`, and the first `x`
      cells of row `y`. */
  predicate Seen(p: Position, y: int, x: int)
  {
    p.y < y || (p.y == y && p.x < x)
  }

  /** `cells` are the seen cells drawn as `c`. */
  ghost predicate Drawn(lines: seq<string>, y: int, x: int, cells: set<Position>, c: char)
  {
    forall p :: p in cells <==> Seen(p, y, x) && CharAt(lines, p) == Some(c)
  }

  /** Every seen character is one `parse` accepts. */
  ghost predicate KnownUpTo(lines: seq<string>, y: int, x: int)
  {
    forall p :: Seen(p, y, x) && CharAt(lines, p).Some? ==> Known(CharAt(lines, p).value)
  }

  /** The layout read so far holds what the seen cells draw, with its ids
      handed out in reading order. */
  ghost predicate ReadUpTo(lines: seq<string>, y: int, x: int, walls: set<Position>, elves: Units, goblins: Units)
  {
    && Drawn(lines, y, x, walls, '#') && Drawn(lines, y, x, elves.Keys, 'E') && Drawn(lines, y, x, goblins.Keys, 'G')
    && KnownUpTo(lines, y, x) && Numbered(elves) && Numbered(goblins)
  }

  /** Adding a unit after all others in reading order with the next id
      keeps a side numbered. */
  lemma NumberedAdd(units: Units, p: Position, id: nat)
    requires Numbered(units) && p !in units && id == |units.Keys| + 1
    requires forall q <- units :: Before(q, p)
    ensures Numbered(units[p := Unit(id, DEFAULT_HIT_POINTS)])
  {
    assert units[p := Unit(id, DEFAULT_HIT_POINTS)].Keys == units.Keys + {p};
  }

  /** Reading one more cell of row `y` adds it to the cells of its
      character. */
  lemma DrawnStep(lines: seq<string>, y: nat, x: nat, cells0: set<Position>, cells: set<Position>, c: char)
    requires y < |lines| && x < |lines[y]| && y <= MAX_COORD && x <= MAX_COORD
    requires Drawn(lines, y, x, cells0, c)
    requires cells == if lines[y][x] == c then cells0 + {Position(x, y)} else cells0
    ensures Drawn(lines, y, x + 1, cells, c)
  {
    assert CharAt(lines, Position(x, y)) == Some(lines[y][x]);
  }

  /** Reading one more accepted cell of row `y`. */
  lemma KnownStep(lines: seq<string>, y: nat, x: nat)
    requires y < |lines| && x < |lines[y]| && y <= MAX_COORD && x <= MAX_COORD
    requires KnownUpTo(lines, y, x) && Known(lines[y][x])
    ensures KnownUpTo(lines, y, x + 1)
  {
    assert CharAt(lines, Position(x, y)) == Some(lines[y][x]);
  }

  /** The cells read so far all come before the cell at column `x` of row
      `y`. */
  lemma SeenBefore(lines: seq<string>, y: nat, x: nat, cells: set<Position>, c: char)
    requires y <= MAX_COORD && x <= MAX_COORD && Drawn(lines, y, x, cells, c)
    ensures Position(x, y) !in cells && forall q <- cells :: Before(q, Position(x, y))
  {
  }

  /** Reading one more cell of row `y`: a unit of the side drawn as `c`
      joins it with the next id. */
  lemma UnitsStep(lines: seq<string>, y: nat, x: nat, units0: Units, units: Units, c: char)
    requires y < |lines| && x < |lines[y]| && y <= MAX_COORD && x <= MAX_COORD
    requires Drawn(lines, y, x, units0.Keys, c) && Numbered(units0)
    requires units == if lines[y][x] == c then units0[Position(x, y) := Unit(|units0.Keys| + 1, DEFAULT_HIT_POINTS)] else units0
    ensures Drawn(lines, y, x + 1, units.Keys, c) && Numbered(units)
    ensures |units.Keys| == |units0.Keys| + (if lines[y][x] == c then 1 else 0)
  {
    var position := Position(x, y);
    SeenBefore(lines, y, x, units0.Keys, c);
    if lines[y][x] == c {
      NumberedAdd(units0, position, |units0.Keys| + 1);
      assert units.Keys == units0.Keys + {position};
    }
    DrawnStep(lines, y, x, units0.Keys, units.Keys, c);
  }

  /** Reading one more accepted cell of row `y`: a wall joins the walls, a
      unit joins its side with the next id. */
  lemma ReadStep(lines: seq<string>, y: nat, x: nat, walls0: set<Position>, elves0: Units, goblins0: Units,
                 walls: set<Position>, elves: Units, goblins: Units)
    requires y < |lines| && x < |lines[y]| && y <= MAX_COORD && x <= MAX_COORD
    requires ReadUpTo(lines, y, x, walls0, elves0, goblins0) && Known(lines[y][x])
    requires walls == if lines[y][x] == '#' then walls0 + {Position(x, y)} else walls0
    requires elves == if lines[y][x] == 'E' then elves0[Position(x, y) := Unit(|elves0.Keys| + 1, DEFAULT_HIT_POINTS)] else elves0
    requires goblins == if lines[y][x] == 'G' then goblins0[Position(x, y) := Unit(|goblins0.Keys| + 1, DEFAULT_HIT_POINTS)] else goblins0
    ensures ReadUpTo(lines, y, x + 1, walls, elves, goblins)
    ensures |elves.Keys| == |elves0.Keys| + (if lines[y][x] == 'E' then 1 else 0)
    ensures |goblins.Keys| == |goblins0.Keys| + (if lines[y][x] == 'G' then 1 else 0)
  {
    DrawnStep(lines, y, x, walls0, walls, '#');
    UnitsStep(lines, y, x, elves0, elves, 'E');
    UnitsStep(lines, y, x, goblins0, goblins, 'G');
    KnownStep(lines, y, x);
  }

  /** The cell at column `x` of row `y`: `parse`'s `match`. Returns
      `false` on a character it does not accept. */
  method ReadCell(lines: seq<string>, y: nat, x: nat, elfIds: IdSequence, goblinIds: IdSequence,
                  walls0: set<Position>, elves0: Units, goblins0: Units)
    returns (ok: bool, walls: set<Position>, elves: Units, goblins: Units)
    requires y < |lines| && x < |lines[y]| && y <= MAX_COORD && x <= MAX_COORD
    requires elfIds != goblinIds
    requires ReadUpTo(lines, y, x, walls0, elves0, goblins0)
    requires elfIds.last == |elves0.Keys| && goblinIds.last == |goblins0.Keys|
    modifies elfIds, goblinIds
    ensures ok <==> Known(lines[y][x])
    ensures ok ==> ReadUpTo(lines, y, x + 1, walls, elves, goblins)
    ensures ok ==> elfIds.last == |elves.Keys| && goblinIds.last == |goblins.Keys|
  {
    var position := Position(x, y);
    walls, elves, goblins := walls0, elves0, goblins0;
    ok := true;
    var c := lines[y][x];
    if c == '#' {
      walls := walls + {position};
    } else if c == 'E' {
      var id := elfIds.NextVal();
      elves := elves[position := Unit(id, DEFAULT_HIT_POINTS)];
    } else if c == 'G' {
      var id := goblinIds.NextVal();
      goblins := goblins[position := Unit(id, DEFAULT_HIT_POINTS)];
    } else {
      ok := c == '.' || IsWhitespace(c);
    }
    if ok {
      ReadStep(lines, y, x, walls0, elves0, goblins0, walls, elves, goblins);
    }
  }

  /** `parse` without building the combat: the layout drawn in `lines`,
      or `None` where `parse` panics on a character it does not accept. */
  method ReadCave(lines: seq<string>) returns (r: Option<Layout>)
    requires |lines| <= MAX_COORD + 1 && forall l <- lines :: |l| <= MAX_COORD + 1
    ensures r.None? <==> Unreadable(lines)
    ensures r.Some? ==> ReadFrom(lines, r.value)
  {
    var elfIds := new IdSequence(1);
    var goblinIds := new IdSequence(1);
    var walls: set<Position> := {};
    var elves: Units := map[];
    var goblins: Units := map[];
    var y := 0;
    while y < |lines|
      invariant y <= |lines|
      invariant ReadUpTo(lines, y, 0, walls, elves, goblins)
      invariant elfIds.last == |elves.Keys| && goblinIds.last == |goblins.Keys|
    {
      var x := 0;
      assert lines[y] in lines;
      while x < |lines[y]|
        invariant x <= |lines[y]|
        invariant ReadUpTo(lines, y, x, walls, elves, goblins)
        invariant elfIds.last == |elves.Keys| && goblinIds.last == |goblins.Keys|
      {
        var ok;
        ok, walls, elves, goblins := ReadCell(lines, y, x, elfIds, goblinIds, walls, elves, goblins);
        if !ok {
          assert CharAt(lines, Position(x, y)) == Some(lines[y][x]);
          return None;
        }
        x := x + 1;
      }
      RowDone(lines, y, walls, elves, goblins);
      y := y + 1;
    }
    assert forall p :: CharAt(lines, p).Some? ==> Seen(p, |lines|, 0);
    r := Some(Layout(walls, elves, goblins));
  }

  /** A row read to its end is the start of the next. */
  lemma RowDone(lines: seq<string>, y: nat, walls: set<Position>, elves: Units, goblins: Units)
    requires y < |lines| && ReadUpTo(lines, y, |lines[y]|, walls, elves, goblins)
    ensures ReadUpTo(lines, y + 1, 0, walls, elves, goblins)
  {
    assert forall p :: Seen(p, y + 1, 0) && CharAt(lines, p).Some? ==> Seen(p, y, |lines[y]|);
  }

  /** `parse`: the combat drawn in the puzzle input, both sides at the
      default power and no round fought; `None` where `parse` panics. */
  method Parse(input: string) returns (r: Option<Combat>)
    requires |Lines(input)| <= MAX_COORD + 1 && forall l <- Lines(input) :: |l| <= MAX_COORD + 1
    ensures r.None? <==> Unreadable(Lines(input))
    ensures r.Some? ==> && fresh(r.value) && Apart(r.value.State())
                        && exists layout :: ReadFrom(Lines(input), layout)
                                            && r.value.State() == Battle(layout.walls, layout.elves, layout.goblins, 0,
                                                                         DEFAULT_ATTACK_POWER, DEFAULT_ATTACK_POWER)
  {
    var layout := ReadCave(Lines(input));
    if layout.None? {
      return None;
    }
    ReadApart(Lines(input), layout.value);
    var combat := new Combat(layout.value.walls, layout.value.elves, layout.value.goblins);
    r := Some(combat);
  }
}
