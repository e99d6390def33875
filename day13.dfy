// Day 13: Mine Cart Madness. Carts ride a network of rails; every tick moves
// each cart one cell in reading order (top row first, left to right), curves
// and intersections turn them, and two carts meeting on one cell crash and
// are taken off the tracks.
module Day13 {
  import opened Common

  /** A cell of the track map; `y` grows downward, `x` to the right. */
  datatype Position = Position(x: int, y: int)

  /** `Ord for Position`: the row decides first, the column breaks ties. */
  function Cmp(a: Position, b: Position): Ordering
  {
    if a.y == b.y then
      if a.x == b.x then Equal else if a.x < b.x then Less else Greater
    else if a.y < b.y then Less
    else Greater
  }

  /** Reading order: `a` lies in an earlier row, or in the same row to the left. */
  predicate ReadsBefore(a: Position, b: Position)
  {
    a.y < b.y || (a.y == b.y && a.x < b.x)
  }

  /** `Cmp` is the total order of reading positions: equal exactly for the
      same cell, less exactly when `a` reads before `b`, and antisymmetric. */
  lemma CmpIsReadingOrder(a: Position, b: Position)
    ensures Cmp(a, b) == Equal <==> a == b
    ensures Cmp(a, b) == Less <==> ReadsBefore(a, b)
    ensures Cmp(a, b) == Greater <==> ReadsBefore(b, a)
    ensures Cmp(a, b) == Less <==> Cmp(b, a) == Greater
  {
  }

  /** `Cmp` is transitive. */
  lemma CmpTransitive(a: Position, b: Position, c: Position)
    ensures Cmp(a, b) != Greater && Cmp(b, c) != Greater ==> Cmp(a, c) != Greater
    ensures Cmp(a, b) == Less && Cmp(b, c) != Greater ==> Cmp(a, c) == Less
  {
  }

  // ---------------------------------------------------------------------
  // Directions, rails and single steps

  datatype Direction = North | East | South | West

  /** What a cart does at its next intersection. */
  datatype AtIntersection = TurnLeft | GoStraight | TurnRight

  /** A fresh cart turns left at its first intersection. */
  const DefaultAtIntersection: AtIntersection := TurnLeft

  /** `AtIntersection::next`: left, straight, right, and round again. */
  function Next(a: AtIntersection): (r: AtIntersection)
    ensures r != a
  {
    match a
    case TurnLeft => GoStraight
    case GoStraight => TurnRight
    case TurnRight => TurnLeft
  }

  /** Three intersections bring a cart back to the same choice, and the
      cycle starting at the default visits every choice. */
  lemma NextHasPeriodThree(a: AtIntersection)
    ensures Next(Next(Next(a))) == a
    ensures Next(a) != a && Next(Next(a)) != a
    ensures {DefaultAtIntersection, Next(DefaultAtIntersection), Next(Next(DefaultAtIntersection))}
            == {TurnLeft, GoStraight, TurnRight}
  {
  }

  datatype RailKind = NorthSouth | WestEast | RightTurn | LeftTurn | Intersection

  /** `From<Direction> for RailKind`: the straight rail a cart facing
      `d` can stand on. */
  function RailOf(d: Direction): (r: RailKind)
    ensures r == NorthSouth || r == WestEast
    ensures Fits(d, r)
  {
    match d
    case North => NorthSouth
    case East => WestEast
    case South => NorthSouth
    case West => WestEast
  }

  /** A cart can pass the rail without turning off it. */
  predicate Fits(d: Direction, rail: RailKind)
  {
    match rail
    case NorthSouth => d == North || d == South
    case WestEast => d == East || d == West
    case _ => true
  }

  function LeftOf(d: Direction): Direction
  {
    match d
    case North => West
    case West => South
    case South => East
    case East => North
  }

  function RightOf(d: Direction): Direction
  {
    match d
    case North => East
    case East => South
    case South => West
    case West => North
  }

  /** Left and right are inverse quarter turns, and four quarter turns
      make a full circle. */
  lemma QuarterTurns(d: Direction)
    ensures RightOf(LeftOf(d)) == d && LeftOf(RightOf(d)) == d
    ensures LeftOf(LeftOf(LeftOf(LeftOf(d)))) == d
    ensures LeftOf(d) != d && RightOf(d) != d && LeftOf(d) != RightOf(d)
  {
  }

  /** The curve `/`: a cart heading north or south turns right, one heading
      east or west turns left. */
  function SlashCurve(d: Direction): Direction
  {
    if d == North || d == South then RightOf(d) else LeftOf(d)
  }

  /** The curve `\`: the mirror image of `/`. */
  function BackslashCurve(d: Direction): Direction
  {
    if d == North || d == South then LeftOf(d) else RightOf(d)
  }

  /** Each curve reflects a cart, so riding through it backwards undoes it. */
  lemma CurvesAreMirrors(d: Direction)
    ensures SlashCurve(d) != d && BackslashCurve(d) != d
    ensures SlashCurve(RightOf(RightOf(SlashCurve(d)))) == RightOf(RightOf(d))
    ensures BackslashCurve(RightOf(RightOf(BackslashCurve(d)))) == RightOf(RightOf(d))
  {
  }

  /** The neighbouring cell in direction `d`. */
  function Ahead(p: Position, d: Direction): Position
  {
    match d
    case North => p.(y := p.y - 1)
    case South => p.(y := p.y + 1)
    case West => p.(x := p.x - 1)
    case East => p.(x := p.x + 1)
  }

  /** `Ahead` is one cell away in a different row or column, and turning
      round leads back. */
  lemma AheadIsNeighbour(p: Position, d: Direction)
    ensures Abs(Ahead(p, d).x - p.x) + Abs(Ahead(p, d).y - p.y) == 1
    ensures Ahead(Ahead(p, d), RightOf(RightOf(d))) == p
  {
  }

  /** The direction a cart leaves a rail in, or `None` when it cannot ride it. */
  function Heading(d: Direction, rail: RailKind, choice: AtIntersection): Option<Direction>
  {
    match rail
    case NorthSouth => if Fits(d, rail) then Some(d) else None
    case WestEast => if Fits(d, rail) then Some(d) else None
    case RightTurn => Some(SlashCurve(d))
    case LeftTurn => Some(BackslashCurve(d))
    case Intersection =>
      Some(match choice
           case TurnLeft => LeftOf(d)
           case GoStraight => d
           case TurnRight => RightOf(d))
  }

  /** A cart: its number, where it stands, where it faces and what it will
      do at the next intersection. */
  datatype Cart = Cart(number: nat, position: Position, direction: Direction, atIntersection: AtIntersection)

  /** `Cart::new`. */
  function NewCart(number: nat, position: Position, direction: Direction): (c: Cart)
    ensures c.atIntersection == TurnLeft
  {
    Cart(number, position, direction, DefaultAtIntersection)
  }

  /** The cart after one step on `rail`, or `None` for an illegal move. */
  function Step(cart: Cart, rail: RailKind): Option<Cart>
  {
    match Heading(cart.direction, rail, cart.atIntersection)
    case None => None
    case Some(d) =>
      Some(cart.(position := Ahead(cart.position, d),
                 direction := d,
                 atIntersection := if rail == Intersection then Next(cart.atIntersection) else cart.atIntersection))
  }

  /** A move either fails only on a straight rail crossed at right angles,
      or takes the cart exactly one cell in the direction it then faces,
      keeps its number, keeps its direction on a straight rail and turns it
      a quarter on a curve, and uses up its intersection choice exactly
      when the rail is an intersection. */
  lemma StepSpec(cart: Cart, rail: RailKind)
    ensures Step(cart, rail).None? <==> !Fits(cart.direction, rail)
    ensures Step(cart, rail).Some? ==>
      var moved := Step(cart, rail).value;
      && moved.number == cart.number
      && moved.position == Ahead(cart.position, moved.direction)
      && Abs(moved.position.x - cart.position.x) + Abs(moved.position.y - cart.position.y) == 1
      && (rail == NorthSouth || rail == WestEast ==> moved.direction == cart.direction)
      && (rail == RightTurn || rail == LeftTurn ==>
            moved.direction == LeftOf(cart.direction) || moved.direction == RightOf(cart.direction))
      && (moved.atIntersection != cart.atIntersection <==> rail == Intersection)
  {
    if Step(cart, rail).Some? {
      AheadIsNeighbour(cart.position, Step(cart, rail).value.direction);
    }
  }

  datatype MoveResult = Moved | Collision(cart: Cart, other: Cart) | IllegalMove(direction: Direction, rail: RailKind)

  /** `Cart::move_one_step`, one arm per direction and rail as the source
      has it; the cart comes back unchanged when the move is illegal. */
  method MoveOneStep(cart: Cart, rail: RailKind) returns (result: MoveResult, moved: Cart)
    ensures result.Moved? || result == IllegalMove(cart.direction, rail)
    ensures result.Moved? <==> Step(cart, rail).Some?
    ensures result.Moved? ==> Step(cart, rail) == Some(moved)
    ensures result.IllegalMove? ==> moved == cart
  {
    moved := cart;
    var p := cart.position;
    match (cart.direction, rail) {
      case (North, NorthSouth) =>
        moved := moved.(position := p.(y := p.y - 1));
      case (South, NorthSouth) =>
        moved := moved.(position := p.(y := p.y + 1));
      case (West, WestEast) =>
        moved := moved.(position := p.(x := p.x - 1));
      case (East, WestEast) =>
        moved := moved.(position := p.(x := p.x + 1));
      case (North, LeftTurn) =>
        moved := moved.(direction := West, position := p.(x := p.x - 1));
      case (South, LeftTurn) =>
        moved := moved.(direction := East, position := p.(x := p.x + 1));
      case (West, LeftTurn) =>
        moved := moved.(direction := North, position := p.(y := p.y - 1));
      case (East, LeftTurn) =>
        moved := moved.(direction := South, position := p.(y := p.y + 1));
      case (North, RightTurn) =>
        moved := moved.(direction := East, position := p.(x := p.x + 1));
      case (South, RightTurn) =>
        moved := moved.(direction := West, position := p.(x := p.x - 1));
      case (West, RightTurn) =>
        moved := moved.(direction := South, position := p.(y := p.y + 1));
      case (East, RightTurn) =>
        moved := moved.(direction := North, position := p.(y := p.y - 1));
      case (North, Intersection) =>
        match cart.atIntersection {
          case TurnLeft => moved := moved.(direction := West, position := p.(x := p.x - 1));
          case GoStraight => moved := moved.(position := p.(y := p.y - 1));
          case TurnRight => moved := moved.(direction := East, position := p.(x := p.x + 1));
        }
        moved := moved.(atIntersection := Next(cart.atIntersection));
      case (South, Intersection) =>
        match cart.atIntersection {
          case TurnLeft => moved := moved.(direction := East, position := p.(x := p.x + 1));
          case GoStraight => moved := moved.(position := p.(y := p.y + 1));
          case TurnRight => moved := moved.(direction := West, position := p.(x := p.x - 1));
        }
        moved := moved.(atIntersection := Next(cart.atIntersection));
      case (West, Intersection) =>
        match cart.atIntersection {
          case TurnLeft => moved := moved.(direction := South, position := p.(y := p.y + 1));
          case GoStraight => moved := moved.(position := p.(x := p.x - 1));
          case TurnRight => moved := moved.(direction := North, position := p.(y := p.y - 1));
        }
        moved := moved.(atIntersection := Next(cart.atIntersection));
      case (East, Intersection) =>
        match cart.atIntersection {
          case TurnLeft => moved := moved.(direction := North, position := p.(y := p.y - 1));
          case GoStraight => moved := moved.(position := p.(x := p.x + 1));
          case TurnRight => moved := moved.(direction := South, position := p.(y := p.y + 1));
        }
        moved := moved.(atIntersection := Next(cart.atIntersection));
      case (_, _) =>
        return IllegalMove(cart.direction, rail), cart;
    }
    result := Moved;
  }

  // ---------------------------------------------------------------------
  // Sorting carts into reading order

  function Positions(carts: seq<Cart>): set<Position>
  {
    set c | c in carts :: c.position
  }

  function Numbers(carts: seq<Cart>): set<nat>
  {
    set c | c in carts :: c.number
  }

  /** No two carts share a cell or a number. */
  predicate Distinct(carts: seq<Cart>)
  {
    forall i, j :: 0 <= i < j < |carts| ==>
      carts[i].position != carts[j].position && carts[i].number != carts[j].number
  }

  predicate SortedByPosition(carts: seq<Cart>)
  {
    forall i, j :: 0 <= i < j < |carts| ==> Cmp(carts[i].position, carts[j].position) != Greater
  }

  /** Puts `c` in front of the first cart that does not read before it. */
  function Insert(c: Cart, carts: seq<Cart>): seq<Cart>
  {
    if carts == [] || Cmp(c.position, carts[0].position) != Greater then [c] + carts
    else [carts[0]] + Insert(c, carts[1..])
  }

  /** `sort_unstable_by_key(|cart| cart.position)`, as an insertion sort. */
  function SortByPosition(carts: seq<Cart>): seq<Cart>
  {
    if carts == [] then [] else Insert(carts[0], SortByPosition(carts[1..]))
  }

  /** Insertion adds exactly `c`. */
  lemma {:induction false} InsertElements(c: Cart, carts: seq<Cart>)
    ensures multiset(Insert(c, carts)) == multiset(carts) + multiset{c}
  {
    if carts != [] && Cmp(c.position, carts[0].position) == Greater {
      InsertElements(c, carts[1..]);
      assert carts == [carts[0]] + carts[1..];
    }
  }

  lemma {:induction false} InsertSorted(c: Cart, carts: seq<Cart>)
    requires SortedByPosition(carts)
    ensures SortedByPosition(Insert(c, carts))
  {
    var r := Insert(c, carts);
    if carts == [] || Cmp(c.position, carts[0].position) != Greater {
      forall j | 0 < j < |r| ensures Cmp(r[0].position, r[j].position) != Greater {
        CmpTransitive(c.position, carts[0].position, r[j].position);
      }
    } else {
      var rest := Insert(c, carts[1..]);
      InsertSorted(c, carts[1..]);
      InsertElements(c, carts[1..]);
      forall j | 0 < j < |r| ensures Cmp(r[0].position, r[j].position) != Greater {
        assert r[j] == rest[j - 1];
        assert r[j] in multiset(rest);
        if r[j] != c {
          assert r[j] in carts[1..];
        }
      }
    }
  }

  /** `c` joins distinct carts as a distinct cart when its cell and number are new. */
  lemma {:induction false} InsertDistinct(c: Cart, carts: seq<Cart>)
    requires Distinct(carts) && c.position !in Positions(carts) && c.number !in Numbers(carts)
    ensures Distinct(Insert(c, carts))
  {
    var r := Insert(c, carts);
    if carts != [] && Cmp(c.position, carts[0].position) == Greater {
      var rest := Insert(c, carts[1..]);
      assert c.position !in Positions(carts[1..]) && c.number !in Numbers(carts[1..]);
      InsertDistinct(c, carts[1..]);
      InsertElements(c, carts[1..]);
      forall j | 0 < j < |r| ensures r[0].position != r[j].position && r[0].number != r[j].number {
        assert r[j] == rest[j - 1];
        assert r[j] in multiset(rest);
        if r[j] != c {
          var k :| 0 <= k < |carts[1..]| && carts[1..][k] == r[j];
          assert carts[k + 1] == r[j];
        }
      }
    }
  }

  /** Sorting yields the same carts in reading order. */
  lemma {:induction false} SortByPositionSpec(carts: seq<Cart>)
    ensures SortedByPosition(SortByPosition(carts))
    ensures multiset(SortByPosition(carts)) == multiset(carts)
  {
    if carts != [] {
      var rest := SortByPosition(carts[1..]);
      SortByPositionSpec(carts[1..]);
      InsertSorted(carts[0], rest);
      InsertElements(carts[0], rest);
      assert carts == [carts[0]] + carts[1..];
    }
  }

  /** Sorting keeps distinct carts distinct. */
  lemma {:induction false} SortKeepsDistinct(carts: seq<Cart>)
    requires Distinct(carts)
    ensures Distinct(SortByPosition(carts))
  {
    if carts != [] {
      var rest := SortByPosition(carts[1..]);
      assert Distinct(carts[1..]);
      SortKeepsDistinct(carts[1..]);
      SortByPositionSpec(carts[1..]);
      forall c | c in rest ensures c.position != carts[0].position && c.number != carts[0].number {
        assert c in multiset(carts[1..]);
        var k :| 0 <= k < |carts[1..]| && carts[1..][k] == c;
        assert carts[k + 1] == c;
      }
      InsertDistinct(carts[0], rest);
    }
  }

  // ---------------------------------------------------------------------
  // One tick

  /** The `find_map` in `move_carts`: the first cart that differs from
      `cart` but stands on its cell. */
  function FindOther(carts: seq<Cart>, cart: Cart): (r: Option<Cart>)
    ensures r.Some? ==> r.value in carts && r.value != cart && r.value.position == cart.position
    ensures r.None? <==> forall c <- carts :: c == cart || c.position != cart.position
  {
    if carts == [] then None
    else if carts[0] != cart && carts[0].position == cart.position then Some(carts[0])
    else FindOther(carts[1..], cart)
  }

  /** `position(|c| *c == cart)`: the index of the first cart equal to `cart`. */
  function IndexOf(carts: seq<Cart>, cart: Cart): (r: Option<nat>)
    ensures r.Some? ==> r.value < |carts| && carts[r.value] == cart
    ensures r.None? <==> cart !in carts
  {
    if carts == [] then None
    else if carts[0] == cart then Some(0)
    else match IndexOf(carts[1..], cart)
         case None => None
         case Some(i) => Some(i + 1)
  }

  /** `Vec::remove`. */
  function RemoveAt(carts: seq<Cart>, i: nat): (r: seq<Cart>)
    requires i < |carts|
    ensures |r| == |carts| - 1
  {
    carts[..i] + carts[i + 1..]
  }

  /** One turn of the removal loop: `cart` leaves the list if it is in it,
      and the count of processed carts drops when it came from before it. */
  function Remove(carts: seq<Cart>, processed: nat, cart: Cart): (r: (seq<Cart>, nat))
    requires processed <= |carts|
    ensures r.1 <= |r.0|
    ensures cart in carts ==> |r.0| == |carts| - 1 && processed - 1 <= r.1 <= processed
    ensures cart !in carts ==> r == (carts, processed)
  {
    match IndexOf(carts, cart)
    case None => (carts, processed)
    case Some(i) => (RemoveAt(carts, i), if i < processed then processed - 1 else processed)
  }

  /** The removal loop over `victims`, in order. */
  function RemoveEach(carts: seq<Cart>, processed: nat, victims: seq<Cart>): (r: (seq<Cart>, nat))
    requires processed <= |carts|
    ensures r.1 <= |r.0|
    ensures 2 * |r.0| - r.1 <= 2 * |carts| - processed
    decreases |victims|
  {
    if victims == [] then (carts, processed)
    else
      var (c, p) := RemoveEach(carts, processed, victims[..|victims| - 1]);
      Remove(c, p, victims[|victims| - 1])
  }

  /** How a tick ends: a missing rail under a cart panics, otherwise a
      move result comes back. */
  datatype TickEnd = Panicked | Ended(result: MoveResult)

  /** The rest of a tick once the first `processed` carts have moved, with
      `result` the outcome so far. The cart next in line moves; if another
      cart stands where it lands, both are removed, the first such crash is
      the one reported, and the tick goes on with the remaining carts. */
  function TickFrom(rails: map<Position, RailKind>, carts: seq<Cart>, processed: nat, result: MoveResult): (TickEnd, seq<Cart>)
    requires processed <= |carts|
    decreases 2 * |carts| - processed
  {
    if processed == |carts| then (Ended(result), carts)
    else
      var cart := carts[processed];
      if cart.position !in rails then (Panicked, carts)
      else
        var rail := rails[cart.position];
        match Step(cart, rail)
        case None => (Ended(IllegalMove(cart.direction, rail)), carts)
        case Some(moved) =>
          var next := carts[processed := moved];
          match FindOther(next, moved)
          case None => TickFrom(rails, next, processed + 1, result)
          case Some(other) =>
            var (c1, p1) := Remove(next, processed + 1, other);
            var (c2, p2) := Remove(c1, p1, moved);
            TickFrom(rails, c2, p2, if result == Moved then Collision(moved, other) else result)
  }

  /** A whole tick: the carts in reading order, each moved in turn. */
  function Tick(rails: map<Position, RailKind>, carts: seq<Cart>): (TickEnd, seq<Cart>)
  {
    TickFrom(rails, SortByPosition(carts), 0, Moved)
  }

  lemma RemoveAtElements(carts: seq<Cart>, i: nat)
    requires i < |carts|
    ensures forall c <- RemoveAt(carts, i) :: c in carts
    ensures forall j :: 0 <= j < |carts| && j != i ==> carts[j] in RemoveAt(carts, i)
  {
    var r := RemoveAt(carts, i);
    forall j | 0 <= j < |carts| && j != i ensures carts[j] in r {
      if j < i { assert r[j] == carts[j]; } else { assert r[j - 1] == carts[j]; }
    }
  }

  lemma RemoveAtKeepsDistinct(carts: seq<Cart>, i: nat)
    requires i < |carts| && Distinct(carts)
    ensures Distinct(RemoveAt(carts, i))
  {
    var r := RemoveAt(carts, i);
    forall a, b | 0 <= a < b < |r| ensures r[a].position != r[b].position && r[a].number != r[b].number {
      var a' := if a < i then a else a + 1;
      var b' := if b < i then b else b + 1;
      assert r[a] == carts[a'] && r[b] == carts[b'];
    }
  }

  /** A cart that lands on a free cell leaves distinct carts distinct. */
  lemma FreeStep(carts: seq<Cart>, p: nat, moved: Cart)
    requires Distinct(carts) && p < |carts| && moved.number == carts[p].number
    requires FindOther(carts[p := moved], moved).None?
    ensures Distinct(carts[p := moved])
  {
    var next := carts[p := moved];
    forall a, b | 0 <= a < b < |next| ensures next[a].position != next[b].position && next[a].number != next[b].number {
      assert next[a] in next && next[b] in next;
    }
  }

  /** Once the other cart on the crash cell is gone, the carts are distinct again. */
  lemma OtherRemovedDistinct(carts: seq<Cart>, p: nat, moved: Cart, i: nat)
    requires Distinct(carts) && p < |carts| && i < |carts| && i != p
    requires moved.number == carts[p].number && carts[i].position == moved.position
    ensures Distinct(RemoveAt(carts[p := moved], i))
  {
    var next := carts[p := moved];
    var c1 := RemoveAt(next, i);
    forall a, b | 0 <= a < b < |c1| ensures c1[a].position != c1[b].position && c1[a].number != c1[b].number {
      var a' := if a < i then a else a + 1;
      var b' := if b < i then b else b + 1;
      assert c1[a] == next[a'] && c1[b] == next[b'];
    }
  }

  /** A crash takes exactly the two carts on the crash cell off the list,
      and leaves distinct carts distinct. */
  lemma CrashStep(carts: seq<Cart>, p: nat, moved: Cart, other: Cart)
    requires p < |carts| && moved.number == carts[p].number
    requires FindOther(carts[p := moved], moved) == Some(other)
    ensures var (c1, p1) := Remove(carts[p := moved], p + 1, other);
            var (c2, p2) := Remove(c1, p1, moved);
            && |c2| == |carts| - 2
            && (forall c <- c2 :: c in carts[p := moved])
            && (Distinct(carts) ==> Distinct(c2))
  {
    var next := carts[p := moved];
    var i := IndexOf(next, other).value;
    assert i != p;
    var (c1, p1) := Remove(next, p + 1, other);
    assert c1 == RemoveAt(next, i);
    RemoveAtElements(next, i);
    assert next[p] == moved;
    assert moved in c1;
    var j := IndexOf(c1, moved).value;
    var (c2, p2) := Remove(c1, p1, moved);
    assert c2 == RemoveAt(c1, j);
    RemoveAtElements(c1, j);
    if Distinct(carts) {
      OtherRemovedDistinct(carts, p, moved, i);
      RemoveAtKeepsDistinct(c1, j);
    }
  }

  /** Unfolds the removal loop over the crashed pair. */
  lemma RemoveEachPair(carts: seq<Cart>, processed: nat, other: Cart, moved: Cart)
    requires processed <= |carts|
    ensures var (c1, p1) := Remove(carts, processed, other);
            RemoveEach(carts, processed, [other, moved]) == Remove(c1, p1, moved)
  {
    assert [other, moved][..1] == [other];
    assert [other][..0] == [];
    assert RemoveEach(carts, processed, [other]) == Remove(carts, processed, other);
  }

  /** The cart at `p` moves to a cell outside `occupied` (the cells of
      the other carts, possibly with old crash cells): no cart is hit, the
      carts stay distinct, and the tick carries on with the next cart. */
  lemma FreeMove(rails: map<Position, RailKind>, carts: seq<Cart>, p: nat, result: MoveResult, moved: Cart, occupied: set<Position>)
    requires p < |carts| && Distinct(carts)
    requires carts[p].position in rails && Step(carts[p], rails[carts[p].position]) == Some(moved)
    requires forall k :: 0 <= k < |carts| && k != p ==> carts[k].position in occupied
    requires moved.position !in occupied
    ensures Distinct(carts[p := moved])
    ensures TickFrom(rails, carts, p, result) == TickFrom(rails, carts[p := moved], p + 1, result)
  {
    var next := carts[p := moved];
    StepSpec(carts[p], rails[carts[p].position]);
    forall c <- next ensures c == moved || c.position != moved.position {
      var k :| 0 <= k < |next| && next[k] == c;
    }
    FreeStep(carts, p, moved);
  }

  /** The cart at `p` lands where another cart stands: both are removed,
      and the crash is the one reported unless an earlier one was. */
  lemma CrashMove(rails: map<Position, RailKind>, carts: seq<Cart>, p: nat, result: MoveResult, moved: Cart, other: Cart)
    requires p < |carts| && Distinct(carts)
    requires carts[p].position in rails && Step(carts[p], rails[carts[p].position]) == Some(moved)
    requires FindOther(carts[p := moved], moved) == Some(other)
    ensures var (c2, p2) := RemoveEach(carts[p := moved], p + 1, [other, moved]);
            && Distinct(c2)
            && (forall c <- c2 :: c in carts[p := moved])
            && TickFrom(rails, carts, p, result)
               == TickFrom(rails, c2, p2, if result == Moved then Collision(moved, other) else result)
  {
    StepSpec(carts[p], rails[carts[p].position]);
    RemoveEachPair(carts[p := moved], p + 1, other, moved);
    CrashStep(carts, p, moved, other);
  }

  /** The cart at `p` lands on an old crash cell no cart stands on: the
      tick carries on as after a free move. */
  lemma StaleMove(rails: map<Position, RailKind>, carts: seq<Cart>, p: nat, result: MoveResult, moved: Cart)
    requires p < |carts| && Distinct(carts)
    requires carts[p].position in rails && Step(carts[p], rails[carts[p].position]) == Some(moved)
    requires FindOther(carts[p := moved], moved).None?
    ensures Distinct(carts[p := moved])
    ensures TickFrom(rails, carts, p, result) == TickFrom(rails, carts[p := moved], p + 1, result)
  {
    StepSpec(carts[p], rails[carts[p].position]);
    FreeStep(carts, p, moved);
  }

  /** The tick keeps carts on distinct cells with distinct numbers. */
  lemma {:induction false} TickKeepsDistinct(rails: map<Position, RailKind>, carts: seq<Cart>, p: nat, result: MoveResult)
    requires p <= |carts| && Distinct(carts)
    ensures Distinct(TickFrom(rails, carts, p, result).1)
    decreases 2 * |carts| - p
  {
    if p < |carts| && carts[p].position in rails {
      var moved := Step(carts[p], rails[carts[p].position]);
      if moved.Some? {
        match FindOther(carts[p := moved.value], moved.value)
        case None =>
          StaleMove(rails, carts, p, result, moved.value);
          TickKeepsDistinct(rails, carts[p := moved.value], p + 1, result);
        case Some(other) =>
          CrashMove(rails, carts, p, result, moved.value, other);
          var (c2, p2) := RemoveEach(carts[p := moved.value], p + 1, [other, moved.value]);
          TickKeepsDistinct(rails, c2, p2, if result == Moved then Collision(moved.value, other) else result);
      }
    }
  }

  /** Only the first crash of a tick is reported: once one is recorded
      the tick ends with it, unless a later cart panics or moves illegally. */
  lemma {:induction false} CrashSticks(rails: map<Position, RailKind>, carts: seq<Cart>, p: nat, result: MoveResult)
    requires p <= |carts| && result != Moved
    ensures var end := TickFrom(rails, carts, p, result).0;
            end == Panicked || end == Ended(result) || end.result.IllegalMove?
    decreases 2 * |carts| - p
  {
    if p < |carts| && carts[p].position in rails {
      var moved := Step(carts[p], rails[carts[p].position]);
      if moved.Some? {
        match FindOther(carts[p := moved.value], moved.value)
        case None =>
          CrashSticks(rails, carts[p := moved.value], p + 1, result);
        case Some(other) =>
          var (c2, p2) := RemoveEach(carts[p := moved.value], p + 1, [other, moved.value]);
          RemoveEachPair(carts[p := moved.value], p + 1, other, moved.value);
          CrashSticks(rails, c2, p2, result);
      }
    }
  }

  /** One step of a tick unfolded: the cart at `p` moves and either lands
      on a free cell or crashes, taking both carts off the list. */
  lemma TickFromStep(rails: map<Position, RailKind>, carts: seq<Cart>, p: nat, result: MoveResult)
    requires p < |carts| && carts[p].position in rails && Step(carts[p], rails[carts[p].position]).Some?
    ensures var moved := Step(carts[p], rails[carts[p].position]).value;
            var next := carts[p := moved];
            FindOther(next, moved).None? ==> TickFrom(rails, carts, p, result) == TickFrom(rails, next, p + 1, result)
    ensures var moved := Step(carts[p], rails[carts[p].position]).value;
            var next := carts[p := moved];
            FindOther(next, moved).Some? ==>
              var other := FindOther(next, moved).value;
              var c1 := Remove(next, p + 1, other);
              var c2 := Remove(c1.0, c1.1, moved);
              && |c2.0| + 2 == |carts| && c2.1 <= p + 1
              && TickFrom(rails, carts, p, result) == TickFrom(rails, c2.0, c2.1, if result == Moved then Collision(moved, other) else result)
  {
    var moved := Step(carts[p], rails[carts[p].position]).value;
    var next := carts[p := moved];
    if FindOther(next, moved).Some? {
      StepSpec(carts[p], rails[carts[p].position]);
      CrashStep(carts, p, moved, FindOther(next, moved).value);
    }
  }

  /** The tick never adds carts, and the first crash it reports takes two
      carts off the list. */
  lemma {:induction false} TickShrinks(rails: map<Position, RailKind>, carts: seq<Cart>, p: nat, result: MoveResult)
    requires p <= |carts|
    ensures var t := TickFrom(rails, carts, p, result); var end, out := t.0, t.1;
            && |out| <= |carts|
            && (result == Moved && end.Ended? && end.result.Collision? ==> |out| + 2 <= |carts|)
    decreases 2 * |carts| - p
  {
    if p < |carts| && carts[p].position in rails && Step(carts[p], rails[carts[p].position]).Some? {
      var moved := Step(carts[p], rails[carts[p].position]).value;
      var next := carts[p := moved];
      TickFromStep(rails, carts, p, result);
      if FindOther(next, moved).None? {
        TickShrinks(rails, next, p + 1, result);
      } else {
        var other := FindOther(next, moved).value;
        var c1 := Remove(next, p + 1, other);
        var c2 := Remove(c1.0, c1.1, moved);
        TickShrinks(rails, c2.0, c2.1, if result == Moved then Collision(moved, other) else result);
      }
    }
  }

  /** A reported crash is between two different carts on one cell. */
  lemma {:induction false} TickCrashMeets(rails: map<Position, RailKind>, carts: seq<Cart>, p: nat, result: MoveResult)
    requires p <= |carts|
    requires result.Collision? ==> result.cart != result.other && result.cart.position == result.other.position
    ensures var end := TickFrom(rails, carts, p, result).0;
            end.Ended? && end.result.Collision? ==>
              end.result.cart != end.result.other && end.result.cart.position == end.result.other.position
    decreases 2 * |carts| - p
  {
    if p < |carts| && carts[p].position in rails && Step(carts[p], rails[carts[p].position]).Some? {
      var moved := Step(carts[p], rails[carts[p].position]).value;
      var next := carts[p := moved];
      TickFromStep(rails, carts, p, result);
      if FindOther(next, moved).None? {
        TickCrashMeets(rails, next, p + 1, result);
      } else {
        var other := FindOther(next, moved).value;
        var c1 := Remove(next, p + 1, other);
        var c2 := Remove(c1.0, c1.1, moved);
        TickCrashMeets(rails, c2.0, c2.1, if result == Moved then Collision(moved, other) else result);
      }
    }
  }

  /** `out` is `carts` with every cart from `p` on moved one step. */
  predicate MovedFrom(rails: map<Position, RailKind>, carts: seq<Cart>, p: nat, out: seq<Cart>)
  {
    && p <= |carts| == |out|
    && out[..p] == carts[..p]
    && forall i :: p <= i < |carts| ==>
         carts[i].position in rails && Step(carts[i], rails[carts[i].position]) == Some(out[i])
  }

  lemma MovedFromStep(rails: map<Position, RailKind>, carts: seq<Cart>, p: nat, moved: Cart, out: seq<Cart>)
    requires p < |carts| && carts[p].position in rails && Step(carts[p], rails[carts[p].position]) == Some(moved)
    requires MovedFrom(rails, carts[p := moved], p + 1, out)
    ensures MovedFrom(rails, carts, p, out)
  {
    var next := carts[p := moved];
    assert out[..p + 1][..p] == out[..p] && next[..p + 1][..p] == next[..p];
    assert next[..p] == carts[..p];
    assert out[p] == out[..p + 1][p] == next[p];
    forall i | p < i < |carts|
      ensures carts[i].position in rails && Step(carts[i], rails[carts[i].position]) == Some(out[i])
    {
      assert next[i] == carts[i];
    }
  }

  /** A tick in which the next cart to move lands on another cart does
      not end with a plain move. */
  lemma CrashNeverMoved(rails: map<Position, RailKind>, carts: seq<Cart>, p: nat, result: MoveResult)
    requires p < |carts| && carts[p].position in rails
    requires Step(carts[p], rails[carts[p].position]).Some?
    requires FindOther(carts[p := Step(carts[p], rails[carts[p].position]).value], Step(carts[p], rails[carts[p].position]).value).Some?
    ensures TickFrom(rails, carts, p, result).0 != Ended(Moved)
  {
    var moved := Step(carts[p], rails[carts[p].position]).value;
    var next := carts[p := moved];
    var other := FindOther(next, moved).value;
    var result' := if result == Moved then Collision(moved, other) else result;
    var (c2, p2) := RemoveEach(next, p + 1, [other, moved]);
    RemoveEachPair(next, p + 1, other, moved);
    assert TickFrom(rails, carts, p, result) == TickFrom(rails, c2, p2, result');
    CrashSticks(rails, c2, p2, result');
  }

  /** A tick that reports no crash lost no cart and moved every cart not
      yet moved exactly one step, in place. */
  lemma {:induction false} TickWithoutCrash(rails: map<Position, RailKind>, carts: seq<Cart>, p: nat, result: MoveResult)
    requires p <= |carts|
    ensures var t := TickFrom(rails, carts, p, result); var end, out := t.0, t.1;
            end == Ended(Moved) ==> result == Moved && MovedFrom(rails, carts, p, out)
    decreases 2 * |carts| - p
  {
    if p < |carts| && carts[p].position in rails && Step(carts[p], rails[carts[p].position]).Some? {
      var moved := Step(carts[p], rails[carts[p].position]).value;
      var next := carts[p := moved];
      if FindOther(next, moved).None? {
        var out := TickFrom(rails, next, p + 1, result).1;
        assert TickFrom(rails, carts, p, result) == TickFrom(rails, next, p + 1, result);
        TickWithoutCrash(rails, next, p + 1, result);
        if TickFrom(rails, next, p + 1, result).0 == Ended(Moved) {
          MovedFromStep(rails, carts, p, moved, out);
        }
      } else {
        CrashNeverMoved(rails, carts, p, result);
      }
    }
  }

  /** The loop that takes the crashed carts off the list, each at its
      first occurrence, keeping `processed` pointing at the next cart to move. */
  method RemoveCollided(carts0: seq<Cart>, processed0: nat, victims: seq<Cart>) returns (carts: seq<Cart>, processed: nat)
    requires processed0 <= |carts0|
    ensures (carts, processed) == RemoveEach(carts0, processed0, victims)
  {
    carts, processed := carts0, processed0;
    for k := 0 to |victims|
      invariant processed <= |carts|
      invariant (carts, processed) == RemoveEach(carts0, processed0, victims[..k])
    {
      assert victims[..k + 1][..k] == victims[..k];
      var index := IndexOf(carts, victims[k]);
      if index.Some? {
        if index.value < processed {
          processed := processed - 1;
        }
        carts := RemoveAt(carts, index.value);
      }
    }
    assert victims[..|victims|] == victims;
  }

  /** One pass of the inner loop of `move_carts`: the cart at index
      `processed` leaves its cell and takes one step. A missing rail panics
      and an illegal move ends the tick, both with the carts as they are;
      a step onto an occupied cell is handed back as a collision; otherwise
      the cart's new cell is recorded as occupied. */
  method MoveNext(rails: map<Position, RailKind>, carts0: seq<Cart>, processed0: nat, cartPositions0: set<Position>,
                  moveResult: MoveResult, ghost sane: bool, ghost goal: (TickEnd, seq<Cart>))
    returns (stop: Option<TickEnd>, carts: seq<Cart>, processed: nat, cartPositions: set<Position>, collided: Option<Cart>)
    requires processed0 < |carts0|
    requires sane ==> Distinct(carts0) && Positions(carts0) <= cartPositions0
    requires sane ==> TickFrom(rails, carts0, processed0, moveResult) == goal
    ensures processed == processed0 + 1 && |carts| == |carts0|
    ensures stop.Some? ==> carts == carts0 && (sane ==> (stop.value, carts) == goal)
    ensures stop.None? && collided.Some? ==>
              && carts == carts0[processed0 := collided.value]
              && (sane ==>
                    && carts0[processed0].position in rails
                    && Step(carts0[processed0], rails[carts0[processed0].position]) == collided
                    && collided.value.position in cartPositions
                    && forall k :: 0 <= k < |carts0| && k != processed0 ==> carts0[k].position in cartPositions)
    ensures stop.None? && collided.None? && sane ==>
              && Distinct(carts) && Positions(carts) <= cartPositions
              && TickFrom(rails, carts, processed, moveResult) == goal
  {
    carts, processed, cartPositions, collided := carts0, processed0, cartPositions0, None;
    var cart := carts[processed];
    processed := processed + 1;
    cartPositions := cartPositions - {cart.position};
    if cart.position !in rails {
      return Some(Panicked), carts, processed, cartPositions, collided;
    }
    var result, moved := MoveOneStep(cart, rails[cart.position]);
    if result.IllegalMove? {
      return Some(Ended(result)), carts, processed, cartPositions, collided;
    }
    stop := None;
    carts := carts[processed - 1 := moved];
    if sane {
      forall k | 0 <= k < |carts0| && k != processed - 1 ensures carts0[k].position in cartPositions {
        assert carts0[k] in carts0;
      }
    }
    if moved.position in cartPositions {
      collided := Some(moved);
      return;
    }
    if sane {
      FreeMove(rails, carts0, processed - 1, moveResult, moved, cartPositions);
    }
    cartPositions := cartPositions + {moved.position};
    if sane {
      forall c <- carts ensures c.position in cartPositions {
        var k :| 0 <= k < |carts| && carts[k] == c;
      }
    }
  }

  /** The inner loop of `move_carts`: carts move one after the other from
      index `processed` on, until one of them collides, the tick stops
      early, or every cart has moved. */
  method MoveUntilCrash(rails: map<Position, RailKind>, carts0: seq<Cart>, processed0: nat, cartPositions0: set<Position>,
                        moveResult: MoveResult, ghost sane: bool, ghost goal: (TickEnd, seq<Cart>))
    returns (stop: Option<TickEnd>, carts: seq<Cart>, processed: nat, cartPositions: set<Position>, collided: Option<Cart>,
             ghost before: seq<Cart>)
    requires processed0 <= |carts0|
    requires sane ==> Distinct(carts0) && Positions(carts0) <= cartPositions0
    requires sane ==> TickFrom(rails, carts0, processed0, moveResult) == goal
    ensures processed0 <= processed <= |carts| == |carts0| == |before|
    ensures stop.None? && processed0 < |carts0| ==> processed0 < processed
    ensures stop.Some? ==> sane ==> (stop.value, carts) == goal
    ensures stop.None? && collided.None? ==>
              && processed == |carts|
              && (sane ==> Distinct(carts) && Positions(carts) <= cartPositions
                           && TickFrom(rails, carts, processed, moveResult) == goal)
    ensures stop.None? && collided.Some? ==>
              && 1 <= processed && carts == before[processed - 1 := collided.value]
              && (sane ==>
                    && TickFrom(rails, before, processed - 1, moveResult) == goal
                    && Distinct(before) && before[processed - 1].position in rails
                    && Step(before[processed - 1], rails[before[processed - 1].position]) == collided
                    && collided.value.position in cartPositions
                    && forall k :: 0 <= k < |before| && k != processed - 1 ==> before[k].position in cartPositions)
  {
    carts, processed, cartPositions, collided, before := carts0, processed0, cartPositions0, None, carts0;
    stop := None;
    while processed < |carts|
      invariant processed0 <= processed <= |carts| == |carts0| == |before|
      invariant stop.None? && collided.None?
      invariant sane ==> Distinct(carts) && Positions(carts) <= cartPositions
      invariant sane ==> TickFrom(rails, carts, processed, moveResult) == goal
      decreases |carts| - processed
    {
      before := carts;
      stop, carts, processed, cartPositions, collided := MoveNext(rails, carts, processed, cartPositions, moveResult, sane, goal);
      if stop.Some? || collided.Some? {
        return;
      }
    }
  }

  /** The crash part of `move_carts`: the moving cart `cart`, now at index
      `processed - 1`, landed on an occupied cell. It is removed together
      with the other cart standing there, if any, and the first crash of
      the tick becomes the reported result. */
  method ResolveCrash(ghost rails: map<Position, RailKind>, ghost before: seq<Cart>, carts0: seq<Cart>, processed0: nat,
                      cart: Cart, result0: MoveResult, ghost sane: bool, ghost cartPositions: set<Position>)
    returns (carts: seq<Cart>, processed: nat, result: MoveResult)
    requires 1 <= processed0 <= |before| && carts0 == before[processed0 - 1 := cart]
    requires sane ==> Distinct(before) && before[processed0 - 1].position in rails
    requires sane ==> Step(before[processed0 - 1], rails[before[processed0 - 1].position]) == Some(cart)
    requires sane ==> cart.position in cartPositions
    requires sane ==> forall k :: 0 <= k < |before| && k != processed0 - 1 ==> before[k].position in cartPositions
    ensures processed <= |carts|
    ensures 2 * |carts| - processed <= 2 * |carts0| - processed0
    ensures sane ==> Distinct(carts) && Positions(carts) <= cartPositions
    ensures sane ==> TickFrom(rails, before, processed0 - 1, result0) == TickFrom(rails, carts, processed, result)
  {
    ghost var p := processed0 - 1;
    var pair: seq<Cart> := [];
    result := result0;
    var other := FindOther(carts0, cart);
    if other.Some? {
      pair := [other.value, cart];
      if result0 == Moved {
        result := Collision(cart, other.value);
      }
    }
    carts, processed := RemoveCollided(carts0, processed0, pair);
    if sane {
      if other.Some? {
        CrashMove(rails, before, p, result0, cart, other.value);
        forall c <- carts ensures c.position in cartPositions {
          var k :| 0 <= k < |carts0| && carts0[k] == c;
        }
      } else {
        StaleMove(rails, before, p, result0, cart);
        forall c <- carts ensures c.position in cartPositions {
          var k :| 0 <= k < |carts| && carts[k] == c;
        }
      }
    }
  }

  /** `Tracks::move_carts`: sorts the carts, then moves them one by one,
      tracking occupied cells in a set. A cart that lands on a cell already
      in the set has collided; it and the other cart on that cell, if there
      is one, are removed and the loop resumes with the carts not yet moved.
      The set is not cleaned after a crash, so a later cart landing on the
      crash cell finds no other cart there and nothing happens. For carts
      on distinct cells with distinct numbers this is the reference tick. */
  method MoveCartsOn(rails: map<Position, RailKind>, carts0: seq<Cart>) returns (end: TickEnd, carts: seq<Cart>)
    ensures Distinct(carts0) ==> (end, carts) == Tick(rails, carts0)
  {
    var moveResult := Moved;
    carts := SortByPosition(carts0);
    ghost var sane := Distinct(carts0);
    if sane {
      SortKeepsDistinct(carts0);
    }
    ghost var goal := Tick(rails, carts0);
    var cartPositions := Positions(carts);
    var processed: nat := 0;
    while processed < |carts|
      invariant processed <= |carts|
      invariant sane ==> Distinct(carts) && Positions(carts) <= cartPositions
      invariant sane ==> TickFrom(rails, carts, processed, moveResult) == goal
      decreases 2 * |carts| - processed
    {
      var stop, collided;
      ghost var before;
      stop, carts, processed, cartPositions, collided, before := MoveUntilCrash(rails, carts, processed, cartPositions, moveResult, sane, goal);
      if stop.Some? {
        return stop.value, carts;
      }
      if collided.Some? {
        carts, processed, moveResult := ResolveCrash(rails, before, carts, processed, collided.value, moveResult, sane, cartPositions);
      }
    }
    end := Ended(moveResult);
  }

  /** The whole tick: distinct carts stay distinct and keep their numbers;
      a tick that reports no crash moved every cart, in reading order, one
      step each and lost none; a reported crash is between two different
      carts on one cell, and both are gone. */
  lemma TickSpec(rails: map<Position, RailKind>, carts: seq<Cart>)
    ensures var (end, out) := Tick(rails, carts);
            && |out| <= |carts|
            && Numbers(out) <= Numbers(carts)
            && (Distinct(carts) ==> Distinct(out))
            && (end == Ended(Moved) ==> MovedFrom(rails, SortByPosition(carts), 0, out))
            && (end.Ended? && end.result.Collision? ==>
                  && end.result.cart != end.result.other
                  && end.result.cart.position == end.result.other.position
                  && |out| + 2 <= |carts|)
  {
    var sorted := SortByPosition(carts);
    SortByPositionSpec(carts);
    assert |sorted| == |multiset(sorted)| == |carts|;
    assert Numbers(sorted) == Numbers(carts) by {
      forall n | n in Numbers(carts) ensures n in Numbers(sorted) {
        var c :| c in carts && c.number == n;
        assert c in multiset(sorted);
      }
      forall n | n in Numbers(sorted) ensures n in Numbers(carts) {
        var c :| c in sorted && c.number == n;
        assert c in multiset(carts);
      }
    }
    TickKeepsNumbers(rails, sorted, 0, Moved);
    if Distinct(carts) {
      SortKeepsDistinct(carts);
      TickKeepsDistinct(rails, sorted, 0, Moved);
    }
    TickWithoutCrash(rails, sorted, 0, Moved);
    TickShrinks(rails, sorted, 0, Moved);
    TickCrashMeets(rails, sorted, 0, Moved);
  }

  /** Replacing a cart by one with the same number keeps the numbers. */
  lemma ReplaceKeepsNumbers(carts: seq<Cart>, p: nat, moved: Cart)
    requires p < |carts| && moved.number == carts[p].number
    ensures Numbers(carts[p := moved]) <= Numbers(carts)
  {
    var next := carts[p := moved];
    forall n | n in Numbers(next) ensures n in Numbers(carts) {
      var c :| c in next && c.number == n;
      var k :| 0 <= k < |next| && next[k] == c;
      assert carts[k] in carts;
    }
  }

  /** Carts drawn from `carts` have numbers drawn from its numbers. */
  lemma MembersKeepNumbers(some: seq<Cart>, carts: seq<Cart>)
    requires forall c <- some :: c in carts
    ensures Numbers(some) <= Numbers(carts)
  {
  }

  /** A tick keeps the numbers of the carts it keeps. */
  lemma {:induction false} TickKeepsNumbers(rails: map<Position, RailKind>, carts: seq<Cart>, p: nat, result: MoveResult)
    requires p <= |carts|
    ensures Numbers(TickFrom(rails, carts, p, result).1) <= Numbers(carts)
    decreases 2 * |carts| - p
  {
    if p < |carts| && carts[p].position in rails {
      var moved := Step(carts[p], rails[carts[p].position]);
      if moved.Some? {
        StepSpec(carts[p], rails[carts[p].position]);
        var next := carts[p := moved.value];
        ReplaceKeepsNumbers(carts, p, moved.value);
        match FindOther(next, moved.value)
        case None =>
          TickKeepsNumbers(rails, next, p + 1, result);
        case Some(other) =>
          CrashStep(carts, p, moved.value, other);
          var (c1, p1) := Remove(next, p + 1, other);
          var (c2, p2) := Remove(c1, p1, moved.value);
          var result2 := if result == Moved then Collision(moved.value, other) else result;
          TickKeepsNumbers(rails, c2, p2, result2);
          assert TickFrom(rails, carts, p, result) == TickFrom(rails, c2, p2, result2);
          MembersKeepNumbers(c2, next);
      }
    }
  }

  // ---------------------------------------------------------------------
  // Tracks and carts together

  /** Coordinates fit the source's `u32`. */
  predicate InU32(p: Position)
  {
    0 <= p.x <= U32_MAX && 0 <= p.y <= U32_MAX
  }

  /** Every cell of `cells` lies in the box from `topLeft` to
      `bottomRight`, and the box has not moved past the starting corners. */
  predicate Encloses(cells: set<Position>, topLeft: Position, bottomRight: Position)
  {
    && (forall p <- cells :: topLeft.x <= p.x <= bottomRight.x && topLeft.y <= p.y <= bottomRight.y)
    && topLeft.x <= U32_MAX && topLeft.y <= U32_MAX && bottomRight.x >= 0 && bottomRight.y >= 0
  }

  /** Each side of the box touches some cell of `cells`, or is still at
      its starting value (the largest `u32` for the top-left corner, zero
      for the bottom-right one). */
  predicate Attained(cells: set<Position>, topLeft: Position, bottomRight: Position)
  {
    && (topLeft.x == U32_MAX || exists p <- cells :: p.x == topLeft.x)
    && (topLeft.y == U32_MAX || exists p <- cells :: p.y == topLeft.y)
    && (bottomRight.x == 0 || exists p <- cells :: p.x == bottomRight.x)
    && (bottomRight.y == 0 || exists p <- cells :: p.y == bottomRight.y)
  }

  /** The box grown to hold `p`. */
  function Widen(topLeft: Position, bottomRight: Position, p: Position): (Position, Position)
  {
    (Position(if p.x < topLeft.x then p.x else topLeft.x, if p.y < topLeft.y then p.y else topLeft.y),
     Position(if p.x > bottomRight.x then p.x else bottomRight.x, if p.y > bottomRight.y then p.y else bottomRight.y))
  }

  /** The body of `area`'s loop: each coordinate of `pos` that lies
      outside the box moves the matching side out to it. */
  method TakeIn(topLeft0: Position, bottomRight0: Position, pos: Position) returns (topLeft: Position, bottomRight: Position)
    ensures (topLeft, bottomRight) == Widen(topLeft0, bottomRight0, pos)
  {
    topLeft, bottomRight := topLeft0, bottomRight0;
    if pos.x < topLeft.x {
      topLeft := topLeft.(x := pos.x);
    }
    if pos.x > bottomRight.x {
      bottomRight := bottomRight.(x := pos.x);
    }
    if pos.y < topLeft.y {
      topLeft := topLeft.(y := pos.y);
    }
    if pos.y > bottomRight.y {
      bottomRight := bottomRight.(y := pos.y);
    }
  }

  /** The box `area` returns for `cells`: the smallest box holding them;
      with no cells, the starting corners (the largest `u32` and zero). */
  predicate IsArea(cells: set<Position>, topLeft: Position, bottomRight: Position)
  {
    Encloses(cells, topLeft, bottomRight) && Attained(cells, topLeft, bottomRight)
  }

  /** Growing the box to hold one more cell keeps it the area of the cells
      seen. */
  lemma WidenStep(done: set<Position>, topLeft: Position, bottomRight: Position, pos: Position,
                  topLeft': Position, bottomRight': Position)
    requires InU32(pos) && IsArea(done, topLeft, bottomRight)
    requires (topLeft', bottomRight') == Widen(topLeft, bottomRight, pos)
    ensures IsArea(done + {pos}, topLeft', bottomRight')
  {
    assert pos in done + {pos};
    assert forall p <- done :: p in done + {pos};
  }

  /** With no cells the area is the starting corners. */
  lemma AreaOfNothing(topLeft: Position, bottomRight: Position)
    requires IsArea({}, topLeft, bottomRight)
    ensures topLeft == Position(U32_MAX, U32_MAX) && bottomRight == Position(0, 0)
  {
  }

  /** The area of a set of cells is determined by it. */
  lemma AreaUnique(cells: set<Position>, topLeft: Position, bottomRight: Position,
                   topLeft': Position, bottomRight': Position)
    requires forall p <- cells :: InU32(p)
    requires IsArea(cells, topLeft, bottomRight) && IsArea(cells, topLeft', bottomRight')
    ensures topLeft == topLeft' && bottomRight == bottomRight'
  {
  }

  /** `Tracks::area`: the smallest box holding every rail, as its top-left
      and bottom-right corners; with no rail the corners keep their
      starting values (the largest `u32` and zero). */
  method Area(rails: map<Position, RailKind>) returns (topLeft: Position, bottomRight: Position)
    requires forall p <- rails :: InU32(p)
    ensures IsArea(rails.Keys, topLeft, bottomRight)
  {
    topLeft := Position(U32_MAX, U32_MAX);
    bottomRight := Position(0, 0);
    var todo := rails.Keys;
    ghost var done: set<Position> := {};
    while todo != {}
      invariant done + todo == rails.Keys && done !! todo
      invariant IsArea(done, topLeft, bottomRight)
      decreases |todo|
    {
      var pos :| pos in todo;
      ghost var (topLeft0, bottomRight0) := (topLeft, bottomRight);
      topLeft, bottomRight := TakeIn(topLeft, bottomRight, pos);
      WidenStep(done, topLeft0, bottomRight0, pos, topLeft, bottomRight);
      done := done + {pos};
      todo := todo - {pos};
    }
  }

  /** `CartsNTracks`: the carts, the rails, and how many carts were ever
      added (the source of new cart numbers). */
  class CartsNTracks {
    var numCarts: nat
    var carts: seq<Cart>
    var rails: map<Position, RailKind>

    /** Carts stand on distinct cells and carry distinct numbers, each
        between 1 and the number of carts added so far. */
    predicate Valid()
      reads this
    {
      Distinct(carts) && forall c <- carts :: 1 <= c.number <= numCarts
    }

    /** `CartsNTracks::new`. */
    constructor ()
      ensures numCarts == 0 && carts == [] && rails == map[]
      ensures Valid()
    {
      numCarts := 0;
      carts := [];
      rails := map[];
    }

    /** `clone`. */
    constructor Clone(other: CartsNTracks)
      ensures numCarts == other.numCarts && carts == other.carts && rails == other.rails
    {
      numCarts := other.numCarts;
      carts := other.carts;
      rails := other.rails;
    }

    /** `insert_cart`: the new cart gets the next number and a straight
        rail matching its direction is laid under it. */
    method InsertCart(position: Position, direction: Direction)
      modifies this
      ensures numCarts == old(numCarts) + 1
      ensures carts == old(carts) + [NewCart(numCarts, position, direction)]
      ensures rails == old(rails)[position := RailOf(direction)]
      ensures old(Valid()) && position !in Positions(old(carts)) ==> Valid()
    {
      numCarts := numCarts + 1;
      var cart := NewCart(numCarts, position, direction);
      carts := carts + [cart];
      InsertRail(position, RailOf(direction));
    }

    /** `remove_cart`: takes out the first cart equal to `cart`, if any. */
    method RemoveCart(cart: Cart) returns (r: Option<Cart>)
      modifies this
      ensures numCarts == old(numCarts) && rails == old(rails)
      ensures cart !in old(carts) ==> r == None && carts == old(carts)
      ensures cart in old(carts) ==>
                r == Some(cart) && carts == RemoveAt(old(carts), IndexOf(old(carts), cart).value)
      ensures old(Valid()) ==> Valid()
    {
      var index := IndexOf(carts, cart);
      if index.Some? {
        RemoveAtElements(carts, index.value);
        if Valid() {
          RemoveAtKeepsDistinct(carts, index.value);
        }
        carts := RemoveAt(carts, index.value);
        r := Some(cart);
      } else {
        r := None;
      }
    }

    /** `insert_rail`: lays or replaces the rail at `position`. */
    method InsertRail(position: Position, rail: RailKind)
      modifies this
      ensures rails == old(rails)[position := rail]
      ensures numCarts == old(numCarts) && carts == old(carts)
    {
      rails := rails[position := rail];
    }

    /** `CartsNTracks::move_carts`: one tick over the cart list. */
    method MoveCarts() returns (end: TickEnd)
      modifies this
      ensures numCarts == old(numCarts) && rails == old(rails)
      ensures old(Valid()) ==> (end, carts) == Tick(rails, old(carts)) && Valid()
    {
      TickSpec(rails, carts);
      ghost var before := carts;
      end, carts := MoveCartsOn(rails, carts);
      if old(Valid()) {
        forall c <- carts ensures 1 <= c.number <= numCarts {
          assert c.number in Numbers(before);
        }
      }
    }
  }

  // ---------------------------------------------------------------------
  // Reading the map

  function CartSymbol(c: char): Option<Direction>
  {
    match c
    case '^' => Some(North)
    case '>' => Some(East)
    case '<' => Some(West)
    case 'v' => Some(South)
    case _ => None
  }

  function RailSymbol(c: char): Option<RailKind>
  {
    match c
    case '-' => Some(WestEast)
    case '|' => Some(NorthSouth)
    case '/' => Some(RightTurn)
    case '\\' => Some(LeftTurn)
    case '+' => Some(Intersection)
    case _ => None
  }

  /** The characters a map may hold: rails, carts and blanks. */
  predicate Supported(c: char)
  {
    RailSymbol(c).Some? || CartSymbol(c).Some? || IsWhitespace(c)
  }

  /** The rail a map character stands for; a cart stands on the straight
      rail of its direction. */
  function RailUnder(c: char): (r: Option<RailKind>)
    ensures r.Some? <==> RailSymbol(c).Some? || CartSymbol(c).Some?
  {
    if RailSymbol(c).Some? then RailSymbol(c)
    else if CartSymbol(c).Some? then Some(RailOf(CartSymbol(c).value))
    else None
  }

  /** The carts among the first `x` characters of row `y`, left to right. */
  function RowCarts(line: string, y: nat, x: nat): seq<(Position, Direction)>
    requires x <= |line|
  {
    if x == 0 then []
    else if CartSymbol(line[x - 1]).Some? then RowCarts(line, y, x - 1) + [(Position(x - 1, y), CartSymbol(line[x - 1]).value)]
    else RowCarts(line, y, x - 1)
  }

  /** The carts in the first `y` rows, in reading order. */
  function CartsAbove(lines: seq<string>, y: nat): seq<(Position, Direction)>
    requires y <= |lines|
  {
    if y == 0 then [] else CartsAbove(lines, y - 1) + RowCarts(lines[y - 1], y - 1, |lines[y - 1]|)
  }

  /** Fresh carts numbered 1, 2, … in the order given. */
  function Numbered(cells: seq<(Position, Direction)>): (r: seq<Cart>)
    ensures |r| == |cells|
  {
    seq(|cells|, i requires 0 <= i < |cells| => NewCart(i + 1, cells[i].0, cells[i].1))
  }

  predicate OnMap(lines: seq<string>, p: Position)
  {
    0 <= p.y < |lines| && 0 <= p.x < |lines[p.y]|
  }

  /** `rails` holds exactly the rails the map shows before column `x` of
      row `y` (in reading order). */
  ghost predicate RailsRead(rails: map<Position, RailKind>, lines: seq<string>, y: nat, x: nat)
  {
    && (forall p :: p in rails <==> OnMap(lines, p) && ReadsBefore(p, Position(x, y)) && RailUnder(lines[p.y][p.x]).Some?)
    && (forall p <- rails :: OnMap(lines, p) && rails[p] == RailUnder(lines[p.y][p.x]).value)
  }

  /** `cells` lie in row `y` before column `x`, each on its cart
      symbol, from left to right. */
  predicate InRowOrder(cells: seq<(Position, Direction)>, line: string, y: nat, x: nat)
    requires x <= |line|
  {
    && (forall i :: 0 <= i < |cells| ==>
          cells[i].0.y == y && 0 <= cells[i].0.x < x && CartSymbol(line[cells[i].0.x]) == Some(cells[i].1))
    && (forall i, j :: 0 <= i < j < |cells| ==> cells[i].0.x < cells[j].0.x)
  }

  /** Cart cells strictly in reading order. */
  predicate InOrder(cells: seq<(Position, Direction)>)
  {
    forall i, j :: 0 <= i < j < |cells| ==> ReadsBefore(cells[i].0, cells[j].0)
  }

  /** `cells` lie on the map above row `y`, each on its cart symbol,
      strictly in reading order. */
  predicate InReadingOrder(cells: seq<(Position, Direction)>, lines: seq<string>, y: nat)
  {
    && (forall i :: 0 <= i < |cells| ==>
          OnMap(lines, cells[i].0) && cells[i].0.y < y && CartSymbol(lines[cells[i].0.y][cells[i].0.x]) == Some(cells[i].1))
    && InOrder(cells)
  }

  /** The carts of a row lie in it, before column `x`, left to right. */
  lemma {:induction false} RowCartsOrdered(line: string, y: nat, x: nat)
    requires x <= |line|
    ensures InRowOrder(RowCarts(line, y, x), line, y, x)
  {
    if x > 0 {
      RowCartsOrdered(line, y, x - 1);
      var prev := RowCarts(line, y, x - 1);
      var cells := RowCarts(line, y, x);
      if CartSymbol(line[x - 1]).Some? {
        var last := (Position(x - 1, y), CartSymbol(line[x - 1]).value);
        assert cells == prev + [last];
        forall i | 0 <= i < |cells|
          ensures cells[i].0.y == y && 0 <= cells[i].0.x < x && CartSymbol(line[cells[i].0.x]) == Some(cells[i].1)
        {
          if i < |prev| {
            assert cells[i] == prev[i];
          }
        }
        forall i, j | 0 <= i < j < |cells| ensures cells[i].0.x < cells[j].0.x {
          assert cells[i] == prev[i];
          if j < |prev| {
            assert cells[j] == prev[j];
          }
        }
      } else {
        assert cells == prev;
      }
    }
  }

  /** The carts found above row `y` lie in those rows, strictly in reading
      order, each on the matching symbol. */
  lemma {:induction false} CartsAboveOrdered(lines: seq<string>, y: nat)
    requires y <= |lines|
    ensures InReadingOrder(CartsAbove(lines, y), lines, y)
  {
    if y > 0 {
      CartsAboveOrdered(lines, y - 1);
      RowCartsOrdered(lines[y - 1], y - 1, |lines[y - 1]|);
      var prev := CartsAbove(lines, y - 1);
      var row := RowCarts(lines[y - 1], y - 1, |lines[y - 1]|);
      var cells := CartsAbove(lines, y);
      assert forall i :: 0 <= i < |prev| ==> cells[i] == prev[i];
      assert forall i :: |prev| <= i < |cells| ==> cells[i] == row[i - |prev|];
    }
  }

  /** Carts numbered in reading order are valid: distinct cells, numbers
      1 to their count. */
  lemma NumberedDistinct(cells: seq<(Position, Direction)>, lines: seq<string>, y: nat)
    requires InReadingOrder(cells, lines, y)
    ensures Distinct(Numbered(cells))
    ensures forall c <- Numbered(cells) :: 1 <= c.number <= |cells|
  {
    var carts := Numbered(cells);
    forall c <- carts ensures 1 <= c.number <= |cells| {
      var i :| 0 <= i < |carts| && carts[i] == c;
    }
  }

  lemma NumberedAppend(cells: seq<(Position, Direction)>, cell: (Position, Direction))
    ensures Numbered(cells + [cell]) == Numbered(cells) + [NewCart(|cells| + 1, cell.0, cell.1)]
  {
  }

  /** One character of the map in `parse`'s match: a rail symbol lays its
      rail, a cart symbol adds a cart, a blank does nothing, and anything
      else is reported as unsupported. */
  method ReadSymbol(state: CartsNTracks, symbol: char, pos: Position) returns (ok: bool)
    modifies state
    ensures ok == Supported(symbol)
    ensures state.rails == if RailUnder(symbol).Some? then old(state.rails)[pos := RailUnder(symbol).value] else old(state.rails)
    ensures CartSymbol(symbol).Some? ==>
              && state.numCarts == old(state.numCarts) + 1
              && state.carts == old(state.carts) + [NewCart(state.numCarts, pos, CartSymbol(symbol).value)]
    ensures CartSymbol(symbol).None? ==> state.numCarts == old(state.numCarts) && state.carts == old(state.carts)
  {
    ok := true;
    match symbol {
      case '-' => state.InsertRail(pos, WestEast);
      case '|' => state.InsertRail(pos, NorthSouth);
      case '/' => state.InsertRail(pos, RightTurn);
      case '\\' => state.InsertRail(pos, LeftTurn);
      case '+' => state.InsertRail(pos, Intersection);
      case '^' => state.InsertCart(pos, North);
      case '>' => state.InsertCart(pos, East);
      case '<' => state.InsertCart(pos, West);
      case 'v' => state.InsertCart(pos, South);
      case _ => ok := IsWhitespace(symbol);
    }
  }

  lemma RailsReadStep(rails: map<Position, RailKind>, rails': map<Position, RailKind>, lines: seq<string>, y: nat, x: nat)
    requires y < |lines| && x < |lines[y]|
    requires RailsRead(rails, lines, y, x)
    requires rails' == if RailUnder(lines[y][x]).Some? then rails[Position(x, y) := RailUnder(lines[y][x]).value] else rails
    ensures RailsRead(rails', lines, y, x + 1)
  {
  }

  /** Every character of the first `y` rows is supported. */
  predicate RowsSupported(lines: seq<string>, y: nat)
    requires y <= |lines|
  {
    forall y', x :: 0 <= y' < y && 0 <= x < |lines[y']| ==> Supported(lines[y'][x])
  }

  /** Row `y` extends the supported rows exactly when all its
      characters are supported. */
  lemma RowsSupportedNext(lines: seq<string>, y: nat)
    requires y < |lines| && RowsSupported(lines, y)
    ensures RowsSupported(lines, y + 1) <==> forall x :: 0 <= x < |lines[y]| ==> Supported(lines[y][x])
  {
  }

  /** A prefix of supported rows stays supported. */
  lemma RowsSupportedPrefix(lines: seq<string>, y: nat, z: nat)
    requires y <= z <= |lines|
    ensures RowsSupported(lines, z) ==> RowsSupported(lines, y)
  {
  }

  lemma RailsReadRow(rails: map<Position, RailKind>, lines: seq<string>, y: nat)
    requires y < |lines| && RailsRead(rails, lines, y, |lines[y]|)
    ensures RailsRead(rails, lines, y + 1, 0)
  {
  }

  /** The inner loop of `parse` over the characters of row `y`; `false`
      when one of them is unsupported. */
  method ReadRow(state: CartsNTracks, lines: seq<string>, y: nat) returns (ok: bool)
    requires y < |lines|
    requires state.carts == Numbered(CartsAbove(lines, y)) && state.numCarts == |state.carts|
    requires RailsRead(state.rails, lines, y, 0)
    modifies state
    ensures ok <==> forall x :: 0 <= x < |lines[y]| ==> Supported(lines[y][x])
    ensures ok ==> && state.carts == Numbered(CartsAbove(lines, y + 1)) && state.numCarts == |state.carts|
                   && RailsRead(state.rails, lines, y + 1, 0)
  {
    var line := lines[y];
    for x := 0 to |line|
      invariant state.carts == Numbered(CartsAbove(lines, y) + RowCarts(line, y, x))
      invariant state.numCarts == |state.carts|
      invariant RailsRead(state.rails, lines, y, x)
      invariant forall x' :: 0 <= x' < x ==> Supported(line[x'])
    {
      ghost var cells := CartsAbove(lines, y) + RowCarts(line, y, x);
      ghost var rails := state.rails;
      var ok := ReadSymbol(state, line[x], Position(x, y));
      if !ok {
        return false;
      }
      if CartSymbol(line[x]).Some? {
        assert CartsAbove(lines, y) + RowCarts(line, y, x + 1) == cells + [(Position(x, y), CartSymbol(line[x]).value)];
        NumberedAppend(cells, (Position(x, y), CartSymbol(line[x]).value));
      }
      RailsReadStep(rails, state.rails, lines, y, x);
    }
    RailsReadRow(state.rails, lines, y);
    return true;
  }

  /** `parse`: reads the map line by line and character by character,
      laying a rail for every rail symbol and adding a cart (on a straight
      rail) for every cart symbol; blanks are skipped and any other
      character is rejected. The carts come out in reading order, numbered
      from 1. */
  method Parse(input: string) returns (r: Option<CartsNTracks>)
    ensures r.None? <==> !RowsSupported(Lines(input), |Lines(input)|)
    ensures var lines := Lines(input);
            r.Some? ==>
              && fresh(r.value)
              && r.value.Valid()
              && r.value.carts == Numbered(CartsAbove(lines, |lines|))
              && r.value.numCarts == |r.value.carts|
              && RailsRead(r.value.rails, lines, |lines|, 0)
  {
    var lines := Lines(input);
    var state := new CartsNTracks();
    for y := 0 to |lines|
      invariant fresh(state)
      invariant state.carts == Numbered(CartsAbove(lines, y)) && state.numCarts == |state.carts|
      invariant RailsRead(state.rails, lines, y, 0)
      invariant RowsSupported(lines, y)
    {
      var ok := ReadRow(state, lines, y);
      RowsSupportedNext(lines, y);
      if !ok {
        RowsSupportedPrefix(lines, y + 1, |lines|);
        return None;
      }
    }
    CartsAboveOrdered(lines, |lines|);
    NumberedDistinct(CartsAbove(lines, |lines|), lines, |lines|);
    return Some(state);
  }

  // ---------------------------------------------------------------------
  // Running the carts

  /** The carts after `n` ticks. */
  function AfterTicks(rails: map<Position, RailKind>, carts: seq<Cart>, n: nat): seq<Cart>
  {
    if n == 0 then carts else Tick(rails, AfterTicks(rails, carts, n - 1)).1
  }

  /** What tick number `n + 1` reports. */
  function TickEndAt(rails: map<Position, RailKind>, carts: seq<Cart>, n: nat): TickEnd
  {
    Tick(rails, AfterTicks(rails, carts, n)).0
  }

  /** One tick from the carts after `n` ticks gives the carts after
      `n + 1`, and reports what tick `n + 1` reports. */
  lemma TickNext(rails: map<Position, RailKind>, carts: seq<Cart>, n: nat, next: nat, end: TickEnd, after: seq<Cart>)
    requires next == n + 1 && (end, after) == Tick(rails, AfterTicks(rails, carts, n))
    ensures after == AfterTicks(rails, carts, next) && end == TickEndAt(rails, carts, n)
  {
  }

  /** The first `n` ticks all report a plain move. */
  ghost predicate MovedThrough(rails: map<Position, RailKind>, carts: seq<Cart>, n: nat)
  {
    forall k :: 0 <= k < n ==> TickEndAt(rails, carts, k) == Ended(Moved)
  }

  /** One more plain move extends the run of plain moves. */
  lemma MovedThroughNext(rails: map<Position, RailKind>, carts: seq<Cart>, n: nat, next: nat)
    requires next == n + 1 && MovedThrough(rails, carts, n) && TickEndAt(rails, carts, n) == Ended(Moved)
    ensures MovedThrough(rails, carts, next)
  {
  }

  /** Tick `n + 1` is the first that does not report a plain move. */
  ghost predicate FirstStop(rails: map<Position, RailKind>, carts: seq<Cart>, n: nat)
  {
    TickEndAt(rails, carts, n) != Ended(Moved) && MovedThrough(rails, carts, n)
  }

  /** Ticks keep carts on distinct cells with distinct numbers. */
  lemma {:induction false} AfterTicksDistinct(rails: map<Position, RailKind>, carts: seq<Cart>, n: nat)
    requires Distinct(carts)
    ensures Distinct(AfterTicks(rails, carts, n))
  {
    if n > 0 {
      AfterTicksDistinct(rails, carts, n - 1);
      TickSpec(rails, AfterTicks(rails, carts, n - 1));
    }
  }

  /** The answer of `location_of_first_crash` when it stops at a tick that
      ended with `end`: the crash cell, or `None` for a panic or an illegal
      move. */
  function CrashCell(end: TickEnd): Option<Position>
  {
    if end.Ended? && end.result.Collision? then Some(end.result.cart.position) else None
  }

  /** `location_of_first_crash`: ticks a copy of the carts until a tick
      reports something other than a plain move; a crash gives the cell of
      the cart that caused it, an illegal move or a missing rail panics
      (`None`). */
  method LocationOfFirstCrash(state: CartsNTracks) returns (r: Option<Position>)
    requires state.Valid()
    requires exists n: nat :: TickEndAt(state.rails, state.carts, n) != Ended(Moved)
    ensures exists n: nat :: FirstStop(state.rails, state.carts, n) && r == CrashCell(TickEndAt(state.rails, state.carts, n))
  {
    var copy := new CartsNTracks.Clone(state);
    ghost var bound: nat :| TickEndAt(state.rails, state.carts, bound) != Ended(Moved);
    ghost var n := 0;
    while true
      invariant copy.Valid() && copy.rails == state.rails
      invariant copy.carts == AfterTicks(state.rails, state.carts, n)
      invariant MovedThrough(state.rails, state.carts, n)
      invariant n <= bound
      decreases bound - n
    {
      var end := copy.MoveCarts();
      ghost var next := n + 1;
      TickNext(state.rails, state.carts, n, next, end, copy.carts);
      if end != Ended(Moved) {
        r := CrashCell(end);
        assert FirstStop(state.rails, state.carts, n);
        return;
      }
      MovedThroughNext(state.rails, state.carts, n, next);
      n := next;
    }
  }

  /** The first crash is two different carts meeting on one cell. */
  lemma FirstCrashIsMeeting(rails: map<Position, RailKind>, carts: seq<Cart>, n: nat)
    requires FirstStop(rails, carts, n)
    requires TickEndAt(rails, carts, n).Ended? && TickEndAt(rails, carts, n).result.Collision?
    ensures var crash := TickEndAt(rails, carts, n).result;
            crash.cart != crash.other && crash.cart.position == crash.other.position
  {
    TickSpec(rails, AfterTicks(rails, carts, n));
  }

  /** Whether `location_of_last_cart` goes on after a tick that ended
      with `end` and left `left`: it moved plainly, or it had a crash that
      left more than one cart. */
  predicate Continues(end: TickEnd, left: seq<Cart>)
  {
    end == Ended(Moved) || (end.Ended? && end.result.Collision? && |left| > 1)
  }

  /** Whether `location_of_last_cart` goes on after tick `n + 1`. */
  predicate GoesOn(rails: map<Position, RailKind>, carts: seq<Cart>, n: nat)
  {
    var t := Tick(rails, AfterTicks(rails, carts, n));
    Continues(t.0, t.1)
  }

  /** The answer when the search stops after a tick that ended with `end`
      and left `left`: the cell of the one cart a crash left, or `None`
      for a panic. */
  function Survivor(end: TickEnd, left: seq<Cart>): Option<Position>
  {
    if end.Ended? && end.result.Collision? && |left| == 1 then Some(left[0].position) else None
  }

  /** The search goes on after each of the first `n` ticks. */
  ghost predicate WentOnThrough(rails: map<Position, RailKind>, carts: seq<Cart>, n: nat)
  {
    forall k :: 0 <= k < n ==> GoesOn(rails, carts, k)
  }

  /** Going on after one more tick extends the run. */
  lemma WentOnThroughNext(rails: map<Position, RailKind>, carts: seq<Cart>, n: nat, next: nat)
    requires next == n + 1 && WentOnThrough(rails, carts, n) && GoesOn(rails, carts, n)
    ensures WentOnThrough(rails, carts, next)
  {
  }

  /** The answer when the search stops after tick `n + 1`. */
  function LastCell(rails: map<Position, RailKind>, carts: seq<Cart>, n: nat): Option<Position>
  {
    var t := Tick(rails, AfterTicks(rails, carts, n));
    Survivor(t.0, t.1)
  }

  /** `location_of_last_cart`: ticks a copy of the carts until a tick with
      a crash leaves at most one cart, and gives that cart's cell; no cart
      left, an illegal move or a missing rail panics (`None`). */
  method LocationOfLastCart(state: CartsNTracks) returns (r: Option<Position>)
    requires state.Valid()
    requires exists n: nat :: !GoesOn(state.rails, state.carts, n)
    ensures exists n: nat ::
              && !GoesOn(state.rails, state.carts, n)
              && (forall k :: 0 <= k < n ==> GoesOn(state.rails, state.carts, k))
              && r == LastCell(state.rails, state.carts, n)
  {
    var copy := new CartsNTracks.Clone(state);
    ghost var bound: nat :| !GoesOn(state.rails, state.carts, bound);
    ghost var n := 0;
    while true
      invariant copy.Valid() && copy.rails == state.rails
      invariant copy.carts == AfterTicks(state.rails, state.carts, n)
      invariant WentOnThrough(state.rails, state.carts, n)
      invariant n <= bound
      decreases bound - n
    {
      var end := copy.MoveCarts();
      ghost var next := n + 1;
      TickNext(state.rails, state.carts, n, next, end, copy.carts);
      LastTickNext(state.rails, state.carts, n, end, copy.carts);
      if !Continues(end, copy.carts) {
        r := Survivor(end, copy.carts);
        assert !GoesOn(state.rails, state.carts, n) && r == LastCell(state.rails, state.carts, n);
        return;
      }
      WentOnThroughNext(state.rails, state.carts, n, next);
      n := next;
    }
  }

  /** One tick from the carts after `n` ticks decides whether the
      last-cart search goes on after tick `n + 1`, and with what answer. */
  lemma LastTickNext(rails: map<Position, RailKind>, carts: seq<Cart>, n: nat, end: TickEnd, after: seq<Cart>)
    requires (end, after) == Tick(rails, AfterTicks(rails, carts, n))
    ensures GoesOn(rails, carts, n) == Continues(end, after) && LastCell(rails, carts, n) == Survivor(end, after)
  {
  }

  /** When the last-cart search ends with a cell, exactly one cart is
      left and it stands there. */
  lemma LastCartIsAlone(rails: map<Position, RailKind>, carts: seq<Cart>, n: nat)
    requires !GoesOn(rails, carts, n)
    requires TickEndAt(rails, carts, n).Ended? && TickEndAt(rails, carts, n).result.Collision?
    ensures |AfterTicks(rails, carts, n + 1)| <= 1
    ensures |AfterTicks(rails, carts, n + 1)| + 2 <= |AfterTicks(rails, carts, n)|
  {
    TickSpec(rails, AfterTicks(rails, carts, n));
  }
}
