// Day 10: The Stars Align. Points of light move with constant velocities;
// the message shows when their bounding box is smallest, which is taken to
// be the state just before the box first grows.
module Day10 {
  import opened Common

  datatype Position = Position(x: int, y: int)

  datatype Velocity = Velocity(x: int, y: int)

  datatype Star = Star(position: Position, velocity: Velocity)

  // ---------------------------------------------------------------------
  // Motion

  /** `Star::evolve`: one second of motion. */
  function Evolved(star: Star): (r: Star)
    ensures r.velocity == star.velocity
  {
    Star(Position(star.position.x + star.velocity.x, star.position.y + star.velocity.y), star.velocity)
  }

  /** `Sky::evolve` applied to a list of stars. */
  function EvolvedAll(stars: seq<Star>): (r: seq<Star>)
    ensures |r| == |stars|
    ensures forall i :: 0 <= i < |stars| ==> r[i] == Evolved(stars[i])
  {
    seq(|stars|, i requires 0 <= i < |stars| => Evolved(stars[i]))
  }

  /** The stars after `n` seconds. */
  function After(stars: seq<Star>, n: nat): (r: seq<Star>)
    ensures |r| == |stars|
  {
    if n == 0 then stars else EvolvedAll(After(stars, n - 1))
  }

  /** After `n` seconds every star has moved `n` times its velocity, which it
      keeps; the stars keep their number and order. */
  lemma {:induction false} AfterMoves(stars: seq<Star>, n: nat, i: nat)
    requires i < |stars|
    ensures After(stars, n)[i].velocity == stars[i].velocity
    ensures After(stars, n)[i].position
         == Position(stars[i].position.x + n * stars[i].velocity.x,
                     stars[i].position.y + n * stars[i].velocity.y)
  {
    if n > 0 {
      AfterMoves(stars, n - 1, i);
      var v := stars[i].velocity;
      assert (n - 1) * v.x + v.x == n * v.x;
      assert (n - 1) * v.y + v.y == n * v.y;
    }
  }

  /** Seconds add up. */
  lemma {:induction false} AfterAfter(stars: seq<Star>, m: nat, n: nat)
    ensures After(After(stars, m), n) == After(stars, m + n)
  {
    if n > 0 {
      AfterAfter(stars, m, n - 1);
    }
  }

  // ---------------------------------------------------------------------
  // The bounding box

  /** The first loop of `Sky::area`: the component-wise minimum, starting
      from (i32::MAX, i32::MAX). */
  function TopLeft(stars: seq<Star>): Position
  {
    if stars == [] then Position(I32_MAX, I32_MAX)
    else
      var tl := TopLeft(stars[..|stars| - 1]);
      var p := stars[|stars| - 1].position;
      Position(if p.x < tl.x then p.x else tl.x, if p.y < tl.y then p.y else tl.y)
  }

  /** The second loop of `Sky::area`: the component-wise maximum, starting
      from (i32::MIN, i32::MIN). */
  function BottomRight(stars: seq<Star>): Position
  {
    if stars == [] then Position(I32_MIN, I32_MIN)
    else
      var br := BottomRight(stars[..|stars| - 1]);
      var p := stars[|stars| - 1].position;
      Position(if p.x > br.x then p.x else br.x, if p.y > br.y then p.y else br.y)
  }

  predicate InI32(stars: seq<Star>)
  {
    forall s <- stars :: I32_MIN <= s.position.x <= I32_MAX && I32_MIN <= s.position.y <= I32_MAX
  }

  /** All four numbers of a star fit an `i32`. */
  predicate StarInI32(s: Star)
  {
    && I32_MIN <= s.position.x <= I32_MAX && I32_MIN <= s.position.y <= I32_MAX
    && I32_MIN <= s.velocity.x <= I32_MAX && I32_MIN <= s.velocity.y <= I32_MAX
  }

  /** With coordinates that fit an `i32`, the corners bound every star, and
      each coordinate of a corner belongs to some star (when there is one). */
  lemma {:induction false} CornersBound(stars: seq<Star>)
    requires InI32(stars)
    ensures forall s <- stars :: TopLeft(stars).x <= s.position.x <= BottomRight(stars).x
    ensures forall s <- stars :: TopLeft(stars).y <= s.position.y <= BottomRight(stars).y
    ensures stars != [] ==> exists s <- stars :: s.position.x == TopLeft(stars).x
    ensures stars != [] ==> exists s <- stars :: s.position.y == TopLeft(stars).y
    ensures stars != [] ==> exists s <- stars :: s.position.x == BottomRight(stars).x
    ensures stars != [] ==> exists s <- stars :: s.position.y == BottomRight(stars).y
  {
    if stars != [] {
      var init := stars[..|stars| - 1];
      var last := stars[|stars| - 1];
      assert forall s <- init :: s in stars;
      assert stars == init + [last];
      CornersBound(init);
      if init == [] {
        assert stars == [last];
      }
    }
  }

  /** The area compared in `align_stars`: width times height of the box. */
  function BoxSize(topLeft: Position, bottomRight: Position): int
  {
    (bottomRight.x - topLeft.x) * (bottomRight.y - topLeft.y)
  }

  function SizeOf(stars: seq<Star>): int
  {
    BoxSize(TopLeft(stars), BottomRight(stars))
  }

  // ---------------------------------------------------------------------
  // When the stars align

  const I64_MAX: int := 0x7FFF_FFFF_FFFF_FFFF

  /** The box size after `k` seconds. */
  function SizeAt(stars: seq<Star>, k: nat): int
  {
    SizeOf(After(stars, k))
  }

  /** The size `SizeAt(stars, k)` is compared with: i64::MAX before the
      first second, the previous size after it. */
  function SizeBefore(stars: seq<Star>, k: nat): int
    requires k >= 1
  {
    if k == 1 then I64_MAX else SizeAt(stars, k - 1)
  }

  /** The box grows in second `k`. */
  predicate GrowsAt(stars: seq<Star>, k: nat)
  {
    k >= 1 && SizeAt(stars, k) > SizeBefore(stars, k)
  }

  /** `k` is the first second in which the box grows. */
  ghost predicate FirstGrowth(stars: seq<Star>, k: nat)
  {
    GrowsAt(stars, k) && forall j :: 1 <= j < k ==> !GrowsAt(stars, j)
  }

  /** The loops in `align_stars` and `time_to_aligned_stars` end only if the
      box grows at some point. */
  ghost predicate Aligns(stars: seq<Star>)
  {
    exists k :: GrowsAt(stars, k)
  }

  /** There is only one first growth, so both solvers agree on the moment. */
  lemma FirstGrowthUnique(stars: seq<Star>, k1: nat, k2: nat)
    requires FirstGrowth(stars, k1) && FirstGrowth(stars, k2)
    ensures k1 == k2
  {
  }

  /** Before the first growth the box never grows: from the first second on
      its size does not increase. */
  lemma {:induction false} ShrinksUntil(stars: seq<Star>, k: nat, i: nat, j: nat)
    requires FirstGrowth(stars, k) && 1 <= i <= j < k
    ensures SizeAt(stars, j) <= SizeAt(stars, i)
    decreases j - i
  {
    if i < j {
      ShrinksUntil(stars, k, i, j - 1);
      assert !GrowsAt(stars, j);
    }
  }

  /** The box one second after the aligned state is bigger. */
  lemma AlignedIsSmallerThanNext(stars: seq<Star>, k: nat)
    requires FirstGrowth(stars, k) && k >= 2
    ensures SizeAt(stars, k - 1) < SizeAt(stars, k)
    ensures forall j :: 1 <= j < k ==> SizeAt(stars, k - 1) <= SizeAt(stars, j)
  {
    forall j | 1 <= j < k
      ensures SizeAt(stars, k - 1) <= SizeAt(stars, j)
    {
      ShrinksUntil(stars, k, j, k - 1);
    }
  }

  // ---------------------------------------------------------------------
  // Sky

  class Sky {
    var stars: seq<Star>

    constructor(stars: seq<Star>)
      ensures this.stars == stars
    {
      this.stars := stars;
    }

    /** `Clone`. */
    method Copy() returns (c: Sky)
      ensures fresh(c) && c.stars == stars
    {
      c := new Sky(stars);
    }

    /** `Sky::evolve`: every star moves once. */
    method Evolve()
      modifies this
      ensures stars == EvolvedAll(old(stars))
    {
      var i := 0;
      while i < |stars|
        invariant 0 <= i <= |stars| == |old(stars)|
        invariant forall j :: 0 <= j < i ==> stars[j] == Evolved(old(stars)[j])
        invariant forall j :: i <= j < |stars| ==> stars[j] == old(stars)[j]
      {
        stars := stars[i := Evolved(stars[i])];
        i := i + 1;
      }
    }

    /** `Sky::area`: the top-left and bottom-right corners of the box. */
    method Area() returns (topLeft: Position, bottomRight: Position)
      ensures topLeft == TopLeft(stars) && bottomRight == BottomRight(stars)
    {
      topLeft := Position(I32_MAX, I32_MAX);
      for i := 0 to |stars|
        invariant topLeft == TopLeft(stars[..i])
      {
        assert stars[..i + 1][..i] == stars[..i];
        var p := stars[i].position;
        if p.x < topLeft.x {
          topLeft := topLeft.(x := p.x);
        }
        if p.y < topLeft.y {
          topLeft := topLeft.(y := p.y);
        }
      }
      assert stars[..|stars|] == stars;
      bottomRight := Position(I32_MIN, I32_MIN);
      for i := 0 to |stars|
        invariant bottomRight == BottomRight(stars[..i])
      {
        assert stars[..i + 1][..i] == stars[..i];
        var p := stars[i].position;
        if p.x > bottomRight.x {
          bottomRight := bottomRight.(x := p.x);
        }
        if p.y > bottomRight.y {
          bottomRight := bottomRight.(y := p.y);
        }
      }
    }

    /** `Sky::star_positions`: the set of occupied positions. */
    function StarPositions(): (r: set<Position>)
      reads this
      ensures forall p :: p in r <==> exists s <- stars :: s.position == p
    {
      set s <- stars :: s.position
    }
  }

  /** A position is occupied by at most one entry, so there are no more
      occupied positions than stars. */
  lemma {:induction false} PositionsAtMostStars(stars: seq<Star>)
    ensures |set s <- stars :: s.position| <= |stars|
  {
    if stars != [] {
      var rest := stars[1..];
      PositionsAtMostStars(rest);
      assert stars == [stars[0]] + rest;
      assert (set s <- stars :: s.position) == (set s <- rest :: s.position) + {stars[0].position};
    }
  }

  /** One more second without growth, which cannot yet be the second the
      box is known to grow in. */
  lemma NoGrowthExtends(stars: seq<Star>, k: nat, bound: nat)
    requires forall j :: 1 <= j <= k ==> !GrowsAt(stars, j)
    requires k + 1 >= 1 && SizeAt(stars, k + 1) <= SizeBefore(stars, k + 1)
    requires k < bound && GrowsAt(stars, bound)
    ensures forall j :: 1 <= j <= k + 1 ==> !GrowsAt(stars, j)
    ensures k + 1 < bound
  {
  }

  /** `align_stars`: evolves a copy of the sky while the box does not grow
      and returns the last state before it does. */
  method AlignStars(sky: Sky) returns (aligned: Sky)
    requires Aligns(sky.stars)
    ensures fresh(aligned)
    ensures exists k: nat :: FirstGrowth(sky.stars, k) && k >= 1 && aligned.stars == After(sky.stars, k - 1)
  {
    ghost var bound: nat :| GrowsAt(sky.stars, bound);
    var lastArea := I64_MAX;
    var lastSky := sky.Copy();
    ghost var k: nat := 0;
    while true
      invariant fresh(lastSky)
      invariant lastSky.stars == After(sky.stars, k) && lastArea == SizeBefore(sky.stars, k + 1)
      invariant forall j :: 1 <= j <= k ==> !GrowsAt(sky.stars, j)
      invariant k < bound
      decreases bound - k
    {
      var nextSky := lastSky.Copy();
      nextSky.Evolve();
      var topLeft, bottomRight := nextSky.Area();
      var currArea := BoxSize(topLeft, bottomRight);
      assert currArea == SizeAt(sky.stars, k + 1);
      if currArea > lastArea {
        assert FirstGrowth(sky.stars, k + 1);
        return lastSky;
      }
      NoGrowthExtends(sky.stars, k, bound);
      lastArea := currArea;
      lastSky := nextSky;
      k := k + 1;
    }
  }

  /** `time_to_aligned_stars`: the number of seconds the box did not grow,
      which is the number of evolutions `align_stars` keeps. */
  method TimeToAlignedStars(sky: Sky) returns (duration: nat)
    requires Aligns(sky.stars)
    ensures FirstGrowth(sky.stars, duration + 1)
  {
    ghost var stars := sky.stars;
    ghost var bound: nat :| GrowsAt(stars, bound);
    duration := 0;
    var lastArea := I64_MAX;
    var current := sky.Copy();
    while true
      invariant current.stars == After(stars, duration) && lastArea == SizeBefore(stars, duration + 1)
      invariant forall j :: 1 <= j <= duration ==> !GrowsAt(stars, j)
      invariant duration < bound
      invariant fresh(current)
      decreases bound - duration
    {
      current.Evolve();
      assert current.stars == After(stars, duration + 1);
      var topLeft, bottomRight := current.Area();
      var currArea := BoxSize(topLeft, bottomRight);
      assert currArea == SizeAt(stars, duration + 1);
      if currArea > lastArea {
        return;
      }
      NoGrowthExtends(stars, duration, bound);
      lastArea := currArea;
      duration := duration + 1;
    }
  }

  /** The two solvers agree: the aligned sky is the sky after the duration. */
  lemma AlignedAfterDuration(stars: seq<Star>, k: nat, duration: nat)
    requires FirstGrowth(stars, k) && FirstGrowth(stars, duration + 1)
    ensures After(stars, k - 1) == After(stars, duration)
  {
    FirstGrowthUnique(stars, k, duration + 1);
  }

  // ---------------------------------------------------------------------
  // Parsing

  /** `line.split(|c| c == '<' || c == '>' || c == ',')` is a split on ','
      once the angle brackets are turned into commas. */
  function Separated(line: string): (r: string)
    ensures |r| == |line|
  {
    if line == [] then []
    else [if line[0] == '<' || line[0] == '>' then ',' else line[0]] + Separated(line[1..])
  }

  lemma {:induction false} SeparatedAppend(a: string, b: string)
    ensures Separated(a + b) == Separated(a) + Separated(b)
  {
    if a == [] {
      assert a + b == b;
    } else {
      SeparatedAppend(a[1..], b);
      assert (a + b)[0] == a[0] && (a + b)[1..] == a[1..] + b;
      var c := if a[0] == '<' || a[0] == '>' then ',' else a[0];
      calc {
        Separated(a + b);
        [c] + Separated(a[1..] + b);
        [c] + (Separated(a[1..]) + Separated(b));
        ([c] + Separated(a[1..])) + Separated(b);
        Separated(a) + Separated(b);
      }
    }
  }

  lemma {:induction false} SeparatedKeeps(s: string)
    requires '<' !in s && '>' !in s
    ensures Separated(s) == s
  {
    if s != [] {
      SeparatedKeeps(s[1..]);
    }
  }

  /** One "position=<x, y> velocity=<vx, vy>" line: pieces 1, 2, 4 and 5,
      trimmed, as `i32`s; anything else is a panic (`None`). */
  function ParseStar(line: string): (r: Option<Star>)
    ensures r.Some? ==> StarInI32(r.value)
  {
    var parts := Split(Separated(line), ',');
    if |parts| < 6 then None
    else
      match (ParseInt(Trim(parts[1]), I32_MIN, I32_MAX), ParseInt(Trim(parts[2]), I32_MIN, I32_MAX),
             ParseInt(Trim(parts[4]), I32_MIN, I32_MAX), ParseInt(Trim(parts[5]), I32_MIN, I32_MAX))
      case (Some(x), Some(y), Some(vx), Some(vy)) => Some(Star(Position(x, y), Velocity(vx, vy)))
      case _ => None
  }

  function ParseStars(lines: seq<string>): (r: Option<seq<Star>>)
    ensures r.Some? ==> |r.value| == |lines| && forall s <- r.value :: StarInI32(s)
  {
    if lines == [] then Some([])
    else
      match (ParseStar(lines[0]), ParseStars(lines[1..]))
      case (Some(s), Some(rest)) => Some([s] + rest)
      case _ => None
  }

  /** `parse`: one star per line of the trimmed input, in input order. */
  function Parse(input: string): (r: Option<seq<Star>>)
    ensures r.Some? ==> |r.value| == |Lines(Trim(input))| && forall s <- r.value :: StarInI32(s)
  {
    ParseStars(Lines(Trim(input)))
  }

  /** The puzzle's line format, "position=<x, y> velocity=<vx, vy>". */
  function FormatStar(s: Star): string
  {
    Fielded(["position=", ShowInt(s.position.x), " " + ShowInt(s.position.y),
             " velocity=", ShowInt(s.velocity.x), " " + ShowInt(s.velocity.y)], "<,><,>")
  }

  lemma ShowIntPlain(v: int)
    ensures Plain(ShowInt(v)) && '\n' !in ShowInt(v)
    ensures !IsWhitespace(ShowInt(v)[0]) && !IsWhitespace(ShowInt(v)[|ShowInt(v)| - 1])
  {
    var n := if v < 0 then -v else v;
    assert AllDigits(ShowNat(n));
    if v < 0 {
      assert ShowInt(v) == "-" + ShowNat(n);
    }
  }

  /** Free of the three separators. */
  predicate Plain(s: string)
  {
    '<' !in s && '>' !in s && ',' !in s
  }

  lemma PlainAfterSpace(s: string)
    requires Plain(s)
    ensures Plain(" " + s)
  {
  }

  /** A field free of separators, then one separator, starts the split. */
  lemma SplitSeparated(p: string, c: char, t: string)
    requires c == '<' || c == '>' || c == ','
    requires '<' !in p && '>' !in p && ',' !in p
    ensures Split(Separated(p + [c] + t), ',') == [p] + Split(Separated(t), ',')
  {
    SeparatedAppend(p + [c], t);
    SeparatedAppend(p, [c]);
    SeparatedKeeps(p);
    assert Separated([c]) == [','];
    SplitSegment(p, ',', Separated(t));
  }

  /** Fields, each followed by its separator. */
  function Fielded(fields: seq<string>, seps: string): string
    requires |fields| == |seps|
  {
    if fields == [] then "" else fields[0] + [seps[0]] + Fielded(fields[1..], seps[1..])
  }

  lemma {:induction false} SplitFielded(fields: seq<string>, seps: string)
    requires |fields| == |seps|
    requires forall f <- fields :: Plain(f)
    requires forall c <- seps :: c == '<' || c == '>' || c == ','
    ensures Split(Separated(Fielded(fields, seps)), ',') == fields + [""]
  {
    if fields == [] {
      assert Split(Separated(""), ',') == [""];
    } else {
      assert fields[0] in fields && seps[0] in seps;
      assert forall f <- fields[1..] :: f in fields;
      assert forall c <- seps[1..] :: c in seps;
      SplitFielded(fields[1..], seps[1..]);
      SplitSeparated(fields[0], seps[0], Fielded(fields[1..], seps[1..]));
      assert [fields[0]] + (fields[1..] + [""]) == fields + [""];
    }
  }

  /** Six plain fields with the line's separators split back into themselves. */
  lemma SplitSix(a: string, b: string, c: string, d: string, e: string, f: string)
    requires Plain(a) && Plain(b) && Plain(c) && Plain(d) && Plain(e) && Plain(f)
    ensures Split(Separated(Fielded([a, b, c, d, e, f], "<,><,>")), ',') == [a, b, c, d, e, f, ""]
  {
    var fields := [a, b, c, d, e, f];
    assert forall x <- fields :: Plain(x);
    SplitFielded(fields, "<,><,>");
  }

  /** The pieces of a formatted line. */
  lemma SplitFormat(s: Star)
    ensures Split(Separated(FormatStar(s)), ',')
         == ["position=", ShowInt(s.position.x), " " + ShowInt(s.position.y),
             " velocity=", ShowInt(s.velocity.x), " " + ShowInt(s.velocity.y), ""]
  {
    ShowIntPlain(s.position.x);
    ShowIntPlain(s.position.y);
    ShowIntPlain(s.velocity.x);
    ShowIntPlain(s.velocity.y);
    PlainAfterSpace(ShowInt(s.position.y));
    PlainAfterSpace(ShowInt(s.velocity.y));
    SplitSix("position=", ShowInt(s.position.x), " " + ShowInt(s.position.y),
             " velocity=", ShowInt(s.velocity.x), " " + ShowInt(s.velocity.y));
  }

  lemma ParseFormatStar(s: Star)
    requires StarInI32(s)
    ensures ParseStar(FormatStar(s)) == Some(s)
  {
    SplitFormat(s);
    ShowIntPlain(s.position.x);
    ShowIntPlain(s.position.y);
    ShowIntPlain(s.velocity.x);
    ShowIntPlain(s.velocity.y);
    TrimKeeps(ShowInt(s.position.x));
    TrimKeeps(ShowInt(s.velocity.x));
    TrimSpaceBefore(ShowInt(s.position.y));
    TrimSpaceBefore(ShowInt(s.velocity.y));
    ParsePieces(FormatStar(s), s);
  }

  /** A line whose pieces 1, 2, 4 and 5 trim to the star's numbers is read
      as that star. */
  lemma ParsePieces(line: string, s: Star)
    requires StarInI32(s)
    requires var parts := Split(Separated(line), ',');
             && |parts| >= 6
             && Trim(parts[1]) == ShowInt(s.position.x) && Trim(parts[2]) == ShowInt(s.position.y)
             && Trim(parts[4]) == ShowInt(s.velocity.x) && Trim(parts[5]) == ShowInt(s.velocity.y)
    ensures ParseStar(line) == Some(s)
  {
    ParseShowInt(s.position.x, I32_MIN, I32_MAX);
    ParseShowInt(s.position.y, I32_MIN, I32_MAX);
    ParseShowInt(s.velocity.x, I32_MIN, I32_MAX);
    ParseShowInt(s.velocity.y, I32_MIN, I32_MAX);
  }

  /** Line feeds appear in a fielded line only if a field or a separator has one. */
  lemma {:induction false} FieldedNoLineFeed(fields: seq<string>, seps: string)
    requires |fields| == |seps|
    requires forall f <- fields :: '\n' !in f
    requires '\n' !in seps
    ensures '\n' !in Fielded(fields, seps)
  {
    if fields != [] {
      assert fields[0] in fields && seps[0] in seps;
      assert forall f <- fields[1..] :: f in fields;
      FieldedNoLineFeed(fields[1..], seps[1..]);
    }
  }

  /** A fielded line starts with its first field and ends with its last separator. */
  lemma {:induction false} FieldedEnds(fields: seq<string>, seps: string)
    requires |fields| == |seps| && |fields| >= 1 && fields[0] != []
    ensures Fielded(fields, seps) != []
    ensures Fielded(fields, seps)[0] == fields[0][0]
    ensures Fielded(fields, seps)[|Fielded(fields, seps)| - 1] == seps[|seps| - 1]
    decreases |fields|
  {
    var rest := Fielded(fields[1..], seps[1..]);
    if |fields| == 1 {
      assert rest == "";
    } else if fields[1] == [] {
      var fs := [[seps[1]]] + fields[2..];
      assert Fielded(fields[1..], seps[1..]) == [seps[1]] + Fielded(fields[2..], seps[2..]);
      assert Fielded(fs, seps[1..]) == [seps[1]] + [seps[1]] + Fielded(fields[2..], seps[2..]);
      FieldedEnds(fs, seps[1..]);
    } else {
      FieldedEnds(fields[1..], seps[1..]);
    }
  }

  /** A formatted line starts with 'p', ends with '>' and is one line. */
  lemma FormatStarShape(s: Star)
    ensures FormatStar(s) != [] && FormatStar(s)[0] == 'p' && FormatStar(s)[|FormatStar(s)| - 1] == '>'
    ensures '\n' !in FormatStar(s)
  {
    ShowIntPlain(s.position.x);
    ShowIntPlain(s.position.y);
    ShowIntPlain(s.velocity.x);
    ShowIntPlain(s.velocity.y);
    var fields := ["position=", ShowInt(s.position.x), " " + ShowInt(s.position.y),
                   " velocity=", ShowInt(s.velocity.x), " " + ShowInt(s.velocity.y)];
    var seps := "<,><,>";
    assert forall f <- fields :: '\n' !in f;
    FieldedNoLineFeed(fields, seps);
    FieldedEnds(fields, seps);
  }

  /** One formatted line per star. */
  function FormatLines(stars: seq<Star>): (r: seq<string>)
    ensures |r| == |stars|
  {
    if stars == [] then [] else [FormatStar(stars[0])] + FormatLines(stars[1..])
  }

  /** The puzzle input for a list of stars. */
  function FormatSky(stars: seq<Star>): string
    requires stars != []
  {
    Join(FormatLines(stars), '\n')
  }

  lemma {:induction false} ParseFormatStars(stars: seq<Star>)
    requires forall s <- stars :: StarInI32(s)
    ensures ParseStars(FormatLines(stars)) == Some(stars)
  {
    if stars != [] {
      assert stars[0] in stars;
      assert forall s <- stars[1..] :: s in stars;
      var lines := FormatLines(stars);
      ParseFormatStar(stars[0]);
      ParseFormatStars(stars[1..]);
      assert lines[0] == FormatStar(stars[0]) && lines[1..] == FormatLines(stars[1..]);
      ParseStarsStep(lines, stars);
    }
  }

  /** A first line and the rest, each read, make the whole read. */
  lemma ParseStarsStep(lines: seq<string>, stars: seq<Star>)
    requires lines != [] && stars != []
    requires ParseStar(lines[0]) == Some(stars[0]) && ParseStars(lines[1..]) == Some(stars[1..])
    ensures ParseStars(lines) == Some(stars)
  {
    assert [stars[0]] + stars[1..] == stars;
  }

  lemma {:induction false} FormatLinesShape(stars: seq<Star>)
    ensures forall l <- FormatLines(stars) :: l != [] && l[0] == 'p' && l[|l| - 1] == '>' && '\n' !in l
  {
    if stars != [] {
      FormatStarShape(stars[0]);
      FormatLinesShape(stars[1..]);
    }
  }

  /** `parse` reads back the stars of a formatted input, in order. */
  lemma ParseFormatSky(stars: seq<Star>)
    requires stars != [] && forall s <- stars :: StarInI32(s)
    ensures Parse(FormatSky(stars)) == Some(stars)
  {
    SkyLines(stars);
    ParseFormatStars(stars);
  }

  /** A formatted sky splits back into its formatted lines. */
  lemma SkyLines(stars: seq<Star>)
    requires stars != []
    ensures Lines(Trim(FormatSky(stars))) == FormatLines(stars)
  {
    FormatLinesShape(stars);
    ShapedLines(FormatLines(stars));
  }

  /** Lines that start with 'p', end with '>' and hold no line feed are
      read back from their join. */
  lemma ShapedLines(lines: seq<string>)
    requires lines != []
    requires forall l <- lines :: l != [] && l[0] == 'p' && l[|l| - 1] == '>' && '\n' !in l
    ensures Lines(Trim(Join(lines, '\n'))) == lines
  {
    assert lines[0] in lines && lines[|lines| - 1] in lines;
    JoinEnds(lines, '\n');
    TrimKeeps(Join(lines, '\n'));
    LinesJoin(lines);
  }
}
