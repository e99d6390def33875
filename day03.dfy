// Day 3: No Matter How You Slice It. Fabric claims "#id @ left,top: wxh",
// the area covered by two or more claims, and the claims that overlap none.
module Day03 {
  import opened Common

  datatype Claim = Claim(id: nat, left: nat, top: nat, width: nat, height: nat)

  // ---------------------------------------------------------------------
  // Parsing

  /** Which field the next digits belong to; `Unknown` before the first marker. */
  datatype Token = Id | Left | Top | Width | Height | Unknown

  /** The digit buffers of the five fields. */
  datatype Fields = Fields(id: string, left: string, top: string, width: string, height: string)

  const NoFields := Fields("", "", "", "", "")

  datatype ParseError = UnknownToken(chr: char) | ParseIntError

  datatype ClaimResult = Parsed(claim: Claim) | Failed(error: ParseError)

  /** The outcome of the character scan: the filled buffers or the offending character. */
  datatype Scan = Scanned(fields: Fields) | Unexpected(chr: char)

  function Marker(c: char): Option<Token>
  {
    match c
    case '#' => Some(Id)
    case '@' => Some(Left)
    case ',' => Some(Top)
    case ':' => Some(Width)
    case 'x' => Some(Height)
    case _ => None
  }

  /** Appends text to the buffer selected by the token. */
  function Append(f: Fields, t: Token, ds: string): Fields
    requires t != Unknown
  {
    match t
    case Id => f.(id := f.id + ds)
    case Left => f.(left := f.left + ds)
    case Top => f.(top := f.top + ds)
    case Width => f.(width := f.width + ds)
    case Height => f.(height := f.height + ds)
  }

  /** The scan of `from_str` over the rest of the line, from the given state. */
  function ScanFrom(s: string, t: Token, f: Fields): Scan
  {
    if s == [] then Scanned(f)
    else
      var c := s[0];
      if Marker(c).Some? then ScanFrom(s[1..], Marker(c).value, f)
      else if IsWhitespace(c) then ScanFrom(s[1..], t, f)
      else if IsDigit(c) then
        if t == Unknown then Unexpected(c) else ScanFrom(s[1..], t, Append(f, t, [c]))
      else Unexpected(c)
  }

  /** The five buffers as numbers: a `u32` id and `u16` offsets and sizes. */
  function ParseFields(f: Fields): ClaimResult
  {
    var id := ParseInt(f.id, 0, U32_MAX);
    var left := ParseInt(f.left, 0, U16_MAX);
    var top := ParseInt(f.top, 0, U16_MAX);
    var width := ParseInt(f.width, 0, U16_MAX);
    var height := ParseInt(f.height, 0, U16_MAX);
    if id.None? || left.None? || top.None? || width.None? || height.None? then Failed(ParseIntError)
    else Parsed(Claim(id.value, left.value, top.value, width.value, height.value))
  }

  /** What `Claim::from_str` returns for a line. */
  function ClaimOf(s: string): ClaimResult
  {
    match ScanFrom(s, Unknown, NoFields)
    case Unexpected(c) => Failed(UnknownToken(c))
    case Scanned(f) => ParseFields(f)
  }

  /** `Claim::from_str`: one pass over the characters, then the five number parses. */
  method ParseClaim(s: string) returns (r: ClaimResult)
    ensures r == ClaimOf(s)
  {
    var token := Unknown;
    var fields := NoFields;
    var i := 0;
    while i < |s|
      invariant 0 <= i <= |s|
      invariant ScanFrom(s, Unknown, NoFields) == ScanFrom(s[i..], token, fields)
    {
      var c := s[i];
      assert s[i..][0] == c && s[i..][1..] == s[i + 1..];
      if Marker(c).Some? {
        token := Marker(c).value;
      } else if IsWhitespace(c) {
      } else if IsDigit(c) {
        if token == Unknown {
          return Failed(UnknownToken(c));
        }
        fields := Append(fields, token, [c]);
      } else {
        return Failed(UnknownToken(c));
      }
      i := i + 1;
    }
    return ParseFields(fields);
  }

  /** The claim written the way the puzzle input writes it. */
  function Format(c: Claim): string
  {
    "#" + (ShowNat(c.id) + (" @ " + (ShowNat(c.left) + ("," + (ShowNat(c.top) + (": "
      + (ShowNat(c.width) + ("x" + ShowNat(c.height)))))))))
  }

  predicate InRange(c: Claim)
  {
    c.id <= U32_MAX && c.left <= U16_MAX && c.top <= U16_MAX && c.width <= U16_MAX && c.height <= U16_MAX
  }

  lemma {:induction false} ScanDigits(ds: string, rest: string, t: Token, f: Fields)
    requires AllDigits(ds) && t != Unknown
    ensures ScanFrom(ds + rest, t, f) == ScanFrom(rest, t, Append(f, t, ds))
  {
    if ds == [] {
      assert ds + rest == rest;
      assert Append(f, t, ds) == f;
    } else {
      assert (ds + rest)[1..] == ds[1..] + rest;
      assert IsDigit(ds[0]) && Marker(ds[0]).None?;
      ScanDigits(ds[1..], rest, t, Append(f, t, [ds[0]]));
      assert [ds[0]] + ds[1..] == ds;
      match t
      case Id => assert f.id + [ds[0]] + ds[1..] == f.id + ds;
      case Left => assert f.left + [ds[0]] + ds[1..] == f.left + ds;
      case Top => assert f.top + [ds[0]] + ds[1..] == f.top + ds;
      case Width => assert f.width + [ds[0]] + ds[1..] == f.width + ds;
      case Height => assert f.height + [ds[0]] + ds[1..] == f.height + ds;
    }
  }

  lemma {:induction false} SkipSpace(ws: string, rest: string, t: Token, f: Fields)
    requires forall c <- ws :: IsWhitespace(c)
    ensures ScanFrom(ws + rest, t, f) == ScanFrom(rest, t, f)
  {
    if ws != [] {
      assert ws[0] in ws;
      assert (ws + rest)[1..] == ws[1..] + rest;
      SkipSpace(ws[1..], rest, t, f);
    } else {
      assert ws + rest == rest;
    }
  }

  /** Blanks, a marker, blanks and a number: the number lands in the marker's buffer. */
  lemma FieldStep(pre: string, m: char, post: string, ds: string, rest: string, t: Token, f: Fields)
    requires Marker(m).Some? && AllDigits(ds)
    requires forall c <- pre :: IsWhitespace(c)
    requires forall c <- post :: IsWhitespace(c)
    ensures ScanFrom((pre + [m] + post) + (ds + rest), t, f)
         == ScanFrom(rest, Marker(m).value, Append(f, Marker(m).value, ds))
  {
    assert (pre + [m] + post) + (ds + rest) == pre + ([m] + (post + (ds + rest)));
    SkipSpace(pre, [m] + (post + (ds + rest)), t, f);
    assert ([m] + (post + (ds + rest)))[1..] == post + (ds + rest);
    SkipSpace(post, ds + rest, Marker(m).value, f);
    ScanDigits(ds, rest, Marker(m).value, f);
  }

  /** The top, width and height fields of a formatted claim scan into
      their buffers. */
  lemma ScanFormatTail(tp: string, w: string, h: string, f2: Fields)
    requires AllDigits(tp) && AllDigits(w) && AllDigits(h)
    ensures ScanFrom("," + (tp + (": " + (w + ("x" + h)))), Left, f2)
         == ScanFrom([], Height, Append(Append(Append(f2, Top, tp), Width, w), Height, h))
  {
    var s5 := "x" + h;
    var s4 := ": " + (w + s5);
    var f3 := Append(f2, Top, tp);
    var f4 := Append(f3, Width, w);
    assert "" + [','] + "" == ",";
    FieldStep("", ',', "", tp, s4, Left, f2);
    assert "" + [':'] + " " == ": ";
    FieldStep("", ':', " ", w, s5, Top, f3);
    assert "" + ['x'] + "" == "x" && h + [] == h;
    FieldStep("", 'x', "", h, [], Width, f4);
  }

  lemma ScanFormat(c: Claim)
    ensures ScanFrom(Format(c), Unknown, NoFields)
         == Scanned(Fields(ShowNat(c.id), ShowNat(c.left), ShowNat(c.top), ShowNat(c.width), ShowNat(c.height)))
  {
    var id, l, tp, w, h := ShowNat(c.id), ShowNat(c.left), ShowNat(c.top), ShowNat(c.width), ShowNat(c.height);
    var s3 := "," + (tp + (": " + (w + ("x" + h))));
    var s2 := " @ " + (l + s3);
    var f1 := Append(NoFields, Id, id);
    var f2 := Append(f1, Left, l);
    assert "" + ['#'] + "" == "#";
    FieldStep("", '#', "", id, s2, Unknown, NoFields);
    assert " " + ['@'] + " " == " @ ";
    FieldStep(" ", '@', " ", l, s3, Id, f1);
    ScanFormatTail(tp, w, h, f2);
  }

  /** Parsing a formatted claim gives the claim back. */
  lemma FormatRoundTrip(c: Claim)
    requires InRange(c)
    ensures ClaimOf(Format(c)) == Parsed(c)
  {
    ScanFormat(c);
  }

  /** A digit before any marker is an unknown token. */
  lemma LeadingDigitRejected(s: string)
    requires s != [] && IsDigit(s[0])
    ensures ClaimOf(s) == Failed(UnknownToken(s[0]))
  {
  }

  /** A line that never fills the height buffer fails to parse as a number. */
  lemma MissingFieldRejected(s: string)
    requires ScanFrom(s, Unknown, NoFields).Scanned? && ScanFrom(s, Unknown, NoFields).fields.height == ""
    ensures ClaimOf(s) == Failed(ParseIntError)
  {
  }

  // ---------------------------------------------------------------------
  // Part 1: the area claimed at least twice

  /** A half-open rectangle x1..x2 by y1..y2. */
  datatype Rect = Rect(x1: int, x2: int, y1: int, y2: int)

  /** The cells (x, y) with x1 <= x < x2 in row y. */
  ghost function Row(x1: int, x2: int, y: int): set<(int, int)>
    decreases x2 - x1
  {
    if x2 <= x1 then {} else Row(x1, x2 - 1, y) + {(x2 - 1, y)}
  }

  /** The cells of a rectangle, row by row. */
  ghost function Cells(r: Rect): set<(int, int)>
    decreases r.y2 - r.y1
  {
    if r.y2 <= r.y1 then {} else Cells(r.(y2 := r.y2 - 1)) + Row(r.x1, r.x2, r.y2 - 1)
  }

  lemma {:induction false} InRow(x1: int, x2: int, y: int, p: (int, int))
    ensures p in Row(x1, x2, y) <==> x1 <= p.0 < x2 && p.1 == y
    decreases x2 - x1
  {
    if x2 > x1 {
      InRow(x1, x2 - 1, y, p);
    }
  }

  lemma {:induction false} InCells(r: Rect, p: (int, int))
    ensures p in Cells(r) <==> r.x1 <= p.0 < r.x2 && r.y1 <= p.1 < r.y2
    decreases r.y2 - r.y1
  {
    if r.y2 > r.y1 {
      InCells(r.(y2 := r.y2 - 1), p);
      InRow(r.x1, r.x2, r.y2 - 1, p);
    }
  }

  ghost predicate Covers(c: Claim, p: (int, int))
  {
    c.left <= p.0 < c.left + c.width && c.top <= p.1 < c.top + c.height
  }

  /** The case analysis of `overlapping_area` for one pair of claims. */
  function Intersection(c1: Claim, c2: Claim): Option<Rect>
  {
    var a1, b1, c1y, d1 := c1.left, c1.left + c1.width, c1.top, c1.top + c1.height;
    var a2, b2, c2y, d2 := c2.left, c2.left + c2.width, c2.top, c2.top + c2.height;
    if a2 >= a1 && a2 <= b1 then
      if c2y >= c1y && c2y <= d1 then Some(Rect(a2, Min(b1, b2), c2y, Min(d1, d2)))
      else if c2y <= c1y && d2 >= c1y then Some(Rect(a2, Min(b1, b2), c1y, Min(d1, d2)))
      else None
    else if a2 <= a1 && b2 >= a1 then
      if c2y >= c1y && c2y <= d1 then Some(Rect(a1, Min(b1, b2), c2y, Min(d1, d2)))
      else if c2y <= c1y && d2 >= c1y then Some(Rect(a1, Min(b1, b2), c1y, Min(d1, d2)))
      else None
    else None
  }

  function Min(a: int, b: int): int { if a <= b then a else b }

  ghost function PairCells(c1: Claim, c2: Claim): set<(int, int)>
  {
    match Intersection(c1, c2)
    case None => {}
    case Some(r) => Cells(r)
  }

  /** The case analysis yields exactly the cells both claims cover. */
  lemma IntersectionExact(c1: Claim, c2: Claim, p: (int, int))
    ensures p in PairCells(c1, c2) <==> Covers(c1, p) && Covers(c2, p)
  {
    if Intersection(c1, c2).Some? {
      InCells(Intersection(c1, c2).value, p);
    }
  }

  /** Cells of pairs (i, k) with i < k < j. */
  ghost function RowUnion(claims: seq<Claim>, i: nat, j: nat): set<(int, int)>
    requires i < |claims| && j <= |claims|
  {
    if j <= i + 1 then {} else RowUnion(claims, i, j - 1) + PairCells(claims[i], claims[j - 1])
  }

  /** Cells of all pairs whose first index is below `i`. */
  ghost function PairsUnion(claims: seq<Claim>, i: nat): set<(int, int)>
    requires i <= |claims|
  {
    if i == 0 then {} else PairsUnion(claims, i - 1) + RowUnion(claims, i - 1, |claims|)
  }

  ghost predicate CoveredTwice(claims: seq<Claim>, p: (int, int))
  {
    exists i, j :: 0 <= i < j < |claims| && Covers(claims[i], p) && Covers(claims[j], p)
  }

  lemma {:induction false} RowUnionExact(claims: seq<Claim>, i: nat, j: nat, p: (int, int))
    requires i < |claims| && j <= |claims|
    ensures p in RowUnion(claims, i, j) <==> exists k :: i < k < j && Covers(claims[i], p) && Covers(claims[k], p)
  {
    if j > i + 1 {
      RowUnionExact(claims, i, j - 1, p);
      IntersectionExact(claims[i], claims[j - 1], p);
    }
  }

  lemma {:induction false} PairsUnionExact(claims: seq<Claim>, i: nat, p: (int, int))
    requires i <= |claims|
    ensures p in PairsUnion(claims, i) <==>
      exists a, b :: 0 <= a < i && a < b < |claims| && Covers(claims[a], p) && Covers(claims[b], p)
  {
    if i > 0 {
      PairsUnionExact(claims, i - 1, p);
      RowUnionExact(claims, i - 1, |claims|, p);
    }
  }

  /** The cells claimed at least twice, as a finite set. */
  ghost function OverlapCells(claims: seq<Claim>): set<(int, int)>
  {
    PairsUnion(claims, |claims|)
  }

  lemma OverlapCellsExact(claims: seq<Claim>, p: (int, int))
    ensures p in OverlapCells(claims) <==> CoveredTwice(claims, p)
  {
    PairsUnionExact(claims, |claims|, p);
  }

  /** The two nested `for` loops that insert the cells of one intersection. */
  method InsertCells(pieces: set<(int, int)>, r: Rect) returns (out: set<(int, int)>)
    ensures out == pieces + Cells(r)
  {
    out := pieces;
    var y := r.y1;
    while y < r.y2
      invariant r.y1 <= y && (y <= r.y2 || y == r.y1)
      invariant out == pieces + Cells(r.(y2 := y))
    {
      var x := r.x1;
      while x < r.x2
        invariant r.x1 <= x && (x <= r.x2 || x == r.x1)
        invariant out == pieces + Cells(r.(y2 := y)) + Row(r.x1, x, y)
      {
        out := out + {(x, y)};
        x := x + 1;
      }
      assert Row(r.x1, x, y) == Row(r.x1, r.x2, y);
      y := y + 1;
    }
    assert Cells(r.(y2 := y)) == Cells(r);
  }

  /** `overlapping_area`: how many square inches lie within two or more claims. */
  method OverlappingArea(claims: seq<Claim>) returns (n: nat)
    ensures n == |OverlapCells(claims)|
  {
    var pieces: set<(int, int)> := {};
    var i := 0;
    while i < |claims|
      invariant 0 <= i <= |claims|
      invariant pieces == PairsUnion(claims, i)
    {
      var j := i + 1;
      while j < |claims|
        invariant i + 1 <= j <= |claims|
        invariant pieces == PairsUnion(claims, i) + RowUnion(claims, i, j)
      {
        var overlap := Intersection(claims[i], claims[j]);
        if overlap.Some? {
          pieces := InsertCells(pieces, overlap.value);
        }
        j := j + 1;
      }
      i := i + 1;
    }
    n := |pieces|;
  }

  lemma {:induction false} RowCard(x1: int, x2: int, y: int)
    requires x1 <= x2
    ensures |Row(x1, x2, y)| == x2 - x1
    decreases x2 - x1
  {
    if x1 < x2 {
      RowCard(x1, x2 - 1, y);
      InRow(x1, x2 - 1, y, (x2 - 1, y));
    }
  }

  lemma {:induction false} CellsCard(r: Rect)
    requires r.x1 <= r.x2 && r.y1 <= r.y2
    ensures |Cells(r)| == (r.x2 - r.x1) * (r.y2 - r.y1)
    decreases r.y2 - r.y1
  {
    if r.y1 < r.y2 {
      var top := r.(y2 := r.y2 - 1);
      var row := Row(r.x1, r.x2, r.y2 - 1);
      var w, h := r.x2 - r.x1, r.y2 - r.y1;
      CellsCard(top);
      RowCard(r.x1, r.x2, r.y2 - 1);
      RowBelowCells(top);
      DisjointUnionCard(Cells(top), row);
      assert |Cells(r)| == w * (h - 1) + w;
      MulStep(w, h);
    }
  }

  /** The row just below a rectangle shares no cell with it. */
  lemma RowBelowCells(r: Rect)
    ensures Cells(r) !! Row(r.x1, r.x2, r.y2)
  {
    forall p | p in Row(r.x1, r.x2, r.y2) ensures p !in Cells(r) {
      InRow(r.x1, r.x2, r.y2, p);
      InCells(r, p);
    }
  }

  lemma DisjointUnionCard<T>(a: set<T>, b: set<T>)
    requires a !! b
    ensures |a + b| == |a| + |b|
  {
  }

  lemma MulStep(w: int, h: int)
    ensures w * h == w * (h - 1) + w
  {
  }


  /** The first example: claims 1 and 2 share a 2 by 2 square, claim 3 touches nothing. */
  lemma OverlapExample1()
    ensures |OverlapCells([Claim(1, 1, 3, 4, 7), Claim(2, 3, 1, 7, 4), Claim(3, 5, 5, 2, 2)])| == 4
  {
    var cs := [Claim(1, 1, 3, 4, 7), Claim(2, 3, 1, 7, 4), Claim(3, 5, 5, 2, 2)];
    assert Intersection(cs[0], cs[1]) == Some(Rect(3, 5, 3, 5));
    assert Intersection(cs[0], cs[2]) == Some(Rect(5, 5, 5, 7));
    assert Intersection(cs[1], cs[2]) == Some(Rect(5, 7, 5, 5));
    assert Cells(Rect(5, 5, 5, 7)) == {} by { CellsCard(Rect(5, 5, 5, 7)); }
    assert Cells(Rect(5, 7, 5, 5)) == {};
    assert OverlapCells(cs) == Cells(Rect(3, 5, 3, 5));
    CellsCard(Rect(3, 5, 3, 5));
  }

  /** The second example: a 4 by 4 square shared by claims 1 and 2 contains claim 3. */
  lemma OverlapExample2()
    ensures |OverlapCells([Claim(1, 3, 1, 4, 7), Claim(2, 1, 3, 7, 4), Claim(3, 5, 5, 2, 2)])| == 16
  {
    var cs := [Claim(1, 3, 1, 4, 7), Claim(2, 1, 3, 7, 4), Claim(3, 5, 5, 2, 2)];
    assert Intersection(cs[0], cs[1]) == Some(Rect(3, 7, 3, 7));
    assert Intersection(cs[0], cs[2]) == Some(Rect(5, 7, 5, 7));
    assert Intersection(cs[1], cs[2]) == Some(Rect(5, 7, 5, 7));
    forall p | p in Cells(Rect(5, 7, 5, 7)) ensures p in Cells(Rect(3, 7, 3, 7)) {
      InCells(Rect(5, 7, 5, 7), p);
      InCells(Rect(3, 7, 3, 7), p);
    }
    assert OverlapCells(cs) == Cells(Rect(3, 7, 3, 7));
    CellsCard(Rect(3, 7, 3, 7));
  }

  // ---------------------------------------------------------------------
  // Part 2: the claim that overlaps no other

  /** The inclusive-coordinate test of `non_overlapping_claims`. */
  predicate InclusiveOverlap(c1: Claim, c2: Claim)
  {
    var a1, b1, c1y, d1 := c1.left, c1.left + c1.width - 1, c1.top, c1.top + c1.height - 1;
    var a2, b2, c2y, d2 := c2.left, c2.left + c2.width - 1, c2.top, c2.top + c2.height - 1;
    ((a2 >= a1 && a2 <= b1) && ((c2y >= c1y && c2y <= d1) || (c2y <= c1y && d2 >= c1y)))
    || ((a2 <= a1 && b2 >= a1) && ((c2y >= c1y && c2y <= d1) || (c2y <= c1y && d2 >= c1y)))
  }

  predicate NonEmptyClaim(c: Claim) { c.width >= 1 && c.height >= 1 }

  /** Part 2's test agrees with part 1's geometry: two claims overlap iff they share a cell. */
  lemma InclusiveOverlapShares(c1: Claim, c2: Claim)
    requires NonEmptyClaim(c1) && NonEmptyClaim(c2)
    ensures InclusiveOverlap(c1, c2) <==> exists p :: Covers(c1, p) && Covers(c2, p)
  {
    if InclusiveOverlap(c1, c2) {
      var x := if c2.left >= c1.left then c2.left else c1.left;
      var y := if c2.top >= c1.top then c2.top else c1.top;
      assert Covers(c1, (x, y)) && Covers(c2, (x, y));
    }
  }

  function Ids(claims: seq<Claim>): (s: set<nat>)
    ensures forall i :: 0 <= i < |claims| ==> claims[i].id in s
  {
    if claims == [] then {} else {claims[0].id} + Ids(claims[1..])
  }

  /** The ids of claims that are in some overlapping pair. */
  ghost function OverlappingIds(claims: seq<Claim>): set<nat>
  {
    set i, j | 0 <= i < |claims| && 0 <= j < |claims| && i != j && InclusiveOverlap(claims[i], claims[j]) :: claims[i].id
  }

  /** `non_overlapping_claims`: every id is dropped that belongs to an overlapping pair;
      any remaining id is returned, and `None` stands for the source's panic. */
  method NonOverlappingClaims(claims: seq<Claim>) returns (r: Option<nat>)
    ensures r.None? <==> Ids(claims) - OverlappingIds(claims) == {}
    ensures r.Some? ==> r.value in Ids(claims) - OverlappingIds(claims)
  {
    var remaining := Ids(claims);
    var i := 0;
    while i < |claims|
      invariant 0 <= i <= |claims|
      invariant remaining == Ids(claims) - PairIds(claims, i)
    {
      var j := i + 1;
      while j < |claims|
        invariant i + 1 <= j <= |claims|
        invariant remaining == Ids(claims) - PairIds(claims, i) - RowIds(claims, i, j)
      {
        if InclusiveOverlap(claims[i], claims[j]) {
          remaining := remaining - {claims[i].id} - {claims[j].id};
        }
        j := j + 1;
      }
      i := i + 1;
    }
    PairIdsExact(claims);
    if remaining == {} {
      r := None;
    } else {
      var id :| id in remaining;
      r := Some(id);
    }
  }

  /** Ids removed while scanning pairs (i, k) with i < k < j. */
  ghost function RowIds(claims: seq<Claim>, i: nat, j: nat): set<nat>
    requires i < |claims| && j <= |claims|
  {
    if j <= i + 1 then {}
    else
      var pair := if InclusiveOverlap(claims[i], claims[j - 1]) then {claims[i].id, claims[j - 1].id} else {};
      RowIds(claims, i, j - 1) + pair
  }

  /** Ids removed while scanning pairs whose first index is below `i`. */
  ghost function PairIds(claims: seq<Claim>, i: nat): set<nat>
    requires i <= |claims|
  {
    if i == 0 then {} else PairIds(claims, i - 1) + RowIds(claims, i - 1, |claims|)
  }

  lemma {:induction false} RowIdsExact(claims: seq<Claim>, i: nat, j: nat, id: nat)
    requires i < |claims| && j <= |claims|
    ensures id in RowIds(claims, i, j) <==>
      exists k :: i < k < j && InclusiveOverlap(claims[i], claims[k]) && (id == claims[i].id || id == claims[k].id)
  {
    if j > i + 1 {
      RowIdsExact(claims, i, j - 1, id);
    }
  }

  lemma {:induction false} PairIdsUpTo(claims: seq<Claim>, i: nat, id: nat)
    requires i <= |claims|
    ensures id in PairIds(claims, i) <==>
      exists a, b :: 0 <= a < i && a < b < |claims| && InclusiveOverlap(claims[a], claims[b])
                     && (id == claims[a].id || id == claims[b].id)
  {
    if i > 0 {
      PairIdsUpTo(claims, i - 1, id);
      RowIdsExact(claims, i - 1, |claims|, id);
    }
  }

  /** The test asks, on each axis, whether either claim's first coordinate
      lies within the other; that reads the same both ways, even for claims
      of zero width or height. */
  lemma InclusiveOverlapSymmetric(c1: Claim, c2: Claim)
    ensures InclusiveOverlap(c1, c2) == InclusiveOverlap(c2, c1)
  {
  }

  /** The nested loop, which tests each pair once in list order, drops
      exactly the ids of the claims that overlap some other claim. */
  lemma PairIdsExact(claims: seq<Claim>)
    ensures PairIds(claims, |claims|) == OverlappingIds(claims)
  {
    forall id | id in OverlappingIds(claims)
      ensures id in PairIds(claims, |claims|)
    {
      var i, j :| 0 <= i < |claims| && 0 <= j < |claims| && i != j && InclusiveOverlap(claims[i], claims[j]) && claims[i].id == id;
      PairIdsUpTo(claims, |claims|, id);
      if j < i {
        InclusiveOverlapSymmetric(claims[i], claims[j]);
        assert InclusiveOverlap(claims[j], claims[i]);
      }
    }
    forall id | id in PairIds(claims, |claims|)
      ensures id in OverlappingIds(claims)
    {
      PairIdsUpTo(claims, |claims|, id);
      var a, b :| 0 <= a < |claims| && a < b < |claims| && InclusiveOverlap(claims[a], claims[b])
                  && (id == claims[a].id || id == claims[b].id);
      InclusiveOverlapSymmetric(claims[a], claims[b]);
      if id == claims[a].id {
        assert id == claims[a].id && a != b;
      } else {
        assert InclusiveOverlap(claims[b], claims[a]);
      }
    }
  }

  /** The example: claim 3 is the only one that overlaps nothing. */
  lemma NonOverlapExample()
    ensures Ids([Claim(1, 1, 3, 4, 4), Claim(2, 3, 1, 4, 4), Claim(3, 5, 5, 2, 2)])
          - OverlappingIds([Claim(1, 1, 3, 4, 4), Claim(2, 3, 1, 4, 4), Claim(3, 5, 5, 2, 2)]) == {3}
  {
    var cs := [Claim(1, 1, 3, 4, 4), Claim(2, 3, 1, 4, 4), Claim(3, 5, 5, 2, 2)];
    assert InclusiveOverlap(cs[0], cs[1]);
    assert !InclusiveOverlap(cs[0], cs[2]) && !InclusiveOverlap(cs[2], cs[0]);
    assert !InclusiveOverlap(cs[1], cs[2]) && !InclusiveOverlap(cs[2], cs[1]);
    assert Ids(cs) == {1, 2, 3};
    assert 1 in OverlappingIds(cs) by { assert InclusiveOverlap(cs[0], cs[1]); }
    assert 2 in OverlappingIds(cs) by { assert InclusiveOverlap(cs[1], cs[0]); }
    assert 3 !in OverlappingIds(cs);
  }
}
