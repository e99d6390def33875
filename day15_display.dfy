// Day 15: Beverage Bandits, drawing the cave (`Display for Combat`) and
// reading a drawing back with `parse`.
module Day15Display {
  import opened Common
  import opened Day15Grid
  import opened Day15Combat

  /** The rows `top_left.y..=bottom_right.y`; none when the box is empty. */
  function Height(topLeft: Position, bottomRight: Position): nat
  {
    if topLeft.y <= bottomRight.y then bottomRight.y - topLeft.y + 1 else 0
  }

  /** The columns `top_left.x..=bottom_right.x`; none when the box is empty. */
  function Width(topLeft: Position, bottomRight: Position): nat
  {
    if topLeft.x <= bottomRight.x then bottomRight.x - topLeft.x + 1 else 0
  }

  /** The symbol drawn for a cell: an Elf, else a Goblin, else a wall, else
      open cavern. */
  function SymbolAt(layout: Layout, p: Position): char
  {
    if p in layout.elves then 'E'
    else if p in layout.goblins then 'G'
    else if p in layout.walls then '#'
    else '.'
  }

  /** Row `k` of the drawing: one symbol per column of the box. */
  function ShownRow(layout: Layout, topLeft: Position, bottomRight: Position, k: nat): string
    requires k < Height(topLeft, bottomRight)
  {
    seq(Width(topLeft, bottomRight), i requires 0 <= i < Width(topLeft, bottomRight) =>
      SymbolAt(layout, Position(topLeft.x + i, topLeft.y + k)))
  }

  /** The rows of the drawing, top to bottom. */
  function ShownRows(layout: Layout, topLeft: Position, bottomRight: Position): seq<string>
  {
    seq(Height(topLeft, bottomRight), k requires 0 <= k < Height(topLeft, bottomRight) =>
      ShownRow(layout, topLeft, bottomRight, k))
  }

  /** The text `Display` writes for the box from `topLeft` to
      `bottomRight`: every row followed by a line feed. */
  function Show(layout: Layout, topLeft: Position, bottomRight: Position): string
  {
    Terminated(ShownRows(layout, topLeft, bottomRight))
  }

  /** `Display for Combat`: the box around the walls, drawn row by row. */
  method Display(combat: Combat) returns (s: string)
    ensures exists topLeft, bottomRight :: && Bounds(combat.walls, topLeft, bottomRight)
                                          && s == Show(Layout(combat.walls, combat.elves, combat.goblins), topLeft, bottomRight)
  {
    var layout := Layout(combat.walls, combat.elves, combat.goblins);
    var topLeft, bottomRight := Area(combat.walls);
    var shown := ShownRows(layout, topLeft, bottomRight);
    var height := Height(topLeft, bottomRight);
    s := "";
    for k := 0 to height
      invariant s == Terminated(shown[..k])
    {
      var line := DrawRow(layout, topLeft, bottomRight, k);
      assert line == shown[k];
      TakeNext(shown, k);
      TerminatedSnoc(shown[..k], line);
      s := s + line + "\n";
    }
    assert shown[..height] == shown;
    assert Bounds(combat.walls, topLeft, bottomRight);
  }

  /** One row of `Display`: the symbol of each cell of the row in turn. */
  method DrawRow(layout: Layout, topLeft: Position, bottomRight: Position, k: nat) returns (line: string)
    requires k < Height(topLeft, bottomRight)
    ensures line == ShownRow(layout, topLeft, bottomRight, k)
  {
    var width := Width(topLeft, bottomRight);
    line := "";
    for i := 0 to width
      invariant |line| == i
      invariant forall j :: 0 <= j < i ==> line[j] == SymbolAt(layout, Position(topLeft.x + j, topLeft.y + k))
    {
      line := line + [SymbolAt(layout, Position(topLeft.x + i, topLeft.y + k))];
    }
  }

  /** Every drawn symbol is one `parse` accepts, and none is a line feed
      or a carriage return. */
  lemma SymbolPlain(layout: Layout, p: Position)
    ensures var c := SymbolAt(layout, p); Known(c) && !IsWhitespace(c)
  {
  }

  /** No drawn row holds a line feed or ends in a carriage return, so
      `lines` splits the drawing back into its rows. */
  lemma ShownRowsRead(layout: Layout, topLeft: Position, bottomRight: Position)
    ensures Lines(Show(layout, topLeft, bottomRight)) == ShownRows(layout, topLeft, bottomRight)
  {
    var rows := ShownRows(layout, topLeft, bottomRight);
    forall k | 0 <= k < |rows| ensures '\n' !in rows[k] && (rows[k] == [] || rows[k][|rows[k]| - 1] != '\r') {
      var l := rows[k];
      assert l == ShownRow(layout, topLeft, bottomRight, k);
      forall i | 0 <= i < |l| ensures l[i] != '\n' && l[i] != '\r' {
        SymbolPlain(layout, Position(topLeft.x + i, topLeft.y + k));
      }
    }
    LinesOfTerminated(rows);
  }

  /** In a drawing whose box starts at `Position::MIN`, the character at
      each cell of the box is its symbol, and there is none outside the
      box. */
  lemma ShownCharAt(layout: Layout, bottomRight: Position, p: Position)
    ensures CharAt(ShownRows(layout, MIN_POSITION, bottomRight), p) == Pictured(layout, bottomRight, p)
  {
    var rows := ShownRows(layout, MIN_POSITION, bottomRight);
    if p.y <= bottomRight.y {
      assert rows[p.y] == ShownRow(layout, MIN_POSITION, bottomRight, p.y);
    }
  }

  /** Every unit stands within the box. */
  predicate Framed(layout: Layout, topLeft: Position, bottomRight: Position)
  {
    forall p | p in layout.elves.Keys + layout.goblins.Keys ::
      topLeft.x <= p.x <= bottomRight.x && topLeft.y <= p.y <= bottomRight.y
  }

  /** No Elf and Goblin share a cell, and no unit stands in a wall. */
  predicate Separate(layout: Layout)
  {
    && layout.elves.Keys !! layout.goblins.Keys
    && layout.walls !! layout.elves.Keys && layout.walls !! layout.goblins.Keys
  }

  /** A cave drawn in a box anchored at `Position::MIN`, with every unit in
      the box, the sides apart and fresh ids, is read back by `parse` as
      itself. */
  lemma ShowReadsBack(layout: Layout, topLeft: Position, bottomRight: Position)
    requires Bounds(layout.walls, topLeft, bottomRight) && (layout.walls != {} ==> topLeft == MIN_POSITION)
    requires Framed(layout, topLeft, bottomRight) && Separate(layout)
    requires Numbered(layout.elves) && Numbered(layout.goblins)
    ensures var lines := Lines(Show(layout, topLeft, bottomRight));
            !Unreadable(lines) && ReadFrom(lines, layout)
  {
    var lines := Lines(Show(layout, topLeft, bottomRight));
    ShownRowsRead(layout, topLeft, bottomRight);
    if layout.walls == {} {
      assert Height(topLeft, bottomRight) == 0;
      assert lines == [];
      assert layout.elves.Keys + layout.goblins.Keys == {};
    } else {
      forall p ensures CharAt(lines, p) == Pictured(layout, bottomRight, p) {
        ShownCharAt(layout, bottomRight, p);
      }
      PicturedReads(lines, layout, bottomRight);
    }
  }

  /** What a drawing anchored at `Position::MIN` holds at `p`. */
  function Pictured(layout: Layout, bottomRight: Position, p: Position): Option<char>
  {
    if p.x <= bottomRight.x && p.y <= bottomRight.y then Some(SymbolAt(layout, p)) else None
  }

  /** Lines that picture a cave whose walls and units lie within the box
      are read as that cave. */
  lemma PicturedReads(lines: seq<string>, layout: Layout, bottomRight: Position)
    requires forall p :: CharAt(lines, p) == Pictured(layout, bottomRight, p)
    requires Framed(layout, MIN_POSITION, bottomRight) && Separate(layout)
    requires forall p <- layout.walls :: p.x <= bottomRight.x && p.y <= bottomRight.y
    requires Numbered(layout.elves) && Numbered(layout.goblins)
    ensures !Unreadable(lines) && ReadFrom(lines, layout)
  {
    forall p | CharAt(lines, p).Some? ensures Known(CharAt(lines, p).value) {
      SymbolPlain(layout, p);
    }
    forall p ensures && (p in layout.walls <==> CharAt(lines, p) == Some('#'))
                     && (p in layout.elves <==> CharAt(lines, p) == Some('E'))
                     && (p in layout.goblins <==> CharAt(lines, p) == Some('G'))
    {
      PicturedAt(layout, bottomRight, p);
    }
  }

  /** Within the box the picture shows each wall and unit by its symbol,
      and outside it there is nothing to show. */
  lemma PicturedAt(layout: Layout, bottomRight: Position, p: Position)
    requires Framed(layout, MIN_POSITION, bottomRight) && Separate(layout)
    requires forall p <- layout.walls :: p.x <= bottomRight.x && p.y <= bottomRight.y
    ensures p in layout.walls <==> Pictured(layout, bottomRight, p) == Some('#')
    ensures p in layout.elves <==> Pictured(layout, bottomRight, p) == Some('E')
    ensures p in layout.goblins <==> Pictured(layout, bottomRight, p) == Some('G')
  {
    assert p in layout.elves ==> p in layout.elves.Keys + layout.goblins.Keys;
    assert p in layout.goblins ==> p in layout.elves.Keys + layout.goblins.Keys;
  }

  /** The cells of `keys` that come before `p` in reading order. */
  function Below(keys: set<Position>, p: Position): set<Position>
  {
    set q | q in keys && Before(q, p)
  }

  /** The cells of `keys` that come after `p` in reading order. */
  function Above(keys: set<Position>, p: Position): set<Position>
  {
    set q | q in keys && Before(p, q)
  }

  /** The ids of the units standing on `cells`. */
  function Ids(units: Units, cells: set<Position>): set<nat>
    requires cells <= units.Keys
  {
    set q | q in cells :: units[q].id
  }

  /** The ids `lo`, `lo + 1`, ..., `hi - 1`. */
  function Range(lo: nat, hi: nat): (r: set<nat>)
    ensures forall i :: i in r <==> lo <= i < hi
    ensures |r| == if lo <= hi then hi - lo else 0
    decreases hi
  {
    if hi <= lo then {} else Range(lo, hi - 1) + {hi - 1}
  }

  /** Numbered units on distinct cells carry distinct ids. */
  lemma {:induction false} IdsCard(units: Units, cells: set<Position>)
    requires Numbered(units) && cells <= units.Keys
    ensures |Ids(units, cells)| == |cells|
    decreases |cells|
  {
    if cells != {} {
      var x :| x in cells;
      var rest := cells - {x};
      IdsCard(units, rest);
      forall q | q in rest ensures units[q].id != units[x].id {
        BeforeIsStrictTotalOrder(q, x, q);
      }
      assert Ids(units, cells) == Ids(units, rest) + {units[x].id};
    }
  }

  /** A numbered side gives each unit the id one past the number of units
      before it in reading order. */
  lemma NumberedRank(units: Units, p: Position)
    requires Numbered(units) && p in units
    ensures units[p].id == |Below(units.Keys, p)| + 1
  {
    var keys, id := units.Keys, units[p].id;
    var below, above := Below(keys, p), Above(keys, p);
    SplitAround(keys, p);
    IdsCard(units, below);
    IdsCard(units, above);
    IdsBelow(units, p);
    IdsAbove(units, p);
    SubsetCard(Ids(units, below), Range(1, id));
    SubsetCard(Ids(units, above), Range(id + 1, |keys| + 1));
  }

  /** The other cells come before or after `p`. */
  lemma SplitAround(keys: set<Position>, p: Position)
    requires p in keys
    ensures |keys| == |Below(keys, p)| + |Above(keys, p)| + 1
  {
    var below, above := Below(keys, p), Above(keys, p);
    forall q | q in keys ensures q in below || q in above || q == p {
      BeforeIsStrictTotalOrder(p, q, p);
    }
    assert keys == below + above + {p};
    assert below !! above by {
      forall q | q in below ensures q !in above {
        BeforeIsStrictTotalOrder(p, q, p);
      }
    }
    assert (below + above) !! {p};
  }

  /** The units before `p` carry ids below its id. */
  lemma IdsBelow(units: Units, p: Position)
    requires Numbered(units) && p in units
    ensures Ids(units, Below(units.Keys, p)) <= Range(1, units[p].id)
  {
  }

  /** The units after `p` carry ids above its id. */
  lemma IdsAbove(units: Units, p: Position)
    requires Numbered(units) && p in units
    ensures Ids(units, Above(units.Keys, p)) <= Range(units[p].id + 1, |units.Keys| + 1)
  {
  }

  /** Two numbered sides on the same cells are the same side. */
  lemma NumberedUnique(a: Units, b: Units)
    requires Numbered(a) && Numbered(b) && a.Keys == b.Keys
    ensures a == b
  {
    forall p | p in a ensures a[p] == b[p] {
      NumberedRank(a, p);
      NumberedRank(b, p);
    }
  }

  /** The input determines the layout `parse` reads from it. */
  lemma ReadFromUnique(lines: seq<string>, a: Layout, b: Layout)
    requires ReadFrom(lines, a) && ReadFrom(lines, b)
    ensures a == b
  {
    assert a.walls == b.walls;
    assert a.elves.Keys == b.elves.Keys;
    assert a.goblins.Keys == b.goblins.Keys;
    NumberedUnique(a.elves, b.elves);
    NumberedUnique(a.goblins, b.goblins);
  }

  /** `parse` after `Display`: for a cave anchored at `Position::MIN`, with
      every unit in the box, the sides apart and fresh ids, the drawing is
      accepted and the one layout read from it is the cave drawn. */
  lemma ShowRoundTrip(layout: Layout, topLeft: Position, bottomRight: Position)
    requires Bounds(layout.walls, topLeft, bottomRight) && (layout.walls != {} ==> topLeft == MIN_POSITION)
    requires Framed(layout, topLeft, bottomRight) && Separate(layout)
    requires Numbered(layout.elves) && Numbered(layout.goblins)
    ensures var lines := Lines(Show(layout, topLeft, bottomRight));
            && !Unreadable(lines)
            && forall read :: ReadFrom(lines, read) <==> read == layout
  {
    var lines := Lines(Show(layout, topLeft, bottomRight));
    ShowReadsBack(layout, topLeft, bottomRight);
    forall read | ReadFrom(lines, read) ensures read == layout {
      ReadFromUnique(lines, read, layout);
    }
  }
}
