// Day 13, drawing the track map: `Display for CartsNTracks` and the round
// trip through `parse`.
module Day13Display {
  import opened Common
  import opened Day13

  function CartChar(d: Direction): char
  {
    match d
    case North => '^'
    case East => '>'
    case South => 'v'
    case West => '<'
  }

  function RailChar(rail: RailKind): char
  {
    match rail
    case NorthSouth => '|'
    case WestEast => '-'
    case RightTurn => '/'
    case LeftTurn => '\\'
    case Intersection => '+'
  }

  /** The first cart standing on `p`, as `find_map` meets it. */
  function CartAt(carts: seq<Cart>, p: Position): (r: Option<Cart>)
    ensures r.Some? ==> r.value in carts && r.value.position == p
    ensures r.None? <==> forall c <- carts :: c.position != p
  {
    if carts == [] then None
    else if carts[0].position == p then Some(carts[0])
    else CartAt(carts[1..], p)
  }

  /** The character `Display` draws for cell `p`. */
  function SymbolAt(carts: seq<Cart>, rails: map<Position, RailKind>, p: Position): char
  {
    match CartAt(carts, p)
    case Some(cart) => CartChar(cart.direction)
    case None => if p in rails then RailChar(rails[p]) else ' '
  }

  /** The first `n` cells of row `y` from column `x0` on. */
  function RowText(carts: seq<Cart>, rails: map<Position, RailKind>, y: int, x0: int, n: nat): string
  {
    if n == 0 then [] else RowText(carts, rails, y, x0, n - 1) + [SymbolAt(carts, rails, Position(x0 + n - 1, y))]
  }

  /** A row of `n` cells holds the symbol of each. */
  lemma {:induction false} RowTextCells(carts: seq<Cart>, rails: map<Position, RailKind>, y: int, x0: int, n: nat)
    ensures var r := RowText(carts, rails, y, x0, n);
            |r| == n && forall i :: 0 <= i < n ==> r[i] == SymbolAt(carts, rails, Position(x0 + i, y))
  {
    if n > 0 {
      RowTextCells(carts, rails, y, x0, n - 1);
    }
  }

  /** A row with its trailing blanks popped off. */
  function TrimBlanks(s: string): string
  {
    if s != [] && s[|s| - 1] == ' ' then TrimBlanks(s[..|s| - 1]) else s
  }

  /** Trimming keeps a prefix that does not end in a blank and drops only
      blanks. */
  lemma {:induction false} TrimBlanksKeeps(s: string)
    ensures var r := TrimBlanks(s);
            && r <= s && (r == [] || r[|r| - 1] != ' ')
            && forall i :: |r| <= i < |s| ==> s[i] == ' '
  {
    if s != [] && s[|s| - 1] == ' ' {
      TrimBlanksKeeps(s[..|s| - 1]);
    }
  }

  /** The rows `Display` draws for the area from `topLeft` to
      `bottomRight`, without their line feeds. */
  function ShownRows(carts: seq<Cart>, rails: map<Position, RailKind>, topLeft: Position, bottomRight: Position): seq<string>
  {
    seq(Height(topLeft, bottomRight), k => ShownRow(carts, rails, topLeft, bottomRight, k))
  }

  /** Row `k` of the area, trimmed. */
  function ShownRow(carts: seq<Cart>, rails: map<Position, RailKind>, topLeft: Position, bottomRight: Position, k: int): string
  {
    TrimBlanks(RowText(carts, rails, topLeft.y + k, topLeft.x, Width(topLeft, bottomRight)))
  }

  /** The number of rows from `topLeft` to `bottomRight`: none when the
      box is empty. */
  function Height(topLeft: Position, bottomRight: Position): nat
  {
    if topLeft.y <= bottomRight.y then bottomRight.y - topLeft.y + 1 else 0
  }

  /** The number of columns from `topLeft` to `bottomRight`. */
  function Width(topLeft: Position, bottomRight: Position): nat
  {
    if topLeft.x <= bottomRight.x then bottomRight.x - topLeft.x + 1 else 0
  }

  /** The text `Display` writes. */
  function Show(carts: seq<Cart>, rails: map<Position, RailKind>, topLeft: Position, bottomRight: Position): string
  {
    Terminated(ShownRows(carts, rails, topLeft, bottomRight))
  }

  /** `Display for CartsNTracks`: the rows of the rails' area from top
      to bottom; a cell shows the first cart on it, else its rail, else a
      blank, trailing blanks are popped off and each row ends in a line
      feed. */
  method Display(state: CartsNTracks) returns (s: string)
    requires forall p <- state.rails :: InU32(p)
    ensures exists topLeft, bottomRight :: IsArea(state.rails.Keys, topLeft, bottomRight)
                                           && s == Show(state.carts, state.rails, topLeft, bottomRight)
  {
    var topLeft, bottomRight := Area(state.rails);
    s := DrawRows(state.carts, state.rails, topLeft, bottomRight);
    assert IsArea(state.rails.Keys, topLeft, bottomRight);
  }

  /** The rows of `Display` for the area from `topLeft` to `bottomRight`,
      each ended by a line feed. */
  method DrawRows(carts: seq<Cart>, rails: map<Position, RailKind>, topLeft: Position, bottomRight: Position)
    returns (s: string)
    ensures s == Show(carts, rails, topLeft, bottomRight)
  {
    var height := Height(topLeft, bottomRight);
    var width := Width(topLeft, bottomRight);
    ghost var shown := ShownRows(carts, rails, topLeft, bottomRight);
    s := "";
    for k := 0 to height
      invariant s == Terminated(shown[..k])
    {
      var line := DrawRow(carts, rails, topLeft.y + k, topLeft.x, width);
      assert line == shown[k];
      TakeNext(shown, k);
      TerminatedSnoc(shown[..k], line);
      s := s + (line + "\n");
    }
    assert shown[..height] == shown;
  }

  /** One row of `Display`: `width` cells from column `x0` on, then the
      trailing blanks popped off. */
  method DrawRow(carts: seq<Cart>, rails: map<Position, RailKind>, y: int, x0: int, width: nat) returns (line: string)
    ensures line == TrimBlanks(RowText(carts, rails, y, x0, width))
  {
    line := "";
    for i := 0 to width
      invariant line == RowText(carts, rails, y, x0, i)
    {
      line := line + [SymbolAt(carts, rails, Position(x0 + i, y))];
    }
    while line != [] && line[|line| - 1] == ' '
      invariant TrimBlanks(line) == TrimBlanks(RowText(carts, rails, y, x0, width))
      decreases |line|
    {
      line := line[..|line| - 1];
    }
  }

  /** Every drawn character is one `parse` accepts, and none is a line
      feed or a carriage return. */
  lemma SymbolPlain(carts: seq<Cart>, rails: map<Position, RailKind>, p: Position)
    ensures var c := SymbolAt(carts, rails, p); Supported(c) && c != '\n' && c != '\r'
    ensures p in rails ==> SymbolAt(carts, rails, p) != ' '
  {
  }

  /** The drawn rows hold neither line feeds nor a final carriage return,
      so `lines` splits their text back into them. */
  lemma ShownRowsRead(carts: seq<Cart>, rails: map<Position, RailKind>, topLeft: Position, bottomRight: Position)
    ensures Lines(Show(carts, rails, topLeft, bottomRight)) == ShownRows(carts, rails, topLeft, bottomRight)
  {
    ShownRowsPlain(carts, rails, topLeft, bottomRight);
    LinesOfTerminated(ShownRows(carts, rails, topLeft, bottomRight));
  }

  /** No drawn row holds a line feed or ends in a carriage return. */
  lemma ShownRowsPlain(carts: seq<Cart>, rails: map<Position, RailKind>, topLeft: Position, bottomRight: Position)
    ensures forall l <- ShownRows(carts, rails, topLeft, bottomRight) :: '\n' !in l && (l == [] || l[|l| - 1] != '\r')
  {
    var rows := ShownRows(carts, rails, topLeft, bottomRight);
    forall k | 0 <= k < |rows| ensures '\n' !in rows[k] && (rows[k] == [] || rows[k][|rows[k]| - 1] != '\r') {
      assert rows[k] == ShownRow(carts, rails, topLeft, bottomRight, k);
      RowPlain(carts, rails, topLeft.y + k, topLeft.x, Width(topLeft, bottomRight));
    }
  }

  /** No drawn row, trimmed, holds a line feed or a carriage return. */
  lemma RowPlain(carts: seq<Cart>, rails: map<Position, RailKind>, y: int, x0: int, n: nat)
    ensures var l := TrimBlanks(RowText(carts, rails, y, x0, n)); '\n' !in l && (l == [] || l[|l| - 1] != '\r')
  {
    var full := RowText(carts, rails, y, x0, n);
    var l := TrimBlanks(full);
    RowTextCells(carts, rails, y, x0, n);
    TrimBlanksKeeps(full);
    forall i | 0 <= i < |l| ensures l[i] != '\n' && l[i] != '\r' {
      assert l[i] == full[i];
      SymbolPlain(carts, rails, Position(x0 + i, y));
    }
    assert '\n' !in l;
  }

  /** In a drawing anchored at row and column 0, each cell of a drawn line
      is the symbol of its position, and every rail lies within the lines. */
  lemma ShownCell(carts: seq<Cart>, rails: map<Position, RailKind>, topLeft: Position, bottomRight: Position, p: Position)
    requires IsArea(rails.Keys, topLeft, bottomRight) && (rails != map[] ==> topLeft == Position(0, 0))
    ensures var rows := ShownRows(carts, rails, topLeft, bottomRight);
            OnMap(rows, p) ==> rows[p.y][p.x] == SymbolAt(carts, rails, p)
    ensures p in rails ==> OnMap(ShownRows(carts, rails, topLeft, bottomRight), p)
  {
    var rows := ShownRows(carts, rails, topLeft, bottomRight);
    if rails == map[] {
      AreaOfNothing(topLeft, bottomRight);
      assert |rows| == 0;
    } else if 0 <= p.y < |rows| {
      var full := RowText(carts, rails, p.y, 0, Width(topLeft, bottomRight));
      assert rows[p.y] == TrimBlanks(full);
      RowTextCells(carts, rails, p.y, 0, Width(topLeft, bottomRight));
      TrimBlanksKeeps(full);
      if p in rails {
        SymbolPlain(carts, rails, p);
        assert full[p.x] != ' ';
      }
    }
  }

  /** On carts numbered from cells in reading order, the first cart on `p`
      is the one whose cell is `p`. */
  lemma CartAtNumbered(cells: seq<(Position, Direction)>, p: Position)
    requires InOrder(cells)
    ensures forall d :: (p, d) in cells <==> CartAt(Numbered(cells), p).Some? && CartAt(Numbered(cells), p).value.direction == d
  {
    var carts := Numbered(cells);
    var r := CartAt(carts, p);
    forall d | (p, d) in cells ensures r.Some? && r.value.direction == d {
      var i :| 0 <= i < |cells| && cells[i] == (p, d);
      assert carts[i] in carts && carts[i].position == p;
      var k :| 0 <= k < |carts| && carts[k] == r.value;
      InOrderDistinct(cells, i, k);
    }
    if r.Some? {
      var k :| 0 <= k < |carts| && carts[k] == r.value;
      assert cells[k] == (p, r.value.direction);
    }
  }

  /** Cells in strict reading order lie on distinct positions. */
  lemma InOrderDistinct(cells: seq<(Position, Direction)>, i: nat, k: nat)
    requires InOrder(cells) && i < |cells| && k < |cells| && cells[i].0 == cells[k].0
    ensures i == k
  {
  }

  /** Carts on their straight rails, strictly in reading order: each
      drawn cell gives back the rail under it and the cart on it. */
  lemma SymbolOnCells(cells: seq<(Position, Direction)>, rails: map<Position, RailKind>, p: Position)
    requires InOrder(cells) && OnStraightRails(cells, rails)
    ensures var c := SymbolAt(Numbered(cells), rails, p);
            && RailUnder(c) == (if p in rails then Some(rails[p]) else None)
            && forall d :: CartSymbol(c) == Some(d) <==> (p, d) in cells
  {
    CartAtNumbered(cells, p);
    var r := CartAt(Numbered(cells), p);
    if r.Some? {
      var i :| 0 <= i < |cells| && cells[i] == (p, r.value.direction);
    }
  }

  /** Every cart stands on the straight rail of its direction, as `parse`
      lays it. */
  predicate OnStraightRails(cells: seq<(Position, Direction)>, rails: map<Position, RailKind>)
  {
    forall i :: 0 <= i < |cells| ==> cells[i].0 in rails && rails[cells[i].0] == RailOf(cells[i].1)
  }

  /** Every cart symbol of a row is among the row's carts. */
  lemma {:induction false} RowCartsComplete(line: string, y: nat, x: nat, i: nat)
    requires i < x <= |line| && CartSymbol(line[i]).Some?
    ensures (Position(i, y), CartSymbol(line[i]).value) in RowCarts(line, y, x)
  {
    if i < x - 1 {
      RowCartsComplete(line, y, x - 1, i);
    }
  }

  /** Every cart symbol above row `y` is among the carts found there. */
  lemma {:induction false} CartsAboveComplete(lines: seq<string>, y: nat, p: Position)
    requires y <= |lines| && OnMap(lines, p) && p.y < y && CartSymbol(lines[p.y][p.x]).Some?
    ensures (p, CartSymbol(lines[p.y][p.x]).value) in CartsAbove(lines, y)
  {
    if p.y == y - 1 {
      RowCartsComplete(lines[y - 1], y - 1, |lines[y - 1]|, p.x);
    } else {
      CartsAboveComplete(lines, y - 1, p);
    }
  }

  /** Two lists of cart cells in strict reading order with the same
      members are the same list. */
  lemma {:induction false} InOrderUnique(a: seq<(Position, Direction)>, b: seq<(Position, Direction)>)
    requires InOrder(a) && InOrder(b) && forall c :: c in a <==> c in b
    ensures a == b
    decreases |a|
  {
    if a != [] {
      assert a[0] in b;
    }
    if b != [] {
      assert b[0] in a;
    }
    if a != [] {
      var i :| 0 <= i < |a| && a[i] == b[0];
      var j :| 0 <= j < |b| && b[j] == a[0];
      assert a[0] == b[0];
      forall c ensures c in a[1..] <==> c in b[1..] {
        if c in a[1..] {
          var k :| 1 <= k < |a| && a[k] == c;
          assert ReadsBefore(a[0].0, c.0);
          assert c in a;
          var m :| 0 <= m < |b| && b[m] == c;
          assert b[1..][m - 1] == c;
        }
        if c in b[1..] {
          var k :| 1 <= k < |b| && b[k] == c;
          assert ReadsBefore(b[0].0, c.0);
          assert c in b;
          var m :| 0 <= m < |a| && a[m] == c;
          assert a[1..][m - 1] == c;
        }
      }
      InOrderUnique(a[1..], b[1..]);
    }
  }

  /** The rails read from a map are determined by it. */
  lemma RailsReadUnique(rails: map<Position, RailKind>, rails': map<Position, RailKind>, lines: seq<string>, y: nat, x: nat)
    requires RailsRead(rails, lines, y, x) && RailsRead(rails', lines, y, x)
    ensures rails == rails'
  {
  }

  /** What one character `c` drawn at `p` tells about the carts and the
      rails: it is accepted, it stands for the rail at `p` (if any), and it
      is a cart symbol exactly for the cart on `p`. */
  predicate CellShows(c: char, p: Position, cells: seq<(Position, Direction)>, rails: map<Position, RailKind>)
  {
    && Supported(c)
    && RailUnder(c) == (if p in rails then Some(rails[p]) else None)
    && forall d :: CartSymbol(c) == Some(d) <==> (p, d) in cells
  }

  /** `lines` depict the carts and the rails: every character shows its
      cell, and every rail and every cart lies within the lines. */
  ghost predicate Depicts(lines: seq<string>, cells: seq<(Position, Direction)>, rails: map<Position, RailKind>)
  {
    && (forall p :: (OnMap(lines, p) ==> CellShows(lines[p.y][p.x], p, cells, rails)) && (p in rails ==> OnMap(lines, p)))
    && forall i :: 0 <= i < |cells| ==> OnMap(lines, cells[i].0)
  }

  /** The rows `Display` draws depict the carts and the rails, for carts
      strictly in reading order on their straight rails and rails
      reaching row 0 and column 0. */
  lemma ShownDepicts(cells: seq<(Position, Direction)>, rails: map<Position, RailKind>, topLeft: Position, bottomRight: Position)
    requires IsArea(rails.Keys, topLeft, bottomRight) && (rails != map[] ==> topLeft == Position(0, 0))
    requires InOrder(cells) && OnStraightRails(cells, rails)
    ensures Depicts(ShownRows(Numbered(cells), rails, topLeft, bottomRight), cells, rails)
  {
    var carts := Numbered(cells);
    var lines := ShownRows(carts, rails, topLeft, bottomRight);
    forall p ensures (OnMap(lines, p) ==> CellShows(lines[p.y][p.x], p, cells, rails)) && (p in rails ==> OnMap(lines, p)) {
      ShownCell(carts, rails, topLeft, bottomRight, p);
      SymbolPlain(carts, rails, p);
      SymbolOnCells(cells, rails, p);
    }
    assert forall i :: 0 <= i < |cells| ==> cells[i].0 in rails;
  }

  /** Lines that depict the carts and the rails hold only characters
      `parse` accepts. */
  lemma DepictedSupported(lines: seq<string>, cells: seq<(Position, Direction)>, rails: map<Position, RailKind>)
    requires Depicts(lines, cells, rails)
    ensures RowsSupported(lines, |lines|)
  {
    forall y', x | 0 <= y' < |lines| && 0 <= x < |lines[y']| ensures Supported(lines[y'][x]) {
      assert OnMap(lines, Position(x, y'));
    }
  }

  /** `parse` reads the same rails from lines that depict them. */
  lemma DepictedRails(lines: seq<string>, cells: seq<(Position, Direction)>, rails: map<Position, RailKind>)
    requires Depicts(lines, cells, rails)
    ensures RailsRead(rails, lines, |lines|, 0)
  {
    forall p ensures p in rails <==> OnMap(lines, p) && ReadsBefore(p, Position(0, |lines|)) && RailUnder(lines[p.y][p.x]).Some? {
      if OnMap(lines, p) {
        assert CellShows(lines[p.y][p.x], p, cells, rails);
      }
    }
    forall p <- rails ensures OnMap(lines, p) && rails[p] == RailUnder(lines[p.y][p.x]).value {
      assert CellShows(lines[p.y][p.x], p, cells, rails);
    }
  }

  /** `parse` finds the same carts in the same order in lines that depict
      them. */
  lemma DepictedCarts(lines: seq<string>, cells: seq<(Position, Direction)>, rails: map<Position, RailKind>)
    requires InOrder(cells) && Depicts(lines, cells, rails)
    ensures CartsAbove(lines, |lines|) == cells
  {
    var found := CartsAbove(lines, |lines|);
    CartsAboveOrdered(lines, |lines|);
    FoundDepicted(lines, cells, rails);
    DepictedFound(lines, cells, rails);
    InOrderUnique(found, cells);
  }

  /** Every cart `parse` finds in depicting lines is one of the carts. */
  lemma FoundDepicted(lines: seq<string>, cells: seq<(Position, Direction)>, rails: map<Position, RailKind>)
    requires Depicts(lines, cells, rails) && InReadingOrder(CartsAbove(lines, |lines|), lines, |lines|)
    ensures forall c <- CartsAbove(lines, |lines|) :: c in cells
  {
    var found := CartsAbove(lines, |lines|);
    forall c <- found ensures c in cells {
      var i :| 0 <= i < |found| && found[i] == c;
      assert OnMap(lines, c.0);
      assert CellShows(lines[c.0.y][c.0.x], c.0, cells, rails);
    }
  }

  /** Every cart is found by `parse` in depicting lines. */
  lemma DepictedFound(lines: seq<string>, cells: seq<(Position, Direction)>, rails: map<Position, RailKind>)
    requires Depicts(lines, cells, rails)
    ensures forall c <- cells :: c in CartsAbove(lines, |lines|)
  {
    forall c <- cells ensures c in CartsAbove(lines, |lines|) {
      var i :| 0 <= i < |cells| && cells[i] == c;
      assert OnMap(lines, c.0);
      assert CellShows(lines[c.0.y][c.0.x], c.0, cells, rails);
      CartsAboveComplete(lines, |lines|, c.0);
    }
  }

  /** `parse` reads back what `Display` draws: for carts strictly in
      reading order, each on the straight rail of its direction, and
      rails reaching row 0 and column 0, the drawing holds only characters
      `parse` accepts, its carts are the same cells in the same order (so
      `parse` numbers them 1, 2, ... again), and its rails are the same
      rails. */
  lemma ShowRoundTrip(cells: seq<(Position, Direction)>, rails: map<Position, RailKind>, topLeft: Position, bottomRight: Position)
    requires IsArea(rails.Keys, topLeft, bottomRight) && (rails != map[] ==> topLeft == Position(0, 0))
    requires InOrder(cells) && OnStraightRails(cells, rails)
    ensures var lines := Lines(Show(Numbered(cells), rails, topLeft, bottomRight));
            && RowsSupported(lines, |lines|)
            && CartsAbove(lines, |lines|) == cells
            && RailsRead(rails, lines, |lines|, 0)
  {
    ShownRowsRead(Numbered(cells), rails, topLeft, bottomRight);
    ShownDepicts(cells, rails, topLeft, bottomRight);
    var lines := ShownRows(Numbered(cells), rails, topLeft, bottomRight);
    DepictedSupported(lines, cells, rails);
    DepictedRails(lines, cells, rails);
    DepictedCarts(lines, cells, rails);
  }
}
