// Day 11: Chronal Charge. Every fuel cell of a 300x300 grid has a power
// level computed from its coordinates and the grid's serial number; the
// answer is the square of cells with the largest total power.
module Day11 {
  import opened Common

  datatype CellCoord = CellCoord(x: int, y: int)

  datatype CellGroup = CellGroup(size: nat, coord: CellCoord)

  // ---------------------------------------------------------------------
  // Power of one cell

  /** `RackId::from`: the x coordinate plus 10. */
  function RackId(cell: CellCoord): (r: int)
    ensures cell.x >= 1 ==> r > 10
  {
    cell.x + 10
  }

  /** `calc_cell_power`: ((rack id * y + serial) * rack id) % 1000 / 100 - 5. */
  function CellPower(serialNo: nat, cell: CellCoord): (r: int)
    ensures -5 <= r <= 4
  {
    var rackId := RackId(cell);
    (rackId * cell.y + serialNo) * rackId % 1000 / 100 - 5
  }

  /** On cells with non-negative coordinates the power level is the
      hundreds digit of the product, minus 5, so it lies in -5..=4. */
  lemma CellPowerIsHundredsDigit(serialNo: nat, cell: CellCoord)
    requires cell.x >= 0 && cell.y >= 0
    ensures var v := (RackId(cell) * cell.y + serialNo) * RackId(cell);
            v >= 0 && CellPower(serialNo, cell) == v / 100 % 10 - 5
    ensures -5 <= CellPower(serialNo, cell) <= 4
  {
    var rackId := RackId(cell);
    var v := (rackId * cell.y + serialNo) * rackId;
    assert rackId * cell.y >= 0;
    assert v >= 0;
    var q := v / 1000;
    var m := v % 1000;
    assert v == 1000 * q + m && 0 <= m < 1000;
    assert v == 100 * (10 * q + m / 100) + m % 100;
    assert v / 100 == 10 * q + m / 100;
    assert (10 * q + m / 100) % 10 == m / 100;
  }

  /** The power level from the value of the product, for the literal
      examples below. */
  lemma CellPowerOf(serialNo: nat, x: int, y: int, product: int)
    requires product == ((x + 10) * y + serialNo) * (x + 10)
    ensures CellPower(serialNo, CellCoord(x, y)) == product % 1000 / 100 - 5
  {
  }

  /** The four cells the puzzle text gives. */
  lemma CellPowerExamples()
    ensures CellPower(8, CellCoord(3, 5)) == 4
    ensures CellPower(57, CellCoord(122, 79)) == -5
    ensures CellPower(39, CellCoord(217, 196)) == 0
    ensures CellPower(71, CellCoord(101, 153)) == 4
  {
    CellPowerOf(8, 3, 5, 949);
    CellPowerOf(57, 122, 79, 1384020);
    CellPowerOf(39, 217, 196, 10108537);
    CellPowerOf(71, 101, 153, 1892994);
  }

  // ---------------------------------------------------------------------
  // Squares of cells in reading order

  /** The cells (x0, y) .. (x0 + w - 1, y) of one row. */
  function Row(x0: int, y: int, w: nat): (r: seq<CellCoord>)
    ensures |r| == w
  {
    seq(w, i requires 0 <= i < w => CellCoord(x0 + i, y))
  }

  /** The first `h` rows of width `w` below (x0, y0), in reading order. */
  function Block(x0: int, y0: int, w: nat, h: nat): seq<CellCoord>
  {
    if h == 0 then [] else Block(x0, y0, w, h - 1) + Row(x0, y0 + h - 1, w)
  }

  /** A block of `h` rows of width `w` has `w * h` cells. */
  lemma {:induction false} BlockLength(x0: int, y0: int, w: nat, h: nat)
    ensures |Block(x0, y0, w, h)| == w * h
  {
    if h > 0 {
      BlockLength(x0, y0, w, h - 1);
      assert w * (h - 1) + w == w * h;
    }
  }

  /** The n*n cells of the square with top-left (x0, y0), row by row. */
  function Square(x0: int, y0: int, n: nat): seq<CellCoord>
  {
    Block(x0, y0, n, n)
  }

  /** A block holds exactly the cells of its range. */
  lemma {:induction false} BlockCells(x0: int, y0: int, w: nat, h: nat, c: CellCoord)
    ensures c in Block(x0, y0, w, h) <==> x0 <= c.x < x0 + w && y0 <= c.y < y0 + h
  {
    if h > 0 {
      BlockCells(x0, y0, w, h - 1, c);
      if c.y == y0 + h - 1 && x0 <= c.x < x0 + w {
        assert Row(x0, y0 + h - 1, w)[c.x - x0] == c;
      }
    }
  }

  lemma SquareCells(x0: int, y0: int, n: nat, c: CellCoord)
    ensures c in Square(x0, y0, n) <==> x0 <= c.x < x0 + n && y0 <= c.y < y0 + n
  {
    BlockCells(x0, y0, n, n, c);
  }

  predicate Distinct(s: seq<CellCoord>)
  {
    forall i, j :: 0 <= i < j < |s| ==> s[i] != s[j]
  }

  /** No cell of a block appears twice. */
  lemma {:induction false} BlockDistinct(x0: int, y0: int, w: nat, h: nat)
    ensures Distinct(Block(x0, y0, w, h))
  {
    if h > 0 {
      BlockDistinct(x0, y0, w, h - 1);
      var a, b := Block(x0, y0, w, h - 1), Row(x0, y0 + h - 1, w);
      forall c | c in a
        ensures c.y < y0 + h - 1
      {
        BlockCells(x0, y0, w, h - 1, c);
      }
      forall i, j | 0 <= i < j < |a + b|
        ensures (a + b)[i] != (a + b)[j]
      {
        if i < |a| && j >= |a| {
          assert (a + b)[i] in a;
        }
      }
    }
  }

  /** Some rows and the start of the next one come first in a taller block. */
  lemma {:induction false} BlockPrefix(x0: int, y0: int, w: nat, row: nat, col: nat, h: nat)
    requires row < h && col <= w
    ensures Block(x0, y0, w, row) + Row(x0, y0 + row, col) <= Block(x0, y0, w, h)
  {
    var p := Block(x0, y0, w, row) + Row(x0, y0 + row, col);
    if row == h - 1 {
      assert Row(x0, y0 + row, col) <= Row(x0, y0 + row, w);
    } else {
      BlockPrefix(x0, y0, w, row, col, h - 1);
      assert Block(x0, y0, w, h - 1) <= Block(x0, y0, w, h);
    }
  }

  // ---------------------------------------------------------------------
  // The two iterators

  /** Where an iterator over a square stands: `row` whole rows and `col`
      cells of the next row have been yielded. */
  ghost predicate Cursor(x0: int, y0: int, n: nat, row: nat, col: nat, yielded: seq<CellCoord>, current: CellCoord)
  {
    && (if n == 0 then row == 0 && col == 0 else row < n && col <= n)
    && yielded == Block(x0, y0, n, row) + Row(x0, y0 + row, col)
    && current == CellCoord(x0 + col - 1, y0 + row)
  }

  /** What the cursor has yielded is a prefix of the square. */
  lemma CursorWithin(x0: int, y0: int, n: nat, row: nat, col: nat, yielded: seq<CellCoord>, current: CellCoord)
    requires Cursor(x0, y0, n, row, col, yielded, current)
    ensures yielded <= Square(x0, y0, n)
  {
    if n > 0 {
      BlockPrefix(x0, y0, n, row, col, n);
    }
  }

  /** Within a row, the cursor moves one cell to the right. */
  lemma CursorRight(x0: int, y0: int, n: nat, row: nat, col: nat, yielded: seq<CellCoord>, current: CellCoord)
    requires Cursor(x0, y0, n, row, col, yielded, current) && current.x < x0 + n - 1
    ensures Cursor(x0, y0, n, row, col + 1, yielded + [CellCoord(current.x + 1, current.y)], CellCoord(current.x + 1, current.y))
    ensures yielded + [CellCoord(current.x + 1, current.y)] <= Square(x0, y0, n)
  {
    assert Row(x0, y0 + row, col + 1) == Row(x0, y0 + row, col) + [CellCoord(x0 + col, y0 + row)];
    CursorWithin(x0, y0, n, row, col + 1, yielded + [CellCoord(current.x + 1, current.y)], CellCoord(current.x + 1, current.y));
  }

  /** At the end of a row that is not the last, the cursor moves to the
      first cell of the next row. */
  lemma CursorDown(x0: int, y0: int, n: nat, row: nat, col: nat, yielded: seq<CellCoord>, current: CellCoord)
    requires Cursor(x0, y0, n, row, col, yielded, current)
    requires current.x >= x0 + n - 1 && current.y < y0 + n - 1
    ensures Cursor(x0, y0, n, row + 1, 1, yielded + [CellCoord(x0, current.y + 1)], CellCoord(x0, current.y + 1))
    ensures yielded + [CellCoord(x0, current.y + 1)] <= Square(x0, y0, n)
  {
    assert col == n;
    assert Row(x0, y0 + row + 1, 1) == [CellCoord(x0, y0 + row + 1)];
    assert Block(x0, y0, n, row + 1) == Block(x0, y0, n, row) + Row(x0, y0 + row, n);
    CursorWithin(x0, y0, n, row + 1, 1, yielded + [CellCoord(x0, current.y + 1)], CellCoord(x0, current.y + 1));
  }

  /** The cursor stands on the last cell exactly when the whole square has
      been yielded. */
  lemma CursorEnd(x0: int, y0: int, n: nat, row: nat, col: nat, yielded: seq<CellCoord>, current: CellCoord)
    requires Cursor(x0, y0, n, row, col, yielded, current)
    ensures current.x >= x0 + n - 1 && current.y >= y0 + n - 1 <==> yielded == Square(x0, y0, n)
  {
    if n > 0 {
      BlockLength(x0, y0, n, row);
      assert |yielded| == n * row + col;
      BlockLength(x0, y0, n, n);
      if n * row + col == n * n {
        FullCount(n, row, col);
      }
      if col == n && row == n - 1 {
        assert Block(x0, y0, n, n) == Block(x0, y0, n, row) + Row(x0, y0 + row, n);
      }
    }
  }

  /** Counting row by row, `n * n` cells are reached only past the last one. */
  lemma FullCount(n: nat, row: nat, col: nat)
    requires row < n && col <= n && n * row + col == n * n
    ensures row == n - 1 && col == n
  {
    assert n * (n - 1) == n * n - n;
    assert n * row >= n * (n - 1);
    MulCancel(n, row, n - 1);
  }

  /** A positive factor can be cancelled from both sides of `>=`. */
  lemma MulCancel(n: nat, a: int, b: int)
    requires n > 0 && n * a >= n * b
    ensures a >= b
  {
    assert n * (a - b) >= 0;
  }

  /** `Cells`: the cells of a group, row by row. */
  class Cells {
    const x0: int
    const y0: int
    const size: nat
    const max: CellCoord
    var current: CellCoord
    ghost var yielded: seq<CellCoord>
    ghost var row: nat
    ghost var col: nat

    ghost predicate Valid()
      reads this
    {
      && max == CellCoord(x0 + size - 1, y0 + size - 1)
      && Cursor(x0, y0, size, row, col, yielded, current)
    }

    /** `Cells::new`; the coordinates are `u32`, so x must be at least 1. */
    constructor(group: CellGroup)
      requires group.coord.x >= 1 && group.coord.y + group.size >= 1
      ensures Valid() && yielded == []
      ensures x0 == group.coord.x && y0 == group.coord.y && size == group.size
    {
      x0 := group.coord.x;
      y0 := group.coord.y;
      size := group.size;
      max := CellCoord(group.coord.x + group.size - 1, group.coord.y + group.size - 1);
      current := CellCoord(group.coord.x - 1, group.coord.y);
      yielded := [];
      row, col := 0, 0;
    }

    /** `Iterator::next`: the next cell in reading order, `None` once the
        whole square has been yielded. */
    method Next() returns (r: Option<CellCoord>)
      requires Valid()
      modifies this
      ensures Valid() && yielded <= Square(x0, y0, size)
      ensures r.None? <==> old(yielded) == Square(x0, y0, size)
      ensures r.Some? ==> yielded == old(yielded) + [r.value]
      ensures r.None? ==> yielded == old(yielded)
    {
      CursorEnd(x0, y0, size, row, col, yielded, current);
      var next: CellCoord;
      ghost var nextRow: nat, nextCol: nat;
      if current.x < max.x {
        CursorRight(x0, y0, size, row, col, yielded, current);
        next := CellCoord(current.x + 1, current.y);
        nextRow, nextCol := row, col + 1;
      } else if current.y < max.y {
        CursorDown(x0, y0, size, row, col, yielded, current);
        next := CellCoord(x0, current.y + 1);
        nextRow, nextCol := row + 1, 1;
      } else {
        return None;
      }
      current, row, col, yielded := next, nextRow, nextCol, yielded + [next];
      r := Some(next);
    }
  }

  /** `Groups`: the top-left corners of all groups of one size that fit the
      grid, row by row. */
  class Groups {
    const groupSize: nat
    const max: nat
    var current: CellCoord
    ghost var yielded: seq<CellCoord>
    ghost var row: nat
    ghost var col: nat

    ghost predicate Valid()
      reads this
    {
      Cursor(1, 1, max + 1, row, col, yielded, current)
    }

    /** `Groups::new`; `grid.size - group_size` is a `u32` subtraction. */
    constructor(gridSize: nat, groupSize: nat)
      requires groupSize <= gridSize
      ensures Valid() && yielded == []
      ensures this.groupSize == groupSize && max == gridSize - groupSize
    {
      this.groupSize := groupSize;
      max := gridSize - groupSize;
      current := CellCoord(0, 1);
      yielded := [];
      row, col := 0, 0;
    }

    /** `Iterator::next`: the next group in reading order of its corner,
        `None` once every corner has been yielded. */
    method Next() returns (r: Option<CellGroup>)
      requires Valid()
      modifies this
      ensures Valid() && yielded <= Square(1, 1, max + 1)
      ensures r.None? <==> old(yielded) == Square(1, 1, max + 1)
      ensures r.Some? ==> r.value.size == groupSize && yielded == old(yielded) + [r.value.coord]
      ensures r.None? ==> yielded == old(yielded)
    {
      CursorEnd(1, 1, max + 1, row, col, yielded, current);
      var next: CellCoord;
      ghost var nextRow: nat, nextCol: nat;
      if current.x <= max {
        CursorRight(1, 1, max + 1, row, col, yielded, current);
        next := CellCoord(current.x + 1, current.y);
        nextRow, nextCol := row, col + 1;
      } else if current.y <= max {
        CursorDown(1, 1, max + 1, row, col, yielded, current);
        next := CellCoord(1, current.y + 1);
        nextRow, nextCol := row + 1, 1;
      } else {
        return None;
      }
      current, row, col, yielded := next, nextRow, nextCol, yielded + [next];
      r := Some(CellGroup(groupSize, next));
    }
  }

  // ---------------------------------------------------------------------
  // Power of a group

  /** The sum of the power levels of some cells. */
  function SumPower(serialNo: nat, cells: seq<CellCoord>): int
  {
    if cells == [] then 0 else SumPower(serialNo, cells[..|cells| - 1]) + CellPower(serialNo, cells[|cells| - 1])
  }

  /** The total power of a group: all cells of its square. */
  function GroupPower(serialNo: nat, group: CellGroup): int
  {
    SumPower(serialNo, Square(group.coord.x, group.coord.y, group.size))
  }

  lemma {:induction false} SumPowerBounds(serialNo: nat, cells: seq<CellCoord>)
    requires forall c <- cells :: c.x >= 0 && c.y >= 0
    ensures -5 * |cells| <= SumPower(serialNo, cells) <= 4 * |cells|
  {
    if cells != [] {
      var init := cells[..|cells| - 1];
      assert forall c <- init :: c in cells;
      assert cells[|cells| - 1] in cells;
      SumPowerBounds(serialNo, init);
      CellPowerIsHundredsDigit(serialNo, cells[|cells| - 1]);
    }
  }

  /** A group of size s has total power between -5 s^2 and 4 s^2. */
  lemma GroupPowerBounds(serialNo: nat, group: CellGroup)
    requires group.coord.x >= 0 && group.coord.y >= 0
    ensures -5 * group.size * group.size <= GroupPower(serialNo, group) <= 4 * group.size * group.size
  {
    var s := Square(group.coord.x, group.coord.y, group.size);
    forall c | c in s
      ensures c.x >= 0 && c.y >= 0
    {
      SquareCells(group.coord.x, group.coord.y, group.size, c);
    }
    SumPowerBounds(serialNo, s);
    BlockLength(group.coord.x, group.coord.y, group.size, group.size);
    ScaledArea(|s|, group.size);
  }

  lemma ScaledArea(cells: nat, size: nat)
    requires cells == size * size
    ensures -5 * cells == -5 * size * size && 4 * cells == 4 * size * size
  {
  }

  /** `CellGroup::power_level`: the sum over the group's `Cells`. */
  method PowerLevel(serialNo: nat, group: CellGroup) returns (power: int)
    requires group.coord.x >= 1 && group.coord.y + group.size >= 1
    ensures power == GroupPower(serialNo, group)
  {
    var cells := new Cells(group);
    power := 0;
    while true
      invariant cells.Valid() && fresh(cells)
      invariant cells.x0 == group.coord.x && cells.y0 == group.coord.y && cells.size == group.size
      invariant power == SumPower(serialNo, cells.yielded)
      invariant cells.yielded <= Square(group.coord.x, group.coord.y, group.size)
      decreases |Square(group.coord.x, group.coord.y, group.size)| - |cells.yielded|
    {
      ghost var before := cells.yielded;
      var next := cells.Next();
      if next.None? {
        break;
      }
      assert cells.yielded[..|cells.yielded| - 1] == before;
      assert |cells.yielded| > |before|;
      power := power + CellPower(serialNo, next.value);
    }
    assert cells.yielded == Square(group.coord.x, group.coord.y, group.size);
  }

  /** The power of a concatenation is the sum of the powers. */
  lemma {:induction false} SumPowerAppend(serialNo: nat, a: seq<CellCoord>, b: seq<CellCoord>)
    ensures SumPower(serialNo, a + b) == SumPower(serialNo, a) + SumPower(serialNo, b)
  {
    if b == [] {
      assert a + b == a;
    } else {
      var ab := a + b;
      assert ab[..|ab| - 1] == a + b[..|b| - 1];
      assert ab[|ab| - 1] == b[|b| - 1];
      SumPowerAppend(serialNo, a, b[..|b| - 1]);
    }
  }

  /** Three cells of a row, spelled out. */
  lemma RowPower3(serialNo: nat, x: int, y: int)
    ensures SumPower(serialNo, Row(x, y, 3))
         == CellPower(serialNo, CellCoord(x, y)) + CellPower(serialNo, CellCoord(x + 1, y)) + CellPower(serialNo, CellCoord(x + 2, y))
  {
    var a, b, c := CellCoord(x, y), CellCoord(x + 1, y), CellCoord(x + 2, y);
    assert Row(x, y, 3) == [a, b, c];
    assert [a, b, c][..2] == [a, b];
    assert [a, b][..1] == [a];
    assert [a][..0] == [];
    assert SumPower(serialNo, [a]) == CellPower(serialNo, a);
    assert SumPower(serialNo, [a, b]) == CellPower(serialNo, a) + CellPower(serialNo, b);
  }

  /** A 3x3 group's power is the sum of its three rows. */
  lemma GroupPower3(serialNo: nat, x: int, y: int)
    ensures GroupPower(serialNo, CellGroup(3, CellCoord(x, y)))
         == SumPower(serialNo, Row(x, y, 3)) + SumPower(serialNo, Row(x, y + 1, 3)) + SumPower(serialNo, Row(x, y + 2, 3))
  {
    assert Block(x, y, 3, 1) == [] + Row(x, y, 3);
    assert Block(x, y, 3, 1) == Row(x, y, 3);
    SumPowerAppend(serialNo, Block(x, y, 3, 1), Row(x, y + 1, 3));
    SumPowerAppend(serialNo, Block(x, y, 3, 2), Row(x, y + 2, 3));
  }

  /** The 3x3 square the puzzle text draws for serial number 18. */
  lemma GroupPowerExample18()
    ensures GroupPower(18, CellGroup(3, CellCoord(33, 45))) == 29
  {
    CellPowers18Row0();
    CellPowers18Row1();
    CellPowers18Row2();
    GroupPower3(18, 33, 45);
    RowPower3(18, 33, 45);
    RowPower3(18, 33, 46);
    RowPower3(18, 33, 47);
  }

  lemma CellPowers18Row0()
    ensures CellPower(18, CellCoord(33, 45)) == 4
    ensures CellPower(18, CellCoord(34, 45)) == 4
    ensures CellPower(18, CellCoord(35, 45)) == 4
  {
    CellPowerOf(18, 33, 45, 83979);
    CellPowerOf(18, 34, 45, 87912);
    CellPowerOf(18, 35, 45, 91935);
  }

  lemma CellPowers18Row1()
    ensures CellPower(18, CellCoord(33, 46)) == 3
    ensures CellPower(18, CellCoord(34, 46)) == 3
    ensures CellPower(18, CellCoord(35, 46)) == 4
  {
    CellPowerOf(18, 33, 46, 85828);
    CellPowerOf(18, 34, 46, 89848);
    CellPowerOf(18, 35, 46, 93960);
  }

  lemma CellPowers18Row2()
    ensures CellPower(18, CellCoord(33, 47)) == 1
    ensures CellPower(18, CellCoord(34, 47)) == 2
    ensures CellPower(18, CellCoord(35, 47)) == 4
  {
    CellPowerOf(18, 33, 47, 87677);
    CellPowerOf(18, 34, 47, 91784);
    CellPowerOf(18, 35, 47, 95985);
  }


  /** The 3x3 square the puzzle text draws for serial number 42. */
  lemma GroupPowerExample42()
    ensures GroupPower(42, CellGroup(3, CellCoord(21, 61))) == 30
  {
    CellPowers42Row0();
    CellPowers42Row1();
    CellPowers42Row2();
    GroupPower3(42, 21, 61);
    RowPower3(42, 21, 61);
    RowPower3(42, 21, 62);
    RowPower3(42, 21, 63);
  }

  lemma CellPowers42Row0()
    ensures CellPower(42, CellCoord(21, 61)) == 4
    ensures CellPower(42, CellCoord(22, 61)) == 3
    ensures CellPower(42, CellCoord(23, 61)) == 3
  {
    CellPowerOf(42, 21, 61, 59923);
    CellPowerOf(42, 22, 61, 63808);
    CellPowerOf(42, 23, 61, 67815);
  }

  lemma CellPowers42Row1()
    ensures CellPower(42, CellCoord(21, 62)) == 3
    ensures CellPower(42, CellCoord(22, 62)) == 3
    ensures CellPower(42, CellCoord(23, 62)) == 4
  {
    CellPowerOf(42, 21, 62, 60884);
    CellPowerOf(42, 22, 62, 64832);
    CellPowerOf(42, 23, 62, 68904);
  }

  lemma CellPowers42Row2()
    ensures CellPower(42, CellCoord(21, 63)) == 3
    ensures CellPower(42, CellCoord(22, 63)) == 3
    ensures CellPower(42, CellCoord(23, 63)) == 4
  {
    CellPowerOf(42, 21, 63, 61845);
    CellPowerOf(42, 22, 63, 65856);
    CellPowerOf(42, 23, 63, 69993);
  }


  // ---------------------------------------------------------------------
  // The best square

  /** The corners of all groups of `groupSize` that fit a grid of `gridSize`. */
  function Corners(gridSize: nat, groupSize: nat): seq<CellCoord>
    requires groupSize <= gridSize
  {
    Square(1, 1, gridSize - groupSize + 1)
  }

  /** `best` has the largest power among the groups of its size, and no
      later corner in reading order has as much (`max_by_key` keeps the last
      of equal maxima). */
  ghost predicate IsLastBest(serialNo: nat, corners: seq<CellCoord>, groupSize: nat, best: CellGroup, power: int)
  {
    && best.size == groupSize && power == GroupPower(serialNo, best)
    && (forall c <- corners :: GroupPower(serialNo, CellGroup(groupSize, c)) <= power)
    && exists i :: 0 <= i < |corners| && corners[i] == best.coord
         && forall j :: i < j < |corners| ==> GroupPower(serialNo, CellGroup(groupSize, corners[j])) < power
  }

  /** The scan of `BestGroup` after the corners `seen`: `best`, found at
      `at`, is the last of the most powerful groups so far. */
  ghost predicate Scanned(serialNo: nat, groupSize: nat, seen: seq<CellCoord>, at: int, best: CellGroup, power: int)
  {
    && best.size == groupSize && power == GroupPower(serialNo, best)
    && 0 <= at < |seen| && seen[at] == best.coord
    && (forall c <- seen :: GroupPower(serialNo, CellGroup(groupSize, c)) <= power)
    && (forall j :: at < j < |seen| ==> GroupPower(serialNo, CellGroup(groupSize, seen[j])) < power)
  }

  /** The last corner yielded so far lies in the grid. */
  lemma LastCorner(n: nat, yielded: seq<CellCoord>)
    requires yielded <= Square(1, 1, n) && yielded != []
    ensures yielded[|yielded| - 1].x >= 1 && yielded[|yielded| - 1].y >= 1
  {
    SquareCells(1, 1, n, yielded[|yielded| - 1]);
  }

  /** The scan starts with the first corner as the best. */
  lemma ScanFirst(serialNo: nat, groupSize: nat, c: CellCoord, p: int)
    requires p == GroupPower(serialNo, CellGroup(groupSize, c))
    ensures Scanned(serialNo, groupSize, [c], 0, CellGroup(groupSize, c), p)
  {
  }

  /** One more corner: a group at least as powerful replaces the best, a
      weaker one leaves it. */
  lemma ScanStep(serialNo: nat, groupSize: nat, seen: seq<CellCoord>, at: int, best: CellGroup, power: int, c: CellCoord, p: int)
    requires Scanned(serialNo, groupSize, seen, at, best, power)
    requires p == GroupPower(serialNo, CellGroup(groupSize, c))
    ensures p >= power ==> Scanned(serialNo, groupSize, seen + [c], |seen|, CellGroup(groupSize, c), p)
    ensures p < power ==> Scanned(serialNo, groupSize, seen + [c], at, best, power)
  {
    assert forall d <- seen + [c] :: d in seen || d == c;
  }

  /** A scan over all corners found the last best group. */
  lemma ScanDone(serialNo: nat, groupSize: nat, seen: seq<CellCoord>, at: int, best: CellGroup, power: int)
    requires Scanned(serialNo, groupSize, seen, at, best, power)
    ensures IsLastBest(serialNo, seen, groupSize, best, power)
  {
  }

  /** The group `max_power_cell_group` picks for one group size: the maximum
      over `cell_groups(group_size)` by power level. */
  method BestGroup(serialNo: nat, gridSize: nat, groupSize: nat) returns (best: CellGroup, power: int)
    requires groupSize <= gridSize
    ensures IsLastBest(serialNo, Corners(gridSize, groupSize), groupSize, best, power)
  {
    var groups := new Groups(gridSize, groupSize);
    assert Square(1, 1, groups.max + 1) == Corners(gridSize, groupSize);
    var first := groups.Next();
    assert Square(1, 1, groups.max + 1) != [];
    best := first.value;
    LastCorner(groups.max + 1, groups.yielded);
    power := PowerLevel(serialNo, best);
    ScanFirst(serialNo, groupSize, best.coord, power);
    ghost var at := 0;
    while true
      invariant groups.Valid() && fresh(groups) && groups.groupSize == groupSize
      invariant groups.yielded <= Corners(gridSize, groupSize)
      invariant Scanned(serialNo, groupSize, groups.yielded, at, best, power)
      decreases |Corners(gridSize, groupSize)| - |groups.yielded|
    {
      ghost var before := groups.yielded;
      var next := groups.Next();
      if next.None? {
        break;
      }
      LastCorner(groups.max + 1, groups.yielded);
      var p := PowerLevel(serialNo, next.value);
      ScanStep(serialNo, groupSize, before, at, best, power, next.value.coord, p);
      if p >= power {
        best, power := next.value, p;
        at := |before|;
      }
    }
    ScanDone(serialNo, groupSize, groups.yielded, at, best, power);
  }

  /** `max_power_cell_group`: the best 3x3 square of the 300x300 grid. */
  method MaxPowerCellGroup(serialNo: nat) returns (best: CellGroup, power: int)
    ensures IsLastBest(serialNo, Corners(300, 3), 3, best, power)
  {
    best, power := BestGroup(serialNo, 300, 3);
  }

  /** A square of any size from 1 to `gridSize` with the largest power; of
      equal maxima the one of the largest size wins, then the last corner. */
  method BestGroupOfAnySize(serialNo: nat, gridSize: nat) returns (best: CellGroup, power: int)
    requires gridSize >= 1
    ensures 1 <= best.size <= gridSize
    ensures IsLastBest(serialNo, Corners(gridSize, best.size), best.size, best, power)
    ensures forall s, c :: 1 <= s <= gridSize && c in Corners(gridSize, s) ==> GroupPower(serialNo, CellGroup(s, c)) <= power
    ensures forall s, c :: best.size < s <= gridSize && c in Corners(gridSize, s) ==> GroupPower(serialNo, CellGroup(s, c)) < power
  {
    var perSize := BestPerSize(serialNo, gridSize);
    var at := LastMax(perSize);
    best, power := perSize[at].0, perSize[at].1;
    PerSizeBest(serialNo, gridSize, perSize, at);
  }

  /** `max_per_group_size`: the best group of each size, smallest first. */
  method BestPerSize(serialNo: nat, gridSize: nat) returns (perSize: seq<(CellGroup, int)>)
    ensures |perSize| == gridSize
    ensures forall i :: 0 <= i < |perSize| ==>
              IsLastBest(serialNo, Corners(gridSize, i + 1), i + 1, perSize[i].0, perSize[i].1)
  {
    perSize := [];
    for groupSize := 1 to gridSize + 1
      invariant |perSize| == groupSize - 1
      invariant forall i :: 0 <= i < |perSize| ==>
                  IsLastBest(serialNo, Corners(gridSize, i + 1), i + 1, perSize[i].0, perSize[i].1)
    {
      var g, p := BestGroup(serialNo, gridSize, groupSize);
      perSize := perSize + [(g, p)];
    }
  }

  /** `max_by_key` on the power: the index of the last maximum. */
  method LastMax(perSize: seq<(CellGroup, int)>) returns (at: nat)
    requires |perSize| >= 1
    ensures at < |perSize|
    ensures forall j :: 0 <= j < |perSize| ==> perSize[j].1 <= perSize[at].1
    ensures forall j :: at < j < |perSize| ==> perSize[j].1 < perSize[at].1
  {
    at := 0;
    for i := 1 to |perSize|
      invariant at < i
      invariant forall j :: 0 <= j < i ==> perSize[j].1 <= perSize[at].1
      invariant forall j :: at < j < i ==> perSize[j].1 < perSize[at].1
    {
      if perSize[i].1 >= perSize[at].1 {
        at := i;
      }
    }
  }

  /** The last of the best groups per size, taken over all sizes. */
  lemma PerSizeBest(serialNo: nat, gridSize: nat, perSize: seq<(CellGroup, int)>, at: nat)
    requires |perSize| == gridSize && at < gridSize
    requires forall i :: 0 <= i < |perSize| ==>
               IsLastBest(serialNo, Corners(gridSize, i + 1), i + 1, perSize[i].0, perSize[i].1)
    requires forall j :: 0 <= j < |perSize| ==> perSize[j].1 <= perSize[at].1
    requires forall j :: at < j < |perSize| ==> perSize[j].1 < perSize[at].1
    ensures perSize[at].0.size == at + 1
    ensures forall s, c :: 1 <= s <= gridSize && c in Corners(gridSize, s) ==> GroupPower(serialNo, CellGroup(s, c)) <= perSize[at].1
    ensures forall s, c :: at + 1 < s <= gridSize && c in Corners(gridSize, s) ==> GroupPower(serialNo, CellGroup(s, c)) < perSize[at].1
  {
    assert IsLastBest(serialNo, Corners(gridSize, at + 1), at + 1, perSize[at].0, perSize[at].1);
    forall s, c | 1 <= s <= gridSize && c in Corners(gridSize, s)
      ensures GroupPower(serialNo, CellGroup(s, c)) <= perSize[s - 1].1
    {
      assert IsLastBest(serialNo, Corners(gridSize, s), s, perSize[s - 1].0, perSize[s - 1].1);
    }
  }

  /** `max_power_cell_group_size`: the best square of any size of the
      300x300 grid. */
  method MaxPowerCellGroupSize(serialNo: nat) returns (best: CellGroup, power: int)
    ensures 1 <= best.size <= 300
    ensures IsLastBest(serialNo, Corners(300, best.size), best.size, best, power)
    ensures forall s, c :: 1 <= s <= 300 && c in Corners(300, s) ==> GroupPower(serialNo, CellGroup(s, c)) <= power
  {
    best, power := BestGroupOfAnySize(serialNo, 300);
  }

  /** A group fits the grid exactly when its corner is one of `Corners`. */
  lemma CornersFit(gridSize: nat, groupSize: nat, c: CellCoord)
    requires groupSize <= gridSize
    ensures c in Corners(gridSize, groupSize)
        <==> 1 <= c.x && c.x + groupSize - 1 <= gridSize && 1 <= c.y && c.y + groupSize - 1 <= gridSize
  {
    SquareCells(1, 1, gridSize - groupSize + 1, c);
  }

  /** Every corner is visited once. */
  lemma CornersOnce(gridSize: nat, groupSize: nat)
    requires groupSize <= gridSize
    ensures Distinct(Corners(gridSize, groupSize))
  {
    BlockDistinct(1, 1, gridSize - groupSize + 1, gridSize - groupSize + 1);
  }

  // ---------------------------------------------------------------------
  // Parsing

  /** `parse`: the trimmed input as a `u32`; `None` is a panic. */
  function Parse(input: string): (r: Option<nat>)
    ensures r.Some? ==> r.value <= U32_MAX
  {
    match ParseInt(Trim(input), 0, U32_MAX)
    case Some(n) => Some(n as nat)
    case None => None
  }

  lemma ParseShow(n: nat)
    requires n <= U32_MAX
    ensures Parse(ShowNat(n)) == Some(n)
  {
    var s := ShowNat(n);
    assert IsDigit(s[0]) && IsDigit(s[|s| - 1]);
    TrimKeeps(s);
  }
}
