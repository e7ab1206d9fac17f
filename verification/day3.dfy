/**
 * The toroidal tree grid: each row repeats to the right without end, and a toboggan
 * walks down it along a fixed slope, counting the trees it lands on.
 */
module Day3 {
  import opened Arith
  import opened Wrappers

  datatype Cell = Tree | OpenSquare

  /** A slope: `right` columns across for every `down` rows. */
  datatype Slope = Slope(right: nat, down: nat)

  /**
   * Every row a walk can land on has at least one cell: walks start on row 1 or lower,
   * and a lookup on an empty row would take a remainder by zero (a panic in the source).
   */
  predicate Walkable(rows: seq<seq<Cell>>) {
    forall i :: 1 <= i < |rows| ==> |rows[i]| > 0
  }

  // ---------------------------------------------------------------------------
  // The grid

  /**
   * `Grid::get`: nothing below the last row; otherwise the cell at `col`, wrapping
   * round to the start of the row when `col` is past its end.
   */
  function Get(rows: seq<seq<Cell>>, row: nat, col: nat): (r: Option<Cell>)
    requires row >= |rows| || |rows[row]| > 0
    ensures r.None? <==> row >= |rows|
  {
    if row >= |rows| then None
    else
      var line := rows[row];
      if col >= |line| then Some(line[col % |line|]) else Some(line[col])
  }

  /** Inside the row, the lookup is plain indexing. */
  lemma GetInside(rows: seq<seq<Cell>>, row: nat, col: nat)
    requires row < |rows| && col < |rows[row]|
    ensures Get(rows, row, col) == Some(rows[row][col])
  {
  }

  /** For a row inside the grid, the lookup is the cell at the column modulo the row's width. */
  lemma GetWraps(rows: seq<seq<Cell>>, row: nat, col: nat)
    requires row < |rows| && |rows[row]| > 0
    ensures Get(rows, row, col) == Some(rows[row][col % |rows[row]|])
  {
  }

  // ---------------------------------------------------------------------------
  // Decoding

  /** The cell mapping of `parse_input`: `.` is open, `#` a tree, anything else is dropped. */
  function ParseRow(line: string): (cells: seq<Cell>)
    ensures |cells| <= |line|
    decreases |line|
  {
    if |line| == 0 then []
    else
      var rest := ParseRow(line[1..]);
      if line[0] == '.' then [OpenSquare] + rest
      else if line[0] == '#' then [Tree] + rest
      else rest
  }

  /** The text form of a row. */
  function RenderRow(cells: seq<Cell>): (line: string)
    ensures |line| == |cells|
    decreases |cells|
  {
    if |cells| == 0 then "" else (if cells[0] == Tree then "#" else ".") + RenderRow(cells[1..])
  }

  /** Decoding inverts rendering. */
  lemma {:induction false} ParseRenderRow(cells: seq<Cell>)
    ensures ParseRow(RenderRow(cells)) == cells
    decreases |cells|
  {
    if |cells| > 0 {
      var line := RenderRow(cells);
      assert line[1..] == RenderRow(cells[1..]);
      ParseRenderRow(cells[1..]);
    }
  }

  /** Decoding works character by character: a line's cells are those of its parts. */
  lemma {:induction false} ParseRowAppend(a: string, b: string)
    ensures ParseRow(a + b) == ParseRow(a) + ParseRow(b)
    decreases |a|
  {
    if |a| > 0 {
      assert (a + b)[1..] == a[1..] + b;
      ParseRowAppend(a[1..], b);
    } else {
      assert a + b == b;
    }
  }

  /** A character other than `.` and `#` yields no cell. */
  lemma ParseRowDrops(c: char)
    requires c != '.' && c != '#'
    ensures ParseRow([c]) == []
  {
    assert [c][1..] == [];
  }

  // ---------------------------------------------------------------------------
  // Walking a slope

  /**
   * The trees met from position `(row, col)` onwards along the slope, landing on
   * rows `row`, `row + down`, ... while they are inside the grid.
   */
  function TreesFrom(rows: seq<seq<Cell>>, slope: Slope, row: nat, col: nat): (n: nat)
    requires Walkable(rows) && slope.down >= 1 && row >= 1
    ensures row < |rows| ==> n <= |rows| - row
    ensures row >= |rows| ==> n == 0
    decreases |rows| - row
  {
    if row >= |rows| then 0
    else (if Get(rows, row, col) == Some(Tree) then 1 else 0) + TreesFrom(rows, slope, row + slope.down, col + slope.right)
  }

  /** The trees met along a slope from the top-left corner (the corner itself is not counted). */
  function Trees(rows: seq<seq<Cell>>, slope: Slope): nat
    requires Walkable(rows) && slope.down >= 1
  {
    TreesFrom(rows, slope, slope.down, slope.right)
  }

  /**
   * The loop of both parts: step along the slope while `get` finds a cell, counting
   * the trees. It returns what `Trees` specifies.
   */
  method Walk(rows: seq<seq<Cell>>, slope: Slope) returns (trees: nat)
    requires Walkable(rows) && slope.down >= 1
    ensures trees == Trees(rows, slope)
  {
    var row: nat, col: nat := slope.down, slope.right;
    trees := 0;
    while row < |rows|
      invariant row >= 1
      invariant trees + TreesFrom(rows, slope, row, col) == Trees(rows, slope)
      decreases |rows| - row
    {
      var cell := Get(rows, row, col);
      if cell == Some(Tree) {
        trees := trees + 1;
      }
      row := row + slope.down;
      col := col + slope.right;
    }
  }

  /** The first part: the trees on slope (3 right, 1 down). */
  method PartOne(rows: seq<seq<Cell>>) returns (trees: nat)
    requires Walkable(rows)
    ensures trees == Trees(rows, Slope(3, 1))
    ensures |rows| > 0 ==> trees <= |rows| - 1
  {
    trees := Walk(rows, Slope(3, 1));
  }

  /** The trees on slope (3, 1) are those rows `k >= 1` whose cell at column `3k` is a tree. */
  lemma PartOneTrees(rows: seq<seq<Cell>>)
    requires Walkable(rows)
    ensures Trees(rows, Slope(3, 1)) == |set k: nat | 1 <= k < |rows| && Get(rows, k, 3 * k) == Some(Tree)|
  {
    TreesOnThreeOne(rows, 1);
  }

  lemma {:induction false} TreesOnThreeOne(rows: seq<seq<Cell>>, row: nat)
    requires Walkable(rows) && row >= 1
    ensures TreesFrom(rows, Slope(3, 1), row, 3 * row)
      == |set k: nat | row <= k < |rows| && Get(rows, k, 3 * k) == Some(Tree)|
    decreases |rows| - row
  {
    var here := set k: nat | row <= k < |rows| && Get(rows, k, 3 * k) == Some(Tree);
    var below := set k: nat | row + 1 <= k < |rows| && Get(rows, k, 3 * k) == Some(Tree);
    if row < |rows| {
      TreesOnThreeOne(rows, row + 1);
      assert 3 * row + 3 == 3 * (row + 1);
      var hit := Get(rows, row, 3 * row) == Some(Tree);
      assert TreesFrom(rows, Slope(3, 1), row, 3 * row)
        == (if hit then 1 else 0) + TreesFrom(rows, Slope(3, 1), row + 1, 3 * (row + 1));
      if hit {
        assert here == below + {row} && row !in below;
      } else {
        assert here == below;
      }
    } else {
      assert here == {};
    }
  }

  // ---------------------------------------------------------------------------
  // The second part

  /** The five slopes of the second part, in the order they are walked. */
  function Slopes(): seq<Slope> {
    [Slope(1, 1), Slope(3, 1), Slope(5, 1), Slope(7, 1), Slope(1, 2)]
  }

  /** The product of the numbers, 1 for none (the source's `fold(1, ..)`). */
  function Product(xs: seq<nat>): nat
    decreases |xs|
  {
    if |xs| == 0 then 1 else Product(xs[..|xs| - 1]) * xs[|xs| - 1]
  }

  /** The tree counts of the five slopes. */
  function SlopeCounts(rows: seq<seq<Cell>>): (counts: seq<nat>)
    requires Walkable(rows)
    ensures |counts| == |Slopes()|
    ensures forall i :: 0 <= i < |counts| ==> counts[i] == Trees(rows, Slopes()[i])
  {
    seq(|Slopes()|, i requires 0 <= i < |Slopes()| => Trees(rows, Slopes()[i]))
  }

  /** The second part: walks each slope, collects the counts, and multiplies them. */
  method PartTwo(rows: seq<seq<Cell>>) returns (r: nat)
    requires Walkable(rows)
    ensures r == Product(SlopeCounts(rows))
  {
    var slopes := Slopes();
    var results: seq<nat> := [];
    for i := 0 to |slopes|
      invariant results == SlopeCounts(rows)[..i]
    {
      var trees := Walk(rows, slopes[i]);
      results := results + [trees];
    }
    assert results == SlopeCounts(rows);
    r := Product(results);
  }

  /** The product of a concatenation is the product of the products. */
  lemma {:induction false} ProductAppend(a: seq<nat>, b: seq<nat>)
    ensures Product(a + b) == Product(a) * Product(b)
    decreases |b|
  {
    if |b| == 0 {
      assert a + b == a;
    } else {
      var n := |b| - 1;
      assert (a + b)[..|a + b| - 1] == a + b[..n];
      ProductAppend(a, b[..n]);
      assert Product(a + b) == Product(a) * Product(b[..n]) * b[n];
    }
  }

  /** The (3, 1) factor of the second part is the first part's count. */
  lemma PartTwoHasPartOne(rows: seq<seq<Cell>>)
    requires Walkable(rows)
    ensures Product(SlopeCounts(rows)) == Trees(rows, Slope(3, 1)) * Product([SlopeCounts(rows)[0]] + SlopeCounts(rows)[2..])
  {
    var c := SlopeCounts(rows);
    var x, y, tail := c[0], c[1], c[2..];
    assert c == [x] + ([y] + tail);
    ProductAppend([x], [y] + tail);
    ProductAppend([y], tail);
    ProductAppend([x], tail);
    assert [x][..0] == [] && [y][..0] == [];
    assert Product([x]) == x && Product([y]) == y;
    assert Product(c) == x * (y * Product(tail));
    MulSwap(x, y, Product(tail));
  }

  // ---------------------------------------------------------------------------
  // The puzzle statement's example

  /** The cell rows of `parse_input`: one decoded row per line. */
  function Grid(lines: seq<string>): (rows: seq<seq<Cell>>)
    ensures |rows| == |lines| && forall i :: 0 <= i < |lines| ==> rows[i] == ParseRow(lines[i])
  {
    seq(|lines|, i requires 0 <= i < |lines| => ParseRow(lines[i]))
  }

  /** A line made of `.` and `#` only. */
  predicate Clean(line: string) {
    forall i :: 0 <= i < |line| ==> line[i] == '.' || line[i] == '#'
  }

  /** The cell a character of a clean line stands for. */
  function CellOf(c: char): Cell {
    if c == '#' then Tree else OpenSquare
  }

  /** A clean line decodes position by position: one cell per character. */
  lemma {:induction false} ParseClean(line: string)
    requires Clean(line)
    ensures |ParseRow(line)| == |line|
    ensures forall i :: 0 <= i < |line| ==> ParseRow(line)[i] == CellOf(line[i])
    decreases |line|
  {
    if |line| > 0 {
      ParseClean(line[1..]);
    }
  }

  /** The example grid of the puzzle statement, eleven rows of eleven cells. */
  function SampleLines(): seq<string> {
    SampleTop() + SampleBottom()
  }

  /** Its first six lines. */
  function SampleTop(): seq<string> {
    [ "..##.......",
      "#...#...#..",
      ".#....#..#.",
      "..#.#...#.#",
      ".#...##..#.",
      "..#.##....." ]
  }

  /** Its last five lines. */
  function SampleBottom(): seq<string> {
    [ ".#.#.#....#",
      ".#........#",
      "#.##...#...",
      "#...##....#",
      ".#..#...#.#" ]
  }

  /** The decoded example grid: eleven rows of eleven cells, each the cell of its character. */
  predicate SampleShape(rows: seq<seq<Cell>>) {
    && |rows| == 11
    && (forall r :: 0 <= r < 11 ==> |rows[r]| == 11)
    && (forall r, c :: 0 <= r < 11 && 0 <= c < 11 ==> rows[r][c] == CellOf(SampleLines()[r][c]))
  }

  /** Decoding the example lines yields the example grid, cell by cell. */
  lemma SampleDecodes(rows: seq<seq<Cell>>)
    requires rows == Grid(SampleLines())
    ensures SampleShape(rows)
  {
    var lines := SampleLines();
    forall r | 0 <= r < 11
      ensures |rows[r]| == 11 && forall c :: 0 <= c < 11 ==> rows[r][c] == CellOf(lines[r][c])
    {
      SampleLineClean(r);
      ParseClean(lines[r]);
    }
  }

  /** Every example line has eleven characters, each `.` or `#`. */
  lemma SampleLineClean(r: nat)
    requires r < 11
    ensures |SampleLines()[r]| == 11 && Clean(SampleLines()[r])
  {
    if r < 6 {
      TopLineClean(r);
    } else {
      BottomLineClean(r - 6);
    }
  }

  lemma TopLineClean(r: nat)
    requires r < 6
    ensures |SampleTop()[r]| == 11 && Clean(SampleTop()[r])
  {
    var line := SampleTop()[r];
    assert line in SampleTop();
    assert forall l :: l in SampleTop() ==> |l| == 11 && Clean(l);
  }

  lemma BottomLineClean(r: nat)
    requires r < 5
    ensures |SampleBottom()[r]| == 11 && Clean(SampleBottom()[r])
  {
    var line := SampleBottom()[r];
    assert line in SampleBottom();
    assert forall l :: l in SampleBottom() ==> |l| == 11 && Clean(l);
  }

  /**
   * The walks over the example grid, one per slope: each counts back from the row
   * past the bottom, one visited cell at a time.
   */
  lemma SampleSlopeOneOne(rows: seq<seq<Cell>>)
    requires SampleShape(rows)
    ensures Walkable(rows) && Trees(rows, Slope(1, 1)) == 2
  {
    var slope, lines := Slope(1, 1), SampleLines();
    assert TreesFrom(rows, slope, 11, 11) == 0;
    assert lines[10][10] == '#';
    assert TreesFrom(rows, slope, 10, 10) == 1;
    assert lines[9][9] == '.';
    assert TreesFrom(rows, slope, 9, 9) == 1;
    assert lines[8][8] == '.';
    assert TreesFrom(rows, slope, 8, 8) == 1;
    assert lines[7][7] == '.';
    assert TreesFrom(rows, slope, 7, 7) == 1;
    assert lines[6][6] == '.';
    assert TreesFrom(rows, slope, 6, 6) == 1;
    assert lines[5][5] == '#';
    assert TreesFrom(rows, slope, 5, 5) == 2;
    assert lines[4][4] == '.';
    assert TreesFrom(rows, slope, 4, 4) == 2;
    assert lines[3][3] == '.';
    assert TreesFrom(rows, slope, 3, 3) == 2;
    assert lines[2][2] == '.';
    assert TreesFrom(rows, slope, 2, 2) == 2;
    assert lines[1][1] == '.';
    assert TreesFrom(rows, slope, 1, 1) == 2;
  }

  lemma SampleSlopeThreeOne(rows: seq<seq<Cell>>)
    requires SampleShape(rows)
    ensures Walkable(rows) && Trees(rows, Slope(3, 1)) == 7
  {
    var slope, lines := Slope(3, 1), SampleLines();
    assert TreesFrom(rows, slope, 11, 33) == 0;
    assert lines[10][8] == '#';
    assert TreesFrom(rows, slope, 10, 30) == 1;
    assert lines[9][5] == '#';
    assert TreesFrom(rows, slope, 9, 27) == 2;
    assert lines[8][2] == '#';
    assert TreesFrom(rows, slope, 8, 24) == 3;
    assert lines[7][10] == '#';
    assert TreesFrom(rows, slope, 7, 21) == 4;
    assert lines[6][7] == '.';
    assert TreesFrom(rows, slope, 6, 18) == 4;
    assert lines[5][4] == '#';
    assert TreesFrom(rows, slope, 5, 15) == 5;
    assert lines[4][1] == '#';
    assert TreesFrom(rows, slope, 4, 12) == 6;
    assert lines[3][9] == '.';
    assert TreesFrom(rows, slope, 3, 9) == 6;
    assert lines[2][6] == '#';
    assert TreesFrom(rows, slope, 2, 6) == 7;
    assert lines[1][3] == '.';
    assert TreesFrom(rows, slope, 1, 3) == 7;
  }

  lemma SampleSlopeFiveOne(rows: seq<seq<Cell>>)
    requires SampleShape(rows)
    ensures Walkable(rows) && Trees(rows, Slope(5, 1)) == 3
  {
    var slope, lines := Slope(5, 1), SampleLines();
    assert TreesFrom(rows, slope, 11, 55) == 0;
    assert lines[10][6] == '.';
    assert TreesFrom(rows, slope, 10, 50) == 0;
    assert lines[9][1] == '.';
    assert TreesFrom(rows, slope, 9, 45) == 0;
    assert lines[8][7] == '#';
    assert TreesFrom(rows, slope, 8, 40) == 1;
    assert lines[7][2] == '.';
    assert TreesFrom(rows, slope, 7, 35) == 1;
    assert lines[6][8] == '.';
    assert TreesFrom(rows, slope, 6, 30) == 1;
    assert lines[5][3] == '.';
    assert TreesFrom(rows, slope, 5, 25) == 1;
    assert lines[4][9] == '#';
    assert TreesFrom(rows, slope, 4, 20) == 2;
    assert lines[3][4] == '#';
    assert TreesFrom(rows, slope, 3, 15) == 3;
    assert lines[2][10] == '.';
    assert TreesFrom(rows, slope, 2, 10) == 3;
    assert lines[1][5] == '.';
    assert TreesFrom(rows, slope, 1, 5) == 3;
  }

  lemma SampleSlopeSevenOne(rows: seq<seq<Cell>>)
    requires SampleShape(rows)
    ensures Walkable(rows) && Trees(rows, Slope(7, 1)) == 4
  {
    var slope, lines := Slope(7, 1), SampleLines();
    assert TreesFrom(rows, slope, 11, 77) == 0;
    assert lines[10][4] == '#';
    assert TreesFrom(rows, slope, 10, 70) == 1;
    assert lines[9][8] == '.';
    assert TreesFrom(rows, slope, 9, 63) == 1;
    assert lines[8][1] == '.';
    assert TreesFrom(rows, slope, 8, 56) == 1;
    assert lines[7][5] == '.';
    assert TreesFrom(rows, slope, 7, 49) == 1;
    assert lines[6][9] == '.';
    assert TreesFrom(rows, slope, 6, 42) == 1;
    assert lines[5][2] == '#';
    assert TreesFrom(rows, slope, 5, 35) == 2;
    assert lines[4][6] == '#';
    assert TreesFrom(rows, slope, 4, 28) == 3;
    assert lines[3][10] == '#';
    assert TreesFrom(rows, slope, 3, 21) == 4;
    assert lines[2][3] == '.';
    assert TreesFrom(rows, slope, 2, 14) == 4;
    assert lines[1][7] == '.';
    assert TreesFrom(rows, slope, 1, 7) == 4;
  }

  lemma SampleSlopeOneTwo(rows: seq<seq<Cell>>)
    requires SampleShape(rows)
    ensures Walkable(rows) && Trees(rows, Slope(1, 2)) == 2
  {
    var slope, lines := Slope(1, 2), SampleLines();
    assert TreesFrom(rows, slope, 12, 6) == 0;
    assert lines[10][5] == '.';
    assert TreesFrom(rows, slope, 10, 5) == 0;
    assert lines[8][4] == '.';
    assert TreesFrom(rows, slope, 8, 4) == 0;
    assert lines[6][3] == '#';
    assert TreesFrom(rows, slope, 6, 3) == 1;
    assert lines[4][2] == '.';
    assert TreesFrom(rows, slope, 4, 2) == 1;
    assert lines[2][1] == '#';
    assert TreesFrom(rows, slope, 2, 1) == 2;
  }

  /** On the example grid the first part meets 7 trees. */
  lemma SamplePartOne(rows: seq<seq<Cell>>)
    requires rows == Grid(SampleLines())
    ensures Walkable(rows) && Trees(rows, Slope(3, 1)) == 7
  {
    SampleDecodes(rows);
    SampleSlopeThreeOne(rows);
  }

  /** On the example grid the five slopes meet 2, 7, 3, 4 and 2 trees, whose product is 336. */
  lemma SamplePartTwo(rows: seq<seq<Cell>>)
    requires rows == Grid(SampleLines())
    ensures Walkable(rows) && SlopeCounts(rows) == [2, 7, 3, 4, 2] && Product(SlopeCounts(rows)) == 336
  {
    SampleDecodes(rows);
    SampleCounts(rows);
    SampleProduct();
  }

  /** The five slope counts of the decoded example grid. */
  lemma SampleCounts(rows: seq<seq<Cell>>)
    requires SampleShape(rows)
    ensures Walkable(rows) && SlopeCounts(rows) == [2, 7, 3, 4, 2]
  {
    SampleSlopeOneOne(rows);
    SampleSlopeThreeOne(rows);
    SampleSlopeFiveOne(rows);
    SampleSlopeSevenOne(rows);
    SampleSlopeOneTwo(rows);
  }

  /** The product of the five example counts. */
  lemma SampleProduct()
    ensures Product([2, 7, 3, 4, 2]) == 336
  {
    var xs := [2, 7, 3, 4, 2];
    assert xs[..1] == [2] && [2][..0] == [];
    assert xs[..2][..1] == [2] && xs[..3][..2] == xs[..2] && xs[..4][..3] == xs[..3] && xs[..4] == xs[..5][..4];
    assert Product(xs[..2]) == 14;
    assert Product(xs[..3]) == 42;
    assert Product(xs[..4]) == 168;
  }
}
