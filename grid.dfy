/**
 * The quiz grid shared by `State.render` and `ColorBias.render`: its size,
 * the labels drawn along its edges and the colour each cell is filled with.
 * The canvas calls themselves are not modelled; a rendering is the
 * `Picture` of what would be drawn.
 */
module Grid {
  import Numeral

  /**
   * `4 + Math.floor(level / 2)`: four cells per side, one more every second
   * level; at most eight for the levels 0 to 9 that a test goes through.
   */
  function Size(level: nat): (n: nat)
    ensures 4 <= n
    ensures 2 * (n - 4) <= level < 2 * (n - 4) + 2
    ensures level <= 9 ==> n <= 8
  {
    4 + level / 2
  }

  /** The grid never shrinks from one level to the next. */
  lemma SizeGrows(level: nat)
    ensures Size(level) <= Size(level + 1) <= Size(level) + 1
  {
  }

  /** `String(index)`: the decimal numeral of a column number. */
  function ColumnLabel(index: nat): (s: string)
    ensures 1 <= |s| && Numeral.AllDigits(s, 10)
    ensures Numeral.Parse(s, 10) == index
    ensures s[0] == '0' <==> index == 0
  {
    Numeral.ToString(index, 10)
  }

  /** `String.fromCharCode(index + 64)`: row 1 is `A`, row 26 is `Z`. */
  function RowLabel(index: nat): (s: string)
    requires index + 64 < 0xD800
    ensures |s| == 1 && s[0] as int - 64 == index
    ensures 1 <= index <= 26 ==> 'A' <= s[0] <= 'Z'
  {
    [(index + 64) as char]
  }

  /** What a rendering draws: the two palette colours, the labels and the cells. */
  datatype Picture = Picture(
    background: string, foreground: string,
    columnLabels: seq<string>, rowLabels: seq<string>,
    cells: seq<seq<string>>)

  /** A square grid of `size` rows of `size` cells. */
  predicate Square(cells: seq<seq<string>>, size: nat) {
    |cells| == size && forall i | 0 <= i < size :: |cells[i]| == size
  }

  /**
   * The label loop: for `index` from 1 to `size`, the numeral across the
   * top and the letter down the side.
   */
  method DrawLabels(size: nat) returns (columns: seq<string>, rows: seq<string>)
    requires size + 64 < 0xD800
    ensures |columns| == size && |rows| == size
    ensures forall j | 0 <= j < size :: columns[j] == ColumnLabel(j + 1)
    ensures forall i | 0 <= i < size :: rows[i] == RowLabel(i + 1)
  {
    columns, rows := [], [];
    var index := 1;
    while index <= size
      invariant 1 <= index <= size + 1
      invariant |columns| == index - 1 && |rows| == index - 1
      invariant forall j | 0 <= j < index - 1 :: columns[j] == ColumnLabel(j + 1)
      invariant forall i | 0 <= i < index - 1 :: rows[i] == RowLabel(i + 1)
    {
      columns := columns + [ColumnLabel(index)];
      rows := rows + [RowLabel(index)];
      index := index + 1;
    }
  }

  /**
   * The cell loop: row by row and column by column, the cell at row `line`
   * and column `row` gets the biased colour and every other cell the base
   * colour.
   */
  method DrawCells(size: nat, line: int, row: int, base: string, biased: string)
    returns (cells: seq<seq<string>>)
    ensures Square(cells, size)
    ensures forall i, j | 0 <= i < size && 0 <= j < size ::
      cells[i][j] == (if i == line && j == row then biased else base)
    ensures base != biased ==> forall i, j | 0 <= i < size && 0 <= j < size ::
      cells[i][j] == biased <==> i == line && j == row
  {
    cells := [];
    var i := 0;
    while i < size
      invariant 0 <= i <= size
      invariant |cells| == i && forall k | 0 <= k < i :: |cells[k]| == size
      invariant forall i', j | 0 <= i' < i && 0 <= j < size ::
        cells[i'][j] == (if i' == line && j == row then biased else base)
    {
      var cellsOfRow := [];
      var j := 0;
      while j < size
        invariant 0 <= j <= size
        invariant |cellsOfRow| == j
        invariant forall j' | 0 <= j' < j ::
          cellsOfRow[j'] == (if i == line && j' == row then biased else base)
      {
        var fill := if i == line && j == row then biased else base;
        cellsOfRow := cellsOfRow + [fill];
        j := j + 1;
      }
      cells := cells + [cellsOfRow];
      i := i + 1;
    }
  }
}
