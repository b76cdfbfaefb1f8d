/** The board and its units: rows, columns and 3x3 squares of the 9x9 grid
    (`get_row`, `get_col`, `get_square` and the `iter_*` generators of sudoku.js). */
module Grid {

  /** A game: 81 cell symbols in row-major order. Position `i` is column
      `i % 9` of row `i / 9`. */
  type Board = b: seq<char> | |b| == 81 witness seq(81, i => '.')

  /** The nine digit symbols in ascending order. */
  const Digits: seq<char> := "123456789"

  /** A cell is filled iff its symbol is one of the nine digits; any other
      symbol (such as '.' or '0') marks it empty. */
  predicate IsDigit(c: char) {
    '1' <= c <= '9'
  }

  /** The digit symbols are exactly the characters `'1'` to `'9'`, listed once each
      in ascending order. */
  lemma DigitsAreDigits()
    ensures forall c :: c in Digits <==> IsDigit(c)
    ensures forall i, j :: 0 <= i < j < |Digits| ==> Digits[i] < Digits[j]
  {
    forall c | IsDigit(c) ensures c in Digits {
      assert Digits[(c as int) - ('1' as int)] == c;
    }
  }

  /** Row `r`: the nine cells at positions `9r .. 9r+8`. */
  function Row(b: Board, r: nat): (u: seq<char>)
    requires r < 9
    ensures |u| == 9
    ensures forall j :: 0 <= j < 9 ==> u[j] == b[9 * r + j]
  {
    b[9 * r .. 9 * r + 9]
  }

  /** Column `c`: the cell at column `c` of each row, top to bottom. */
  function Col(b: Board, c: nat): (u: seq<char>)
    requires c < 9
    ensures |u| == 9
  {
    seq(9, k requires 0 <= k < 9 => b[9 * k + c])
  }

  /** The band (0, 1 or 2) of a row or column index, and its offset in the band. */
  lemma Thirds(x: nat)
    requires x < 9
    ensures x / 3 <= 2 && x % 3 <= 2 && x == 3 * (x / 3) + x % 3
  {
  }

  /** Band `a` and offset `c` can be read back from `3 * a + c`. */
  lemma BandAndOffset(a: nat, c: nat)
    requires a <= 2 && c <= 2
    ensures (3 * a + c) / 3 == a && (3 * a + c) % 3 == c
    ensures (3 * a) / 3 == a && (3 * c) / 3 == c
  {
  }

  /** Position of the `k`-th cell (reading order) of the square that holds column `x`, row `y`. */
  function SquareCell(x: nat, y: nat, k: nat): (p: nat)
    requires x < 9 && y < 9 && k < 9
    ensures p < 81
    ensures p / 9 == 3 * (y / 3) + k / 3 && p % 9 == 3 * (x / 3) + k % 3
  {
    Thirds(x);
    Thirds(y);
    Thirds(k);
    9 * (3 * (y / 3) + k / 3) + 3 * (x / 3) + k % 3
  }

  /** The 3x3 square holding column `x`, row `y`: three 3-cell slices starting at
      column `3 * (x / 3)`, taken from rows `3 * (y / 3)` to `3 * (y / 3) + 2`. */
  function Square(b: Board, x: nat, y: nat): (u: seq<char>)
    requires x < 9 && y < 9
    ensures |u| == 9
    ensures forall k :: 0 <= k < 9 ==> u[k] == b[SquareCell(x, y, k)]
  {
    Thirds(x);
    Thirds(y);
    var sx := 3 * (x / 3);
    var sy := 3 * (y / 3);
    ThreeSlices(b, x, y, sx, sy);
    b[9 * sy + sx .. 9 * sy + sx + 3]
    + b[9 * (sy + 1) + sx .. 9 * (sy + 1) + sx + 3]
    + b[9 * (sy + 2) + sx .. 9 * (sy + 2) + sx + 3]
  }

  /** Three stacked 3-cell slices read the square cell by cell. */
  lemma ThreeSlices(b: Board, x: nat, y: nat, sx: nat, sy: nat)
    requires x < 9 && y < 9 && sx == 3 * (x / 3) && sy == 3 * (y / 3) && sx <= 6 && sy <= 6
    ensures forall k :: 0 <= k < 9 ==>
      (b[9 * sy + sx .. 9 * sy + sx + 3]
       + b[9 * (sy + 1) + sx .. 9 * (sy + 1) + sx + 3]
       + b[9 * (sy + 2) + sx .. 9 * (sy + 2) + sx + 3])[k] == b[SquareCell(x, y, k)]
  {
    var u := b[9 * sy + sx .. 9 * sy + sx + 3]
       + b[9 * (sy + 1) + sx .. 9 * (sy + 1) + sx + 3]
       + b[9 * (sy + 2) + sx .. 9 * (sy + 2) + sx + 3];
    forall k | 0 <= k < 9 ensures u[k] == b[SquareCell(x, y, k)] {
      var row, col := k / 3, k % 3;
      assert k == 3 * row + col && row <= 2;
      assert SquareCell(x, y, k) == 9 * (sy + row) + sx + col;
    }
  }

  /** The `k`-th square as `iter_squares` produces it: the one at column
      `3 * (k % 3)`, row `3 * (k / 3)`. */
  function NthSquare(b: Board, k: nat): (u: seq<char>)
    requires k < 9
    ensures |u| == 9
  {
    Square(b, 3 * (k % 3), 3 * (k / 3))
  }

  /** A square depends only on `(x / 3, y / 3)`: it is square number `3 * (y / 3) + x / 3`. */
  lemma SquareIsNthSquare(b: Board, x: nat, y: nat)
    requires x < 9 && y < 9
    ensures Square(b, x, y) == NthSquare(b, 3 * (y / 3) + x / 3)
  {
    Thirds(x);
    Thirds(y);
    var k := 3 * (y / 3) + x / 3;
    BandAndOffset(y / 3, x / 3);
    SameBandsSameSquare(b, x, y, 3 * (k % 3), 3 * (k / 3));
    assert NthSquare(b, k) == Square(b, 3 * (k % 3), 3 * (k / 3));
  }

  /** Cells whose columns lie in the same band and whose rows lie in the same
      band share their square. */
  lemma SameBandsSameSquare(b: Board, x: nat, y: nat, x': nat, y': nat)
    requires x < 9 && y < 9 && x' < 9 && y' < 9
    requires x / 3 == x' / 3 && y / 3 == y' / 3
    ensures Square(b, x, y) == Square(b, x', y')
  {
    var u, v := Square(b, x, y), Square(b, x', y');
    forall j | 0 <= j < 9 ensures u[j] == v[j] {
      assert SquareCell(x, y, j) == SquareCell(x', y', j);
    }
  }

  /** Cell `p` is entry `p % 9` of its row, entry `p / 9` of its column and
      entry `3 * (y % 3) + x % 3` of its square, where `x, y = p % 9, p / 9`. */
  lemma CellInItsUnits(b: Board, p: nat)
    requires p < 81
    ensures Row(b, p / 9)[p % 9] == b[p]
    ensures Col(b, p % 9)[p / 9] == b[p]
    ensures SquareCell(p % 9, p / 9, 3 * ((p / 9) % 3) + (p % 9) % 3) == p
  {
    var x, y := p % 9, p / 9;
    var k := 3 * (y % 3) + x % 3;
    assert k / 3 == y % 3 && k % 3 == x % 3;
    assert 3 * (y / 3) + y % 3 == y;
    assert 3 * (x / 3) + x % 3 == x;
  }

  /** `iter_rows`: rows 0 to 8 in order. */
  method IterRows(b: Board) returns (rows: seq<seq<char>>)
    ensures |rows| == 9
    ensures forall r :: 0 <= r < 9 ==> rows[r] == Row(b, r)
  {
    rows := [];
    for row := 0 to 9
      invariant |rows| == row
      invariant forall r :: 0 <= r < row ==> rows[r] == Row(b, r)
    {
      rows := rows + [Row(b, row)];
    }
  }

  /** `iter_cols`: columns 0 to 8 in order. */
  method IterCols(b: Board) returns (cols: seq<seq<char>>)
    ensures |cols| == 9
    ensures forall c, k :: 0 <= c < 9 && 0 <= k < 9 ==> |cols[c]| == 9 && cols[c][k] == b[9 * k + c]
  {
    cols := [];
    for col := 0 to 9
      invariant |cols| == col
      invariant forall c :: 0 <= c < col ==> cols[c] == Col(b, c)
    {
      cols := cols + [Col(b, col)];
    }
  }

  /** `iter_squares`: the nine squares in reading order, square `k` being the
      one whose top-left cell is column `3 * (k % 3)`, row `3 * (k / 3)`. */
  method IterSquares(b: Board) returns (squares: seq<seq<char>>)
    ensures |squares| == 9
    ensures forall k :: 0 <= k < 9 ==> squares[k] == NthSquare(b, k)
  {
    squares := [];
    for square := 0 to 9
      invariant |squares| == square
      invariant forall k :: 0 <= k < square ==> squares[k] == NthSquare(b, k)
    {
      var y := (square / 3) * 3;
      var x := (square % 3) * 3;
      assert x == 3 * (square % 3) && y == 3 * (square / 3);
      squares := squares + [Square(b, x, y)];
    }
  }
}
