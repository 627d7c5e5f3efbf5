/** The game state of the tic-tac-toe game: a board of nine cells in row-major
    order, the eight winning lines, and the two terminal tests (a win for a
    mark, and a full board). */
module Boards {

  /** A cell is empty (" "), holds the human's mark "X" or the computer's mark "O". */
  datatype Cell = Empty | Player | Computer

  /** A position on the board, 0 .. 8. */
  type Pos = i: nat | i < 9

  /** The board always has exactly nine cells. */
  type Board = b: seq<Cell> | |b| == 9
    witness [Empty, Empty, Empty, Empty, Empty, Empty, Empty, Empty, Empty]

  /** The board of a new game. */
  const EmptyBoard: Board := [Empty, Empty, Empty, Empty, Empty, Empty, Empty, Empty, Empty]

  // ---------------------------------------------------------------------------
  // Coordinates

  /** The cell index of the button at (row, col): `row * 3 + col`. It is
      undone by `divmod(index, 3)`, which the computer's move uses to find
      its button again. */
  function CellIndex(row: nat, col: nat): (i: Pos)
    requires row < 3 && col < 3
    ensures i / 3 == row && i % 3 == col
  {
    row * 3 + col
  }

  /** Every index is the cell index of its own `divmod(index, 3)`. */
  lemma CellIndexOfDivMod(i: Pos)
    ensures CellIndex(i / 3, i % 3) == i
  {
  }

  // ---------------------------------------------------------------------------
  // Counting marks

  /** The number of cells of `s` that hold `m`. */
  function Count(s: seq<Cell>, m: Cell): nat
  {
    if |s| == 0 then 0 else Count(s[..|s| - 1], m) + (if s[|s| - 1] == m then 1 else 0)
  }

  /** Counting distributes over concatenation. */
  lemma {:induction false} CountConcat(s: seq<Cell>, t: seq<Cell>, m: Cell)
    ensures Count(s + t, m) == Count(s, m) + Count(t, m)
    decreases |t|
  {
    if |t| == 0 {
      assert s + t == s;
    } else {
      assert (s + t)[..|s + t| - 1] == s + t[..|t| - 1];
      CountConcat(s, t[..|t| - 1], m);
    }
  }

  /** A mark is counted at least once exactly when it occurs. */
  lemma {:induction false} CountPositiveIffPresent(s: seq<Cell>, m: Cell)
    ensures Count(s, m) > 0 <==> m in s
    decreases |s|
  {
    if |s| > 0 {
      CountPositiveIffPresent(s[..|s| - 1], m);
      assert s == s[..|s| - 1] + [s[|s| - 1]];
    }
  }

  /** Writing mark `m` into an empty cell removes one empty cell and adds one `m`. */
  lemma {:induction false} CountAfterPlace(s: seq<Cell>, i: nat, m: Cell)
    requires i < |s| && s[i] == Empty && m != Empty
    ensures Count(s[i := m], Empty) + 1 == Count(s, Empty)
    ensures Count(s[i := m], m) == Count(s, m) + 1
    decreases |s|
  {
    var n := |s| - 1;
    if i == n {
      assert s[i := m][..n] == s[..n];
    } else {
      assert s[i := m][..n] == s[..n][i := m];
      CountAfterPlace(s[..n], i, m);
    }
  }

  /** A sequence that holds `m` everywhere counts `m` once per cell. */
  lemma {:induction false} CountUniform(s: seq<Cell>, m: Cell)
    requires forall i :: 0 <= i < |s| ==> s[i] == m
    ensures Count(s, m) == |s|
    decreases |s|
  {
    if |s| > 0 {
      CountUniform(s[..|s| - 1], m);
    }
  }

  // ---------------------------------------------------------------------------
  // Winning lines

  /** Three cell indices that form a line. */
  datatype Line = Line(a: Pos, b: Pos, c: Pos)

  /** The fixed table of winning lines: three rows, three columns, two diagonals,
      in the order the game checks them. */
  const Lines: seq<Line> := [
    Line(0, 1, 2), Line(3, 4, 5), Line(6, 7, 8),
    Line(0, 3, 6), Line(1, 4, 7), Line(2, 5, 8),
    Line(0, 4, 8), Line(2, 4, 6)
  ]

  /** All three cells of line `l` hold `p`. */
  predicate Owns(b: Board, l: Line, p: Cell)
  {
    b[l.a] == p && b[l.b] == p && b[l.c] == p
  }

  /** The scan of the line table from entry `k` on, stopping at the first line
      that `p` owns. */
  function WinnerFrom(b: Board, p: Cell, k: nat): (r: bool)
    requires k <= |Lines|
    ensures r <==> exists j :: k <= j < |Lines| && Owns(b, Lines[j], p)
    decreases |Lines| - k
  {
    if k == |Lines| then false
    else if Owns(b, Lines[k], p) then true
    else WinnerFrom(b, p, k + 1)
  }

  /** `check_winner(p)`: some line of the table is owned by `p`. */
  function HasWinner(b: Board, p: Cell): bool
  {
    WinnerFrom(b, p, 0)
  }

  /** The cell in row `row` and column `col`. */
  function At(b: Board, row: nat, col: nat): Cell
    requires row < 3 && col < 3
  {
    b[CellIndex(row, col)]
  }

  /** Row `r` (0 .. 2) is filled with `p`. */
  predicate RowFilled(b: Board, r: nat, p: Cell)
    requires r < 3
  {
    forall c :: 0 <= c < 3 ==> At(b, r, c) == p
  }

  /** Column `c` (0 .. 2) is filled with `p`. */
  predicate ColumnFilled(b: Board, c: nat, p: Cell)
    requires c < 3
  {
    forall r :: 0 <= r < 3 ==> At(b, r, c) == p
  }

  /** The diagonal from the top-left corner, cells (t, t), is filled with `p`. */
  predicate MainDiagonalFilled(b: Board, p: Cell)
  {
    forall t :: 0 <= t < 3 ==> At(b, t, t) == p
  }

  /** The diagonal from the top-right corner, cells (0, 2), (1, 1), (2, 0), is filled with `p`. */
  predicate AntiDiagonalFilled(b: Board, p: Cell)
  {
    At(b, 0, 2) == p && At(b, 1, 1) == p && At(b, 2, 0) == p
  }

  /** Three in a row, stated on the grid rather than through the line table. */
  predicate ThreeInARow(b: Board, p: Cell)
  {
    || (exists r :: 0 <= r < 3 && RowFilled(b, r, p))
    || (exists c :: 0 <= c < 3 && ColumnFilled(b, c, p))
    || MainDiagonalFilled(b, p)
    || AntiDiagonalFilled(b, p)
  }

  /** The line table is exactly the rows, columns and diagonals of the grid:
      `check_winner(p)` holds exactly when `p` has three in a row. */
  lemma HasWinnerIffThreeInARow(b: Board, p: Cell)
    ensures HasWinner(b, p) <==> ThreeInARow(b, p)
  {
    if HasWinner(b, p) {
      var j :| 0 <= j < |Lines| && Owns(b, Lines[j], p);
      if j < 3 {
        assert RowFilled(b, j, p);
      } else if j < 6 {
        assert ColumnFilled(b, j - 3, p);
      } else if j == 6 {
        assert MainDiagonalFilled(b, p);
      } else {
        assert AntiDiagonalFilled(b, p);
      }
    }
    if ThreeInARow(b, p) {
      if r :| 0 <= r < 3 && RowFilled(b, r, p) {
        assert At(b, r, 0) == p && At(b, r, 1) == p && At(b, r, 2) == p;
        assert Owns(b, Lines[r], p);
      } else if c :| 0 <= c < 3 && ColumnFilled(b, c, p) {
        assert At(b, 0, c) == p && At(b, 1, c) == p && At(b, 2, c) == p;
        assert Owns(b, Lines[3 + c], p);
      } else if MainDiagonalFilled(b, p) {
        assert At(b, 0, 0) == p && At(b, 1, 1) == p && At(b, 2, 2) == p;
        assert Owns(b, Lines[6], p);
      } else {
        assert Owns(b, Lines[7], p);
      }
    }
  }

  /** A mark that has won has at least three cells on the board. */
  lemma WinNeedsThreeMarks(b: Board, p: Cell)
    requires HasWinner(b, p)
    ensures Count(b, p) >= 3
  {
    var j :| 0 <= j < |Lines| && Owns(b, Lines[j], p);
    var l := Lines[j];
    // every line of the table lists its cells in increasing order
    assert l.a < l.b < l.c;
    var x, y := l.b, l.c;
    assert b[..x] + b[x..y] == b[..y];
    assert b[..y] + b[y..] == b;
    CountConcat(b[..x] + b[x..y], b[y..], p);
    CountConcat(b[..x], b[x..y], p);
    assert b[..x][l.a] == p;
    CountPositiveIffPresent(b[..x], p);
    assert b[x..y][0] == p;
    CountPositiveIffPresent(b[x..y], p);
    assert b[y..][0] == p;
    CountPositiveIffPresent(b[y..], p);
  }

  // ---------------------------------------------------------------------------
  // Draw, terminal boards, reset

  /** `check_draw`: no cell is empty any more. */
  function IsFull(b: Board): (r: bool)
    ensures r <==> forall i :: 0 <= i < 9 ==> b[i] != Empty
    ensures r <==> Count(b, Empty) == 0
  {
    CountPositiveIffPresent(b, Empty);
    Empty !in b
  }

  /** The board ends the game: either mark has a line, or the board is full. */
  predicate IsTerminal(b: Board)
  {
    HasWinner(b, Computer) || HasWinner(b, Player) || IsFull(b)
  }

  /** `reset_game`: the board goes back to nine empty cells, whatever it held. */
  function Reset(b: Board): (r: Board)
    ensures forall i :: 0 <= i < 9 ==> r[i] == Empty
    ensures Count(r, Empty) == 9 && !IsTerminal(r)
  {
    EmptyBoardIsOpen();
    EmptyBoard
  }

  /** The new-game board has nine empty cells and no line for either mark. */
  lemma EmptyBoardIsOpen()
    ensures Count(EmptyBoard, Empty) == 9
    ensures !HasWinner(EmptyBoard, Computer) && !HasWinner(EmptyBoard, Player)
  {
    CountUniform(EmptyBoard, Empty);
  }

  /** Resetting twice is the same as resetting once. */
  lemma ResetIdempotent(b: Board)
    ensures Reset(Reset(b)) == Reset(b)
  {
  }

}
