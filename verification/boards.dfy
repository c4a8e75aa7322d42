/** The Lights Out board of src/Board.js: an array of rows of lit/unlit
    cells, built once from the component's size props and tested for a win
    after every click. */
module Boards {

  /** Rows top to bottom, each a row of cells left to right; `true` is lit. */
  type Board = seq<seq<bool>>

  /** The component's size props `nrows` and `ncols` (src/Board.js:30). */
  datatype Dims = Dims(nrows: nat, ncols: nat)

  /** The prop defaults: a 3 by 3 board. */
  const DefaultDims := Dims(3, 3)

  /** `b` has exactly `d.nrows` rows of exactly `d.ncols` cells each. */
  predicate Shaped(b: Board, d: Dims) {
    |b| == d.nrows && forall r :: 0 <= r < |b| ==> |b[r]| == d.ncols
  }

  /** The bounds test every flip goes through (src/Board.js:60): the
      coordinate lies on a board of the given size. */
  predicate InBounds(d: Dims, y: int, x: int) {
    0 <= x < d.ncols && 0 <= y < d.nrows
  }

  /** On a board of the prop shape, the bounds test passes exactly for the
      cells that exist, so the assignment at src/Board.js:61 only ever
      reaches an existing cell and every existing cell can be reached. */
  lemma InBoundsIsCell(b: Board, d: Dims, y: int, x: int)
    requires Shaped(b, d)
    ensures InBounds(d, y, x) <==> 0 <= y < |b| && 0 <= x < |b[y]|
  {
  }

  /** The board whose cell (r, c) is `lit(r, c)`: the closed form of what
      createBoard builds. */
  function InitialBoard(d: Dims, lit: (nat, nat) -> bool): (b: Board)
    ensures Shaped(b, d)
    ensures forall r, c :: 0 <= r < d.nrows && 0 <= c < d.ncols ==> b[r][c] == lit(r, c)
  {
    seq(d.nrows, (r: int) requires 0 <= r => seq(d.ncols, (c: int) requires 0 <= c => lit(r, c)))
  }

  /** createBoard (src/Board.js:34-45): row by row, and within a row cell by
      cell, push the draw for that cell. `lit(r, c)` stands for the outcome of
      `Math.random() < chanceLightStartsOn` at cell (r, c). */
  method CreateBoard(d: Dims, lit: (nat, nat) -> bool) returns (board: Board)
    ensures Shaped(board, d)
    ensures forall r, c :: 0 <= r < d.nrows && 0 <= c < d.ncols ==> board[r][c] == lit(r, c)
    ensures board == InitialBoard(d, lit)
  {
    board := [];
    var r: nat := 0;
    while r < d.nrows
      invariant r <= d.nrows
      invariant |board| == r
      invariant forall i :: 0 <= i < r ==> |board[i]| == d.ncols
      invariant forall i, j :: 0 <= i < r && 0 <= j < d.ncols ==> board[i][j] == lit(i, j)
    {
      var rowArray: seq<bool> := [];
      var c: nat := 0;
      while c < d.ncols
        invariant c <= d.ncols
        invariant |rowArray| == c
        invariant forall j :: 0 <= j < c ==> rowArray[j] == lit(r, j)
      {
        rowArray := rowArray + [lit(r, c)];
        c := c + 1;
      }
      board := board + [rowArray];
      r := r + 1;
    }
    SameCellsSameBoard(board, InitialBoard(d, lit), d);
  }

  /** Two boards of the same shape that agree on every cell are equal. */
  lemma SameCellsSameBoard(a: Board, b: Board, d: Dims)
    requires Shaped(a, d) && Shaped(b, d)
    requires forall r, c :: 0 <= r < d.nrows && 0 <= c < d.ncols ==> a[r][c] == b[r][c]
    ensures a == b
  {
    forall r | 0 <= r < d.nrows
      ensures a[r] == b[r]
    {
      assert forall c :: 0 <= c < d.ncols ==> a[r][c] == b[r][c];
    }
  }

  /** `r.every((c) => !c)`: no cell of the row is lit. */
  function RowDark(row: seq<bool>): (dark: bool)
    ensures dark <==> forall c :: 0 <= c < |row| ==> !row[c]
  {
    if |row| == 0 then true
    else
      assert forall c :: 1 <= c < |row| ==> row[c] == row[1..][c - 1];
      !row[0] && RowDark(row[1..])
  }

  /** hasWon (src/Board.js:47-51): `board.every((r) => r.every((c) => !c))`,
      true exactly when no cell of any row is lit. */
  function HasWon(b: Board): (won: bool)
    ensures won <==> forall r, c :: 0 <= r < |b| && 0 <= c < |b[r]| ==> !b[r][c]
  {
    if |b| == 0 then true
    else
      assert forall r :: 1 <= r < |b| ==> b[r] == b[1..][r - 1];
      RowDark(b[0]) && HasWon(b[1..])
  }

  /** The board with every cell unlit. */
  function DarkBoard(d: Dims): (b: Board)
    ensures Shaped(b, d)
  {
    InitialBoard(d, (r, c) => false)
  }

  /** An all-unlit board is a win. */
  lemma DarkBoardWins(d: Dims)
    ensures HasWon(DarkBoard(d))
  {
  }

  /** Lighting any single cell of a board, won or not, leaves it not won. */
  lemma LightingOneCellLoses(b: Board, r: nat, c: nat)
    requires r < |b| && c < |b[r]|
    ensures !HasWon(b[r := b[r][c := true]])
  {
    var b' := b[r := b[r][c := true]];
    assert b'[r][c];
  }

  /** A fresh board is already won exactly when every draw came out unlit. */
  lemma InitialBoardWonIff(d: Dims, lit: (nat, nat) -> bool)
    ensures HasWon(InitialBoard(d, lit)) <==>
            forall r, c :: 0 <= r < d.nrows && 0 <= c < d.ncols ==> !lit(r, c)
  {
  }
}
