/** The toggle rule of src/Board.js:53-83: a click flips the chosen cell and
    its four orthogonal neighbours, each through the same bounds test, on a
    copy of the board. The model's boards are values, so the copy made at
    src/Board.js:66 is implicit and the caller's board is never changed. */
module Flip {
  import opened Boards
  import opened Coords

  function Abs(n: int): (m: nat)
    ensures m == n || m == -n
  {
    if n < 0 then -n else n
  }

  /** flipCell (src/Board.js:57-63): negate cell (y, x) when it passes the
      bounds test, otherwise leave the board alone. */
  function FlipCell(b: Board, d: Dims, y: int, x: int): (b': Board)
    requires Shaped(b, d)
    ensures Shaped(b', d)
    ensures forall r, c :: 0 <= r < d.nrows && 0 <= c < d.ncols ==>
              b'[r][c] == (if r == y && c == x then !b[r][c] else b[r][c])
    ensures b' == b <==> !InBounds(d, y, x)
  {
    if InBounds(d, y, x) then
      var b' := b[y := b[y][x := !b[y][x]]];
      assert b'[y][x] != b[y][x];
      b'
    else b
  }

  /** Cell (r, c) is within one orthogonal step of (y, x): the cell itself or
      one of its four neighbours, never a diagonal one. */
  predicate Affected(y: int, x: int, r: int, c: int) {
    Abs(r - y) + Abs(c - x) <= 1
  }

  /** flipCellsAround (src/Board.js:53-83), after the key has been parsed:
      flip the centre, then the cells at rows y - 1 and y + 1 and columns
      x - 1 and x + 1, in that order. Off-board coordinates, the centre's
      included, are skipped. */
  function FlipCellsAround(b: Board, d: Dims, y: int, x: int): (b': Board)
    requires Shaped(b, d)
    ensures Shaped(b', d)
    ensures forall r, c :: 0 <= r < d.nrows && 0 <= c < d.ncols ==>
              b'[r][c] == (b[r][c] != Affected(y, x, r, c))
  {
    var centre := FlipCell(b, d, y, x);
    var rowBefore := FlipCell(centre, d, y - 1, x);
    var rowAfter := FlipCell(rowBefore, d, y + 1, x);
    var colBefore := FlipCell(rowAfter, d, y, x - 1);
    FlipCell(colBefore, d, y, x + 1)
  }

  /** Clicking the same cell twice restores the board cell for cell. */
  lemma ToggleTwiceRestores(b: Board, d: Dims, y: int, x: int)
    requires Shaped(b, d)
    ensures FlipCellsAround(FlipCellsAround(b, d, y, x), d, y, x) == b
  {
    SameCellsSameBoard(FlipCellsAround(FlipCellsAround(b, d, y, x), d, y, x), b, d);
  }

  /** The order of two clicks does not matter. */
  lemma TogglesCommute(b: Board, d: Dims, y1: int, x1: int, y2: int, x2: int)
    requires Shaped(b, d)
    ensures FlipCellsAround(FlipCellsAround(b, d, y1, x1), d, y2, x2)
         == FlipCellsAround(FlipCellsAround(b, d, y2, x2), d, y1, x1)
  {
    SameCellsSameBoard(FlipCellsAround(FlipCellsAround(b, d, y1, x1), d, y2, x2),
                       FlipCellsAround(FlipCellsAround(b, d, y2, x2), d, y1, x1), d);
  }

  /** The five coordinates handed to flipCell (src/Board.js:70-78). */
  function Plus(y: int, x: int): (ps: set<(int, int)>)
    ensures |ps| == 5
  {
    var ps := {(y, x), (y - 1, x), (y + 1, x), (y, x - 1), (y, x + 1)};
    assert |{(y, x), (y - 1, x), (y + 1, x), (y, x - 1)}| == 4;
    ps
  }

  /** The five coordinates are exactly the cells within one orthogonal step
      of the centre. */
  lemma PlusIsNeighbourhood(y: int, x: int, r: int, c: int)
    ensures (r, c) in Plus(y, x) <==> Affected(y, x, r, c)
  {
  }

  /** The cells at which two boards of the same shape differ. */
  function Changed(a: Board, b: Board, d: Dims): (cells: set<(int, int)>)
    requires Shaped(a, d) && Shaped(b, d)
    ensures forall p :: p in cells ==> InBounds(d, p.0, p.1)
  {
    set r, c | 0 <= r < d.nrows && 0 <= c < d.ncols && a[r][c] != b[r][c] :: (r, c)
  }

  /** A click changes exactly those of the five coordinates that are on the
      board, and nothing else. */
  lemma ChangedIsOnBoardPlus(b: Board, d: Dims, y: int, x: int)
    requires Shaped(b, d)
    ensures Changed(b, FlipCellsAround(b, d, y, x), d)
         == set p | p in Plus(y, x) && InBounds(d, p.0, p.1)
  {
  }

  /** On a board of at least 3 by 3, a click away from every edge flips
      exactly five cells. */
  lemma InteriorFlipsFive(b: Board, d: Dims, y: int, x: int)
    requires Shaped(b, d)
    requires 1 <= y < d.nrows - 1 && 1 <= x < d.ncols - 1
    ensures |Changed(b, FlipCellsAround(b, d, y, x), d)| == 5
  {
    ChangedIsOnBoardPlus(b, d, y, x);
    var onBoard := set p | p in Plus(y, x) && InBounds(d, p.0, p.1);
    assert onBoard == Plus(y, x);
  }

  /** On a board of at least 2 by 2, a click on a corner flips exactly three
      cells: the corner and its two on-board neighbours. */
  lemma CornerFlipsThree(b: Board, d: Dims, y: int, x: int)
    requires Shaped(b, d)
    requires d.nrows >= 2 && d.ncols >= 2
    requires (y == 0 || y == d.nrows - 1) && (x == 0 || x == d.ncols - 1)
    ensures |Changed(b, FlipCellsAround(b, d, y, x), d)| == 3
  {
    ChangedIsOnBoardPlus(b, d, y, x);
    var onBoard := set p | p in Plus(y, x) && InBounds(d, p.0, p.1);
    var y' := if y == 0 then 1 else y - 1;
    var x' := if x == 0 then 1 else x - 1;
    assert onBoard == {(y, x), (y', x), (y, x')};
    assert |{(y, x), (y', x)}| == 2;
  }

  /** A click whose five coordinates all lie off the board changes nothing. */
  lemma OffBoardClickIsNoOp(b: Board, d: Dims, y: int, x: int)
    requires Shaped(b, d)
    requires forall p :: p in Plus(y, x) ==> !InBounds(d, p.0, p.1)
    ensures FlipCellsAround(b, d, y, x) == b
  {
    ChangedIsOnBoardPlus(b, d, y, x);
    var b' := FlipCellsAround(b, d, y, x);
    forall r, c | 0 <= r < d.nrows && 0 <= c < d.ncols
      ensures b'[r][c] == b[r][c]
    {
      assert (r, c) !in Changed(b, b', d);
    }
    SameCellsSameBoard(b', b, d);
  }

  /** The whole click handler: parse the key, then flip around it. A NaN
      coordinate (a part that is not a decimal numeral, or a missing column)
      makes all five bounds tests compare a NaN and fail, because NaN plus or
      minus one is still NaN, so the click leaves the board as it was. */
  function Click(b: Board, d: Dims, key: string): (b': Board)
    requires Shaped(b, d)
    ensures Shaped(b', d)
  {
    var (y, x) := ParseKey(key);
    if y.Finite? && x.Finite? then FlipCellsAround(b, d, y.value, x.value) else b
  }

  /** Clicking the cell rendered at (r, c) flips around (r, c). */
  lemma ClickRenderedCell(b: Board, d: Dims, r: nat, c: nat)
    requires Shaped(b, d)
    ensures Click(b, d, FormatKey(r, c)) == FlipCellsAround(b, d, r, c)
  {
    KeyRoundTrip(r, c);
  }

  /** A key with no '-' leaves the column undefined, so the click changes
      nothing. */
  lemma KeyWithoutSeparatorIgnored(b: Board, d: Dims, key: string)
    requires Shaped(b, d)
    requires '-' !in key
    ensures Click(b, d, key) == b
  {
    assert Split(key, '-') == [key];
  }

  /** A key whose row part starts with a letter makes `y` NaN (or Infinity,
      for a row part of "Infinity"), which fails all five bounds tests, so the
      click changes nothing. */
  lemma NonNumericRowIgnored(b: Board, d: Dims, key: string)
    requires Shaped(b, d)
    requires |Split(key, '-')[0]| >= 1
    requires var ch := Split(key, '-')[0][0]; 'a' <= ch <= 'z' || 'A' <= ch <= 'Z'
    ensures Click(b, d, key) == b
  {
  }
}
