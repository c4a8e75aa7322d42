# Lights Out board — a Dafny model

This project models the game logic of a React "Lights Out" component
(`src/Board.js`). The game is played on an `nrows` × `ncols` board of lit and
unlit cells. The board is created once, with each cell lit by a random draw.
A click on a cell flips that cell and its four orthogonal neighbours; flips
that would fall off the board are skipped. The player wins when no cell is
lit. Rendered cells carry the key `"r-c"`, and a click parses it back into a
row and a column.

The model is functional. A board is an immutable `seq<seq<bool>>` (`true` is
lit), and the size props are a `Dims(nrows, ncols)` value. Every operation is
a pure function, or a method that mirrors the source's loops.

- `boards.dfy` (module `Boards`): the board type, the shape invariant, the
  bounds test, board construction and the win predicate.
- `flip.dfy` (module `Flip`): `flipCell`, `flipCellsAround`, the click handler
  that parses a key first, and the lemmas about one or two clicks.
- `coords.dfy` (module `Coords`): the decimal rendering of indices, the
  `"r-c"` key, `split('-')`, `Number` on decimal numerals, and the key
  round trip.
- `clicks.dfy` (module `Clicks`): sequences of clicks, their exclusive-or
  composition, and concrete scenarios on the default 3 × 3 board.

The random draw `Math.random() < chanceLightStartsOn` is an injected oracle
`lit(r, c)`: the outcome of the draw made for cell (r, c).

The bounds test at src/Board.js:60 compares against the size props, not against the
board's own length. The model therefore asks that the board have the prop
shape (`Shaped(b, d)`) before a flip. `createBoard` establishes this, and
every flip preserves it.

The code rejects no size. A zero size gives an empty board, which counts as
won, since `[].every(...)` is true. `Dims` holds naturals, which narrows the
props: in JavaScript they are numbers. A negative or NaN prop behaves like
0, and a fractional prop behaves like its ceiling, both in the loop tests at
src/Board.js:37 and src/Board.js:39 and in the bounds test at
src/Board.js:60. An infinite prop is the exception: the loops at
src/Board.js:37 and src/Board.js:39 then never end, so `createBoard` never
returns, which the model cannot express.

## Model

| member | source | states |
|---|---|---|
| Boards.InBounds | src/Board.js:60 | the bounds test: the coordinate has 0 <= x < `ncols` and 0 <= y < `nrows` |
| Boards.InBoundsIsCell | src/Board.js:60-61 | on a board of the prop shape, the bounds test passes exactly for the cells that exist, so the assignment only touches existing cells |
| Boards.InitialBoard | src/Board.js:34-45 | the board built from the per-cell draws has `nrows` rows of `ncols` cells, and cell (r, c) is the draw for (r, c) |
| Boards.CreateBoard | src/Board.js:34-45 | the nested push loops build a board of exactly `nrows` rows of `ncols` cells; each cell is its own draw; the result equals the closed form `InitialBoard` |
| Boards.RowDark | src/Board.js:50 | `r.every((c) => !c)` holds exactly when no cell of the row is lit |
| Boards.HasWon | src/Board.js:47-51 | the win test holds exactly when no cell of any row is lit, rows of any length included |
| Boards.DarkBoardWins | src/Board.js:50 | an all-unlit board is a win |
| Boards.LightingOneCellLoses | src/Board.js:50 | lighting any single cell of any board makes the win test false |
| Boards.InitialBoardWonIff | src/Board.js:37-50 | a freshly built board is already won exactly when every draw came out unlit |
| Flip.FlipCell | src/Board.js:57-63 | the flip keeps the board's shape and negates cell (y, x) and nothing else; the board changes if and only if (y, x) passes the bounds test, so an off-board coordinate is a no-op |
| Flip.FlipCellsAround | src/Board.js:57-81 | the five flips keep the board's shape; a cell is negated exactly when it is within one orthogonal step of the centre, and every other cell keeps its value |
| Flip.ToggleTwiceRestores | src/Board.js:57-81 | clicking the same coordinate twice gives back the original board |
| Flip.TogglesCommute | src/Board.js:57-81 | two clicks give the same board in either order |
| Flip.PlusIsNeighbourhood | src/Board.js:70-78 | the five coordinates handed to flipCell are exactly the cells within one orthogonal step of the centre |
| Flip.ChangedIsOnBoardPlus | src/Board.js:60-78 | the cells a click changes are exactly those of its five coordinates that pass the bounds test |
| Flip.InteriorFlipsFive | src/Board.js:60-78 | on a board of at least 3 × 3, a click off every edge changes exactly 5 cells |
| Flip.CornerFlipsThree | src/Board.js:60-78 | on a board of at least 2 × 2, a click on any of the four corners changes exactly 3 cells |
| Flip.OffBoardClickIsNoOp | src/Board.js:60-78 | a click whose five coordinates are all off the board leaves it unchanged |
| Flip.Click | src/Board.js:53-83 | parsing the key and flipping around it keeps the board's shape |
| Flip.ClickRenderedCell | src/Board.js:53-83 | clicking the key rendered for cell (r, c) flips around exactly (r, c) |
| Flip.KeyWithoutSeparatorIgnored | src/Board.js:55-78 | a key with no `-` leaves the column undefined (NaN), every bounds test fails, and the board is unchanged |
| Flip.NonNumericRowIgnored | src/Board.js:55-78 | a key whose row part starts with a letter makes the row NaN (or Infinity for "Infinity"), every bounds test fails, and the board is unchanged |
| Coords.NatToString | src/Board.js:95 | an index renders as a canonical decimal numeral (digits only, no leading zero) whose value is the index |
| Coords.CanonicalRoundTrip | src/Board.js:95 | reading a canonical numeral and rendering its value gives the numeral back |
| Coords.Split | src/Board.js:55 | `split('-')` yields at least one part, no part contains the separator, and joining the parts with `-` gives the input back |
| Coords.SplitJoin | src/Board.js:55 | splitting a join of separator-free parts gives exactly those parts |
| Coords.ToNumber | src/Board.js:55 | `Number` on a key part: finite exactly for strings of decimal digits; the empty string reads as 0; a rendered index reads as itself |
| Coords.LeadingZeroIgnored | src/Board.js:55 | leading zeros do not change what `Number` reads |
| Coords.FormatKey | src/Board.js:95 | the key `${rowIdx}-${colIdx}` splits on `-` into exactly the two rendered indices |
| Coords.ParseKey | src/Board.js:55 | a key with no `-` reads as `Number` of the whole key and a NaN column, since `x` is then undefined; a key `a-c` with `-`-free `a` and `c` reads as `Number(a)`, `Number(c)`; a key `a-c-e` reads the same, whatever `e` holds |
| Coords.ParseIgnoresExtraParts | src/Board.js:55 | parts after the second are ignored by the destructuring: appending `-` and anything to a key with two parts does not change the parse |
| Coords.SplitKeyParts | src/Board.js:55 | for a key `a-c` or `a-c-e` with `-`-free `a` and `c`, `split('-')` yields at least two parts, the first `a` and the second `c` |
| Coords.SplitAfterPlainPrefix | src/Board.js:55 | when `a` holds no `-`, splitting `a-b` gives `a` followed by the parts of `b` |
| Coords.SplitAppend | src/Board.js:55 | splitting `a-b` on `-` gives the parts of `a` followed by the parts of `b` |
| Coords.KeyRoundTrip | src/Board.js:55 | parsing the key `"r-c"` with `split('-')` and `Number` yields exactly row r and column c |
| Coords.KeysDistinct | src/Board.js:94-95 | different cells get different keys |
| Clicks.ApplyClicks | src/Board.js:54-82 | a sequence of clicks, each applied to the previous result, keeps the board's shape |
| Clicks.ApplyClicksParity | src/Board.js:54-82 | after a sequence of clicks, a cell is negated exactly when an odd number of the clicks reach it |
| Clicks.ClickOrderIrrelevant | src/Board.js:54-82 | any reordering of the same multiset of clicks gives the same board |
| Clicks.ClickingEverythingTwiceRestores | src/Board.js:54-82 | making a sequence of clicks and then the same sequence again restores the board |
| Clicks.CentreClickOnDarkBoard | src/Board.js:70-78 | on the unlit 3 × 3 board, clicking (1, 1) lights exactly the plus shape, and the result is not a win |
| Clicks.CornerClickOnDarkBoard | src/Board.js:70-78 | on the unlit 3 × 3 board, clicking (0, 0) lights exactly (0, 0), (0, 1) and (1, 0) |

## Left out

- React state and rendering are not modelled: `useState`, the `setBoard` updater plumbing, the "Winner Winner!" early return, the table of `Cell` components, `Cell` itself and `Board.css`. These are presentation only; a sequence of clicks is modelled as successive updater calls.
- `Math.random()` and the floating-point comparison with `chanceLightStartsOn` are replaced by the injected oracle `lit(r, c)`. The source has no deterministic random stream to model, and claims about the distribution of lit cells are out of scope.
- The size props are fixed in the model. In the component, a later change of `nrows` or `ncols` would leave the first board in state. A flip could then index past the end of the board, or extend a row. The model requires the board to match the props instead.
- Flip.Click: a key part that `Number` reads as a number but that is not a plain string of digits is treated as NaN, so the click is a no-op. The source instead flips around row 1 for a row part of "+1", " 1", "1.0", "1e0" or "0x1", and throws a TypeError at src/Board.js:61 for "1.5". Rendered keys never take these forms.
- Coords.ToNumber: `Number` is modelled only on strings of decimal digits; the empty string reads as 0. Every other string reads as NaN, including those `Number` would accept: surrounding whitespace, a sign, a fraction, an exponent, hexadecimal, octal or binary prefixes, and `Infinity`. Keys produced at src/Board.js:95 never contain these forms.
- Coords.ParseKey: reads each part with Coords.ToNumber, so it carries the same narrowing of `Number`.
- JavaScript numbers are 64-bit floats: numerals beyond 2^53 lose precision under `Number`, which the model's unbounded naturals do not reproduce. Board indices never come near that size.
- Boards.CreateBoard: an infinite `nrows` or `ncols` makes the loops at src/Board.js:37 and src/Board.js:39 run without end; `Dims` holds naturals, so the model has no such input.
- The in-progress / won game state has no member of its own: it is `HasWon` of the current board.
