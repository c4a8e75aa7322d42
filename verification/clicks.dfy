/** Successive clicks on one board: each click's state updater
    (src/Board.js:54-82) receives the board the previous click produced. */
module Clicks {
  import opened Boards
  import opened Flip

  /** The board after the clicks at `moves`, first to last. */
  function ApplyClicks(b: Board, d: Dims, moves: seq<(int, int)>): (b': Board)
    requires Shaped(b, d)
    ensures Shaped(b', d)
    decreases |moves|
  {
    if |moves| == 0 then b
    else ApplyClicks(FlipCellsAround(b, d, moves[0].0, moves[0].1), d, moves[1..])
  }

  /** How many of the clicks reach cell (r, c). */
  function Hits(moves: seq<(int, int)>, r: int, c: int): (n: nat)
    decreases |moves|
  {
    if |moves| == 0 then 0
    else (if Affected(moves[0].0, moves[0].1, r, c) then 1 else 0) + Hits(moves[1..], r, c)
  }

  /** A cell ends up negated exactly when an odd number of the clicks reach
      it: clicks compose as exclusive-or of their plus-shaped masks. */
  lemma {:induction false} ApplyClicksParity(b: Board, d: Dims, moves: seq<(int, int)>, r: int, c: int)
    requires Shaped(b, d)
    requires 0 <= r < d.nrows && 0 <= c < d.ncols
    ensures ApplyClicks(b, d, moves)[r][c] == (b[r][c] != (Hits(moves, r, c) % 2 == 1))
    decreases |moves|
  {
    if |moves| > 0 {
      ApplyClicksParity(FlipCellsAround(b, d, moves[0].0, moves[0].1), d, moves[1..], r, c);
    }
  }

  lemma {:induction false} HitsAppend(a: seq<(int, int)>, b: seq<(int, int)>, r: int, c: int)
    ensures Hits(a + b, r, c) == Hits(a, r, c) + Hits(b, r, c)
    decreases |a|
  {
    if |a| > 0 {
      assert (a + b)[1..] == a[1..] + b;
      HitsAppend(a[1..], b, r, c);
    } else {
      assert a + b == b;
    }
  }

  /** Hits depends only on which clicks were made, not on their order. */
  lemma {:induction false} HitsPermutation(s: seq<(int, int)>, t: seq<(int, int)>, r: int, c: int)
    requires multiset(s) == multiset(t)
    ensures Hits(s, r, c) == Hits(t, r, c)
    decreases |s|
  {
    if |s| == 0 {
      assert |t| == |multiset(t)| == 0;
    } else {
      assert s[0] in multiset(t);
      var i :| 0 <= i < |t| && t[i] == s[0];
      var rest := t[..i] + t[i + 1..];
      assert t == t[..i] + [t[i]] + t[i + 1..];
      assert multiset(s) == multiset([s[0]]) + multiset(s[1..]) by {
        assert s == [s[0]] + s[1..];
      }
      assert multiset(t) == multiset(t[..i]) + multiset([t[i]]) + multiset(t[i + 1..]);
      assert multiset(rest) == multiset(t[..i]) + multiset(t[i + 1..]);
      assert multiset(s[1..]) == multiset(s) - multiset([s[0]]);
      assert multiset(rest) == multiset(t) - multiset([t[i]]);
      HitsPermutation(s[1..], rest, r, c);
      HitsAppend(t[..i] + [t[i]], t[i + 1..], r, c);
      HitsAppend(t[..i], [t[i]], r, c);
      HitsAppend(t[..i], t[i + 1..], r, c);
      assert Hits([t[i]], r, c) == (if Affected(s[0].0, s[0].1, r, c) then 1 else 0);
    }
  }

  /** Any reordering of the same clicks yields the same board. */
  lemma ClickOrderIrrelevant(b: Board, d: Dims, s: seq<(int, int)>, t: seq<(int, int)>)
    requires Shaped(b, d)
    requires multiset(s) == multiset(t)
    ensures ApplyClicks(b, d, s) == ApplyClicks(b, d, t)
  {
    forall r, c | 0 <= r < d.nrows && 0 <= c < d.ncols
      ensures ApplyClicks(b, d, s)[r][c] == ApplyClicks(b, d, t)[r][c]
    {
      ApplyClicksParity(b, d, s, r, c);
      ApplyClicksParity(b, d, t, r, c);
      HitsPermutation(s, t, r, c);
    }
    SameCellsSameBoard(ApplyClicks(b, d, s), ApplyClicks(b, d, t), d);
  }

  /** Clicking the same sequence twice reaches every cell an even number of
      times. */
  lemma RepeatedClicksHitEvenly(moves: seq<(int, int)>, r: int, c: int)
    ensures Hits(moves + moves, r, c) % 2 == 0
  {
    HitsAppend(moves, moves, r, c);
  }

  /** Repeating a whole sequence of clicks undoes it. */
  lemma ClickingEverythingTwiceRestores(b: Board, d: Dims, moves: seq<(int, int)>)
    requires Shaped(b, d)
    ensures ApplyClicks(b, d, moves + moves) == b
  {
    var twice := ApplyClicks(b, d, moves + moves);
    forall r, c | 0 <= r < d.nrows && 0 <= c < d.ncols
      ensures twice[r][c] == b[r][c]
    {
      ApplyClicksParity(b, d, moves + moves, r, c);
      RepeatedClicksHitEvenly(moves, r, c);
    }
    SameCellsSameBoard(twice, b, d);
  }

  /** On the default dark 3 by 3 board, clicking the middle lights the plus. */
  lemma CentreClickOnDarkBoard()
    ensures FlipCellsAround(DarkBoard(DefaultDims), DefaultDims, 1, 1)
         == [[false, true, false], [true, true, true], [false, true, false]]
    ensures !HasWon(FlipCellsAround(DarkBoard(DefaultDims), DefaultDims, 1, 1))
  {
    var b' := FlipCellsAround(DarkBoard(DefaultDims), DefaultDims, 1, 1);
    SameCellsSameBoard(b', [[false, true, false], [true, true, true], [false, true, false]], DefaultDims);
    assert b'[1][1];
  }

  /** On the default dark 3 by 3 board, clicking the top-left corner lights
      exactly that corner and its two neighbours. */
  lemma CornerClickOnDarkBoard()
    ensures FlipCellsAround(DarkBoard(DefaultDims), DefaultDims, 0, 0)
         == [[true, true, false], [true, false, false], [false, false, false]]
  {
    var b' := FlipCellsAround(DarkBoard(DefaultDims), DefaultDims, 0, 0);
    SameCellsSameBoard(b', [[true, true, false], [true, false, false], [false, false, false]], DefaultDims);
  }
}
