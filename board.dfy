/** The 3x3 board: cell values, the eight winning index triples, the win test
    and the counting facts the search and the turn logic rely on. Cells are
    numbered 0..8 row by row, as in the source's flat array. */
module Board {

  /** A cell holds nothing (the source's "") or one of the two marks. */
  datatype Cell = Empty | X | O

  /** One index triple of the grid. */
  datatype Line = Line(i: nat, j: nat, k: nat)

  /** Rows, then columns, then the two diagonals, in the source's order. */
  const WinConditions: seq<Line> :=
    [ Line(0, 1, 2), Line(3, 4, 5), Line(6, 7, 8),
      Line(0, 3, 6), Line(1, 4, 7), Line(2, 5, 8),
      Line(0, 4, 8), Line(2, 4, 6) ]

  /** All three cells of `l` hold `p`. An index outside the board never
      holds a mark, as reading past a script array yields undefined. */
  predicate LineFilled(b: seq<Cell>, l: Line, p: Cell)
  {
    l.i < |b| && l.j < |b| && l.k < |b| &&
    b[l.i] == p && b[l.j] == p && b[l.k] == p
  }

  /** The scan of the win check: the lines are tried in order and the first
      filled one ends the scan with true. */
  predicate AnyLineFilled(b: seq<Cell>, lines: seq<Line>, p: Cell)
    decreases |lines|
  {
    if lines == [] then false
    else LineFilled(b, lines[0], p) || AnyLineFilled(b, lines[1..], p)
  }

  /** checkWin(p), without the highlighting of the winning cells. */
  predicate Wins(b: seq<Cell>, p: Cell)
  {
    AnyLineFilled(b, WinConditions, p)
  }

  lemma {:induction false} AnyLineFilledIff(b: seq<Cell>, lines: seq<Line>, p: Cell)
    ensures AnyLineFilled(b, lines, p) <==>
            exists k :: 0 <= k < |lines| && LineFilled(b, lines[k], p)
    decreases |lines|
  {
    if lines != [] {
      AnyLineFilledIff(b, lines[1..], p);
      if AnyLineFilled(b, lines[1..], p) {
        var k :| 0 <= k < |lines[1..]| && LineFilled(b, lines[1..][k], p);
        assert LineFilled(b, lines[k + 1], p);
      }
      if exists k :: 0 <= k < |lines| && LineFilled(b, lines[k], p) {
        var k :| 0 <= k < |lines| && LineFilled(b, lines[k], p);
        if k > 0 {
          assert lines[1..][k - 1] == lines[k];
        }
      }
    }
  }

  /** The win check answers true exactly when some winning triple is filled
      by `p`. */
  lemma WinsIffSomeCondition(b: seq<Cell>, p: Cell)
    ensures Wins(b, p) <==>
            exists k :: 0 <= k < |WinConditions| && LineFilled(b, WinConditions[k], p)
  {
    AnyLineFilledIff(b, WinConditions, p);
  }

  // An independent, geometric description of a win on the 3x3 grid.

  function At(b: seq<Cell>, r: int, c: int): Cell
    requires |b| == 9 && 0 <= r < 3 && 0 <= c < 3
  {
    b[3 * r + c]
  }

  predicate RowFilled(b: seq<Cell>, r: int, p: Cell)
    requires |b| == 9 && 0 <= r < 3
  {
    forall c :: 0 <= c < 3 ==> At(b, r, c) == p
  }

  predicate ColumnFilled(b: seq<Cell>, c: int, p: Cell)
    requires |b| == 9 && 0 <= c < 3
  {
    forall r :: 0 <= r < 3 ==> At(b, r, c) == p
  }

  predicate DiagonalFilled(b: seq<Cell>, p: Cell)
    requires |b| == 9
  {
    forall k :: 0 <= k < 3 ==> At(b, k, k) == p
  }

  predicate AntiDiagonalFilled(b: seq<Cell>, p: Cell)
    requires |b| == 9
  {
    forall r, c :: 0 <= r < 3 && 0 <= c < 3 && r + c == 2 ==> At(b, r, c) == p
  }

  predicate GridWin(b: seq<Cell>, p: Cell)
    requires |b| == 9
  {
    (exists r :: 0 <= r < 3 && RowFilled(b, r, p)) ||
    (exists c :: 0 <= c < 3 && ColumnFilled(b, c, p)) ||
    DiagonalFilled(b, p) || AntiDiagonalFilled(b, p)
  }

  lemma ConditionIsGridLine(b: seq<Cell>, k: int, p: Cell)
    requires |b| == 9 && 0 <= k < |WinConditions|
    requires LineFilled(b, WinConditions[k], p)
    ensures GridWin(b, p)
  {
    if k < 3 {
      assert RowFilled(b, k, p);
    } else if k < 6 {
      assert ColumnFilled(b, k - 3, p);
    } else if k == 6 {
      assert DiagonalFilled(b, p);
    } else {
      assert AntiDiagonalFilled(b, p);
    }
  }

  lemma GridLineIsCondition(b: seq<Cell>, p: Cell)
    requires |b| == 9 && GridWin(b, p)
    ensures exists k :: 0 <= k < |WinConditions| && LineFilled(b, WinConditions[k], p)
  {
    if r :| 0 <= r < 3 && RowFilled(b, r, p) {
      assert At(b, r, 0) == p && At(b, r, 1) == p && At(b, r, 2) == p;
      assert LineFilled(b, WinConditions[r], p);
    } else if c :| 0 <= c < 3 && ColumnFilled(b, c, p) {
      assert At(b, 0, c) == p && At(b, 1, c) == p && At(b, 2, c) == p;
      assert LineFilled(b, WinConditions[3 + c], p);
    } else if DiagonalFilled(b, p) {
      assert At(b, 0, 0) == p && At(b, 1, 1) == p && At(b, 2, 2) == p;
      assert LineFilled(b, WinConditions[6], p);
    } else {
      assert At(b, 0, 2) == p && At(b, 1, 1) == p && At(b, 2, 0) == p;
      assert LineFilled(b, WinConditions[7], p);
    }
  }

  /** The eight triples are exactly the three rows, the three columns and
      the two diagonals of the grid. */
  lemma WinsIffGrid(b: seq<Cell>, p: Cell)
    requires |b| == 9
    ensures Wins(b, p) <==> GridWin(b, p)
  {
    WinsIffSomeCondition(b, p);
    if Wins(b, p) {
      var k :| 0 <= k < |WinConditions| && LineFilled(b, WinConditions[k], p);
      ConditionIsGridLine(b, k, p);
    }
    if GridWin(b, p) {
      GridLineIsCondition(b, p);
    }
  }

  /** Writing a mark other than `p` into one cell never gives `p` a win it
      did not already have. */
  lemma PlacingOtherMarkKeepsNoWin(b: seq<Cell>, i: int, v: Cell, p: Cell)
    requires 0 <= i < |b| && v != p
    ensures Wins(b[i := v], p) ==> Wins(b, p)
  {
    WinsIffSomeCondition(b[i := v], p);
    WinsIffSomeCondition(b, p);
    if Wins(b[i := v], p) {
      var k :| 0 <= k < |WinConditions| && LineFilled(b[i := v], WinConditions[k], p);
      assert LineFilled(b, WinConditions[k], p);
    }
  }

  /** A mark on no cell has no line. */
  lemma AbsentMarkHasNoLine(b: seq<Cell>, p: Cell)
    requires p !in b
    ensures !Wins(b, p)
  {
    WinsIffSomeCondition(b, p);
  }

  /** The number of cells holding `c`. */
  function Count(b: seq<Cell>, c: Cell): nat
    decreases |b|
  {
    if b == [] then 0 else (if b[0] == c then 1 else 0) + Count(b[1..], c)
  }

  lemma {:induction false} CountBound(b: seq<Cell>, c: Cell)
    ensures Count(b, c) <= |b|
    decreases |b|
  {
    if b != [] {
      CountBound(b[1..], c);
    }
  }

  /** No cell holds `c` exactly when the count of `c` is zero; so the
      source's `!board.includes("")` is "no empty cell is left". */
  lemma {:induction false} CountZeroIff(b: seq<Cell>, c: Cell)
    ensures Count(b, c) == 0 <==> c !in b
    decreases |b|
  {
    if b != [] {
      CountZeroIff(b[1..], c);
      assert b == [b[0]] + b[1..];
    }
  }

  /** Overwriting one cell moves one unit of count from the old value to
      the new one. */
  lemma {:induction false} CountUpdate(b: seq<Cell>, i: int, v: Cell, c: Cell)
    requires 0 <= i < |b|
    ensures Count(b[i := v], c) ==
            Count(b, c) - (if b[i] == c then 1 else 0) + (if v == c then 1 else 0)
    decreases |b|
  {
    if i > 0 {
      assert b[i := v][1..] == b[1..][i - 1 := v];
      CountUpdate(b[1..], i - 1, v, c);
    }
  }

  /** Placing a mark on an empty cell leaves one empty cell fewer. */
  lemma PlacingUsesEmptyCell(b: seq<Cell>, i: int, v: Cell)
    requires 0 <= i < |b| && b[i] == Empty && v != Empty
    ensures Count(b[i := v], Empty) == Count(b, Empty) - 1
  {
    CountUpdate(b, i, v, Empty);
  }
}
