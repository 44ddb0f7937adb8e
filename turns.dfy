/** The turn logic: the three pieces of game state, the human's click, the
    computer's reply and the restart, first as functions on a state value and
    then as the class whose fields the event handlers update in place. */
module Turns {
  import opened Board
  import opened Search

  /** The source's board, currentPlayer and gameActive. */
  datatype GameState = GameState(board: seq<Cell>, currentPlayer: Cell, gameActive: bool)

  /** The state at load time and after a restart. */
  const Initial: GameState :=
    GameState([Empty, Empty, Empty, Empty, Empty, Empty, Empty, Empty, Empty], X, true)

  /** aiMove: O goes into the chosen cell (no cell is written when none is
      empty), X is to move, and the game ends on an O win or a full board. */
  ghost function AiStep(st: GameState): (r: GameState)
    requires |st.board| == 9
    ensures |r.board| == 9
  {
    var b := match BestMove(st.board)
             case Some(m) => st.board[m := O]
             case None => st.board;
    var active := if Wins(b, O) then false
                  else if Empty !in b then false
                  else st.gameActive;
    GameState(b, X, active)
  }

  /** handleCellClick on cell `index`: ignored when the game is over or the
      cell is taken; otherwise the mover's mark is written and either the game
      ends or the turn passes, and when it passes to O the computer replies. */
  ghost function HumanStep(st: GameState, index: int): (r: GameState)
    requires |st.board| == 9 && 0 <= index < 9
    ensures |r.board| == 9
  {
    if !st.gameActive || st.board[index] != Empty then st
    else
      var p := st.currentPlayer;
      var b := st.board[index := p];
      if Wins(b, p) then GameState(b, p, false)
      else if Empty !in b then GameState(b, p, false)
      else
        var next := if p == X then O else X;
        var passed := GameState(b, next, st.gameActive);
        if next == O then AiStep(passed) else passed
  }

  /** The state after a sequence of clicks since the last restart. */
  ghost function Play(clicks: seq<int>): (r: GameState)
    requires forall k :: 0 <= k < |clicks| ==> 0 <= clicks[k] < 9
    ensures |r.board| == 9
    decreases |clicks|
  {
    if clicks == [] then Initial
    else HumanStep(Play(clicks[..|clicks| - 1]), clicks[|clicks| - 1])
  }

  /** What every state of a game keeps: the mover holds a mark, at most one
      mark has a line, and while the game is on nobody has won and a cell is
      still empty. */
  ghost predicate Playable(st: GameState)
  {
    |st.board| == 9 && st.currentPlayer != Empty &&
    !(Wins(st.board, X) && Wins(st.board, O)) &&
    (st.gameActive ==> !Wins(st.board, X) && !Wins(st.board, O) && Empty in st.board)
  }

  /** The human always has X when a click arrives, X moved first, and the
      marks are level while the game is on. */
  ghost predicate Balanced(st: GameState)
    requires |st.board| == 9
  {
    st.currentPlayer == X &&
    (Count(st.board, X) == Count(st.board, O) || Count(st.board, X) == Count(st.board, O) + 1) &&
    (st.gameActive ==> Count(st.board, X) == Count(st.board, O))
  }

  // Facts about the turn logic.

  /** A click on a finished game or on a taken cell changes nothing. */
  lemma RejectedClickChangesNothing(st: GameState, index: int)
    requires |st.board| == 9 && 0 <= index < 9
    requires !st.gameActive || st.board[index] != Empty
    ensures HumanStep(st, index) == st
  {
  }

  /** An accepted click writes the mover's mark into exactly that cell; the
      game then ends if the mover has a line or the board is full, and
      otherwise the turn passes to the other mark, the computer replying
      when that mark is O. */
  lemma AcceptedClickOutcome(st: GameState, index: int)
    requires |st.board| == 9 && 0 <= index < 9
    requires st.gameActive && st.board[index] == Empty
    ensures var p := st.currentPlayer;
            var b := st.board[index := p];
            var r := HumanStep(st, index);
            ((Wins(b, p) || Empty !in b) ==> r == GameState(b, p, false)) &&
            (!Wins(b, p) && Empty in b && p == X ==> r == AiStep(GameState(b, O, true))) &&
            (!Wins(b, p) && Empty in b && p != X ==> r == GameState(b, X, true))
  {
  }

  /** aiMove on a board with an empty cell writes O into an empty cell, the
      lowest one of maximal probe score, changes no other cell, gives the
      turn to X, and ends the game exactly when O has a line or the board is
      full. */
  lemma AiStepPlaysBestCell(st: GameState)
    requires |st.board| == 9 && Empty in st.board
    ensures var r := AiStep(st);
            exists m :: 0 <= m < 9 && st.board[m] == Empty && r.board == st.board[m := O] &&
              (forall j :: 0 <= j < 9 && st.board[j] == Empty ==> ProbeScore(st.board, j) <= ProbeScore(st.board, m)) &&
              (forall j :: 0 <= j < m && st.board[j] == Empty ==> ProbeScore(st.board, j) < ProbeScore(st.board, m))
    ensures AiStep(st).currentPlayer == X
    ensures AiStep(st).gameActive <==> st.gameActive && !Wins(AiStep(st).board, O) && Empty in AiStep(st).board
  {
    BestMoveIsFirstMaximum(st.board);
    var m := BestMove(st.board).value;
    assert AiStep(st).board == st.board[m := O];
  }

  /** A fresh game, X to move on an empty board, is playable and balanced. */
  lemma FreshGameIsPlayableAndBalanced(st: GameState)
    requires |st.board| == 9 && st.currentPlayer == X
    requires forall i :: 0 <= i < 9 ==> st.board[i] == Empty
    ensures Playable(st) && Balanced(st)
  {
    assert X !in st.board && O !in st.board && st.board[0] == Empty;
    AbsentMarkHasNoLine(st.board, X);
    AbsentMarkHasNoLine(st.board, O);
    CountZeroIff(st.board, X);
    CountZeroIff(st.board, O);
  }

  /** The computer's reply on a game still on keeps it playable: O's mark
      gives X no line. */
  lemma AiStepKeepsPlayable(st: GameState)
    requires Playable(st) && st.gameActive
    ensures Playable(AiStep(st))
  {
    BestMoveIsFirstMaximum(st.board);
    var m := BestMove(st.board).value;
    PlacingOtherMarkKeepsNoWin(st.board, m, O, X);
  }

  /** A click keeps a game playable: in particular, no board of a game ever
      shows a line for both marks. */
  lemma HumanStepKeepsPlayable(st: GameState, index: int)
    requires Playable(st) && 0 <= index < 9
    ensures Playable(HumanStep(st, index))
  {
    if st.gameActive && st.board[index] == Empty {
      var p := st.currentPlayer;
      var q := if p == X then O else X;
      var b := st.board[index := p];
      PlacingOtherMarkKeepsNoWin(st.board, index, p, q);
      if !Wins(b, p) && Empty in b && q == O {
        BestMoveIsFirstMaximum(b);
        var m := BestMove(b).value;
        PlacingOtherMarkKeepsNoWin(b, m, O, X);
      }
    }
  }

  /** A click keeps the mark counts level: X's count is O's or one more. */
  lemma HumanStepKeepsBalanced(st: GameState, index: int)
    requires Playable(st) && Balanced(st) && 0 <= index < 9
    ensures Balanced(HumanStep(st, index))
  {
    if st.gameActive && st.board[index] == Empty {
      var b := st.board[index := X];
      CountUpdate(st.board, index, X, X);
      CountUpdate(st.board, index, X, O);
      if !Wins(b, X) && Empty in b {
        BestMoveIsFirstMaximum(b);
        var m := BestMove(b).value;
        CountUpdate(b, m, O, X);
        CountUpdate(b, m, O, O);
      }
    }
  }

  /** Every state reachable by clicks from a fresh game is playable and
      balanced: never two winners, and X's count is O's or one more. */
  lemma {:induction false} PlayIsPlayableAndBalanced(clicks: seq<int>)
    requires forall k :: 0 <= k < |clicks| ==> 0 <= clicks[k] < 9
    ensures Playable(Play(clicks)) && Balanced(Play(clicks))
    decreases |clicks|
  {
    if clicks == [] {
      FreshGameIsPlayableAndBalanced(Initial);
    } else {
      var prefix := clicks[..|clicks| - 1];
      PlayIsPlayableAndBalanced(prefix);
      HumanStepKeepsPlayable(Play(prefix), clicks[|clicks| - 1]);
      HumanStepKeepsBalanced(Play(prefix), clicks[|clicks| - 1]);
    }
  }

  /** The page's game: the three globals as fields, updated in place. */
  class Game {
    var board: array<Cell>
    var currentPlayer: Cell
    var gameActive: bool

    /** The fields hold a 9-cell board and a playable state. */
    ghost predicate Valid()
      reads this, board
    {
      board.Length == 9 && Playable(State())
    }

    ghost function State(): GameState
      reads this, board
    {
      GameState(board[..], currentPlayer, gameActive)
    }

    /** The globals' initial values. */
    constructor ()
      ensures Valid() && Balanced(State()) && fresh(board)
      ensures State() == Initial
    {
      board := new Cell[9](_ => Empty);
      currentPlayer := X;
      gameActive := true;
      new;
      assert board[..] == Initial.board;
      FreshGameIsPlayableAndBalanced(State());
    }

    /** The restart handler: a fresh empty board, X to move, game on. */
    method Restart()
      modifies this
      ensures Valid() && Balanced(State()) && fresh(board)
      ensures State() == Initial
    {
      board := new Cell[9](_ => Empty);
      currentPlayer := X;
      gameActive := true;
      assert board[..] == Initial.board;
      FreshGameIsPlayableAndBalanced(State());
    }

    /** aiMove: the root search chooses a cell, O is written there, X is to
        move and the board is judged. */
    method AiMove()
      requires Valid() && gameActive
      modifies this, board
      ensures Valid() && board == old(board)
      ensures State() == AiStep(old(State()))
    {
      AiStepKeepsPlayable(State());
      var move := ChooseMove(board);
      if move.Some? {
        board[move.value] := O;
      }
      currentPlayer := X;
      if Wins(board[..], O) {
        gameActive := false;
      } else if Empty !in board[..] {
        gameActive := false;
      }
    }

    /** handleCellClick for the cell numbered `index`. */
    method HandleMove(index: int)
      requires Valid() && 0 <= index < 9
      modifies this, board
      ensures Valid() && board == old(board)
      ensures State() == HumanStep(old(State()), index)
      ensures old(Balanced(State())) ==> Balanced(State())
    {
      ghost var st := State();
      // The source's early returns, as one conditional.
      if gameActive && board[index] == Empty {
        board[index] := currentPlayer;
        if Wins(board[..], currentPlayer) {
          gameActive := false;
        } else if Empty !in board[..] {
          gameActive := false;
        } else {
          currentPlayer := if currentPlayer == X then O else X;
          if currentPlayer == O {
            PlacingOtherMarkKeepsNoWin(st.board, index, X, O);
            AiMove();
          }
        }
      }
      assert State() == HumanStep(st, index);
      HumanStepKeepsPlayable(st, index);
      if Balanced(st) {
        HumanStepKeepsBalanced(st, index);
      }
    }
  }
}
