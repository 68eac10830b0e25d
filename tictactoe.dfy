/**
 * The tic-tac-toe program: the global 3x3 board `board[3][3]` and the global
 * `difficulty`, updated in place by the reset, the player and computer moves,
 * the minimax search and the two game loops.  Console output is left out;
 * keyboard input is a parameter (a stream of coordinates).
 */
module TicTacToe {
  import opened Common
  import opened TicTacToeRules

  /** How a game loop ended. */
  datatype Outcome =
    | Finished(winner: char)   // `printwinner(winner)`: X, O, or blank for a draw
    | InputExhausted           // the coordinate stream ran out before the game ended

  class Game {
    const board: array2<char>
    var difficulty: int

    ghost predicate Valid()
    {
      board.Length0 == 3 && board.Length1 == 3
    }

    /** The board read row by row. */
    ghost function Cells(): (b: Board)
      requires Valid()
      reads board
      ensures forall i, j :: 0 <= i < 3 && 0 <= j < 3 ==> b[3 * i + j] == board[i, j]
    {
      [board[0, 0], board[0, 1], board[0, 2],
       board[1, 0], board[1, 1], board[1, 2],
       board[2, 0], board[2, 1], board[2, 2]]
    }

    /** The program's globals before `main` runs: a zeroed board, difficulty 1. */
    constructor ()
      ensures Valid() && fresh(board) && difficulty == 1
    {
      board := new char[3, 3]((_, _) => '\0');
      difficulty := 1;
    }

    /** `resetboard`: blank all nine cells. */
    method ResetBoard()
      requires Valid()
      modifies board
      ensures Cells() == EmptyBoard()
    {
      for i := 0 to 3
        invariant forall p, q :: 0 <= p < i && 0 <= q < 3 ==> board[p, q] == Blank
      {
        for j := 0 to 3
          invariant forall p, q :: 0 <= p < i && 0 <= q < 3 ==> board[p, q] == Blank
          invariant forall q :: 0 <= q < j ==> board[i, q] == Blank
        {
          board[i, j] := Blank;
        }
      }
    }

    /** `checkfreespaces`: nine minus the number of marked cells. */
    method CheckFreeSpaces() returns (freespaces: int)
      requires Valid()
      ensures freespaces == BlankCount(Cells())
    {
      ghost var b := Cells();
      freespaces := 9;
      for i := 0 to 3
        invariant freespaces == 9 - (3 * i - BlankCount(b[..3 * i]))
      {
        for j := 0 to 3
          invariant freespaces == 9 - (3 * i + j - BlankCount(b[..3 * i + j]))
        {
          assert b[..3 * i + j + 1][..3 * i + j] == b[..3 * i + j];
          if board[i, j] != Blank {
            freespaces := freespaces - 1;
          }
        }
      }
      assert b[..9] == b;
    }

    /** `isMovesLeft`: is some cell still blank? */
    method IsMovesLeft() returns (left: bool)
      requires Valid()
      ensures left <==> HasBlank(Cells())
    {
      for i := 0 to 3
        invariant forall p, q :: 0 <= p < i && 0 <= q < 3 ==> board[p, q] != Blank
      {
        for j := 0 to 3
          invariant forall p, q :: 0 <= p < i && 0 <= q < 3 ==> board[p, q] != Blank
          invariant forall q :: 0 <= q < j ==> board[i, q] != Blank
        {
          if board[i, j] == Blank {
            return true;
          }
        }
      }
      assert forall k :: 0 <= k < 9 ==> Cells()[k] == board[k / 3, k % 3];
      return false;
    }

    /** `checkwinner`: rows, then columns, then the two diagonals. */
    method CheckWinner() returns (winner: char)
      requires Valid()
      ensures winner == Winner(Cells())
    {
      ghost var b := Cells();
      for i := 0 to 3
        invariant Winner(b) == WinnerFrom(b, i)
      {
        if board[i, 0] == board[i, 1] && board[i, 0] == board[i, 2] && board[i, 0] != Blank {
          return board[i, 0];
        }
      }
      for i := 0 to 3
        invariant Winner(b) == WinnerFrom(b, 3 + i)
      {
        if board[0, i] == board[1, i] && board[0, i] == board[2, i] && board[0, i] != Blank {
          return board[0, i];
        }
      }
      if board[0, 0] == board[1, 1] && board[0, 0] == board[2, 2] && board[0, 0] != Blank {
        return board[0, 0];
      }
      if board[0, 2] == board[1, 1] && board[0, 2] == board[2, 0] && board[0, 2] != Blank {
        return board[0, 2];
      }
      return Blank;
    }

    /** `board[i][j] = c`, seen on the row-major board. */
    method SetCell(i: nat, j: nat, c: char)
      requires Valid() && i < 3 && j < 3
      modifies board
      ensures Cells() == old(Cells())[3 * i + j := c]
    {
      board[i, j] := c;
    }

    /**
     * One attempt of `playerMove`: 1-based row and column, accepted only when
     * both are within 1..3 and the cell is blank; an accepted move writes that
     * one cell and nothing else.
     */
    method PlayerMove(player: char, row: int, col: int) returns (accepted: bool)
      requires Valid()
      modifies board
      ensures accepted <==> 1 <= row <= 3 && 1 <= col <= 3 && old(Cells())[3 * (row - 1) + (col - 1)] == Blank
      ensures accepted ==> Cells() == old(Cells())[3 * (row - 1) + (col - 1) := player]
      ensures !accepted ==> Cells() == old(Cells())
    {
      var x, y := row - 1, col - 1;
      if x < 0 || x >= 3 || y < 0 || y >= 3 || board[x, y] != Blank {
        accepted := false;
      } else {
        board[x, y] := player;
        accepted := true;
      }
    }

    /**
     * `minimax`: tries every blank cell with the mover's mark, recurses, and
     * undoes the trial; the board ends exactly as it started.
     */
    method Minimax(depth: int, isMaximizing: bool) returns (bestScore: int)
      requires Valid()
      modifies board
      ensures Cells() == old(Cells())
      ensures bestScore == Score(old(Cells()), depth, isMaximizing)
      decreases BlankCount(Cells()), 1
    {
      var result := CheckWinner();
      if result == Player2 {
        return 10 - depth;
      } else if result == Player1 {
        return depth - 10;
      }
      var movesLeft := IsMovesLeft();
      if !movesLeft {
        return 0;
      }
      ghost var b := Cells();
      var mark := if isMaximizing then Player2 else Player1;
      bestScore := InitialBest(isMaximizing);
      for i := 0 to 3
        invariant Cells() == b
        invariant Score(b, depth, isMaximizing) == BestFrom(b, depth, isMaximizing, 3 * i, bestScore)
      {
        for j := 0 to 3
          invariant Cells() == b
          invariant Score(b, depth, isMaximizing) == BestFrom(b, depth, isMaximizing, 3 * i + j, bestScore)
        {
          if board[i, j] == Blank {
            var score := MinimaxTrial(i, j, mark, depth, isMaximizing);
            bestScore := if isMaximizing then Max(bestScore, score) else Min(bestScore, score);
          }
        }
      }
    }

    /** One trial of `minimax`: the mover's mark on a blank cell, scored one level deeper, then undone. */
    method MinimaxTrial(i: nat, j: nat, mark: char, depth: int, isMaximizing: bool) returns (score: int)
      requires Valid() && i < 3 && j < 3 && Cells()[3 * i + j] == Blank && mark != Blank
      modifies board
      ensures Cells() == old(Cells())
      ensures score == Score(old(Cells())[3 * i + j := mark], depth + 1, !isMaximizing)
      decreases BlankCount(Cells()), 0
    {
      ghost var b := Cells();
      SetCell(i, j, mark);
      BlankCountFill(b, 3 * i + j, mark);
      score := Minimax(depth + 1, !isMaximizing);
      SetCell(i, j, Blank);
      assert b[3 * i + j := mark][3 * i + j := Blank] == b;
    }

    /** One trial of `computerMoveHard`: O on a blank cell, scored by `minimax`, then undone. */
    method TrialScore(i: nat, j: nat) returns (score: int)
      requires Valid() && i < 3 && j < 3 && Cells()[3 * i + j] == Blank
      modifies board
      ensures Cells() == old(Cells())
      ensures score == MoveScore(old(Cells()), 3 * i + j)
    {
      ghost var b := Cells();
      SetCell(i, j, Player2);
      score := Minimax(0, false);
      SetCell(i, j, Blank);
      assert b[3 * i + j := Player2][3 * i + j := Blank] == b;
    }

    /** One trial of `computerMoveMedium`: O on a blank cell is kept only when it wins. */
    method TryWin(i: nat, j: nat) returns (won: bool)
      requires Valid() && i < 3 && j < 3 && Cells()[3 * i + j] == Blank
      modifies board
      ensures won <==> Winner(old(Cells())[3 * i + j := Player2]) == Player2
      ensures won ==> Cells() == old(Cells())[3 * i + j := Player2]
      ensures !won ==> Cells() == old(Cells())
    {
      ghost var b := Cells();
      SetCell(i, j, Player2);
      var winner := CheckWinner();
      won := winner == Player2;
      if !won {
        SetCell(i, j, Blank);
        assert b[3 * i + j := Player2][3 * i + j := Blank] == b;
      }
    }

    /**
     * `computerMoveHard`: score every blank cell with `minimax` (undoing each
     * trial), then mark the first cell with the strictly best score.
     */
    method ComputerMoveHard()
      requires Valid()
      modifies board
      ensures HardChoice(old(Cells())).None? ==> Cells() == old(Cells())
      ensures HardChoice(old(Cells())).Some? ==>
                Cells() == old(Cells())[HardChoice(old(Cells())).value := Player2]
    {
      ghost var b := Cells();
      var bestScore := -1000;
      var moveX, moveY := -1, -1;
      for i := 0 to 3
        invariant Cells() == b
        invariant -1 <= moveX < 3 && -1 <= moveY < 3 && (moveX == -1 <==> moveY == -1)
        invariant HardChoice(b) == HardFrom(b, 3 * i, bestScore, Chosen(moveX, moveY))
      {
        for j := 0 to 3
          invariant Cells() == b
          invariant -1 <= moveX < 3 && -1 <= moveY < 3 && (moveX == -1 <==> moveY == -1)
          invariant HardChoice(b) == HardFrom(b, 3 * i + j, bestScore, Chosen(moveX, moveY))
        {
          if board[i, j] == Blank {
            var score := TrialScore(i, j);
            if score > bestScore {
              bestScore := score;
              moveX, moveY := i, j;
            }
          }
        }
      }
      assert HardChoice(b) == Chosen(moveX, moveY);
      if moveX != -1 && moveY != -1 {
        SetCell(moveX, moveY, Player2);
      }
    }

    /** The cell the coordinates (moveX, moveY) denote; -1 means none yet. */
    static function Chosen(moveX: int, moveY: int): Option<nat>
    {
      if 0 <= moveX && 0 <= moveY then Some(3 * moveX + moveY) else None
    }

    /**
     * The easy move: when `checkfreespaces() > 0`, mark with O a blank cell
     * that the `rand()` retry loop lands on (any blank cell may be chosen).
     */
    method ComputerMoveEasy() returns (ghost cell: Option<nat>)
      requires Valid()
      modifies board
      ensures cell.None? ==> !HasBlank(old(Cells())) && Cells() == old(Cells())
      ensures cell.Some? ==>
                cell.value < 9 && old(Cells())[cell.value] == Blank && Cells() == old(Cells())[cell.value := Player2]
    {
      var free := CheckFreeSpaces();
      HasBlankIffFree(Cells());
      if free > 0 {
        ghost var k :| 0 <= k < 9 && Cells()[k] == Blank;
        assert board[k / 3, k % 3] == Blank;
        var x, y :| 0 <= x < 3 && 0 <= y < 3 && board[x, y] == Blank;
        board[x, y] := Player2;
        cell := Some(3 * x + y);
      } else {
        cell := None;
      }
    }

    /**
     * `computerMoveMedium`, corrected: keep the first O (row-major) that makes
     * `checkwinner` report O, restoring every other trial cell; without one,
     * fall back to the easy move instead of re-entering `computerMove()`.
     */
    method ComputerMoveMedium() returns (ghost cell: Option<nat>)
      requires Valid()
      modifies board
      ensures WinningMove(old(Cells())).Some? ==>
                cell == WinningMove(old(Cells())) && Cells() == old(Cells())[cell.value := Player2]
      ensures WinningMove(old(Cells())).None? ==>
                (cell.None? ==> !HasBlank(old(Cells())) && Cells() == old(Cells())) &&
                (cell.Some? ==> cell.value < 9 && old(Cells())[cell.value] == Blank &&
                                Cells() == old(Cells())[cell.value := Player2])
    {
      ghost var b := Cells();
      for i := 0 to 3
        invariant Cells() == b
        invariant WinningMove(b) == WinningFrom(b, 3 * i)
      {
        for j := 0 to 3
          invariant Cells() == b
          invariant WinningMove(b) == WinningFrom(b, 3 * i + j)
        {
          if board[i, j] == Blank {
            var won := TryWin(i, j);
            if won {
              return Some(3 * i + j);
            }
          }
        }
      }
      cell := ComputerMoveEasy();
    }

    /**
     * `computerMove`: dispatch on `difficulty` (1 easy, 2 medium, 3 hard; any
     * other value makes no move).  With difficulty 1..3 and a blank cell,
     * exactly one blank cell receives an O.
     */
    method ComputerMove() returns (ghost cell: Option<nat>)
      requires Valid()
      modifies board
      ensures cell.None? ==> Cells() == old(Cells())
      ensures cell.Some? ==>
                cell.value < 9 && old(Cells())[cell.value] == Blank && Cells() == old(Cells())[cell.value := Player2]
      ensures 1 <= difficulty <= 3 && HasBlank(old(Cells())) ==> cell.Some?
      ensures StrategyFollowed(difficulty, old(Cells()), cell)
    {
      ghost var b := Cells();
      if difficulty == 1 {
        cell := ComputerMoveEasy();
      } else if difficulty == 2 {
        cell := ComputerMoveMedium();
      } else if difficulty == 3 {
        ComputerMoveHard();
        HardChoiceSpec(b);
        cell := HardChoice(b);
      } else {
        cell := None;
      }
    }

    /**
     * The retry loop of `playerMove` over a stream of (row, column) entries:
     * rejected entries are skipped; the first accepted one is played.  When
     * the stream runs out, nothing is played.
     */
    method PlayerTurn(player: char, input: seq<(int, int)>, pos: nat) returns (next: nat, cell: Option<nat>)
      requires Valid() && pos <= |input|
      modifies board
      ensures pos <= next <= |input|
      ensures cell.None? <==> FirstAccepted(old(Cells()), input, pos).None?
      ensures cell.None? ==> next == |input| && Cells() == old(Cells())
      ensures cell.Some? ==> FirstAccepted(old(Cells()), input, pos) == Some((next, cell.value))
      ensures cell.Some? ==>
                cell.value < 9 && old(Cells())[cell.value] == Blank && Cells() == old(Cells())[cell.value := player]
    {
      next := pos;
      cell := None;
      while next < |input|
        invariant pos <= next <= |input|
        invariant Cells() == old(Cells())
        invariant FirstAccepted(old(Cells()), input, pos) == FirstAccepted(old(Cells()), input, next)
        decreases |input| - next
      {
        var (row, col) := input[next];
        next := next + 1;
        var accepted := PlayerMove(player, row, col);
        if accepted {
          cell := Some(3 * (row - 1) + (col - 1));
          return;
        }
      }
    }

    /**
     * One `playerMove` of a game loop followed by `checkwinner` and
     * `checkfreespaces`: the accepted cell extends the game history.  When
     * the input runs out, nothing is played.
     */
    method HumanTurn(player: char, input: seq<(int, int)>, pos: nat, ghost moves: seq<nat>)
      returns (next: nat, played: bool, winner: char, free: int, ghost moves': seq<nat>, ghost cell: nat)
      requires Valid() && pos <= |input| && player == MarkOf(|moves|)
      requires LegalGame(moves) && Cells() == Replay(moves) && Winner(Cells()) == Blank
      modifies board
      ensures pos <= next <= |input|
      ensures played <==> FirstAccepted(old(Cells()), input, pos).Some?
      ensures played ==> FirstAccepted(old(Cells()), input, pos) == Some((next, cell))
      ensures !played ==> next == |input| && moves' == moves && Cells() == old(Cells())
      ensures played ==> moves' == moves + [cell] && free == old(BlankCount(Cells())) - 1
      ensures played ==> winner == Winner(Cells()) && free == BlankCount(Cells())
      ensures LegalGame(moves') && Cells() == Replay(moves')
    {
      var placed;
      next, placed := PlayerTurn(player, input, pos);
      moves', cell := moves, 0;
      played := placed.Some?;
      winner, free := Blank, 0;
      if played {
        cell := placed.value;
        BlankCountFill(Replay(moves), cell, player);
        LegalGameExtend(moves, cell);
        moves' := moves + [cell];
        winner := CheckWinner();
        free := CheckFreeSpaces();
      }
    }

    /**
     * One pass of the `playGamePvP` loop: X moves, then, unless that ended the
     * game, O.  The game still to be played from here is the same one.
     */
    method HumanRound(input: seq<(int, int)>, pos: nat, ghost moves: seq<nat>)
      returns (next: nat, played: bool, winner: char, free: int, ghost moves': seq<nat>)
      requires Valid() && pos <= |input| && |moves| % 2 == 0
      requires LegalGame(moves) && Cells() == Replay(moves)
      requires Winner(Cells()) == Blank && BlankCount(Cells()) != 0
      modifies board
      ensures pos <= next <= |input|
      ensures PvPPlay(input, pos, moves) == if played then PvPPlay(input, next, moves') else (moves', true)
      ensures LegalGame(moves') && Cells() == Replay(moves')
      ensures played ==> winner == Winner(Cells()) && free == BlankCount(Cells())
      ensures played ==> free < old(BlankCount(Cells()))
      ensures played && winner == Blank && free != 0 ==> |moves'| % 2 == 0
    {
      ghost var cell;
      TurnAfterX(|moves|);
      PvPPlayStep(input, pos, moves);
      next, played, winner, free, moves', cell := HumanTurn(Player1, input, pos, moves);
      if played && winner == Blank && free != 0 {
        ghost var half := moves';
        assert |half| == |moves| + 1 && Winner(Replay(half)) == Blank && BlankCount(Replay(half)) != 0;
        PvPPlayStep(input, next, half);
        next, played, winner, free, moves', cell := HumanTurn(Player2, input, next, half);
        assert played ==> |moves'| == |moves| + 2;
      }
    }

    /**
     * `playGamePvP`: reset, then X and O alternate, X first; the loop stops as
     * soon as `checkwinner` reports a mark or no cell is free.  The game is
     * the one the input plays.
     */
    method PlayGamePvP(input: seq<(int, int)>) returns (outcome: Outcome, ghost moves: seq<nat>)
      requires Valid()
      modifies board
      ensures PvPPlay(input, 0, []) == (moves, outcome.InputExhausted?)
      ensures LegalGame(moves) && Cells() == Replay(moves)
      ensures outcome.Finished? ==>
                outcome.winner == Winner(Cells()) && (outcome.winner != Blank || !HasBlank(Cells()))
    {
      var winner := Blank;
      ResetBoard();
      EmptyBoardFree();
      moves := [];
      var pos := 0;
      var free := CheckFreeSpaces();
      while winner == Blank && free != 0
        invariant pos <= |input|
        invariant LegalGame(moves) && Cells() == Replay(moves)
        invariant PvPPlay(input, 0, []) == PvPPlay(input, pos, moves)
        invariant winner == Winner(Cells()) && free == BlankCount(Cells())
        invariant winner == Blank && free != 0 ==> |moves| % 2 == 0
        decreases free
      {
        var played;
        pos, played, winner, free, moves := HumanRound(input, pos, moves);
        if !played {
          return InputExhausted, moves;
        }
      }
      HasBlankIffFree(Cells());
      outcome := Finished(winner);
    }

    /**
     * The `computerMove()` step of `playGamePvC` followed by `checkwinner` and
     * `checkfreespaces`, seen on the game history.
     */
    method ComputerTurn(ghost input: seq<(int, int)>, ghost moves: seq<nat>)
      returns (winner: char, free: int, ghost moves': seq<nat>, ghost cell: nat)
      requires Valid() && 1 <= difficulty <= 3 && |moves| % 2 == 1
      requires LegalGame(moves) && Cells() == Replay(moves) && ComputerPlayed(difficulty, moves)
      requires Winner(Cells()) == Blank && BlankCount(Cells()) != 0 && Consumed(input, moves).Some?
      modifies board
      ensures LegalGame(moves') && Cells() == Replay(moves') && ComputerPlayed(difficulty, moves')
      ensures Consumed(input, moves') == Consumed(input, moves)
      ensures moves' == moves + [cell] && free == old(BlankCount(Cells())) - 1
      ensures winner == Winner(Cells()) && free == BlankCount(Cells())
    {
      HasBlankIffFree(Cells());
      ghost var before := Cells();
      ghost var placed := ComputerMove();
      BlankCountFill(before, placed.value, Player2);
      LegalGameExtend(moves, placed.value);
      ComputerPlayedExtend(difficulty, moves, placed.value);
      cell := placed.value;
      moves' := moves + [cell];
      ConsumedExtend(input, moves, cell);
      winner := CheckWinner();
      free := CheckFreeSpaces();
    }

    /**
     * One pass of the `playGamePvC` loop: the player's move, then, unless it
     * ended the game, the computer's.  The player's move is the first entry
     * from pos on that `playerMove` accepts.
     */
    method ComputerRound(input: seq<(int, int)>, pos: nat, ghost moves: seq<nat>)
      returns (next: nat, played: bool, winner: char, free: int, ghost moves': seq<nat>)
      requires Valid() && 1 <= difficulty <= 3 && pos <= |input| && |moves| % 2 == 0
      requires LegalGame(moves) && Cells() == Replay(moves) && ComputerPlayed(difficulty, moves)
      requires Winner(Cells()) == Blank && Consumed(input, moves) == Some(pos)
      modifies board
      ensures pos <= next <= |input|
      ensures played ==> Consumed(input, moves') == Some(next)
      ensures !played ==> moves' == moves && FirstAccepted(Cells(), input, pos).None?
      ensures LegalGame(moves') && Cells() == Replay(moves') && ComputerPlayed(difficulty, moves')
      ensures played ==> winner == Winner(Cells()) && free == BlankCount(Cells())
      ensures played ==> free < old(BlankCount(Cells()))
      ensures played && winner == Blank && free != 0 ==> |moves'| % 2 == 0
    {
      ghost var cell;
      TurnAfterX(|moves|);
      next, played, winner, free, moves', cell := HumanTurn(Player1, input, pos, moves);
      if played {
        ComputerPlayedExtend(difficulty, moves, cell);
        ConsumedExtend(input, moves, cell);
        if winner == Blank && free != 0 {
          ghost var reply;
          winner, free, moves', reply := ComputerTurn(input, moves');
        }
      }
    }

    /**
     * `playGamePvC`: an out-of-range difficulty becomes 1; then X (the
     * player) and O (the computer) alternate, X first, until a winner or a
     * full board.  Every X move is the input's next accepted entry; every O
     * move follows the chosen strategy.
     */
    method PlayGamePvC(choice: int, input: seq<(int, int)>) returns (outcome: Outcome, ghost moves: seq<nat>)
      requires Valid()
      modifies this, board
      ensures difficulty == if 1 <= choice <= 3 then choice else 1
      ensures LegalGame(moves) && Cells() == Replay(moves)
      ensures ComputerPlayed(difficulty, moves) && Consumed(input, moves).Some?
      ensures outcome.InputExhausted? ==>
                && |moves| % 2 == 0 && Winner(Cells()) == Blank && HasBlank(Cells())
                && FirstAccepted(Cells(), input, Consumed(input, moves).value).None?
      ensures outcome.Finished? ==>
                outcome.winner == Winner(Cells()) && (outcome.winner != Blank || !HasBlank(Cells()))
    {
      difficulty := choice;
      if difficulty < 1 || difficulty > 3 {
        difficulty := 1;
      }
      var winner := Blank;
      ResetBoard();
      EmptyBoardFree();
      moves := [];
      var pos := 0;
      var free := CheckFreeSpaces();
      while winner == Blank && free != 0
        invariant 1 <= difficulty <= 3 && difficulty == if 1 <= choice <= 3 then choice else 1
        invariant pos <= |input|
        invariant LegalGame(moves) && Cells() == Replay(moves) && ComputerPlayed(difficulty, moves)
        invariant Consumed(input, moves) == Some(pos)
        invariant winner == Winner(Cells()) && free == BlankCount(Cells())
        invariant winner == Blank && free != 0 ==> |moves| % 2 == 0
        decreases free
      {
        var played;
        pos, played, winner, free, moves := ComputerRound(input, pos, moves);
        if !played {
          HasBlankIffFree(Cells());
          return InputExhausted, moves;
        }
      }
      HasBlankIffFree(Cells());
      outcome := Finished(winner);
    }
  }

  /**
   * What `computerMove` promises at difficulty d about the cell it marked on
   * board b: at 3 the minimax choice; at 2 the first winning cell when one exists.
   */
  ghost predicate StrategyFollowed(d: int, b: Board, cell: Option<nat>)
  {
    && (d == 3 ==> cell == HardChoice(b))
    && (d == 2 && WinningMove(b).Some? ==> cell == WinningMove(b))
  }

  ghost predicate ComputerMoveOk(d: int, moves: seq<nat>, t: nat)
    requires t < |moves|
  {
    t % 2 == 1 ==> StrategyFollowed(d, Replay(moves[..t]), Some(moves[t]))
  }

  /** Every O move of the game (the odd-numbered ones) followed the strategy of difficulty d. */
  ghost predicate ComputerPlayed(d: int, moves: seq<nat>)
  {
    forall t :: 0 <= t < |moves| ==> ComputerMoveOk(d, moves, t)
  }

  lemma ComputerMoveKept(d: int, moves: seq<nat>, c: nat, t: nat)
    requires t < |moves| && ComputerMoveOk(d, moves, t)
    ensures ComputerMoveOk(d, moves + [c], t)
  {
    assert (moves + [c])[..t] == moves[..t];
    assert (moves + [c])[t] == moves[t];
  }

  lemma ComputerPlayedExtend(d: int, moves: seq<nat>, c: nat)
    requires ComputerPlayed(d, moves)
    requires |moves| % 2 == 1 ==> StrategyFollowed(d, Replay(moves), Some(c))
    ensures ComputerPlayed(d, moves + [c])
  {
    var m := moves + [c];
    assert m[..|moves|] == moves;
    forall t | 0 <= t < |m|
      ensures ComputerMoveOk(d, m, t)
    {
      if t < |moves| {
        ComputerMoveKept(d, moves, c, t);
      }
    }
  }
}
