/**
 * The rules of tic-tac-toe as the C program applies them, stated on values.
 *
 * A board is the 3x3 grid read row by row: cell (i, j) of `board[3][3]` is
 * element 3 * i + j of a `Board`.  Everything here is a pure function over such
 * a sequence; the in-place program in module TicTacToe is proved against it.
 */
module TicTacToeRules {
  import opened Common

  const Blank := ' '
  const Player1 := 'X'
  const Player2 := 'O'

  type Board = b: seq<char> | |b| == 9 witness [' ', ' ', ' ', ' ', ' ', ' ', ' ', ' ', ' ']

  /** The board after `resetboard`: every cell blank. */
  function EmptyBoard(): (b: Board)
  {
    [Blank, Blank, Blank, Blank, Blank, Blank, Blank, Blank, Blank]
  }

  /** Number of blank cells of a (prefix of a) board. */
  function BlankCount(s: seq<char>): (n: nat)
    ensures n <= |s|
  {
    if s == [] then 0
    else BlankCount(s[..|s| - 1]) + (if s[|s| - 1] == Blank then 1 else 0)
  }

  /** `isMovesLeft`: some cell is still blank. */
  predicate HasBlank(b: Board)
  {
    exists k :: 0 <= k < 9 && b[k] == Blank
  }

  lemma {:induction false} BlankCountPositive(s: seq<char>)
    ensures BlankCount(s) > 0 <==> exists k :: 0 <= k < |s| && s[k] == Blank
  {
    if s != [] {
      var n := |s| - 1;
      BlankCountPositive(s[..n]);
      if BlankCount(s[..n]) > 0 {
        var k :| 0 <= k < n && s[..n][k] == Blank;
        assert s[k] == Blank;
      }
      assert forall k :: 0 <= k < n ==> s[..n][k] == s[k];
    }
  }

  /** `checkfreespaces() > 0` and `isMovesLeft` agree. */
  lemma HasBlankIffFree(b: Board)
    ensures HasBlank(b) <==> BlankCount(b) > 0
  {
    BlankCountPositive(b);
  }

  /** Marking a blank cell uses up exactly one free space. */
  lemma {:induction false} BlankCountFill(s: seq<char>, k: nat, c: char)
    requires k < |s| && s[k] == Blank && c != Blank
    ensures BlankCount(s[k := c]) == BlankCount(s) - 1
  {
    var n := |s| - 1;
    if k < n {
      BlankCountFill(s[..n], k, c);
      assert s[k := c][..n] == s[..n][k := c];
    } else {
      assert s[k := c][..n] == s[..n];
    }
  }

  lemma {:induction false} AllBlankCount(s: seq<char>)
    requires forall k :: 0 <= k < |s| ==> s[k] == Blank
    ensures BlankCount(s) == |s|
  {
    if s != [] {
      AllBlankCount(s[..|s| - 1]);
    }
  }

  /** After `resetboard`, `checkfreespaces` reports nine free cells. */
  lemma EmptyBoardFree()
    ensures BlankCount(EmptyBoard()) == 9
    ensures Winner(EmptyBoard()) == Blank
  {
    AllBlankCount(EmptyBoard());
    WinnerSpec(EmptyBoard());
  }

  // ---------------------------------------------------------------- winner

  /**
   * The eight lines in the order `checkwinner` tests them: the three rows,
   * the three columns, the main diagonal, the anti-diagonal.
   */
  function Line(n: nat): (l: (nat, nat, nat))
    requires n < 8
    ensures l.0 < 9 && l.1 < 9 && l.2 < 9
    ensures l.0 != l.1 && l.0 != l.2 && l.1 != l.2
  {
    if n < 3 then (3 * n, 3 * n + 1, 3 * n + 2)
    else if n < 6 then (n - 3, n, n + 3)
    else if n == 6 then (0, 4, 8)
    else (2, 4, 6)
  }

  /** Line n holds three equal non-blank marks. */
  predicate Uniform(b: Board, n: nat)
    requires n < 8
  {
    var l := Line(n);
    b[l.0] == b[l.1] && b[l.0] == b[l.2] && b[l.0] != Blank
  }

  /** The mark of the first uniform line from line n on, or blank. */
  function WinnerFrom(b: Board, n: nat): (w: char)
    requires n <= 8
    ensures w != Blank ==> w in b
    decreases 8 - n
  {
    if n == 8 then Blank
    else if Uniform(b, n) then b[Line(n).0]
    else WinnerFrom(b, n + 1)
  }

  /** `checkwinner`: the mark of the first uniform line, or blank. */
  function Winner(b: Board): (w: char)
  {
    WinnerFrom(b, 0)
  }

  lemma {:induction false} WinnerFromSpec(b: Board, n: nat)
    requires n <= 8
    ensures WinnerFrom(b, n) == Blank <==> forall m :: n <= m < 8 ==> !Uniform(b, m)
    ensures WinnerFrom(b, n) != Blank ==>
              exists m :: n <= m < 8 && Uniform(b, m) && b[Line(m).0] == WinnerFrom(b, n)
    decreases 8 - n
  {
    if n < 8 {
      WinnerFromSpec(b, n + 1);
    }
  }

  /**
   * `checkwinner` reports a mark only when a whole line carries it, and
   * reports blank exactly when no line is uniform.
   */
  lemma WinnerSpec(b: Board)
    ensures Winner(b) == Blank <==> forall n :: 0 <= n < 8 ==> !Uniform(b, n)
    ensures Winner(b) != Blank ==>
              exists n :: 0 <= n < 8 && Uniform(b, n) &&
                var l := Line(n); b[l.0] == Winner(b) && b[l.1] == Winner(b) && b[l.2] == Winner(b)
  {
    WinnerFromSpec(b, 0);
  }

  // --------------------------------------------------------------- minimax

  /** The starting value of `bestScore` in `minimax`. */
  function InitialBest(maximizing: bool): int
  {
    if maximizing then -1000 else 1000
  }

  /** Scores at `depth` stay within [-10, 10] when the game cannot outlast depth 10. */
  predicate InRange(depth: int, b: Board)
  {
    0 <= depth && depth + BlankCount(b) <= 10
  }

  /**
   * The value `minimax(board, depth, isMaximizing)` returns: 10 - depth when O
   * has won, depth - 10 when X has won, 0 on a full board, otherwise the best
   * child score, O maximizing and X minimizing.
   */
  function Score(b: Board, depth: int, maximizing: bool): (r: int)
    ensures InRange(depth, b) ==> -10 <= r <= 10
    decreases BlankCount(b), 1
  {
    var w := Winner(b);
    if w == Player2 then 10 - depth
    else if w == Player1 then depth - 10
    else if !HasBlank(b) then 0
    else BestFrom(b, depth, maximizing, 0, InitialBest(maximizing))
  }

  /**
   * The row-major scan of `minimax` from cell k on, with the running best
   * `best`: each blank cell is tried with the mover's mark and its score folded
   * in with max (O) or min (X).
   */
  function BestFrom(b: Board, depth: int, maximizing: bool, k: nat, best: int): (r: int)
    requires k <= 9
    ensures InRange(depth, b) && (-10 <= best <= 10 || best == InitialBest(maximizing)) ==>
              -10 <= r <= 10 || (r == best && forall j :: k <= j < 9 ==> b[j] != Blank)
    decreases BlankCount(b), 0, 9 - k
  {
    if k == 9 then best
    else if b[k] != Blank then BestFrom(b, depth, maximizing, k + 1, best)
    else
      var mark := if maximizing then Player2 else Player1;
      BlankCountFill(b, k, mark);
      var s := Score(b[k := mark], depth + 1, !maximizing);
      BestFrom(b, depth, maximizing, k + 1, if maximizing then Max(best, s) else Min(best, s))
  }

  // ------------------------------------------------------------ hard move

  /** The score `computerMoveHard` gives to an O on cell k. */
  function MoveScore(b: Board, k: nat): int
    requires k < 9
  {
    Score(b[k := Player2], 0, false)
  }

  function HardFrom(b: Board, k: nat, bestScore: int, move: Option<nat>): (r: Option<nat>)
    requires k <= 9
    ensures (move.None? || move.value < 9) ==> (r.None? || r.value < 9)
    decreases 9 - k
  {
    if k == 9 then move
    else if b[k] == Blank && MoveScore(b, k) > bestScore then HardFrom(b, k + 1, MoveScore(b, k), Some(k))
    else HardFrom(b, k + 1, bestScore, move)
  }

  /**
   * The cell `computerMoveHard` plays: the first blank cell in row-major
   * order whose score beats every earlier one (strict `>`), starting from -1000.
   */
  function HardChoice(b: Board): Option<nat>
  {
    HardFrom(b, 0, -1000, None)
  }

  /** What the scan of `computerMoveHard` knows after cells 0 .. k-1. */
  ghost predicate HardScanned(b: Board, k: nat, bestScore: int, move: Option<nat>)
    requires k <= 9
  {
    && (forall j :: 0 <= j < k && b[j] == Blank ==> MoveScore(b, j) <= bestScore)
    && (move.None? ==> bestScore == -1000)
    && (move.Some? ==>
          && move.value < k && b[move.value] == Blank && MoveScore(b, move.value) == bestScore
          && forall j :: 0 <= j < move.value && b[j] == Blank ==> MoveScore(b, j) < bestScore)
  }

  lemma MoveScoreRange(b: Board, k: nat)
    requires k < 9 && b[k] == Blank
    ensures -10 <= MoveScore(b, k) <= 10
  {
    BlankCountFill(b, k, Player2);
  }

  /** One cell of the `computerMoveHard` scan keeps what the scan knows. */
  lemma HardScannedStep(b: Board, k: nat, bestScore: int, move: Option<nat>)
    requires k < 9 && HardScanned(b, k, bestScore, move)
    ensures b[k] == Blank && MoveScore(b, k) > bestScore ==> HardScanned(b, k + 1, MoveScore(b, k), Some(k))
    ensures !(b[k] == Blank && MoveScore(b, k) > bestScore) ==> HardScanned(b, k + 1, bestScore, move)
    ensures move.None? && b[k] == Blank ==> MoveScore(b, k) > bestScore
  {
    if b[k] == Blank {
      MoveScoreRange(b, k);
    }
  }

  lemma {:induction false} HardFromSpec(b: Board, k: nat, bestScore: int, move: Option<nat>)
    requires k <= 9 && HardScanned(b, k, bestScore, move)
    ensures var r := HardFrom(b, k, bestScore, move);
      && (r.None? <==> move.None? && forall j :: k <= j < 9 ==> b[j] != Blank)
      && (r.Some? ==>
            && r.value < 9 && b[r.value] == Blank
            && (forall j :: 0 <= j < 9 && b[j] == Blank ==> MoveScore(b, j) <= MoveScore(b, r.value))
            && (forall j :: 0 <= j < r.value && b[j] == Blank ==> MoveScore(b, j) < MoveScore(b, r.value)))
    decreases 9 - k
  {
    if k < 9 {
      HardScannedStep(b, k, bestScore, move);
      if b[k] == Blank && MoveScore(b, k) > bestScore {
        HardFromSpec(b, k + 1, MoveScore(b, k), Some(k));
      } else {
        HardFromSpec(b, k + 1, bestScore, move);
      }
    }
  }

  /**
   * `computerMoveHard` moves exactly when a blank cell exists; it picks a blank
   * cell with the best minimax score, and the first such cell in row-major order.
   */
  lemma HardChoiceSpec(b: Board)
    ensures HardChoice(b).Some? <==> HasBlank(b)
    ensures HardChoice(b).Some? ==>
      var k := HardChoice(b).value;
      && k < 9 && b[k] == Blank
      && (forall j :: 0 <= j < 9 && b[j] == Blank ==> MoveScore(b, j) <= MoveScore(b, k))
      && (forall j :: 0 <= j < k && b[j] == Blank ==> MoveScore(b, j) < MoveScore(b, k))
  {
    HardFromSpec(b, 0, -1000, None);
  }

  // ---------------------------------------------------------- medium move

  /** The first blank cell, from k on, where an O makes `checkwinner` report O. */
  function WinningFrom(b: Board, k: nat): (r: Option<nat>)
    requires k <= 9
    ensures r.None? <==> forall j :: k <= j < 9 && b[j] == Blank ==> Winner(b[j := Player2]) != Player2
    ensures r.Some? ==> k <= r.value < 9 && b[r.value] == Blank && Winner(b[r.value := Player2]) == Player2
    ensures r.Some? ==> forall j :: k <= j < r.value && b[j] == Blank ==> Winner(b[j := Player2]) != Player2
    decreases 9 - k
  {
    if k == 9 then None
    else if b[k] == Blank && Winner(b[k := Player2]) == Player2 then Some(k)
    else WinningFrom(b, k + 1)
  }

  /** The move the trial loop of `computerMoveMedium` keeps, if any. */
  function WinningMove(b: Board): Option<nat>
  {
    WinningFrom(b, 0)
  }

  /** The outcome of a call that may recurse without end: `fuel` bounds the call depth. */
  datatype Run = Placed(board: Board) | StackExhausted

  /**
   * `computerMoveMedium` as written: keep a winning O if there is one, else
   * call `computerMove()`, which with `difficulty == 2` calls
   * `computerMoveMedium` again on the same (restored) board.
   */
  function MediumAsWritten(b: Board, fuel: nat): Run
    decreases fuel
  {
    if fuel == 0 then StackExhausted
    else match WinningMove(b)
      case Some(k) => Placed(b[k := Player2])
      case None => MediumAsWritten(b, fuel - 1)
  }

  /** Without a winning move, the medium strategy as written never returns, however deep the stack. */
  lemma {:induction false} MediumAsWrittenNeverReturns(b: Board, fuel: nat)
    requires WinningMove(b).None?
    ensures MediumAsWritten(b, fuel) == StackExhausted
    decreases fuel
  {
    if fuel > 0 {
      MediumAsWrittenNeverReturns(b, fuel - 1);
    }
  }

  /** A line needs three marks: a board holding one X and one O has no winner. */
  lemma TwoMarksNoWinner(b: Board, x: nat, o: nat)
    requires x < 9 && o < 9
    requires forall j :: 0 <= j < 9 && j != x && j != o ==> b[j] == Blank
    ensures Winner(b) == Blank
  {
    WinnerSpec(b);
  }

  /**
   * The first computer turn of a medium game: whichever cell X opened with, no O
   * can win yet, so `computerMoveMedium` as written recurses until the stack runs out.
   */
  lemma MediumAsWrittenFirstTurn(x: nat, fuel: nat)
    requires x < 9
    ensures MediumAsWritten(EmptyBoard()[x := Player1], fuel) == StackExhausted
  {
    var b := EmptyBoard()[x := Player1];
    forall j | 0 <= j < 9 && b[j] == Blank
      ensures Winner(b[j := Player2]) != Player2
    {
      TwoMarksNoWinner(b[j := Player2], x, j);
    }
    MediumAsWrittenNeverReturns(b, fuel);
  }

  // ------------------------------------------------------------ game play

  /** Moves alternate and X moves first: move t carries X when t is even. */
  function MarkOf(t: nat): char
  {
    if t % 2 == 0 then Player1 else Player2
  }

  /** The board after playing `moves` (cells, in order) from the empty board. */
  function Replay(moves: seq<nat>): Board
  {
    if moves == [] then EmptyBoard()
    else
      var n := |moves| - 1;
      var prev := Replay(moves[..n]);
      if moves[n] < 9 then prev[moves[n] := MarkOf(n)] else prev
  }

  /**
   * Move t of `moves` went to a blank cell of a board that had no winner yet:
   * the game loops only move while `checkwinner` is blank and a cell is free.
   */
  ghost predicate LegalMove(moves: seq<nat>, t: nat)
    requires t < |moves|
  {
    var before := Replay(moves[..t]);
    moves[t] < 9 && before[moves[t]] == Blank && Winner(before) == Blank
  }

  ghost predicate LegalGame(moves: seq<nat>)
  {
    forall t :: 0 <= t < |moves| ==> LegalMove(moves, t)
  }

  lemma LegalGameExtend(moves: seq<nat>, c: nat)
    requires LegalGame(moves)
    requires c < 9 && Replay(moves)[c] == Blank && Winner(Replay(moves)) == Blank
    ensures LegalGame(moves + [c])
    ensures Replay(moves + [c]) == Replay(moves)[c := MarkOf(|moves|)]
  {
    var m := moves + [c];
    assert m[..|moves|] == moves;
    forall t | 0 <= t < |m|
      ensures LegalMove(m, t)
    {
      if t < |moves| {
        assert m[..t] == moves[..t];
        assert LegalMove(moves, t);
      }
    }
  }

  /** Number of cells of s holding mark c. */
  function CountMark(s: seq<char>, c: char): (n: nat)
    ensures n <= |s|
  {
    if s == [] then 0
    else CountMark(s[..|s| - 1], c) + (if s[|s| - 1] == c then 1 else 0)
  }

  lemma {:induction false} CountMarkUpdate(s: seq<char>, k: nat, c: char, d: char)
    requires k < |s|
    ensures CountMark(s[k := d], c) ==
      CountMark(s, c) - (if s[k] == c then 1 else 0) + (if d == c then 1 else 0)
  {
    var n := |s| - 1;
    if k < n {
      CountMarkUpdate(s[..n], k, c, d);
      assert s[k := d][..n] == s[..n][k := d];
    } else {
      assert s[k := d][..n] == s[..n];
    }
  }

  /** Dropping the last move of a legal game leaves a legal game. */
  lemma LegalGameLast(moves: seq<nat>)
    requires LegalGame(moves) && moves != []
    ensures var n := |moves| - 1;
      && LegalGame(moves[..n])
      && moves[n] < 9 && Replay(moves[..n])[moves[n]] == Blank
      && Replay(moves) == Replay(moves[..n])[moves[n] := MarkOf(n)]
  {
    var n := |moves| - 1;
    var prev := moves[..n];
    forall t | 0 <= t < n
      ensures LegalMove(prev, t)
    {
      assert prev[..t] == moves[..t];
      assert LegalMove(moves, t);
    }
    assert LegalMove(moves, n);
  }

  /**
   * Turns alternate: after a legal game of n moves X holds ceil(n/2) cells,
   * O holds floor(n/2) cells, and the rest are blank.
   */
  lemma {:induction false} ReplayCounts(moves: seq<nat>)
    requires LegalGame(moves)
    ensures CountMark(Replay(moves), Player1) == (|moves| + 1) / 2
    ensures CountMark(Replay(moves), Player2) == |moves| / 2
    ensures BlankCount(Replay(moves)) == 9 - |moves|
  {
    if moves == [] {
      EmptyBoardFree();
      AllMarkCount(EmptyBoard(), Player1);
      AllMarkCount(EmptyBoard(), Player2);
    } else {
      var n := |moves| - 1;
      LegalGameLast(moves);
      ReplayCounts(moves[..n]);
      var b := Replay(moves[..n]);
      CountMarkUpdate(b, moves[n], Player1, MarkOf(n));
      CountMarkUpdate(b, moves[n], Player2, MarkOf(n));
      BlankCountFill(b, moves[n], MarkOf(n));
      HalfStep(n);
    }
  }

  /** After an even number of moves O moves next, and two moves later X again. */
  lemma TurnAfterX(n: nat)
    requires n % 2 == 0
    ensures MarkOf(n) == Player1 && MarkOf(n + 1) == Player2 && (n + 1) % 2 == 1 && (n + 2) % 2 == 0
  {
  }

  lemma HalfStep(n: nat)
    ensures (n + 2) / 2 == (n + 1) / 2 + (if MarkOf(n) == Player1 then 1 else 0)
    ensures (n + 1) / 2 == n / 2 + (if MarkOf(n) == Player2 then 1 else 0)
  {
  }

  lemma {:induction false} AllMarkCount(s: seq<char>, c: char)
    requires c != Blank && forall k :: 0 <= k < |s| ==> s[k] == Blank
    ensures CountMark(s, c) == 0
  {
    if s != [] {
      AllMarkCount(s[..|s| - 1], c);
    }
  }

  // ------------------------------------------------------------ player input

  /** The cell a 1-based (row, column) entry names. */
  function CellAt(e: (int, int)): (c: nat)
    requires 1 <= e.0 <= 3 && 1 <= e.1 <= 3
    ensures c < 9
  {
    3 * (e.0 - 1) + (e.1 - 1)
  }

  /** `playerMove` accepts entry e on board b: row and column in 1..3 and that cell blank. */
  predicate Accepts(b: Board, e: (int, int))
  {
    1 <= e.0 <= 3 && 1 <= e.1 <= 3 && b[CellAt(e)] == Blank
  }

  /**
   * The retry loop of `playerMove` on board b, reading entries from position
   * pos on: the position just after the first accepted entry and the cell it
   * names, or None when every remaining entry is rejected.
   */
  function FirstAccepted(b: Board, input: seq<(int, int)>, pos: nat): (r: Option<(nat, nat)>)
    requires pos <= |input|
    ensures r.None? <==> forall k :: pos <= k < |input| ==> !Accepts(b, input[k])
    ensures r.Some? ==>
              && pos < r.value.0 <= |input|
              && Accepts(b, input[r.value.0 - 1]) && r.value.1 == CellAt(input[r.value.0 - 1])
              && forall k :: pos <= k < r.value.0 - 1 ==> !Accepts(b, input[k])
    decreases |input| - pos
  {
    if pos == |input| then None
    else if Accepts(b, input[pos]) then Some((pos + 1, CellAt(input[pos])))
    else FirstAccepted(b, input, pos + 1)
  }

  /**
   * A `playGamePvP` game from history `moves`, reading entries from pos on:
   * while there is no winner and a cell is free, the mover's first accepted
   * entry is played.  The final history, and whether the input ran out
   * before the game ended.
   */
  function PvPPlay(input: seq<(int, int)>, pos: nat, moves: seq<nat>): (seq<nat>, bool)
    requires pos <= |input|
    decreases |input| - pos
  {
    var b := Replay(moves);
    if Winner(b) != Blank || BlankCount(b) == 0 then (moves, false)
    else match FirstAccepted(b, input, pos)
      case None => (moves, true)
      case Some((next, c)) => PvPPlay(input, next, moves + [c])
  }

  /** One turn of a PvP game that is still open. */
  lemma PvPPlayStep(input: seq<(int, int)>, pos: nat, moves: seq<nat>)
    requires pos <= |input|
    requires Winner(Replay(moves)) == Blank && BlankCount(Replay(moves)) != 0
    ensures var first := FirstAccepted(Replay(moves), input, pos);
      && (first.None? ==> PvPPlay(input, pos, moves) == (moves, true))
      && (first.Some? ==> PvPPlay(input, pos, moves) == PvPPlay(input, first.value.0, moves + [first.value.1]))
  {
  }

  /**
   * A PvP game from a legal history stays legal and only grows; it stops with
   * a winner or a full board, or with the input exhausted while the game is
   * still open.
   */
  lemma {:induction false} PvPPlayEnds(input: seq<(int, int)>, pos: nat, moves: seq<nat>)
    requires pos <= |input| && LegalGame(moves)
    ensures var (final, exhausted) := PvPPlay(input, pos, moves);
      && LegalGame(final) && moves <= final
      && (exhausted <==> Winner(Replay(final)) == Blank && BlankCount(Replay(final)) != 0)
    decreases |input| - pos
  {
    var b := Replay(moves);
    if Winner(b) == Blank && BlankCount(b) != 0 {
      match FirstAccepted(b, input, pos)
      case None =>
      case Some((next, c)) =>
        LegalGameExtend(moves, c);
        PvPPlayEnds(input, next, moves + [c]);
    }
  }

  /**
   * The player's (X's) moves of a `playGamePvC` history replayed against the
   * input: each X move must be the first entry `playerMove` accepts after the
   * entry the previous X move used; O's moves read no input.  The position
   * after the last X move's entry, or None when some X move is not the one
   * the input plays.
   */
  ghost function Consumed(input: seq<(int, int)>, moves: seq<nat>): (r: Option<nat>)
    ensures r.Some? ==> r.value <= |input|
    decreases |moves|
  {
    if moves == [] then Some(0)
    else
      var n := |moves| - 1;
      match Consumed(input, moves[..n])
      case None => None
      case Some(pos) =>
        if n % 2 == 1 then Some(pos)
        else match FirstAccepted(Replay(moves[..n]), input, pos)
          case Some((next, c)) => if c == moves[n] then Some(next) else None
          case None => None
  }

  /** Consumed after one more move: O's moves leave it alone; X's move must be the input's next accepted entry. */
  lemma ConsumedExtend(input: seq<(int, int)>, moves: seq<nat>, c: nat)
    requires Consumed(input, moves).Some?
    ensures |moves| % 2 == 1 ==> Consumed(input, moves + [c]) == Consumed(input, moves)
    ensures |moves| % 2 == 0 ==>
              var first := FirstAccepted(Replay(moves), input, Consumed(input, moves).value);
              first.Some? && first.value.1 == c ==> Consumed(input, moves + [c]) == Some(first.value.0)
  {
    assert (moves + [c])[..|moves|] == moves;
  }
}
