/** The move history the game keeps: every board it has shown, in order,
    and the index of the one on screen. A new move cuts off the boards after
    the current one before it is appended; restarting goes back to a single
    empty board; the move list jumps to any recorded board. */
module History {
  import opened TicTacToe

  /** The game's state: the board snapshots (`moves`) and the index of the
      current one (`currentMoveIndex`). */
  datatype State = State(moves: seq<Board>, currentMoveIndex: nat)

  /** The current index names a recorded board. */
  predicate InBounds(s: State) {
    s.currentMoveIndex < |s.moves|
  }

  /** Putting the next marker on `square` of `before` is allowed (no winner
      yet, the square is empty) and gives `after`. */
  predicate IsMove(before: Board, square: Square, after: Board) {
    Winner(before).None? && before[square] == Empty &&
    after == before[square := Mark(CalculateNextValue(before))]
  }

  /** Some allowed move turns `before` into `after`. */
  ghost predicate IsStep(before: Board, after: Board) {
    exists square: Square {:trigger IsMove(before, square, after)} :: IsMove(before, square, after)
  }

  /** A history as play builds it: it starts from the empty board and each
      later board is one allowed move after the board before it. */
  ghost predicate IsPlayed(moves: seq<Board>) {
    |moves| > 0 && moves[0] == EmptyBoard &&
    forall i, j :: 0 <= i && j == i + 1 && j < |moves| ==> IsStep(moves[i], moves[j])
  }

  // ---------------------------------------------------------------------
  // The transitions
  // ---------------------------------------------------------------------

  /** The state after `restart` (also the state a new game starts in). */
  function AfterRestart(): (r: State)
    ensures InBounds(r) && IsPlayed(r.moves)
    ensures |r.moves| == 1 && r.currentMoveIndex == 0
    ensures forall i :: 0 <= i < 9 ==> r.moves[0][i] == Empty
  {
    State([EmptyBoard], 0)
  }

  /** The state after `selectSquare(square)`. A click on an occupied square,
      or on any square once the current board has a winner, changes
      nothing. Otherwise the boards after the current one are dropped, the
      current board with the next player's marker on `square` is appended,
      and it becomes the current board. */
  function AfterSelectSquare(s: State, square: Square): (r: State)
    requires InBounds(s)
    ensures InBounds(r)
    ensures var current := s.moves[s.currentMoveIndex];
      if Winner(current).Some? || current[square] != Empty then r == s
      else
        |r.moves| == s.currentMoveIndex + 2 &&
        r.currentMoveIndex == s.currentMoveIndex + 1 &&
        r.moves[..s.currentMoveIndex + 1] == s.moves[..s.currentMoveIndex + 1] &&
        IsMove(current, square, r.moves[r.currentMoveIndex]) &&
        FilledCount(r.moves[r.currentMoveIndex]) == FilledCount(current) + 1
  {
    var current := s.moves[s.currentMoveIndex];
    if Winner(current).Some? || current[square] != Empty then s
    else
      var previousMoves := s.moves[..s.currentMoveIndex + 1];
      var previousSquares := previousMoves[|previousMoves| - 1];
      var nextSquares := previousSquares[square := Mark(CalculateNextValue(current))];
      FilledCountAfterMove(current, square, CalculateNextValue(current));
      State(previousMoves + [nextSquares], s.currentMoveIndex + 1)
  }

  /** The state after a jump to move `i` of the list (`goToMove`). */
  function AfterGoToMove(s: State, i: nat): (r: State)
    requires i < |s.moves|
    ensures InBounds(r) && r.moves == s.moves && r.currentMoveIndex == i
    ensures r.moves[r.currentMoveIndex] == s.moves[i]
  {
    State(s.moves, i)
  }

  // ---------------------------------------------------------------------
  // Invariants of play
  // ---------------------------------------------------------------------

  /** Selecting a square keeps the history one of play. */
  lemma SelectSquarePreservesPlayed(s: State, square: Square)
    requires InBounds(s) && IsPlayed(s.moves)
    ensures IsPlayed(AfterSelectSquare(s, square).moves)
  {
    var current := s.moves[s.currentMoveIndex];
    if Winner(current).None? && current[square] == Empty {
      var r := AfterSelectSquare(s, square);
      var n := s.currentMoveIndex + 1;
      assert IsMove(current, square, r.moves[n]);
      forall i, j | 0 <= i && j == i + 1 && j < |r.moves|
        ensures IsStep(r.moves[i], r.moves[j])
      {
        if j < n {
          assert r.moves[i] == s.moves[i] && r.moves[j] == s.moves[j];
        } else {
          assert r.moves[i] == current;
        }
      }
      assert r.moves[0] == s.moves[0];
    }
  }

  /** The empty board has no marker and no winner. */
  lemma EmptyBoardFacts()
    ensures MarkCount(EmptyBoard, X) == 0 && MarkCount(EmptyBoard, O) == 0
    ensures FilledCount(EmptyBoard) == 0
    ensures Winner(EmptyBoard).None?
  {
    NoMarks(EmptyBoard);
    FilledIsXPlusO(EmptyBoard);
    WinnerIffSomeLine(EmptyBoard);
    assert !HasLine(EmptyBoard, X) && !HasLine(EmptyBoard, O);
  }

  lemma {:induction false} NoMarks(s: seq<Cell>)
    requires forall i :: 0 <= i < |s| ==> s[i] == Empty
    ensures MarkCount(s, X) == 0 && MarkCount(s, O) == 0
  {
    if s != [] {
      assert forall i :: 0 <= i < |s| - 1 ==> s[1..][i] == s[i + 1];
      NoMarks(s[1..]);
    }
  }

  /** What play guarantees about board `k` of a played history: `k` squares
      are filled, X and O have taken turns starting with X, at most one
      player holds a line, a board with a winner is the last one, and the
      winner is the player who made the last move. */
  lemma {:induction false} PlayedBoardFacts(moves: seq<Board>, k: nat)
    requires IsPlayed(moves) && k < |moves|
    ensures FilledCount(moves[k]) == k
    ensures Balanced(moves[k])
    ensures !(HasLine(moves[k], X) && HasLine(moves[k], O))
    ensures k + 1 < |moves| ==> Winner(moves[k]).None?
    ensures Winner(moves[k]).Some? ==> 0 < k && Winner(moves[k]) == Some(CalculateNextValue(moves[k - 1]))
  {
    if k == 0 {
      EmptyBoardFacts();
      WinnerIffSomeLine(moves[0]);
      if k + 1 < |moves| {
        assert IsStep(moves[k], moves[k + 1]);
      }
    } else {
      PlayedBoardFacts(moves, k - 1);
      var before := moves[k - 1];
      assert IsStep(before, moves[k]);
      var square: Square :| IsMove(before, square, moves[k]);
      var p := CalculateNextValue(before);
      FilledCountAfterMove(before, square, p);
      NextValueAlternates(before, square);
      MoveCompletesOnlyOwnLines(before, square, p);
      WinnerIffSomeLine(moves[k]);
      if k + 1 < |moves| {
        assert IsStep(moves[k], moves[k + 1]);
      }
      if Winner(moves[k]).Some? {
        assert Winner(moves[k]).value != Other(p);
        assert p == X || p == O;
      }
    }
  }

  /** A game lasts at most nine moves: a played history holds at most ten
      boards. */
  lemma PlayedHistoryLength(moves: seq<Board>)
    requires IsPlayed(moves)
    ensures |moves| <= 10
  {
    PlayedBoardFacts(moves, |moves| - 1);
  }

  /** In a played history the order of the line table never matters: the
      winner is whoever holds a line. A draw is shown only on the board
      after the ninth move. */
  lemma PlayedOutcome(moves: seq<Board>, k: nat, p: Player)
    requires IsPlayed(moves) && k < |moves|
    ensures Winner(moves[k]) == Some(p) <==> HasLine(moves[k], p)
    ensures Full(moves[k]) <==> k == 9
  {
    PlayedBoardFacts(moves, k);
    WinnerOfSingleOwner(moves[k], p);
    FullIffAllFilled(moves[k]);
  }

  // ---------------------------------------------------------------------
  // The hook's state, updated in place
  // ---------------------------------------------------------------------

  /** `useMoveHistory`: the two state cells and the handlers that update
      them. */
  class MoveHistory {
    var moves: seq<Board>
    var currentMoveIndex: nat

    /** The index is in bounds and the boards are a history of play. */
    ghost predicate Valid()
      reads this
    {
      currentMoveIndex < |moves| && IsPlayed(moves)
    }

    /** The state as a value. */
    function Current(): State
      reads this
    {
      State(moves, currentMoveIndex)
    }

    /** A new game: the state cells start at `[EMPTY_BOARD]` and 0. */
    constructor ()
      ensures Valid() && Current() == AfterRestart()
    {
      moves := [EmptyBoard];
      currentMoveIndex := 0;
    }

    /** The status line for the current board (`calculateStatus` applied to
        the current board, its winner and its next player). A draw is shown
        exactly after a ninth move that leaves no winner. */
    method Status() returns (status: string)
      requires Valid()
      ensures var current := moves[currentMoveIndex];
        status == CalculateStatus(Winner(current), current, CalculateNextValue(current))
      ensures status == ScratchMessage <==> currentMoveIndex == 9 && Winner(moves[currentMoveIndex]).None?
    {
      var currentSquares := moves[currentMoveIndex];
      var nextValue := CalculateNextValue(currentSquares);
      var winner := CalculateWinner(currentSquares);
      status := CalculateStatus(winner, currentSquares, nextValue);
      PlayedOutcome(moves, currentMoveIndex, X);
    }

    /** `selectSquare`: ignores the click when the current board has a
        winner or the square is taken; otherwise copies the current board,
        writes the next player's marker into the copy, appends it to the
        boards up to the current one and makes it current. */
    method SelectSquare(square: Square)
      requires Valid()
      modifies this
      ensures Valid() && Current() == AfterSelectSquare(old(Current()), square)
    {
      var currentSquares := moves[currentMoveIndex];
      var nextValue := CalculateNextValue(currentSquares);
      var winner := CalculateWinner(currentSquares);
      if winner.Some? || currentSquares[square] != Empty {
        return;
      }
      SelectSquarePreservesPlayed(Current(), square);
      var previousMoves := moves[..currentMoveIndex + 1];
      var previousSquares := previousMoves[|previousMoves| - 1];
      var nextSquares := new Cell[9](i requires 0 <= i < 9 => previousSquares[i]);
      nextSquares[square] := Mark(nextValue);
      assert nextSquares[..] == previousSquares[square := Mark(nextValue)];
      moves := previousMoves + [nextSquares[..]];
      currentMoveIndex := currentMoveIndex + 1;
    }

    /** `restart`: back to a single empty board at index 0. */
    method Restart()
      requires Valid()
      modifies this
      ensures Valid() && Current() == AfterRestart()
    {
      moves := [EmptyBoard];
      currentMoveIndex := 0;
    }

    /** `goToMove` (the setter of the current index): shows recorded board
        `i` and keeps every board. */
    method GoToMove(i: nat)
      requires Valid() && i < |moves|
      modifies this
      ensures Valid() && Current() == AfterGoToMove(old(Current()), i)
    {
      currentMoveIndex := i;
    }
  }
}
