/** The rules of the tic-tac-toe game: the board, the winner scan over the
    eight fixed lines, whose turn it is, and the status line shown to the
    players. */
module TicTacToe {

  /** A result that may be absent (`null` in the source). */
  datatype Option<T> = None | Some(value: T)

  /** The two markers a player can put on the board. */
  datatype Player = X | O

  /** A square of the board: empty (`null`) or holding a marker. */
  datatype Cell = Empty | Mark(player: Player)

  /** An index into the board, numbered row by row from the top left. */
  type Square = i: int | 0 <= i < 9

  /** A board: nine squares, row by row. */
  type Board = b: seq<Cell> | |b| == 9
    witness [Empty, Empty, Empty, Empty, Empty, Empty, Empty, Empty, Empty]

  /** The board every game starts from (`EMPTY_BOARD`). */
  const EmptyBoard: Board := [Empty, Empty, Empty, Empty, Empty, Empty, Empty, Empty, Empty]

  function Other(p: Player): Player {
    if p == X then O else X
  }

  function Name(p: Player): string {
    if p == X then "X" else "O"
  }

  // ---------------------------------------------------------------------
  // Counting markers
  // ---------------------------------------------------------------------

  /** The number of non-empty squares (`squares.filter(Boolean).length`). */
  function FilledCount(s: seq<Cell>): (n: nat)
    ensures n <= |s|
  {
    if s == [] then 0 else (if s[0] != Empty then 1 else 0) + FilledCount(s[1..])
  }

  /** The number of squares holding `p`'s marker. */
  function MarkCount(s: seq<Cell>, p: Player): (n: nat)
    ensures n <= |s|
  {
    if s == [] then 0 else (if s[0] == Mark(p) then 1 else 0) + MarkCount(s[1..], p)
  }

  /** Every square is non-empty (`squares.every(Boolean)`). */
  predicate Full(s: seq<Cell>) {
    forall i :: 0 <= i < |s| ==> s[i] != Empty
  }

  /** Turns alternate starting with X: X has placed as many markers as O, or
      exactly one more. */
  predicate Balanced(s: seq<Cell>) {
    MarkCount(s, X) == MarkCount(s, O) || MarkCount(s, X) == MarkCount(s, O) + 1
  }

  /** The filled squares are exactly the X squares and the O squares. */
  lemma {:induction false} FilledIsXPlusO(s: seq<Cell>)
    ensures FilledCount(s) == MarkCount(s, X) + MarkCount(s, O)
  {
    if s != [] {
      if s[0].Mark? {
        assert s[0].player == X || s[0].player == O;
      }
      FilledIsXPlusO(s[1..]);
    }
  }

  /** Writing `p` into an empty square adds one `p` marker and leaves the
      count of the other marker alone. */
  lemma {:induction false} MarkCountAfterMove(s: seq<Cell>, i: nat, p: Player, q: Player)
    requires i < |s| && s[i] == Empty
    ensures MarkCount(s[i := Mark(p)], q) == MarkCount(s, q) + (if p == q then 1 else 0)
  {
    if i == 0 {
      assert s[i := Mark(p)][1..] == s[1..];
    } else {
      assert s[i := Mark(p)][1..] == s[1..][i - 1 := Mark(p)];
      MarkCountAfterMove(s[1..], i - 1, p, q);
    }
  }

  /** Writing a marker into an empty square fills exactly one more square. */
  lemma FilledCountAfterMove(s: seq<Cell>, i: nat, p: Player)
    requires i < |s| && s[i] == Empty
    ensures FilledCount(s[i := Mark(p)]) == FilledCount(s) + 1
  {
    FilledIsXPlusO(s);
    FilledIsXPlusO(s[i := Mark(p)]);
    MarkCountAfterMove(s, i, p, X);
    MarkCountAfterMove(s, i, p, O);
  }

  /** A sequence is full exactly when every square is counted as filled. */
  lemma {:induction false} FullIffAllFilled(s: seq<Cell>)
    ensures Full(s) <==> FilledCount(s) == |s|
  {
    if s != [] {
      FullIffAllFilled(s[1..]);
      if Full(s) {
        assert Full(s[1..]) by {
          forall i | 0 <= i < |s| - 1 ensures s[1..][i] != Empty {
            assert s[1..][i] == s[i + 1];
          }
        }
      } else if FilledCount(s) == |s| {
        assert s[0] != Empty && FilledCount(s[1..]) == |s| - 1;
        forall i | 0 <= i < |s| ensures s[i] != Empty {
          if i > 0 {
            assert s[i] == s[1..][i - 1];
          }
        }
        assert false;
      }
    }
  }

  // ---------------------------------------------------------------------
  // Whose turn it is
  // ---------------------------------------------------------------------

  /** `calculateNextValue`: X moves when an even number of squares are
      filled, O when an odd number are. On a board reached by alternating
      turns this means X moves when the two markers are level and O moves
      when X is one ahead. */
  function CalculateNextValue(squares: Board): (p: Player)
    ensures Balanced(squares) ==> (p == X <==> MarkCount(squares, X) == MarkCount(squares, O))
  {
    FilledIsXPlusO(squares);
    if FilledCount(squares) % 2 == 0 then X else O
  }

  /** Placing the next marker on an empty square hands the turn to the other
      player and keeps the board balanced. */
  lemma NextValueAlternates(b: Board, i: Square)
    requires b[i] == Empty
    ensures CalculateNextValue(b[i := Mark(CalculateNextValue(b))]) == Other(CalculateNextValue(b))
    ensures Balanced(b) ==> Balanced(b[i := Mark(CalculateNextValue(b))])
  {
    var p := CalculateNextValue(b);
    FilledCountAfterMove(b, i, p);
    MarkCountAfterMove(b, i, p, X);
    MarkCountAfterMove(b, i, p, O);
  }

  // ---------------------------------------------------------------------
  // The winner
  // ---------------------------------------------------------------------

  /** Three squares in a row, a column or a diagonal. */
  datatype Line = Line(a: Square, b: Square, c: Square)

  /** The eight lines, in the order in which they are scanned. */
  const Lines: seq<Line> := [
    Line(0, 1, 2), Line(3, 4, 5), Line(6, 7, 8),
    Line(0, 3, 6), Line(1, 4, 7), Line(2, 5, 8),
    Line(0, 4, 8), Line(2, 4, 6)
  ]

  /** The test applied to one line: its first square is non-empty and the
      other two are equal to it; the answer is that square's marker. */
  function LineOwner(b: Board, l: Line): Option<Player> {
    if b[l.a] != Empty && b[l.a] == b[l.b] && b[l.a] == b[l.c] then Some(b[l.a].player) else None
  }

  /** `p` holds all three squares of line `k` of the table. */
  predicate Owns(b: Board, k: nat, p: Player)
    requires k < |Lines|
  {
    var l := Lines[k];
    b[l.a] == Mark(p) && b[l.b] == Mark(p) && b[l.c] == Mark(p)
  }

  /** `p` holds some line of the table. */
  predicate HasLine(b: Board, p: Player) {
    exists k :: 0 <= k < |Lines| && Owns(b, k, p)
  }

  /** Line `k` is the first line of the table that anyone holds, and `p`
      holds it. */
  predicate FirstOwnedLine(b: Board, k: nat, p: Player) {
    k < |Lines| && Owns(b, k, p) &&
    forall j, q :: 0 <= j < k ==> !Owns(b, j, q)
  }

  /** The outcome of scanning lines `k`, `k+1`, ... in table order and
      stopping at the first one with an owner. */
  function WinnerFrom(b: Board, k: nat): Option<Player>
    decreases |Lines| - k
  {
    if k >= |Lines| then None
    else match LineOwner(b, Lines[k])
      case Some(p) => Some(p)
      case None => WinnerFrom(b, k + 1)
  }

  /** The winner of a board, as `calculateWinner` reports it (`None` stands
      for `null`). */
  function Winner(b: Board): Option<Player> {
    WinnerFrom(b, 0)
  }

  /** `calculateWinner`: walks the line table and returns at the first line
      whose three squares hold the same marker. */
  method CalculateWinner(squares: Board) returns (w: Option<Player>)
    ensures w == Winner(squares)
  {
    var i := 0;
    while i < |Lines|
      invariant 0 <= i <= |Lines|
      invariant WinnerFrom(squares, i) == Winner(squares)
    {
      var l := Lines[i];
      if squares[l.a] != Empty && squares[l.a] == squares[l.b] && squares[l.a] == squares[l.c] {
        return Some(squares[l.a].player);
      }
      i := i + 1;
    }
    return None;
  }

  /** The line test agrees with ownership: a line reports `p` exactly when
      `p` holds all three of its squares. */
  lemma LineOwnerIsOwns(b: Board, k: nat, p: Player)
    requires k < |Lines|
    ensures LineOwner(b, Lines[k]) == Some(p) <==> Owns(b, k, p)
  {
  }

  /** Scanning from line `k` finds `p` exactly when the first line at or
      after `k` that anyone holds is held by `p`. */
  lemma {:induction false} WinnerFromIsFirstOwned(b: Board, k: nat, p: Player)
    requires k <= |Lines|
    ensures WinnerFrom(b, k) == Some(p) <==>
            exists m :: k <= m < |Lines| && Owns(b, m, p) && forall j, q :: k <= j < m ==> !Owns(b, j, q)
    decreases |Lines| - k
  {
    if k < |Lines| {
      WinnerFromIsFirstOwned(b, k + 1, p);
      LineOwnerIsOwns(b, k, p);
      if LineOwner(b, Lines[k]).Some? {
        var q := LineOwner(b, Lines[k]).value;
        LineOwnerIsOwns(b, k, q);
        if WinnerFrom(b, k) != Some(p) {
          assert q != p;
          forall m | k <= m < |Lines| && Owns(b, m, p)
            ensures exists j, q' :: k <= j < m && Owns(b, j, q')
          {
            if m == k {
              assert false;
            }
          }
        }
      } else {
        forall q { LineOwnerIsOwns(b, k, q); }
        if WinnerFrom(b, k) == Some(p) {
          var m :| k + 1 <= m < |Lines| && Owns(b, m, p) && forall j, q :: k + 1 <= j < m ==> !Owns(b, j, q);
          assert forall j, q :: k <= j < m ==> !Owns(b, j, q);
        }
      }
    }
  }

  /** Scanning from line `k` finds nothing exactly when no line at or
      after `k` is held by anyone. */
  lemma {:induction false} WinnerFromNone(b: Board, k: nat)
    requires k <= |Lines|
    ensures WinnerFrom(b, k) == None <==> forall j, q :: k <= j < |Lines| ==> !Owns(b, j, q)
    decreases |Lines| - k
  {
    if k < |Lines| {
      WinnerFromNone(b, k + 1);
      forall q { LineOwnerIsOwns(b, k, q); }
      if LineOwner(b, Lines[k]).Some? {
        assert Owns(b, k, LineOwner(b, Lines[k]).value);
      }
    }
  }

  /** The winner is the holder of the first held line in table order: when
      several lines are held, the earliest one decides. */
  lemma WinnerIsFirstOwnedLine(b: Board, p: Player)
    ensures Winner(b) == Some(p) <==> exists k :: FirstOwnedLine(b, k, p)
  {
    WinnerFromIsFirstOwned(b, 0, p);
    if Winner(b) == Some(p) {
      var m :| 0 <= m < |Lines| && Owns(b, m, p) && forall j, q :: 0 <= j < m ==> !Owns(b, j, q);
      assert FirstOwnedLine(b, m, p);
    }
  }

  /** There is a winner exactly when some line is held by one player, and
      the winner always holds a line. */
  lemma WinnerIffSomeLine(b: Board)
    ensures Winner(b).Some? <==> HasLine(b, X) || HasLine(b, O)
    ensures Winner(b).Some? ==> HasLine(b, Winner(b).value)
  {
    WinnerFromNone(b, 0);
    if Winner(b).Some? {
      WinnerIsFirstOwnedLine(b, Winner(b).value);
      var k :| FirstOwnedLine(b, k, Winner(b).value);
      assert Owns(b, k, Winner(b).value);
      assert HasLine(b, Winner(b).value);
      assert Winner(b).value == X || Winner(b).value == O;
    }
  }

  /** When at most one player holds lines, the order of the table does not
      matter: the winner is whoever holds a line. */
  lemma WinnerOfSingleOwner(b: Board, p: Player)
    requires !(HasLine(b, X) && HasLine(b, O))
    ensures Winner(b) == Some(p) <==> HasLine(b, p)
  {
    WinnerIffSomeLine(b);
    if HasLine(b, p) {
      assert Winner(b).Some? && HasLine(b, Winner(b).value);
      assert Winner(b).value == X || Winner(b).value == O;
    }
  }

  /** A move by `p` on a board without a winner can only complete lines of
      `p`: afterwards the other player holds no line. */
  lemma MoveCompletesOnlyOwnLines(b: Board, i: Square, p: Player)
    requires Winner(b).None? && b[i] == Empty
    ensures !HasLine(b[i := Mark(p)], Other(p))
  {
    WinnerIffSomeLine(b);
    var a: Board := b[i := Mark(p)];
    if HasLine(a, Other(p)) {
      var k :| 0 <= k < |Lines| && Owns(a, k, Other(p));
      var l := Lines[k];
      if l.a != i && l.b != i && l.c != i {
        assert Owns(b, k, Other(p));
        assert HasLine(b, Other(p));
      }
      assert false;
    }
  }

  // ---------------------------------------------------------------------
  // The status line
  // ---------------------------------------------------------------------

  const ScratchMessage: string := "Scratch: Cat's game"

  /** `calculateStatus`: a winner is announced first, even on a full board;
      a full board without a winner is a draw; otherwise the next player is
      named. */
  function CalculateStatus(winner: Option<Player>, squares: Board, nextValue: Player): (s: string)
    ensures winner.Some? <==> |s| > 8 && s[..8] == "Winner: "
    ensures s == ScratchMessage <==> winner.None? && Full(squares)
    ensures winner.None? && !Full(squares) <==> |s| > 13 && s[..13] == "Next player: "
    ensures winner.Some? ==> s[8..] == Name(winner.value)
    ensures winner.None? && !Full(squares) ==> s[13..] == Name(nextValue)
  {
    if winner.Some? then
      var s := "Winner: " + Name(winner.value);
      assert s[0] != ScratchMessage[0] && s[0] != "Next player: "[0];
      s
    else if Full(squares) then
      assert ScratchMessage[..8][0] != "Winner: "[0];
      assert ScratchMessage[..13][0] != "Next player: "[0];
      ScratchMessage
    else
      var s := "Next player: " + Name(nextValue);
      assert s[..8][0] != "Winner: "[0] && s[0] != ScratchMessage[0];
      s
  }

  /** The status line identifies the situation: two boards showing the same
      status have the same winner, agree on being a draw and, while the game
      goes on, on the next player. */
  lemma StatusIdentifiesOutcome(w1: Option<Player>, b1: Board, n1: Player,
                                w2: Option<Player>, b2: Board, n2: Player)
    requires CalculateStatus(w1, b1, n1) == CalculateStatus(w2, b2, n2)
    ensures w1 == w2
    ensures w1.None? ==> (Full(b1) <==> Full(b2))
    ensures w1.None? && !Full(b1) ==> n1 == n2
  {
    var s := CalculateStatus(w1, b1, n1);
    if w1.Some? && w2.Some? {
      assert s[8] == Name(w1.value)[0] == Name(w2.value)[0];
    }
    if w1.None? && !Full(b1) && w2.None? && !Full(b2) {
      assert s[13] == Name(n1)[0] == Name(n2)[0];
    }
  }

}
