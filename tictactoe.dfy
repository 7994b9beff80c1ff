/**
 * Tic-tac-toe: the winner test over the fixed table of eight lines, and the
 * click handler that writes one square, reports a result or passes the turn.
 */
module TicTacToe {
  import opened Wrappers

  datatype Player = X | O

  /** A finished game: a player holding a line, or a full board with no line. */
  datatype Outcome = Win(player: Player) | Draw

  /** A square is empty (null) or holds a player's mark. */
  type Board = seq<Option<Player>>

  /** The three rows, three columns and two diagonals, in the order checkWinner scans them. */
  const LINES: seq<(nat, nat, nat)> :=
    [(0, 1, 2), (3, 4, 5), (6, 7, 8), (0, 3, 6), (1, 4, 7), (2, 5, 8), (0, 4, 8), (2, 4, 6)]

  function Other(p: Player): Player {
    if p == X then O else X
  }

  /** The number of p's marks on the board. */
  function Count(s: Board, p: Player): nat {
    multiset(s)[Some(p)]
  }

  predicate Full(s: Board) {
    forall i :: 0 <= i < |s| ==> s[i].Some?
  }

  /** The player holding all three squares of line k, if any. */
  function LineOwner(s: Board, k: int): (r: Option<Player>)
    requires |s| == 9 && 0 <= k < |LINES|
    ensures forall p :: r == Some(p) <==>
      s[LINES[k].0] == Some(p) && s[LINES[k].1] == Some(p) && s[LINES[k].2] == Some(p)
  {
    var (a, b, c) := LINES[k];
    if s[a].Some? && s[a] == s[b] && s[a] == s[c] then s[a] else None
  }

  /** No line from position k up to (not including) j is won. */
  predicate FreeBefore(s: Board, k: int, j: int)
    requires |s| == 9 && 0 <= k && j <= |LINES|
  {
    forall i :: k <= i < j ==> LineOwner(s, i) == None
  }

  /** The owner of the first won line at position k or later in the table. */
  function FirstLine(s: Board, k: nat): (r: Option<Player>)
    requires |s| == 9 && k <= |LINES|
    decreases |LINES| - k
    ensures r.Some? ==> exists j :: k <= j < |LINES| && LineOwner(s, j) == r && FreeBefore(s, k, j)
    ensures r == None <==> forall j :: k <= j < |LINES| ==> LineOwner(s, j) == None
  {
    if k == |LINES| then None
    else if LineOwner(s, k).Some? then
      assert FreeBefore(s, k, k);
      LineOwner(s, k)
    else
      assert forall j :: k + 1 <= j <= |LINES| && FreeBefore(s, k + 1, j) ==> FreeBefore(s, k, j);
      FirstLine(s, k + 1)
  }

  /**
   * checkWinner: the player of the first won line in table order; a draw
   * when no line is won and every square is filled; otherwise no result.
   */
  function Winner(s: Board): (r: Option<Outcome>)
    requires |s| == 9
    ensures forall p :: r == Some(Win(p)) <==>
      exists j :: 0 <= j < |LINES| && LineOwner(s, j) == Some(p) && FreeBefore(s, 0, j)
    ensures r == Some(Draw) <==> Full(s) && forall j :: 0 <= j < |LINES| ==> LineOwner(s, j) == None
    ensures r == None <==> !Full(s) && forall j :: 0 <= j < |LINES| ==> LineOwner(s, j) == None
  {
    match FirstLine(s, 0)
    case Some(p) => Some(Win(p))
    case None => if Full(s) then Some(Draw) else None
  }

  /** The loop of checkWinner, with its early return on the first won line. */
  method CheckWinner(squares: Board) returns (r: Option<Outcome>)
    requires |squares| == 9
    ensures r == Winner(squares)
  {
    for k := 0 to |LINES|
      invariant forall i :: 0 <= i < k ==> LineOwner(squares, i) == None
    {
      var (a, b, c) := LINES[k];
      if squares[a].Some? && squares[a] == squares[b] && squares[a] == squares[c] {
        return Some(Win(squares[a].value));
      }
    }
    if Full(squares) {
      return Some(Draw);
    }
    return None;
  }

  /** Writing a mark on an empty square adds one to that player's count and leaves the other's alone. */
  lemma CountPlace(s: Board, i: int, p: Player)
    requires 0 <= i < |s| && s[i] == None
    ensures Count(s[i := Some(p)], p) == Count(s, p) + 1
    ensures Count(s[i := Some(p)], Other(p)) == Count(s, Other(p))
  {
    assert s == s[..i] + [s[i]] + s[i + 1..];
    assert s[i := Some(p)] == s[..i] + [Some(p)] + s[i + 1..];
  }

  /** The Tic-tac-toe page's state. */
  class Game {
    var board: Board
    var currentPlayer: Player
    var winner: Option<Outcome>

    /**
     * The recorded result is the board's, X has made as many moves as O or
     * one more, and while the game runs the count says whose turn it is.
     */
    ghost predicate Valid()
      reads this
    {
      && |board| == 9
      && winner == Winner(board)
      && (Count(board, X) == Count(board, O) || Count(board, X) == Count(board, O) + 1)
      && (winner == None ==> Count(board, X) == Count(board, O) + (if currentPlayer == X then 0 else 1))
    }

    constructor()
      ensures Valid()
      ensures board == seq(9, _ => None) && currentPlayer == X && winner == None
    {
      board := seq(9, _ => None);
      currentPlayer := X;
      winner := None;
      EmptyBoard();
    }

    /** The empty board has no marks and no result. */
    static lemma EmptyBoard()
      ensures Count(seq(9, _ => None), X) == 0 && Count(seq(9, _ => None), O) == 0
      ensures Winner(seq(9, _ => None)) == None
    {
      var e: Board := seq(9, _ => None);
      assert !Full(e) by { assert e[0] == None; }
      assert forall j :: 0 <= j < |LINES| ==> LineOwner(e, j) == None;
      assert Some(X) !in multiset(e) && Some(O) !in multiset(e);
    }

    /**
     * handleClick: ignored on an occupied square or once there is a result;
     * otherwise the current player's mark goes on that square, and the turn
     * passes only when the new board has no result.
     */
    method HandleClick(index: int)
      requires Valid() && 0 <= index < 9
      modifies this
      ensures Valid()
      ensures old(board[index] != None || winner != None) ==>
        board == old(board) && currentPlayer == old(currentPlayer) && winner == old(winner)
      ensures old(board[index] == None && winner == None) ==>
        && board == old(board)[index := Some(old(currentPlayer))]
        && winner == Winner(board)
        && currentPlayer == if winner == None then Other(old(currentPlayer)) else old(currentPlayer)
    {
      if board[index] != None || winner != None {
        return;
      }
      CountPlace(board, index, currentPlayer);
      var newBoard := board[index := Some(currentPlayer)];
      board := newBoard;
      var gameWinner := CheckWinner(newBoard);
      if gameWinner != None {
        winner := gameWinner;
      } else {
        currentPlayer := Other(currentPlayer);
      }
    }

    /** restartGame: nine empty squares, no result, X to move. */
    method RestartGame()
      modifies this
      ensures Valid()
      ensures board == seq(9, _ => None) && currentPlayer == X && winner == None
    {
      board := seq(9, _ => None);
      winner := None;
      currentPlayer := X;
      EmptyBoard();
    }
  }
}
