/** The state of one game in the browser: the board, whose turn it is and
    whether the game is over, with the move and restart handlers. */
module TicTacToeGame {
  import opened TicTacToeRules

  /** A snapshot of the three game variables. */
  datatype GameState = GameState(board: seq<Cell>, xIsNext: bool, isGameOver: bool)

  /** The state the page starts with and every restart returns to. */
  const Initial: GameState := GameState(EmptyBoard, true, false)

  /** The effect of a click on cell idx: ignored when the game is over or
      the cell is taken; otherwise the current mark goes into the cell, the
      turn passes, and a win or a draw ends the game. */
  function Click(st: GameState, idx: Index): (r: GameState)
    requires |st.board| == 9
    ensures |r.board| == 9
  {
    if st.isGameOver || st.board[idx] != Empty then st
    else
      var b := st.board[idx := Mark(Symbol(st.xIsNext))];
      GameState(b, !st.xIsNext, st.isGameOver || CalculateWinner(b) != InProgress)
  }

  /** The state after a sequence of clicks. */
  function Run(st: GameState, clicks: seq<Index>): (r: GameState)
    requires |st.board| == 9
    ensures |r.board| == 9
    decreases |clicks|
  {
    if clicks == [] then st else Run(Click(st, clicks[0]), clicks[1..])
  }

  /** One more click after a sequence of clicks is the sequence extended by
      that click, so a run of `Play` calls is tracked by `Run`. */
  lemma {:induction false} RunSnoc(st: GameState, clicks: seq<Index>, idx: Index)
    requires |st.board| == 9
    ensures Run(st, clicks + [idx]) == Click(Run(st, clicks), idx)
    decreases |clicks|
  {
    if clicks == [] {
      assert clicks + [idx] == [idx];
    } else {
      assert (clicks + [idx])[1..] == clicks[1..] + [idx];
      RunSnoc(Click(st, clicks[0]), clicks[1..], idx);
    }
  }

  /** What every state reached by clicks and restarts satisfies: marks
      alternate starting with X, `xIsNext` says whether the counts are
      equal, and the game is over exactly when the board is decided. */
  predicate Consistent(st: GameState) {
    |st.board| == 9 &&
    Alternating(st.board) &&
    (st.xIsNext <==> Count(st.board, Mark(X)) == Count(st.board, Mark(O))) &&
    (st.isGameOver <==> CalculateWinner(st.board) != InProgress)
  }

  /** The start-up state is consistent: an empty board, X to move, game
      not over. */
  lemma InitialConsistent()
    ensures Consistent(Initial)
  {
    assert !Full(EmptyBoard) by { assert EmptyBoard[0] == Empty; }
  }

  /** A click after the game is over, or on a taken cell, changes nothing. */
  lemma ClickIgnored(st: GameState, idx: Index)
    requires |st.board| == 9 && (st.isGameOver || st.board[idx] != Empty)
    ensures Click(st, idx) == st
  {
  }

  /** An accepted click writes the mover's mark into cell idx and nowhere
      else, flips the turn even when the move ends the game, and ends the
      game exactly when the new board is a win or a draw. */
  lemma ClickAccepted(st: GameState, idx: Index)
    requires |st.board| == 9 && !st.isGameOver && st.board[idx] == Empty
    ensures var r := Click(st, idx);
      |r.board| == 9 &&
      r.board[idx] == Mark(Symbol(st.xIsNext)) &&
      (forall i :: 0 <= i < 9 && i != idx ==> r.board[i] == st.board[i]) &&
      r.xIsNext == !st.xIsNext &&
      (r.isGameOver <==> CalculateWinner(r.board) != InProgress)
  {
  }

  /** A click never empties a cell, never changes a mark, and never
      un-ends a game. */
  lemma ClickMonotone(st: GameState, idx: Index)
    requires |st.board| == 9
    ensures var r := Click(st, idx);
      |r.board| == 9 &&
      (forall i :: 0 <= i < 9 && st.board[i] != Empty ==> r.board[i] == st.board[i]) &&
      (st.isGameOver ==> r.isGameOver)
  {
  }

  /** Clicks keep the state consistent. */
  lemma ClickConsistent(st: GameState, idx: Index)
    requires Consistent(st)
    ensures Consistent(Click(st, idx))
  {
    if !st.isGameOver && st.board[idx] == Empty {
      var m := Mark(Symbol(st.xIsNext));
      CountUpdate(st.board, idx, m, Mark(X));
      CountUpdate(st.board, idx, m, Mark(O));
    }
  }

  /** In a consistent state, a click that produces a win produces it for the
      player who clicked, along a line through the clicked cell. */
  lemma ClickWinIsMovers(st: GameState, idx: Index)
    requires Consistent(st) && !st.isGameOver && st.board[idx] == Empty
    ensures var r := CalculateWinner(Click(st, idx).board);
      r.Win? ==> r.player == Symbol(st.xIsNext) && (r.a == idx || r.b == idx || r.c == idx)
  {
    NewWinIsMovers(st.board, idx, Symbol(st.xIsNext));
  }

  /** Every state reached from a consistent one by clicks is consistent; in
      particular every state of a game started fresh. */
  lemma {:induction false} RunConsistent(st: GameState, clicks: seq<Index>)
    requires Consistent(st)
    ensures Consistent(Run(st, clicks))
    decreases |clicks|
  {
    if clicks != [] {
      ClickConsistent(st, clicks[0]);
      RunConsistent(Click(st, clicks[0]), clicks[1..]);
    }
  }

  /** Over any sequence of clicks, a filled cell keeps its mark. */
  lemma {:induction false} RunKeepsMarks(st: GameState, clicks: seq<Index>, i: Index)
    requires |st.board| == 9 && st.board[i] != Empty
    ensures Run(st, clicks).board[i] == st.board[i]
    decreases |clicks|
  {
    if clicks != [] {
      ClickMonotone(st, clicks[0]);
      RunKeepsMarks(Click(st, clicks[0]), clicks[1..], i);
    }
  }

  /** Once the game is over, no sequence of clicks changes anything. */
  lemma {:induction false} RunAfterGameOver(st: GameState, clicks: seq<Index>)
    requires |st.board| == 9 && st.isGameOver
    ensures Run(st, clicks) == st
    decreases |clicks|
  {
    if clicks != [] {
      RunAfterGameOver(Click(st, clicks[0]), clicks[1..]);
    }
  }

  /** Every state reached by clicks from the initial state is consistent:
      X moves first, the players alternate, and the game is over exactly
      when the board is decided. */
  lemma ReachableConsistent(clicks: seq<Index>)
    ensures Consistent(Run(Initial, clicks))
  {
    InitialConsistent();
    RunConsistent(Initial, clicks);
  }

  /** Starting from the initial state, it is X's turn exactly after an even
      number of moves. */
  lemma TurnFollowsMoveCount(clicks: seq<Index>)
    ensures var r := Run(Initial, clicks);
      r.xIsNext <==> Moves(r.board) % 2 == 0
  {
    ReachableConsistent(clicks);
    TurnParity(Run(Initial, clicks).board);
  }

  class Game {
    var board: array<Cell>
    var xIsNext: bool
    var isGameOver: bool

    ghost predicate Valid()
      reads this
    {
      board.Length == 9
    }

    /** The three game variables as a value. */
    ghost function State(): GameState
      reads this, board
    {
      GameState(board[..], xIsNext, isGameOver)
    }

    /** The game state as the page sets it up, followed by the first render. */
    constructor ()
      ensures Valid() && fresh(board)
      ensures State() == Initial && Consistent(State())
    {
      board := new Cell[9](_ => Empty);
      xIsNext := true;
      isGameOver := false;
      new;
      assert board[..] == EmptyBoard;
      UpdateStatus();
      InitialConsistent();
    }

    /** The winner check over the current board: the lines in table order,
        the first complete one wins; otherwise a full board is a draw. */
    method Evaluate() returns (r: Outcome)
      requires Valid()
      ensures r == CalculateWinner(board[..])
    {
      ghost var s := board[..];
      var k := 0;
      while k < |Lines|
        invariant 0 <= k <= |Lines|
        invariant FirstLine(s, k) == FirstLine(s, 0)
      {
        var (a, b, c) := Lines[k];
        if board[a] != Empty && board[a] == board[b] && board[a] == board[c] {
          return Win(board[a].player, a, b, c);
        }
        k := k + 1;
      }
      var i := 0;
      while i < 9
        invariant 0 <= i <= 9
        invariant forall j :: 0 <= j < i ==> board[j] != Empty
      {
        if board[i] == Empty {
          return InProgress;
        }
        i := i + 1;
      }
      return Draw;
    }

    /** The rule part of the status update: a win or a draw ends the game;
        an undecided board leaves the flag as it was. */
    method UpdateStatus()
      requires Valid()
      modifies this`isGameOver
      ensures isGameOver == (old(isGameOver) || CalculateWinner(board[..]) != InProgress)
    {
      var result := Evaluate();
      if result.Win? {
        isGameOver := true;
        return;
      }
      if result == Draw {
        isGameOver := true;
        return;
      }
    }

    /** A click on cell idx, followed by the render that updates the status. */
    method Play(idx: Index)
      requires Valid()
      modifies board, this`xIsNext, this`isGameOver
      ensures Valid()
      ensures State() == Click(old(State()), idx)
      ensures Consistent(old(State())) ==> Consistent(State())
    {
      if Consistent(State()) {
        ClickConsistent(State(), idx);
      }
      if isGameOver || board[idx] != Empty {
        return;
      }
      board[idx] := if xIsNext then Mark(X) else Mark(O);
      xIsNext := !xIsNext;
      UpdateStatus();
    }

    /** The restart button: a fresh empty board, X to move, game not over,
        whatever the state before. */
    method Restart()
      modifies this
      ensures Valid() && fresh(board)
      ensures State() == Initial && Consistent(State())
    {
      board := new Cell[9](_ => Empty);
      xIsNext := true;
      isGameOver := false;
      assert board[..] == EmptyBoard;
      UpdateStatus();
      InitialConsistent();
    }
  }
}
