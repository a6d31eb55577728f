/** Whole games: a row win, a draw, a click on a taken cell, clicks after
    the end, and a double restart on a `Game` object. Each game is worked
    one click at a time through the states it passes. */
module TicTacToeScenarios {
  import opened TicTacToeRules
  import opened TicTacToeGame

  // X@0, O@3, X@1, O@4, X@2: X takes the top row.
  const RowWin1 := GameState(EmptyBoard[0 := Mark(X)], false, false)
  const RowWin2 := GameState(RowWin1.board[3 := Mark(O)], true, false)
  const RowWin3 := GameState(RowWin2.board[1 := Mark(X)], false, false)
  const RowWin4 := GameState(RowWin3.board[4 := Mark(O)], true, false)
  const RowWin5 := GameState(RowWin4.board[2 := Mark(X)], false, true)

  lemma RowWinStep1() ensures Click(Initial, 0) == RowWin1 {}
  lemma RowWinStep2() ensures Click(RowWin1, 3) == RowWin2 {}
  lemma RowWinStep3() ensures Click(RowWin2, 1) == RowWin3 {}
  lemma RowWinStep4() ensures Click(RowWin3, 4) == RowWin4 {}
  lemma RowWinStep5()
    ensures Click(RowWin4, 2) == RowWin5
    ensures CalculateWinner(RowWin5.board) == Win(X, 0, 1, 2)
  {
  }

  /** The top-row game ends in a win for X along (0, 1, 2); the winning
      move still passes the turn to O, and the game is over. */
  lemma RowWin()
    ensures Run(Initial, [0, 3, 1, 4, 2]) == RowWin5
    ensures CalculateWinner(RowWin5.board) == Win(X, 0, 1, 2)
    ensures !RowWin5.xIsNext && RowWin5.isGameOver
  {
    RowWinStep1(); RowWinStep2(); RowWinStep3(); RowWinStep4(); RowWinStep5();
  }

  // X@0, O@1, X@2, O@4, X@3, O@5, X@7, O@6, X@8: the board fills without a line.
  const Draw1 := GameState(EmptyBoard[0 := Mark(X)], false, false)
  const Draw2 := GameState(Draw1.board[1 := Mark(O)], true, false)
  const Draw3 := GameState(Draw2.board[2 := Mark(X)], false, false)
  const Draw4 := GameState(Draw3.board[4 := Mark(O)], true, false)
  const Draw5 := GameState(Draw4.board[3 := Mark(X)], false, false)
  const Draw6 := GameState(Draw5.board[5 := Mark(O)], true, false)
  const Draw7 := GameState(Draw6.board[7 := Mark(X)], false, false)
  const Draw8 := GameState(Draw7.board[6 := Mark(O)], true, false)
  const Draw9 := GameState(Draw8.board[8 := Mark(X)], false, true)

  lemma DrawStep1() ensures Click(Initial, 0) == Draw1 {}
  lemma DrawStep2() ensures Click(Draw1, 1) == Draw2 {}
  lemma DrawStep3() ensures Click(Draw2, 2) == Draw3 {}
  lemma DrawStep4() ensures Click(Draw3, 4) == Draw4 {}
  lemma DrawStep5() ensures Click(Draw4, 3) == Draw5 {}
  lemma DrawStep6() ensures Click(Draw5, 5) == Draw6 {}
  lemma DrawStep7() ensures Click(Draw6, 7) == Draw7 {}
  lemma DrawStep8()
    ensures Click(Draw7, 6) == Draw8
  {
    var b := Draw8.board;
    assert b == Draw7.board[6 := Mark(O)];
    assert b[8] == Empty;
    assert CalculateWinner(b) == InProgress by {
      forall k | 0 <= k < |Lines| ensures !Complete(b, k) {
        if k == 0 {} else if k == 1 {} else if k == 2 {} else if k == 3 {}
        else if k == 4 {} else if k == 5 {} else if k == 6 {} else {}
      }
    }
  }

  lemma DrawStep9()
    ensures Click(Draw8, 8) == Draw9
    ensures CalculateWinner(Draw9.board) == Draw
  {
  }

  /** The nine-move game is a draw; the last move, X's, passes the turn to O. */
  lemma FullBoardDraw()
    ensures Run(Initial, [0, 1, 2, 4, 3, 5, 7, 6, 8]) == Draw9
    ensures CalculateWinner(Draw9.board) == Draw
    ensures !Draw9.xIsNext && Draw9.isGameOver
  {
    DrawStep1(); DrawStep2(); DrawStep3(); DrawStep4(); DrawStep5();
    DrawStep6(); DrawStep7(); DrawStep8(); DrawStep9();
  }

  /** A second click on cell 0 is ignored: cell 0 keeps X and O is still to move. */
  lemma TakenCell()
    ensures Run(Initial, [0, 0]) == Run(Initial, [0])
    ensures Run(Initial, [0]) == GameState(EmptyBoard[0 := Mark(X)], false, false)
  {
  }

  /** A player clicking the cells of `clicks` in order: each click is one
      call of the click handler, and the game ends up in the state `Run`
      gives for the whole sequence. */
  method PlayClicks(g: Game, clicks: seq<Index>)
    requires g.Valid()
    modifies g.board, g`xIsNext, g`isGameOver
    ensures g.Valid()
    ensures g.State() == Run(old(g.State()), clicks)
    ensures Consistent(old(g.State())) ==> Consistent(g.State())
  {
    ghost var st0 := g.State();
    for n := 0 to |clicks|
      invariant g.Valid() && g.board == old(g.board)
      invariant g.State() == Run(st0, clicks[..n])
    {
      RunSnoc(st0, clicks[..n], clicks[n]);
      assert clicks[..n + 1] == clicks[..n] + [clicks[n]];
      g.Play(clicks[n]);
    }
    assert clicks[..|clicks|] == clicks;
    if Consistent(st0) {
      RunConsistent(st0, clicks);
    }
  }

  /** The same game on a `Game` object: the win ends the game, a later
      click is ignored, and restarting twice is the same as once. */
  method PlayAndRestart() {
    var g := new Game();
    PlayClicks(g, [0, 3, 1, 4, 2]);
    RowWin();
    g.Play(8);
    assert g.isGameOver;
    g.Restart();
    var once := g.State();
    g.Restart();
    assert g.State() == once == Initial;
  }
}
