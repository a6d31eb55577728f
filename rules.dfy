/** The rules of tic-tac-toe as the browser game computes them: cells, the
    eight winning lines, and the outcome of a board. */
module TicTacToeRules {

  datatype Option<T> = None | Some(value: T)

  datatype Player = X | O

  /** One square of the board: empty (`null` in the game) or holding a mark. */
  datatype Cell = Empty | Mark(player: Player)

  /** A position on the 3x3 board, numbered 0..8 row by row. */
  type Index = i: nat | i < 9

  /** What the board says: a win for `player` along the line (a, b, c),
      a draw on a full board, or a game still in progress. */
  datatype Outcome = Win(player: Player, a: Index, b: Index, c: Index) | Draw | InProgress

  /** The eight lines in the order they are scanned: rows, columns, diagonals. */
  const Lines: seq<(Index, Index, Index)> :=
    [(0, 1, 2), (3, 4, 5), (6, 7, 8),
     (0, 3, 6), (1, 4, 7), (2, 5, 8),
     (0, 4, 8), (2, 4, 6)]

  /** The empty board the game starts and restarts with. */
  const EmptyBoard: seq<Cell> := seq(9, _ => Empty)

  /** The mark placed by the player whose turn it is. */
  function Symbol(xIsNext: bool): (p: Player) {
    if xIsNext then X else O
  }

  /** Line k holds three equal marks. */
  predicate Complete(s: seq<Cell>, k: nat)
    requires |s| == 9 && k < |Lines|
  {
    var (a, b, c) := Lines[k];
    s[a] != Empty && s[a] == s[b] && s[a] == s[c]
  }

  /** No line of the board is complete. */
  predicate NoLine(s: seq<Cell>)
    requires |s| == 9
  {
    forall k :: 0 <= k < |Lines| ==> !Complete(s, k)
  }

  /** Every cell holds a mark. */
  predicate Full(s: seq<Cell>) {
    forall i :: 0 <= i < |s| ==> s[i] != Empty
  }

  /** The first complete line at position k or later in the table, if any. */
  function FirstLine(s: seq<Cell>, k: nat): (r: Option<nat>)
    requires |s| == 9 && k <= |Lines|
    ensures r.Some? ==> k <= r.value < |Lines| && Complete(s, r.value)
    ensures r.Some? ==> forall j :: k <= j < r.value ==> !Complete(s, j)
    ensures r.None? ==> forall j :: k <= j < |Lines| ==> !Complete(s, j)
    decreases |Lines| - k
  {
    if k == |Lines| then None
    else if Complete(s, k) then Some(k)
    else FirstLine(s, k + 1)
  }

  /** The outcome of a board: the first complete line in table order wins;
      with no complete line a full board is a draw, any other board is in
      progress. */
  function CalculateWinner(s: seq<Cell>): (r: Outcome)
    requires |s| == 9
    ensures r.Win? <==> !NoLine(s)
    ensures r.Win? ==>
      exists k :: 0 <= k < |Lines| && Lines[k] == (r.a, r.b, r.c) && Complete(s, k) &&
        s[r.a] == Mark(r.player) && forall j :: 0 <= j < k ==> !Complete(s, j)
    ensures r == Draw <==> NoLine(s) && Full(s)
    ensures r == InProgress <==> NoLine(s) && !Full(s)
  {
    match FirstLine(s, 0)
    case Some(k) =>
      var (a, b, c) := Lines[k];
      Win(s[a].player, a, b, c)
    case None =>
      if Full(s) then Draw else InProgress
  }

  /** A win names one of the eight lines, and all three of its cells hold
      the winner's mark. */
  lemma WinLineHoldsWinner(s: seq<Cell>)
    requires |s| == 9 && CalculateWinner(s).Win?
    ensures var r := CalculateWinner(s);
      s[r.a] == Mark(r.player) && s[r.b] == Mark(r.player) && s[r.c] == Mark(r.player) &&
      (r.a, r.b, r.c) in Lines
  {
    var r := CalculateWinner(s);
    var k :| 0 <= k < |Lines| && Lines[k] == (r.a, r.b, r.c) && Complete(s, k) &&
      s[r.a] == Mark(r.player) && forall j :: 0 <= j < k ==> !Complete(s, j);
    assert Lines[k] in Lines;
  }

  /** If line k is complete and no earlier line is, the outcome is a win for
      the mark on line k along exactly that line. */
  lemma EarliestLineWins(s: seq<Cell>, k: nat)
    requires |s| == 9 && k < |Lines| && Complete(s, k)
    requires forall j :: 0 <= j < k ==> !Complete(s, j)
    ensures CalculateWinner(s) == Win(s[Lines[k].0].player, Lines[k].0, Lines[k].1, Lines[k].2)
  {
    var r := CalculateWinner(s);
    var k' :| 0 <= k' < |Lines| && Lines[k'] == (r.a, r.b, r.c) && Complete(s, k') &&
      s[r.a] == Mark(r.player) && forall j :: 0 <= j < k' ==> !Complete(s, j);
    assert k' == k;
  }

  /** A move onto an empty cell of a board with no complete line can only
      produce a win through that cell, and only for the player who moved. */
  lemma NewWinIsMovers(s: seq<Cell>, idx: Index, p: Player)
    requires |s| == 9 && NoLine(s) && s[idx] == Empty
    ensures var r := CalculateWinner(s[idx := Mark(p)]);
      r.Win? ==> r.player == p && (r.a == idx || r.b == idx || r.c == idx)
  {
    var t := s[idx := Mark(p)];
    var r := CalculateWinner(t);
    if r.Win? {
      var k :| 0 <= k < |Lines| && Lines[k] == (r.a, r.b, r.c) && Complete(t, k) &&
        t[r.a] == Mark(r.player) && forall j :: 0 <= j < k ==> !Complete(t, j);
      if r.a != idx && r.b != idx && r.c != idx {
        assert Complete(s, k);
        assert false;
      }
    }
  }

  /** The number of cells of `s` equal to `c`. */
  function Count(s: seq<Cell>, c: Cell): (n: nat)
    ensures n <= |s|
    ensures n == 0 <==> c !in s
  {
    if s == [] then 0 else (if s[0] == c then 1 else 0) + Count(s[1..], c)
  }

  /** Writing `v` into cell i moves one unit of count from the old value to `v`. */
  lemma {:induction false} CountUpdate(s: seq<Cell>, i: nat, v: Cell, c: Cell)
    requires i < |s|
    ensures Count(s[i := v], c) ==
      Count(s, c) - (if s[i] == c then 1 else 0) + (if v == c then 1 else 0)
  {
    if i == 0 {
      assert s[i := v][1..] == s[1..];
    } else {
      assert s[i := v][1..] == s[1..][i - 1 := v];
      CountUpdate(s[1..], i - 1, v, c);
    }
  }

  /** Every cell is empty, an X or an O. */
  lemma {:induction false} CountSum(s: seq<Cell>)
    ensures Count(s, Empty) + Count(s, Mark(X)) + Count(s, Mark(O)) == |s|
  {
    if s != [] {
      CountSum(s[1..]);
      match s[0]
      case Empty =>
      case Mark(X) =>
      case Mark(O) =>
    }
  }

  /** The number of moves made so far on a board. */
  function Moves(s: seq<Cell>): (n: nat) {
    |s| - Count(s, Empty)
  }

  /** Marks alternate starting with X: there are as many X's as O's, or one
      more X. */
  predicate Alternating(s: seq<Cell>) {
    Count(s, Mark(X)) == Count(s, Mark(O)) || Count(s, Mark(X)) == Count(s, Mark(O)) + 1
  }

  /** On an alternating board it is X's turn exactly after an even number of
      moves. */
  lemma TurnParity(s: seq<Cell>)
    requires Alternating(s)
    ensures Count(s, Mark(X)) == Count(s, Mark(O)) <==> Moves(s) % 2 == 0
  {
    CountSum(s);
  }

  /** A draw on an alternating board always comes after five X's and four O's. */
  lemma DrawCounts(s: seq<Cell>)
    requires |s| == 9 && CalculateWinner(s) == Draw && Alternating(s)
    ensures Count(s, Mark(X)) == 5 && Count(s, Mark(O)) == 4
  {
    CountSum(s);
    assert Empty !in s by {
      assert Full(s);
    }
  }
}
