/**
 * The rows of the help table (`DisplayHelpTable`, Program.cs): row i is
 * move i's name followed by its result against every move, seen from
 * the player who picked move i. Rendering the rows with `ConsoleTable`
 * is not part of this model.
 */
module HelpTable {
  import opened Winner

  /** The text of one cell for a `GetWinner` result. */
  function Cell(result: int): (c: string)
    ensures c == "Draw" <==> result == 0
    ensures c == "Win" <==> result == 1
    ensures c == "Lose" <==> result != 0 && result != 1
  {
    if result == 0 then "Draw" else if result == 1 then "Win" else "Lose"
  }

  /** The row for move i: its name, then one cell per opposing move. */
  function Row(moves: seq<string>, i: int): seq<string>
    requires 0 <= i < |moves|
  {
    [moves[i]] + seq(|moves|, j requires 0 <= j < |moves| => Cell(GetWinner(i, j, |moves|)))
  }

  function Table(moves: seq<string>): seq<seq<string>>
  {
    seq(|moves|, i requires 0 <= i < |moves| => Row(moves, i))
  }

  /** The two nested loops of `DisplayHelpTable`: a fresh row array per
      move, its name in column 0 and the result against move j in column
      j + 1; each finished row is added to the table. */
  method HelpTableRows(moves: seq<string>) returns (rows: seq<seq<string>>)
    ensures rows == Table(moves)
  {
    var n := |moves|;
    rows := [];
    for i := 0 to n
      invariant rows == Table(moves)[..i]
    {
      var row := new string[n + 1];
      row[0] := moves[i];
      for j := 0 to n
        invariant row[0] == moves[i]
        invariant forall k :: 0 <= k < j ==> row[k + 1] == Cell(GetWinner(i, k, n))
      {
        row[j + 1] := Cell(GetWinner(i, j, n));
      }
      assert row[..] == Row(moves, i);
      rows := rows + [row[..]];
    }
  }

  /** How often `x` occurs in `s`. */
  function Count(s: seq<string>, x: string): nat
  {
    if |s| == 0 then 0 else (if s[0] == x then 1 else 0) + Count(s[1..], x)
  }

  lemma {:induction false} CountAppend(s: seq<string>, t: seq<string>, x: string)
    ensures Count(s + t, x) == Count(s, x) + Count(t, x)
  {
    if |s| == 0 {
      assert s + t == t;
    } else {
      assert (s + t)[1..] == s[1..] + t;
      CountAppend(s[1..], t, x);
    }
  }

  lemma {:induction false} CountUniform(s: seq<string>, y: string, x: string)
    requires forall k :: 0 <= k < |s| ==> s[k] == y
    ensures Count(s, x) == if x == y then |s| else 0
  {
    if |s| > 0 {
      CountUniform(s[1..], y, x);
    }
  }

  /** Counting over four consecutive stretches of `s`, each holding one value. */
  lemma CountFourStretches(s: seq<string>, k1: int, k2: int, k3: int,
                           v0: string, v1: string, v2: string, v3: string, x: string)
    requires 0 <= k1 <= k2 <= k3 <= |s|
    requires forall j :: 0 <= j < k1 ==> s[j] == v0
    requires forall j :: k1 <= j < k2 ==> s[j] == v1
    requires forall j :: k2 <= j < k3 ==> s[j] == v2
    requires forall j :: k3 <= j < |s| ==> s[j] == v3
    ensures Count(s, x) ==
      (if x == v0 then k1 else 0) + (if x == v1 then k2 - k1 else 0) +
      (if x == v2 then k3 - k2 else 0) + (if x == v3 then |s| - k3 else 0)
  {
    assert s == s[..k1] + s[k1..k2] + s[k2..k3] + s[k3..];
    CountAppend(s[..k1] + s[k1..k2] + s[k2..k3], s[k3..], x);
    CountAppend(s[..k1] + s[k1..k2], s[k2..k3], x);
    CountAppend(s[..k1], s[k1..k2], x);
    CountUniform(s[..k1], v0, x);
    CountUniform(s[k1..k2], v1, x);
    CountUniform(s[k2..k3], v2, x);
    CountUniform(s[k3..], v3, x);
  }

  /** Cell j of a row for move i, read off from the positions of i and j
      when there are n = 2p + 1 moves. */
  function PositionCell(i: int, j: int, n: int, p: int): string
  {
    if j == i then "Draw"
    else if j < i then (if i - j <= p then "Win" else "Lose")
    else (if i - j + n <= p then "Win" else "Lose")
  }

  lemma CellByPosition(moves: seq<string>, i: int, j: int)
    requires |moves| % 2 == 1
    requires 0 <= i < |moves| && 0 <= j < |moves|
    ensures Row(moves, i)[1..][j] == PositionCell(i, j, |moves|, |moves| / 2)
  {
    GetWinnerMeaning(i, j, |moves|);
  }

  lemma CellsByPosition(moves: seq<string>, i: int)
    requires |moves| % 2 == 1
    requires 0 <= i < |moves|
    ensures forall j :: 0 <= j < |moves| ==> Row(moves, i)[1..][j] == PositionCell(i, j, |moves|, |moves| / 2)
  {
    forall j | 0 <= j < |moves|
      ensures Row(moves, i)[1..][j] == PositionCell(i, j, |moves|, |moves| / 2)
    {
      CellByPosition(moves, i, j);
    }
  }

  /** What a cell says, in terms of the cyclic rule: Draw only on the
      diagonal, Win exactly when the row's move beats the column's. */
  lemma CellMeaning(moves: seq<string>, i: int, j: int)
    requires 0 <= i < |moves| && 0 <= j < |moves|
    ensures Row(moves, i)[0] == moves[i]
    ensures Row(moves, i)[j + 1] == "Draw" <==> i == j
    ensures Row(moves, i)[j + 1] == "Win" <==> Beats(i, j, |moves|)
    ensures Row(moves, i)[j + 1] == "Lose" <==> i != j && !Beats(i, j, |moves|)
  {
    GetWinnerMeaning(i, j, |moves|);
  }

  /** The table is consistent with itself: for an odd number of moves,
      row i wins against j exactly where row j loses against i. */
  lemma WinMirrorsLose(moves: seq<string>, i: int, j: int)
    requires |moves| % 2 == 1
    requires 0 <= i < |moves| && 0 <= j < |moves|
    ensures Row(moves, i)[j + 1] == "Win" <==> Row(moves, j)[i + 1] == "Lose"
  {
    GetWinnerAntisymmetric(i, j, |moves|);
  }

  /** Counts for a row whose move lies in the second half (i >= n/2): it
      loses to the moves before i - n/2 and after i, and beats the n/2 moves
      just before it. */
  lemma RowCountsLate(moves: seq<string>, i: int)
    requires |moves| % 2 == 1
    requires |moves| / 2 <= i < |moves|
    ensures Count(Row(moves, i)[1..], "Draw") == 1
    ensures Count(Row(moves, i)[1..], "Win") == |moves| / 2
    ensures Count(Row(moves, i)[1..], "Lose") == |moves| / 2
  {
    var p := |moves| / 2;
    var cells := Row(moves, i)[1..];
    CellsByPosition(moves, i);
    CountFourStretches(cells, i - p, i, i + 1, "Lose", "Win", "Draw", "Lose", "Draw");
    CountFourStretches(cells, i - p, i, i + 1, "Lose", "Win", "Draw", "Lose", "Win");
    CountFourStretches(cells, i - p, i, i + 1, "Lose", "Win", "Draw", "Lose", "Lose");
  }

  /** Counts for a row whose move lies in the first half (i < n/2): it beats
      the moves before it and the last n/2 - i moves, and loses to the n/2
      moves just after it. */
  lemma RowCountsEarly(moves: seq<string>, i: int)
    requires |moves| % 2 == 1
    requires 0 <= i < |moves| / 2
    ensures Count(Row(moves, i)[1..], "Draw") == 1
    ensures Count(Row(moves, i)[1..], "Win") == |moves| / 2
    ensures Count(Row(moves, i)[1..], "Lose") == |moves| / 2
  {
    var p := |moves| / 2;
    var cells := Row(moves, i)[1..];
    CellsByPosition(moves, i);
    CountFourStretches(cells, i, i + 1, i + p + 1, "Win", "Draw", "Lose", "Win", "Draw");
    CountFourStretches(cells, i, i + 1, i + p + 1, "Win", "Draw", "Lose", "Win", "Win");
    CountFourStretches(cells, i, i + 1, i + p + 1, "Win", "Draw", "Lose", "Win", "Lose");
  }

  /** The fairness of the game, row by row: for an odd number of moves,
      each move draws only against itself, beats exactly n/2 moves and
      loses to exactly n/2. */
  lemma RowCounts(moves: seq<string>, i: int)
    requires |moves| % 2 == 1
    requires 0 <= i < |moves|
    ensures Row(moves, i)[0] == moves[i] && Row(moves, i)[i + 1] == "Draw"
    ensures Count(Row(moves, i)[1..], "Draw") == 1
    ensures Count(Row(moves, i)[1..], "Win") == |moves| / 2
    ensures Count(Row(moves, i)[1..], "Lose") == |moves| / 2
  {
    CellByPosition(moves, i, i);
    if i >= |moves| / 2 {
      RowCountsLate(moves, i);
    } else {
      RowCountsEarly(moves, i);
    }
  }
}
