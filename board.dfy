/**
 * The game logic of the Lights Out board: generating the starting board from
 * a stream of random draws, the bounds-checked toggle of one cell, the move
 * that toggles a cell and its orthogonal neighbours on a deep copy of the
 * board, and the win check.
 */
module Board {
  import CellId

  /** The board state: an array of rows, each an array of cells; true is lit */
  type Grid = seq<seq<bool>>

  /** g has exactly nrows rows of exactly ncols cells each */
  predicate IsRect(g: Grid, nrows: nat, ncols: nat) {
    |g| == nrows && forall y :: 0 <= y < |g| ==> |g[y]| == ncols
  }

  /** The bounds test of flipCell */
  predicate OnBoard(nrows: nat, ncols: nat, y: int, x: int) {
    0 <= x < ncols && 0 <= y < nrows
  }

  /** Two boards of the same dimensions that agree on every cell are equal */
  lemma GridExt(g: Grid, h: Grid, nrows: nat, ncols: nat)
    requires IsRect(g, nrows, ncols) && IsRect(h, nrows, ncols)
    requires forall y, x :: 0 <= y < nrows && 0 <= x < ncols ==> g[y][x] == h[y][x]
    ensures g == h
  {
    forall y | 0 <= y < nrows
      ensures g[y] == h[y]
    {
      assert forall x :: 0 <= x < ncols ==> g[y][x] == h[y][x];
    }
  }

  // ---------------------------------------------------------------------------
  // Board generation
  // ---------------------------------------------------------------------------

  lemma RowMajorBound(nrows: nat, ncols: nat, y: nat, x: nat)
    requires y < nrows && x < ncols
    ensures y * ncols + x < nrows * ncols
  {
    assert (y + 1) * ncols <= nrows * ncols by {
      assert nrows * ncols == (y + 1) * ncols + (nrows - y - 1) * ncols;
    }
  }

  /**
   * The position, in the stream of random draws, of the draw that decides
   * cell (y, x): the nested loops of createBoard draw row by row, left to right.
   */
  function DrawIndex(nrows: nat, ncols: nat, y: nat, x: nat): (k: nat)
    requires y < nrows && x < ncols
    ensures k < nrows * ncols
  {
    RowMajorBound(nrows, ncols, y, x);
    y * ncols + x
  }

  /** Distinct cells are decided by distinct draws */
  lemma DrawIndexInjective(nrows: nat, ncols: nat, y1: nat, x1: nat, y2: nat, x2: nat)
    requires y1 < nrows && x1 < ncols && y2 < nrows && x2 < ncols
    requires DrawIndex(nrows, ncols, y1, x1) == DrawIndex(nrows, ncols, y2, x2)
    ensures y1 == y2 && x1 == x2
  {
    if y1 < y2 {
      RowMajorBound(y2, ncols, y1, x1);
    } else if y2 < y1 {
      RowMajorBound(y1, ncols, y2, x2);
    }
  }

  /** Every draw decides a cell: draw k decides cell (k / ncols, k % ncols) */
  lemma DrawIndexOnto(nrows: nat, ncols: nat, k: nat)
    requires k < nrows * ncols
    ensures 0 < ncols && k / ncols < nrows
    ensures DrawIndex(nrows, ncols, k / ncols, k % ncols) == k
  {
    assert 0 < ncols;
  }

  /** Every draw of Math.random() lies in [0, 1) */
  predicate IsUnitDraws(draws: seq<real>) {
    forall k :: 0 <= k < |draws| ==> 0.0 <= draws[k] < 1.0
  }

  /**
   * board is what createBoard builds from the draws: nrows rows of ncols
   * cells, where cell (y, x) is lit exactly when its draw is below the chance.
   */
  predicate IsGenerated(board: Grid, nrows: nat, ncols: nat, chance: real, draws: seq<real>) {
    && |draws| == nrows * ncols
    && IsRect(board, nrows, ncols)
    && forall y, x :: 0 <= y < nrows && 0 <= x < ncols ==>
         board[y][x] == (draws[DrawIndex(nrows, ncols, y, x)] < chance)
  }

  /**
   * createBoard, with the random source passed in: draws holds the values
   * Math.random() returns, in the order the loops ask for them.
   */
  method CreateBoard(nrows: nat, ncols: nat, chanceLightStartsOn: real, draws: seq<real>)
    returns (initialBoard: Grid)
    requires |draws| == nrows * ncols
    ensures IsGenerated(initialBoard, nrows, ncols, chanceLightStartsOn, draws)
  {
    initialBoard := [];
    var next := 0;  // how many draws the loops have taken so far
    for y := 0 to nrows
      invariant next == y * ncols
      invariant IsRect(initialBoard, y, ncols)
      invariant forall i, j :: 0 <= i < y && 0 <= j < ncols ==>
        initialBoard[i][j] == (draws[DrawIndex(nrows, ncols, i, j)] < chanceLightStartsOn)
    {
      var boardRow := [];
      for x := 0 to ncols
        invariant next == y * ncols + x
        invariant |boardRow| == x
        invariant forall j :: 0 <= j < x ==>
          boardRow[j] == (draws[DrawIndex(nrows, ncols, y, j)] < chanceLightStartsOn)
      {
        RowMajorBound(nrows, ncols, y, x);
        if draws[next] < chanceLightStartsOn {
          boardRow := boardRow + [true];
        } else {
          boardRow := boardRow + [false];
        }
        next := next + 1;
      }
      initialBoard := initialBoard + [boardRow];
    }
  }

  /** The same draws always give the same board */
  lemma GeneratedUnique(b1: Grid, b2: Grid, nrows: nat, ncols: nat, chance: real, draws: seq<real>)
    requires IsGenerated(b1, nrows, ncols, chance, draws)
    requires IsGenerated(b2, nrows, ncols, chance, draws)
    ensures b1 == b2
  {
    GridExt(b1, b2, nrows, ncols);
  }

  /** The board with every cell unlit */
  function Blank(nrows: nat, ncols: nat): (g: Grid)
    ensures IsRect(g, nrows, ncols)
    ensures forall y, x :: 0 <= y < nrows && 0 <= x < ncols ==> !g[y][x]
  {
    seq(nrows, _ => seq(ncols, _ => false))
  }

  /** A chance of 0 lights no cell, so the game starts won */
  lemma ChanceZeroBlank(board: Grid, nrows: nat, ncols: nat, draws: seq<real>)
    requires IsUnitDraws(draws)
    requires IsGenerated(board, nrows, ncols, 0.0, draws)
    ensures board == Blank(nrows, ncols)
    ensures HasWon(board)
  {
    GridExt(board, Blank(nrows, ncols), nrows, ncols);
  }

  /** A chance of 1 lights every cell, so a non-empty board does not start won */
  lemma ChanceOneAllLit(board: Grid, nrows: nat, ncols: nat, draws: seq<real>)
    requires IsUnitDraws(draws)
    requires IsGenerated(board, nrows, ncols, 1.0, draws)
    ensures forall y, x :: 0 <= y < nrows && 0 <= x < ncols ==> board[y][x]
    ensures nrows > 0 && ncols > 0 ==> !HasWon(board)
  {
    if nrows > 0 && ncols > 0 {
      assert board[0][0];
    }
  }

  // ---------------------------------------------------------------------------
  // Win check
  // ---------------------------------------------------------------------------

  /** `row.every(cell => cell === false)` */
  function RowUnlit(row: seq<bool>): (unlit: bool)
    ensures unlit <==> forall x :: 0 <= x < |row| ==> !row[x]
  {
    |row| == 0 || (!row[0] && RowUnlit(row[1..]))
  }

  /** hasWon: `board.every(row => row.every(cell => cell === false))` */
  function HasWon(board: Grid): (won: bool)
    ensures won <==> forall y, x :: 0 <= y < |board| && 0 <= x < |board[y]| ==> !board[y][x]
  {
    |board| == 0 || (RowUnlit(board[0]) && HasWon(board[1..]))
  }

  /** The won boards are exactly the blank ones */
  lemma WonIffBlank(board: Grid, nrows: nat, ncols: nat)
    requires IsRect(board, nrows, ncols)
    ensures HasWon(board) <==> board == Blank(nrows, ncols)
  {
    if HasWon(board) {
      GridExt(board, Blank(nrows, ncols), nrows, ncols);
    }
  }

  /** A board with a lit cell is not won */
  lemma LitCellNotWon(board: Grid, y: nat, x: nat)
    requires y < |board| && x < |board[y]| && board[y][x]
    ensures !HasWon(board)
  {
  }

  // ---------------------------------------------------------------------------
  // The move
  // ---------------------------------------------------------------------------

  /** flipCell on the board as a value: negate cell (y, x) when it is on the board */
  function Toggle(g: Grid, nrows: nat, ncols: nat, y: int, x: int): (r: Grid)
    requires IsRect(g, nrows, ncols)
    ensures IsRect(r, nrows, ncols)
    ensures forall i, j :: 0 <= i < nrows && 0 <= j < ncols ==> r[i][j] == (g[i][j] != (i == y && j == x))
  {
    if OnBoard(nrows, ncols, y, x) then g[y := g[y][x := !g[y][x]]] else g
  }

  /** Toggling a coordinate off the board changes nothing */
  lemma ToggleOffBoard(g: Grid, nrows: nat, ncols: nat, y: int, x: int)
    requires IsRect(g, nrows, ncols) && !OnBoard(nrows, ncols, y, x)
    ensures Toggle(g, nrows, ncols, y, x) == g
  {
  }

  /** The board copy as a value: its rows, each the cells of that row */
  function Cells(a: array2<bool>): (g: Grid)
    reads a
    ensures IsRect(g, a.Length0, a.Length1)
    ensures forall y, x :: 0 <= y < a.Length0 && 0 <= x < a.Length1 ==> g[y][x] == a[y, x]
  {
    seq(a.Length0, y reads a requires 0 <= y < a.Length0 =>
      seq(a.Length1, x reads a requires 0 <= x < a.Length1 => a[y, x]))
  }

  /** flipCell: negate boardCopy[y][x] in place when (y, x) is on the board */
  method FlipCell(y: int, x: int, nrows: nat, ncols: nat, boardCopy: array2<bool>)
    requires boardCopy.Length0 == nrows && boardCopy.Length1 == ncols
    modifies boardCopy
    ensures Cells(boardCopy) == Toggle(old(Cells(boardCopy)), nrows, ncols, y, x)
  {
    ghost var before := Cells(boardCopy);
    if x >= 0 && x < ncols && y >= 0 && y < nrows {
      boardCopy[y, x] := !boardCopy[y, x];
    }
    GridExt(Cells(boardCopy), Toggle(before, nrows, ncols, y, x), nrows, ncols);
  }

  /** The five flips of a move at (y, x), in the order the source makes them */
  function FlipAround(g: Grid, nrows: nat, ncols: nat, y: int, x: int): (r: Grid)
    requires IsRect(g, nrows, ncols)
    ensures IsRect(r, nrows, ncols)
  {
    var g1 := Toggle(g, nrows, ncols, y, x);
    var g2 := Toggle(g1, nrows, ncols, y + 1, x);
    var g3 := Toggle(g2, nrows, ncols, y - 1, x);
    var g4 := Toggle(g3, nrows, ncols, y, x - 1);
    Toggle(g4, nrows, ncols, y, x + 1)
  }

  function Abs(n: int): (m: nat) {
    if n < 0 then -n else n
  }

  /** (i, j) is (y, x) itself or one of its four orthogonal neighbours */
  predicate InReach(y: int, x: int, i: int, j: int) {
    Abs(i - y) + Abs(j - x) <= 1
  }

  /** `oldBoard.map(row => [...row])`: a fresh array with the old board's cells */
  method DeepCopy(oldBoard: Grid, nrows: nat, ncols: nat) returns (boardCopy: array2<bool>)
    requires IsRect(oldBoard, nrows, ncols)
    ensures fresh(boardCopy)
    ensures boardCopy.Length0 == nrows && boardCopy.Length1 == ncols
    ensures Cells(boardCopy) == oldBoard
  {
    boardCopy := new bool[nrows, ncols]((i: nat, j: nat) requires i < nrows && j < ncols => oldBoard[i][j]);
    GridExt(Cells(boardCopy), oldBoard, nrows, ncols);
  }

  /**
   * The body of the updater once the coordinate is known: deep-copy the old
   * board, flip the cell and its neighbours in the copy, and return the copy.
   */
  method MoveAt(oldBoard: Grid, nrows: nat, ncols: nat, y: int, x: int) returns (newBoard: Grid)
    requires IsRect(oldBoard, nrows, ncols)
    ensures IsRect(newBoard, nrows, ncols)
    ensures newBoard == FlipAround(oldBoard, nrows, ncols, y, x)
  {
    var boardCopy := DeepCopy(oldBoard, nrows, ncols);
    FlipCell(y, x, nrows, ncols, boardCopy);
    FlipCell(y + 1, x, nrows, ncols, boardCopy);
    FlipCell(y - 1, x, nrows, ncols, boardCopy);
    FlipCell(y, x - 1, nrows, ncols, boardCopy);
    FlipCell(y, x + 1, nrows, ncols, boardCopy);
    newBoard := Cells(boardCopy);
  }

  /**
   * The updater of flipCellsAround: read the coordinate from the cell id,
   * then make the move there on a copy of the old board.
   */
  method FlipCellsAround(oldBoard: Grid, nrows: nat, ncols: nat, coordId: string)
    returns (newBoard: Grid)
    requires IsRect(oldBoard, nrows, ncols)
    requires CellId.IsWellFormed(coordId)
    ensures IsRect(newBoard, nrows, ncols)
    ensures newBoard == FlipAround(oldBoard, nrows, ncols, CellId.ParseId(coordId)[0], CellId.ParseId(coordId)[1])
  {
    var coord := CellId.ParseId(coordId);
    var y, x := coord[0], coord[1];
    newBoard := MoveAt(oldBoard, nrows, ncols, y, x);
  }

  /** A move negates exactly the cells within reach of (y, x) and keeps every other cell */
  lemma FlipAroundCell(g: Grid, nrows: nat, ncols: nat, y: int, x: int, i: int, j: int)
    requires IsRect(g, nrows, ncols)
    requires 0 <= i < nrows && 0 <= j < ncols
    ensures FlipAround(g, nrows, ncols, y, x)[i][j] == (g[i][j] != InReach(y, x, i, j))
  {
  }

  /** Making the same move twice gives the board back */
  lemma FlipAroundTwice(g: Grid, nrows: nat, ncols: nat, y: int, x: int)
    requires IsRect(g, nrows, ncols)
    ensures FlipAround(FlipAround(g, nrows, ncols, y, x), nrows, ncols, y, x) == g
  {
    var h := FlipAround(g, nrows, ncols, y, x);
    forall i, j | 0 <= i < nrows && 0 <= j < ncols
      ensures FlipAround(h, nrows, ncols, y, x)[i][j] == g[i][j]
    {
      FlipAroundCell(g, nrows, ncols, y, x, i, j);
      FlipAroundCell(h, nrows, ncols, y, x, i, j);
    }
    GridExt(FlipAround(h, nrows, ncols, y, x), g, nrows, ncols);
  }

  /** The coordinates of the cells in which g and h differ */
  function Changed(g: Grid, h: Grid, nrows: nat, ncols: nat): (cells: set<(int, int)>)
    requires IsRect(g, nrows, ncols) && IsRect(h, nrows, ncols)
  {
    set i, j | 0 <= i < nrows && 0 <= j < ncols && g[i][j] != h[i][j] :: (i, j)
  }

  /** A move changes the on-board cells within reach of (y, x), and no other */
  lemma FlipAroundChanged(g: Grid, nrows: nat, ncols: nat, y: int, x: int)
    requires IsRect(g, nrows, ncols)
    ensures Changed(g, FlipAround(g, nrows, ncols, y, x), nrows, ncols)
         == set i, j | 0 <= i < nrows && 0 <= j < ncols && InReach(y, x, i, j) :: (i, j)
  {
    forall i, j | 0 <= i < nrows && 0 <= j < ncols {
      FlipAroundCell(g, nrows, ncols, y, x, i, j);
    }
  }

  function Count(b: bool): (n: nat) {
    if b then 1 else 0
  }

  /** The on-board cells within reach of (y, x), listed one candidate at a time */
  function ReachList(nrows: nat, ncols: nat, y: int, x: int): (cells: set<(int, int)>) {
    {(y, x)}
    + (if y > 0 then {(y - 1, x)} else {})
    + (if y < nrows - 1 then {(y + 1, x)} else {})
    + (if x > 0 then {(y, x - 1)} else {})
    + (if x < ncols - 1 then {(y, x + 1)} else {})
  }

  lemma ReachListIsReach(nrows: nat, ncols: nat, y: int, x: int)
    requires OnBoard(nrows, ncols, y, x)
    ensures ReachList(nrows, ncols, y, x)
         == set i, j | 0 <= i < nrows && 0 <= j < ncols && InReach(y, x, i, j) :: (i, j)
  {
    var reach := set i, j | 0 <= i < nrows && 0 <= j < ncols && InReach(y, x, i, j) :: (i, j);
    forall c | c in reach
      ensures c in ReachList(nrows, ncols, y, x)
    {
      var i, j := c.0, c.1;
      assert InReach(y, x, i, j);
    }
    forall c | c in ReachList(nrows, ncols, y, x)
      ensures c in reach
    {
      var i, j := c.0, c.1;
      assert 0 <= i < nrows && 0 <= j < ncols && InReach(y, x, i, j);
    }
  }

  lemma AddCandidate(s: set<(int, int)>, c: (int, int), b: bool)
    requires b ==> c !in s
    ensures |s + (if b then {c} else {})| == |s| + Count(b)
  {
  }

  lemma ReachListCount(nrows: nat, ncols: nat, y: int, x: int)
    ensures |ReachList(nrows, ncols, y, x)|
         == 1 + Count(y > 0) + Count(y < nrows - 1) + Count(x > 0) + Count(x < ncols - 1)
  {
    var s0: set<(int, int)> := {(y, x)};
    AddCandidate(s0, (y - 1, x), y > 0);
    var s1 := s0 + (if y > 0 then {(y - 1, x)} else {});
    AddCandidate(s1, (y + 1, x), y < nrows - 1);
    var s2 := s1 + (if y < nrows - 1 then {(y + 1, x)} else {});
    AddCandidate(s2, (y, x - 1), x > 0);
    var s3 := s2 + (if x > 0 then {(y, x - 1)} else {});
    AddCandidate(s3, (y, x + 1), x < ncols - 1);
  }

  /**
   * A move at an on-board (y, x) changes the cell and each neighbour that is
   * on the board: 3 cells at a corner, 4 on an edge, 5 inside, fewer when the
   * board is one cell wide or high.
   */
  lemma FlipAroundChangedCount(g: Grid, nrows: nat, ncols: nat, y: int, x: int)
    requires IsRect(g, nrows, ncols) && OnBoard(nrows, ncols, y, x)
    ensures |Changed(g, FlipAround(g, nrows, ncols, y, x), nrows, ncols)|
         == 1 + Count(y > 0) + Count(y < nrows - 1) + Count(x > 0) + Count(x < ncols - 1)
  {
    FlipAroundChanged(g, nrows, ncols, y, x);
    ReachListIsReach(nrows, ncols, y, x);
    ReachListCount(nrows, ncols, y, x);
  }

  /** Corollaries for a board at least two cells wide and high */
  lemma FlipAroundChangedByPosition(g: Grid, nrows: nat, ncols: nat, y: int, x: int)
    requires IsRect(g, nrows, ncols) && OnBoard(nrows, ncols, y, x)
    requires nrows >= 2 && ncols >= 2
    ensures (y == 0 || y == nrows - 1) && (x == 0 || x == ncols - 1)
      ==> |Changed(g, FlipAround(g, nrows, ncols, y, x), nrows, ncols)| == 3
    ensures (y == 0 || y == nrows - 1) != (x == 0 || x == ncols - 1)
      ==> |Changed(g, FlipAround(g, nrows, ncols, y, x), nrows, ncols)| == 4
    ensures 0 < y < nrows - 1 && 0 < x < ncols - 1
      ==> |Changed(g, FlipAround(g, nrows, ncols, y, x), nrows, ncols)| == 5
    ensures 3 <= |Changed(g, FlipAround(g, nrows, ncols, y, x), nrows, ncols)| <= 5
  {
    FlipAroundChangedCount(g, nrows, ncols, y, x);
  }

  // ---------------------------------------------------------------------------
  // Worked examples
  // ---------------------------------------------------------------------------

  /** On a 3-by-3 board lit only in the centre, a move at the centre lights the plus around it */
  lemma CentreExample()
    ensures var g := [[false, false, false], [false, true, false], [false, false, false]];
      FlipAround(g, 3, 3, 1, 1) == [[false, true, false], [true, false, true], [false, true, false]]
      && !HasWon(FlipAround(g, 3, 3, 1, 1))
  {
    var g := [[false, false, false], [false, true, false], [false, false, false]];
    var want := [[false, true, false], [true, false, true], [false, true, false]];
    assert IsRect(g, 3, 3) && IsRect(want, 3, 3);
    forall i, j | 0 <= i < 3 && 0 <= j < 3 {
      FlipAroundCell(g, 3, 3, 1, 1, i, j);
    }
    GridExt(FlipAround(g, 3, 3, 1, 1), want, 3, 3);
    assert want[0][1];
  }

  /** On a single lit cell, the move unlights it and wins */
  lemma SingleCellExample()
    ensures FlipAround([[true]], 1, 1, 0, 0) == [[false]] && HasWon(FlipAround([[true]], 1, 1, 0, 0))
  {
    FlipAroundCell([[true]], 1, 1, 0, 0, 0, 0);
    GridExt(FlipAround([[true]], 1, 1, 0, 0), [[false]], 1, 1);
  }
}
