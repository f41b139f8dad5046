/**
 * The game engine's state and operations: the board, updated in place, the score and the
 * phase, with the flood fill, removal, gravity, compaction, end-of-game tests and the move
 * controller, each proved against the value-level definitions of the other modules.
 */
module Game {
  import opened Cells
  import opened Groups
  import opened Gravity
  import opened Compaction
  import opened Moves

  /** The counting loop of the group size: the number of cells the markers mark. */
  method CountMarked(connected: array<bool>) returns (count: int)
    requires connected.Length == Width * Height
    ensures count == |Marked(connected[..], connected.Length)| && count <= connected.Length
  {
    count := 0;
    for i := 0 to connected.Length
      invariant count == |Marked(connected[..], i)| && count <= i
    {
      MarkedStep(connected[..], i);
      if connected[i] {
        count := count + 1;
      }
    }
  }

  /** The scan of the compaction loop: column `x` of `source` holds no block, stopping at the first one. */
  method ColumnIsEmpty(source: array2<Cell>, x: int) returns (columnEmpty: bool)
    requires source.Length0 == Width && source.Length1 == Height && 0 <= x < Width
    ensures columnEmpty <==> forall j :: 0 <= j < Height ==> source[x, j] == Empty
  {
    columnEmpty := true;
    for y := 0 to Height
      invariant columnEmpty && forall j :: 0 <= j < y ==> source[x, j] == Empty
    {
      if source[x, y] != Empty {
        columnEmpty := false;
        break;
      }
    }
  }

  class SameGame {
    /** Board[x][y]: column-major, row 0 at the top. */
    const board: array2<Cell>
    var score: int
    var state: Phase

    ghost predicate Valid()
    {
      board.Length0 == Width && board.Length1 == Height
    }

    /** The board as a value. */
    ghost function Snapshot(): (g: Grid)
      reads board
      requires Valid()
      ensures IsGrid(g)
      ensures forall x, y :: InBounds(x, y) ==> g[x][y] == board[x, y]
    {
      seq(Width, x requires 0 <= x < Width reads board =>
        seq(Height, y requires 0 <= y < Height reads board => board[x, y]))
    }

    /** `g` is the board as a value (the form the flood fill's contract uses). */
    ghost predicate Shows(g: Grid)
      reads board
      requires Valid()
    {
      IsGrid(g) && forall i, j :: InBounds(i, j) ==> board[i, j] == g[i][j]
    }

    /** A victory means an empty board; a lost game means cells are left but no move is. */
    ghost predicate PhaseConsistent()
      reads this, board
      requires Valid()
    {
      (state == Victory ==> AllEmpty(Snapshot())) &&
      (state == GameOver ==> !AllEmpty(Snapshot()) && !HasMove(Snapshot()))
    }

    /**
     * The engine's state before the first game: the zero-initialised globals. The board is
     * empty, hence in normal form, and the state agrees with it.
     */
    constructor ()
      ensures Valid() && fresh(board)
      ensures AllEmpty(Snapshot()) && score == 0 && state == Playing
      ensures IsNormal(Snapshot()) && PhaseConsistent() && score >= 0
    {
      board := new Cell[Width, Height]((_, _) => Empty);
      score := 0;
      state := Playing;
      new;
      ghost var g := Snapshot();
      assert forall x :: 0 <= x < Width ==> IsEmptyColumn(g[x]);
    }

    /**
     * A new game: score 0, playing, and every cell a colour. `rolls` are the values rand()
     * returns, one per cell in the order the loops visit the cells (column by column).
     */
    method InitializeGame(rolls: seq<nat>)
      requires Valid()
      requires |rolls| == Width * Height
      modifies this, board
      ensures score == 0 && state == Playing
      ensures forall x, y :: InBounds(x, y) ==> board[x, y] == CellOf(rolls[x * Height + y] % 5 + 1)
      ensures AllColoured(Snapshot()) && IsNormal(Snapshot()) && PhaseConsistent()
    {
      score := 0;
      state := Playing;
      for x := 0 to Width
        invariant score == 0 && state == Playing
        invariant forall i, j :: 0 <= i < x && 0 <= j < Height ==>
          board[i, j] == CellOf(rolls[i * Height + j] % 5 + 1)
      {
        for y := 0 to Height
          invariant score == 0 && state == Playing
          invariant forall i, j :: 0 <= i < x && 0 <= j < Height ==>
            board[i, j] == CellOf(rolls[i * Height + j] % 5 + 1)
          invariant forall j :: 0 <= j < y ==> board[x, j] == CellOf(rolls[x * Height + j] % 5 + 1)
        {
          board[x, y] := CellOf(rolls[x * Height + y] % 5 + 1);
        }
      }
      ghost var g := Snapshot();
      assert forall x :: 0 <= x < Width ==> g[x][0] != Empty;
    }

    /** True exactly when some coloured cell has an equal right or lower neighbour. */
    method HasValidMoves() returns (r: bool)
      requires Valid()
      ensures r == HasMove(Snapshot())
    {
      ghost var g := Snapshot();
      for x := 0 to Width
        invariant forall i, j :: 0 <= i < x && 0 <= j < Height ==> !PairAt(g, i, j)
      {
        for y := 0 to Height
          invariant forall i, j :: 0 <= i < x && 0 <= j < Height ==> !PairAt(g, i, j)
          invariant forall j :: 0 <= j < y ==> !PairAt(g, x, j)
        {
          var currentColor := board[x, y];
          if currentColor == Empty {
            continue;
          }
          if x < Width - 1 && board[x + 1, y] == currentColor {
            assert PairAt(g, x, y);
            return true;
          }
          if y < Height - 1 && board[x, y + 1] == currentColor {
            assert PairAt(g, x, y);
            return true;
          }
        }
      }
      return false;
    }

    /**
     * The recursive flood fill from (x, y) over cells of `color`. `visited` and `connected` are
     * set together, so they stay equal. `g` (proof only) is the board, which the fill does not
     * change. `pending` (proof only) holds the cells of the calls still under way; every other
     * marked cell has had its neighbours explored, before and after. The call marks only cells
     * (x, y) reaches, marks (x, y) itself when it has the colour, and never unmarks a cell.
     */
    method FindConnected(x: int, y: int, color: Cell, visited: array<bool>, connected: array<bool>,
                         ghost g: Grid, ghost pending: set<Pos>)
      requires Valid() && Shows(g)
      requires visited.Length == Width * Height && connected.Length == Width * Height
      requires visited != connected && visited[..] == connected[..]
      requires Closed(g, color, visited[..], pending)
      modifies visited, connected
      ensures visited[..] == connected[..]
      ensures Closed(g, color, visited[..], pending)
      ensures Grows(old(visited[..]), visited[..])
      ensures NewlyReached(g, color, old(visited[..]), visited[..], (x, y))
      ensures Covered(g, color, visited[..], (x, y))
      decreases Unvisited(visited[..]), 1
    {
      if x < 0 || x >= Width || y < 0 || y >= Height {
        return;
      }
      if visited[Idx(x, y)] || board[x, y] != color {
        return;
      }
      ghost var v0 := visited[..];
      visited[Idx(x, y)] := true;
      connected[Idx(x, y)] := true;
      assert visited[..] == v0[Idx(x, y) := true];
      FillStarts(g, color, v0, visited[..], pending, (x, y));
      ExploreNeighbours(x, y, color, visited, connected, g, pending, v0);
      FinishKeepsClosed(g, color, visited[..], pending, (x, y));
    }

    /**
     * The loop of the flood fill over the four neighbours of (x, y), right, left, down, up, once
     * (x, y) is marked. `v0` (proof only) is the markers before (x, y) was marked. Afterwards the
     * neighbours of (x, y) that have the colour are marked, and every new marker is a cell (x, y)
     * reaches.
     */
    method ExploreNeighbours(x: int, y: int, color: Cell, visited: array<bool>, connected: array<bool>,
                             ghost g: Grid, ghost pending: set<Pos>, ghost v0: seq<bool>)
      requires Valid() && Shows(g) && HasColor(g, color, (x, y))
      requires visited.Length == Width * Height && connected.Length == Width * Height
      requires visited != connected && visited[..] == connected[..]
      requires |v0| == Width * Height && !v0[Idx(x, y)]
      requires Grows(v0, visited[..]) && visited[Idx(x, y)]
      requires Closed(g, color, visited[..], pending + {(x, y)})
      requires NewlyReached(g, color, v0, visited[..], (x, y))
      modifies visited, connected
      ensures visited[..] == connected[..]
      ensures Grows(v0, visited[..]) && visited[Idx(x, y)]
      ensures Closed(g, color, visited[..], pending + {(x, y)})
      ensures NewlyReached(g, color, v0, visited[..], (x, y))
      ensures Expanded(g, color, visited[..], (x, y))
      decreases Unvisited(v0), 0
    {
      for i := 0 to 4
        invariant visited[..] == connected[..]
        invariant Grows(v0, visited[..]) && visited[Idx(x, y)]
        invariant Closed(g, color, visited[..], pending + {(x, y)})
        invariant NewlyReached(g, color, v0, visited[..], (x, y))
        invariant CoveredUpTo(g, color, visited[..], (x, y), i)
      {
        var nx := x + Directions[i].0;
        var ny := y + Directions[i].1;
        ghost var before := visited[..];
        UnvisitedShrinks(v0, before, Idx(x, y));
        FindConnected(nx, ny, color, visited, connected, g, pending + {(x, y)});
        NeighbourExplored(g, color, v0, before, visited[..], (x, y), i, nx, ny);
      }
    }

    /** 0 for the empty colour; otherwise the size of the group of (x, y) for `color`. */
    method GetConnectedCount(x: int, y: int, color: Cell) returns (count: int)
      requires Valid()
      ensures color == Empty ==> count == 0
      ensures color != Empty ==> count == |Group(Snapshot(), x, y, color)|
      ensures color != Empty && InBounds(x, y) && board[x, y] == color ==> count >= 1
      ensures 0 <= count <= Width * Height
    {
      if color == Empty {
        return 0;
      }
      var visited := new bool[Width * Height](_ => false);
      var connected := new bool[Width * Height](_ => false);
      ghost var g := Snapshot();
      ghost var v0 := visited[..];
      assert visited[..] == connected[..];
      FindConnected(x, y, color, visited, connected, g, {});
      ghost var marks := connected[..];
      FillFindsGroup(g, color, v0, marks, x, y);
      count := CountMarked(connected);
      assert count == |Group(g, x, y, color)|;
      GroupShape(g, x, y, color);
      assert g == Snapshot();
    }

    /** Empties exactly the cells of the group of (x, y) for `color`; nothing for the empty colour. */
    method RemoveConnectedGroup(x: int, y: int, color: Cell)
      requires Valid()
      modifies board
      ensures Snapshot() == Cleared(old(Snapshot()), if color == Empty then {} else Group(old(Snapshot()), x, y, color))
    {
      ghost var g := Snapshot();
      if color == Empty {
        GridExtensionality(g, Cleared(g, {}));
        return;
      }
      var visited := new bool[Width * Height](_ => false);
      var connected := new bool[Width * Height](_ => false);
      ghost var v0 := visited[..];
      assert visited[..] == connected[..];
      FindConnected(x, y, color, visited, connected, g, {});
      ghost var marks := connected[..];
      FillFindsGroup(g, color, v0, marks, x, y);
      ClearMarked(connected);
      GridExtensionality(Snapshot(), Cleared(g, Group(g, x, y, color)));
    }

    /** The removal loop: every cell whose marker is set becomes empty, and no other cell changes. */
    method ClearMarked(connected: array<bool>)
      requires Valid() && connected.Length == Width * Height
      modifies board
      ensures forall a, b :: InBounds(a, b) ==>
        board[a, b] == if (a, b) in Marked(connected[..], connected.Length) then Empty else old(board[a, b])
    {
      for i := 0 to connected.Length
        invariant forall a, b :: InBounds(a, b) ==>
          board[a, b] == if (a, b) in Marked(connected[..], i) then Empty else old(board[a, b])
      {
        MarkedStep(connected[..], i);
        if connected[i] {
          var cx := i % Width;
          var cy := i / Width;
          assert (cx, cy) == PosOf(i);
          board[cx, cy] := Empty;
        }
      }
    }

    /** Every column falls on its own: the board becomes the settled board. */
    method ApplyGravity()
      requires Valid()
      modifies board
      ensures Snapshot() == SettleBoard(old(Snapshot()))
    {
      ghost var g := Snapshot();
      ghost var target := SettleBoard(g);
      for x := 0 to Width
        invariant forall i, j :: 0 <= i < x && 0 <= j < Height ==> board[i, j] == target[i][j]
        invariant forall i, j :: x <= i < Width && 0 <= j < Height ==> board[i, j] == g[i][j]
      {
        assert Snapshot()[x] == g[x];
        SettleColumn(x);
      }
      GridExtensionality(Snapshot(), target);
    }

    /**
     * The body of the gravity loop for column `x`: scanning from the bottom row up, each block
     * drops by the number of empty cells seen below it. The column becomes its settled form and
     * no other column changes.
     */
    method SettleColumn(x: int)
      requires Valid() && 0 <= x < Width
      modifies board
      ensures forall j :: 0 <= j < Height ==> board[x, j] == Settle(old(Snapshot())[x])[j]
      ensures forall i, j :: 0 <= i < Width && i != x && 0 <= j < Height ==> board[i, j] == old(board[i, j])
    {
      ghost var col := Snapshot()[x];
      PartialStart(col);
      ghost var cur := col;
      var emptyCount := 0;
      var y := Height - 1;
      while y >= 0
        invariant -1 <= y < Height
        invariant cur == Partial(col, y)
        invariant emptyCount == EmptyBelow(col, y)
        invariant forall j :: 0 <= j < Height ==> board[x, j] == cur[j]
        invariant forall i, j :: 0 <= i < Width && i != x && 0 <= j < Height ==> board[i, j] == old(board[i, j])
      {
        PartialStep(col, y);
        if board[x, y] == Empty {
          emptyCount := emptyCount + 1;
        } else if emptyCount > 0 {
          board[x, y + emptyCount] := board[x, y];
          board[x, y] := Empty;
          cur := cur[y + emptyCount := col[y]][y := Empty];
        }
        y := y - 1;
      }
      PartialEnd(col);
    }

    /** The non-empty columns move left in order, through a copy of the board; the rest empty. */
    method RemoveEmptyColumns()
      requires Valid()
      modifies board
      ensures Snapshot() == Compact(old(Snapshot()))
    {
      ghost var g := Snapshot();
      var tempBoard := CopyBoard();
      var shift := 0;
      ghost var kept: Grid := [];
      for x := 0 to Width
        modifies board
        invariant forall i, j :: 0 <= i < Width && 0 <= j < Height ==> tempBoard[i, j] == g[i][j]
        invariant kept == Kept(g[..x]) && shift == |kept| && shift <= x
        invariant ColumnsOfHeight(kept, Height)
        invariant forall i, j :: 0 <= i < shift && 0 <= j < Height ==> board[i, j] == kept[i][j]
      {
        var columnEmpty := ColumnIsEmpty(tempBoard, x);
        assert columnEmpty == IsEmptyColumn(g[x]);
        KeptStep(g, x);
        if !columnEmpty {
          CopyColumn(tempBoard, x, shift);
          assert |g[x]| == Height;
          kept := kept + [g[x]];
          shift := shift + 1;
        }
      }

      assert g[..Width] == g;
      ClearColumnsFrom(shift);
      CompactedBoard(Snapshot(), g);
    }

    /** The loop that copies the board into a fresh temporary board. */
    method CopyBoard() returns (copy: array2<Cell>)
      requires Valid()
      ensures fresh(copy) && copy.Length0 == Width && copy.Length1 == Height
      ensures forall i, j :: InBounds(i, j) ==> copy[i, j] == board[i, j]
    {
      copy := new Cell[Width, Height];
      for x := 0 to Width
        modifies copy
        invariant forall i, j :: 0 <= i < x && 0 <= j < Height ==> copy[i, j] == board[i, j]
      {
        for y := 0 to Height
          modifies copy
          invariant forall i, j :: 0 <= i < x && 0 <= j < Height ==> copy[i, j] == board[i, j]
          invariant forall j :: 0 <= j < y ==> copy[x, j] == board[x, j]
        {
          copy[x, y] := board[x, y];
        }
      }
    }

    /** Column `x` of `source` is copied into column `to` of the board; no other cell changes. */
    method CopyColumn(source: array2<Cell>, x: int, to: int)
      requires Valid() && source != board
      requires source.Length0 == Width && source.Length1 == Height
      requires 0 <= x < Width && 0 <= to < Width
      modifies board
      ensures forall i, j :: InBounds(i, j) ==> board[i, j] == if i == to then source[x, j] else old(board[i, j])
    {
      for y := 0 to Height
        invariant forall i, j :: InBounds(i, j) ==>
          board[i, j] == if i == to && j < y then source[x, j] else old(board[i, j])
      {
        board[to, y] := source[x, y];
      }
    }

    /** The last loop of the compaction: every column from `shift` on becomes empty. */
    method ClearColumnsFrom(shift: int)
      requires Valid() && 0 <= shift <= Width
      modifies board
      ensures forall i, j :: InBounds(i, j) ==> board[i, j] == if i < shift then old(board[i, j]) else Empty
    {
      for x := shift to Width
        invariant forall i, j :: InBounds(i, j) ==> board[i, j] == if i >= x then old(board[i, j]) else if i < shift then old(board[i, j]) else Empty
      {
        for y := 0 to Height
          invariant forall i, j :: InBounds(i, j) ==>
            board[i, j] == if i > x || (i == x && j >= y) || i < shift then old(board[i, j]) else Empty
        {
          board[x, y] := Empty;
        }
      }
    }

    /** True exactly when every cell is empty. */
    method IsBoardEmpty() returns (r: bool)
      requires Valid()
      ensures r == AllEmpty(Snapshot())
    {
      for x := 0 to Width
        invariant forall i, j :: 0 <= i < x && 0 <= j < Height ==> board[i, j] == Empty
      {
        for y := 0 to Height
          invariant forall i, j :: 0 <= i < x && 0 <= j < Height ==> board[i, j] == Empty
          invariant forall j :: 0 <= j < y ==> board[x, j] == Empty
        {
          if board[x, y] != Empty {
            return false;
          }
        }
      }
      return true;
    }

    /**
     * A click on cell (x, y). Unless the game is on and the click hits a group of two or more,
     * nothing changes. Otherwise the group is removed, n cells score (n - 1) * (n - 1), the
     * board settles and compacts, and the phase follows from the new board.
     */
    method HandleMouseClick(x: int, y: int)
      requires Valid()
      modifies this, board
      ensures !IsMove(old(state), old(Snapshot()), x, y) ==>
        Snapshot() == old(Snapshot()) && score == old(score) && state == old(state)
      ensures IsMove(old(state), old(Snapshot()), x, y) ==> Snapshot() == AfterMove(old(Snapshot()), x, y)
      ensures IsMove(old(state), old(Snapshot()), x, y) ==> score == old(score) + MoveScore(old(Snapshot()), x, y)
      ensures IsMove(old(state), old(Snapshot()), x, y) ==> state == PhaseAfter(Snapshot())
      ensures old(PhaseConsistent()) ==> PhaseConsistent()
      ensures old(IsNormal(Snapshot())) ==> IsNormal(Snapshot())
      ensures score >= old(score)
    {
      ghost var g := Snapshot();
      if state != Playing || x < 0 || x >= Width || y < 0 || y >= Height || board[x, y] == Empty {
        return;
      }
      var groupSize := GetConnectedCount(x, y, board[x, y]);
      assert groupSize == |Group(g, x, y, g[x][y])|;
      if groupSize < 2 {
        return;
      }
      PlayMove(x, y, groupSize);
      AfterMoveNormal(g, x, y);
    }

    /**
     * A move on a group of `groupSize` >= 2 cells: the group goes, the score rises by
     * (groupSize - 1) * (groupSize - 1), the board settles and compacts, and the phase follows.
     */
    method PlayMove(x: int, y: int, groupSize: int)
      requires Valid() && state == Playing && Removable(Snapshot(), x, y)
      requires groupSize == |Group(Snapshot(), x, y, Snapshot()[x][y])|
      modifies this, board
      ensures Snapshot() == AfterMove(old(Snapshot()), x, y)
      ensures score == old(score) + (groupSize - 1) * (groupSize - 1)
      ensures state == PhaseAfter(Snapshot()) && PhaseConsistent()
    {
      ghost var g := Snapshot();
      RemoveConnectedGroup(x, y, board[x, y]);
      ghost var cleared := Snapshot();
      assert cleared == Cleared(g, Group(g, x, y, g[x][y]));
      score := score + (groupSize - 1) * (groupSize - 1);
      ApplyGravity();
      ghost var settled := Snapshot();
      assert settled == SettleBoard(cleared);
      RemoveEmptyColumns();
      assert Snapshot() == Compact(settled);
      assert Snapshot() == AfterMove(g, x, y);
      CheckGameEnd();
    }

    /**
     * The end-of-game test after a move made while playing: an empty board is a victory, a
     * board without moves a lost game, and otherwise play goes on.
     */
    method CheckGameEnd()
      requires Valid() && state == Playing
      modifies this
      ensures state == PhaseAfter(Snapshot()) && PhaseConsistent()
      ensures score == old(score)
    {
      var empty := IsBoardEmpty();
      if empty {
        state := Victory;
      } else {
        var moves := HasValidMoves();
        if !moves {
          state := GameOver;
        }
      }
    }
  }
}
