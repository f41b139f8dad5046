/** Legal moves, the end-of-game tests and the phase a finished move leads to. */
module Moves {
  import opened Cells
  import opened Groups
  import opened Gravity
  import opened Compaction

  /** The game's phases: TGameState. */
  datatype Phase = Playing | GameOver | Victory

  /** Cell (x, y) holds a colour that its right or its lower neighbour shares. */
  predicate PairAt(g: Grid, x: int, y: int)
    requires IsGrid(g) && InBounds(x, y)
  {
    g[x][y] != Empty &&
    ((x < Width - 1 && g[x + 1][y] == g[x][y]) || (y < Height - 1 && g[x][y + 1] == g[x][y]))
  }

  /** Some cell and its right or lower neighbour share a colour. */
  ghost predicate HasMove(g: Grid)
    requires IsGrid(g)
  {
    exists x, y :: InBounds(x, y) && PairAt(g, x, y)
  }

  /** Clicking (x, y) removes something: a coloured cell whose group has at least two cells. */
  ghost predicate Removable(g: Grid, x: int, y: int)
    requires IsGrid(g)
  {
    InBounds(x, y) && g[x][y] != Empty && |Group(g, x, y, g[x][y])| >= 2
  }

  /** A click at (x, y) in `phase` is a move: the game is on and the click removes something. */
  ghost predicate IsMove(phase: Phase, g: Grid, x: int, y: int)
    requires IsGrid(g)
  {
    phase == Playing && Removable(g, x, y)
  }

  /** The board after the move at (x, y): the group emptied, every column settled, then the columns compacted. */
  ghost function AfterMove(g: Grid, x: int, y: int): Grid
    requires IsGrid(g) && Removable(g, x, y)
  {
    Compact(SettleBoard(Cleared(g, Group(g, x, y, g[x][y]))))
  }

  /** Whatever board a move starts from, it leaves the board in normal form. */
  lemma AfterMoveNormal(g: Grid, x: int, y: int)
    requires IsGrid(g) && Removable(g, x, y)
    ensures IsNormal(AfterMove(g, x, y))
  {
    SettleThenCompactNormal(Cleared(g, Group(g, x, y, g[x][y])));
  }

  /** Removing n cells scores (n - 1) * (n - 1): nothing for a single cell, at least a point for more. */
  function Points(n: int): (p: int)
    ensures p >= 0 && (n >= 2 ==> p >= 1)
  {
    (n - 1) * (n - 1)
  }

  /** The points of the move at (x, y): those of its group's size. */
  ghost function MoveScore(g: Grid, x: int, y: int): (points: int)
    requires IsGrid(g) && Removable(g, x, y)
    ensures points >= 1
  {
    Points(|Group(g, x, y, g[x][y])|)
  }

  /** The phase after a move has settled the board: victory first, then game over. */
  ghost function PhaseAfter(g: Grid): (p: Phase)
    requires IsGrid(g)
    ensures p == Victory <==> AllEmpty(g)
    ensures p == GameOver <==> !AllEmpty(g) && !HasMove(g)
  {
    if AllEmpty(g) then Victory else if !HasMove(g) then GameOver else Playing
  }

  /** A set holding `a` has at least two elements exactly when it holds something besides `a`. */
  lemma TwoOrMore<T>(s: set<T>, a: T)
    requires a in s
    ensures |s| >= 2 <==> exists b :: b in s && b != a
  {
    var rest := s - {a};
    assert s == rest + {a};
    if exists b :: b in s && b != a {
      var b :| b in s && b != a;
      assert b in rest;
    }
    if |s| >= 2 {
      assert |rest| >= 1;
      var b :| b in rest;
    }
  }

  /** A pair of equal neighbours makes its upper or left cell removable. */
  lemma PairIsRemovable(g: Grid, x: int, y: int)
    requires IsGrid(g) && InBounds(x, y) && PairAt(g, x, y)
    ensures Removable(g, x, y)
  {
    var color := g[x][y];
    var q := if x < Width - 1 && g[x + 1][y] == color then (x + 1, y) else (x, y + 1);
    GroupMembers(g, x, y, color);
    ReachableRefl(g, color, (x, y));
    ReachableAppend(g, color, (x, y), (x, y), q);
    TwoOrMore(Group(g, x, y, color), (x, y));
    assert q in Group(g, x, y, color) && q != (x, y);
  }

  /** A removable cell has a neighbour of its colour, so some cell sees an equal right or lower neighbour. */
  lemma RemovableHasPair(g: Grid, x: int, y: int)
    requires IsGrid(g) && Removable(g, x, y)
    ensures HasMove(g)
  {
    var color := g[x][y];
    var group := Group(g, x, y, color);
    GroupMembers(g, x, y, color);
    GroupShape(g, x, y, color);
    TwoOrMore(group, (x, y));
    var t :| t in group && t != (x, y);
    var path :| IsPath(g, color, path) && path[0] == (x, y) && path[|path| - 1] == t;
    var q := path[1];
    assert Adjacent((x, y), q) && HasColor(g, color, q);
    if q == (x + 1, y) || q == (x, y + 1) {
      assert PairAt(g, x, y);
    } else if q == (x - 1, y) {
      assert PairAt(g, x - 1, y);
    } else {
      assert PairAt(g, x, y - 1);
    }
  }

  /**
   * Checking only right and lower neighbours finds a move exactly when some click would remove
   * a group of two or more: every adjacent pair is seen from its upper or left cell.
   */
  lemma HasMoveIffRemovable(g: Grid)
    requires IsGrid(g)
    ensures HasMove(g) <==> exists x, y :: Removable(g, x, y)
  {
    if HasMove(g) {
      var x, y :| InBounds(x, y) && PairAt(g, x, y);
      PairIsRemovable(g, x, y);
    }
    if exists x, y :: Removable(g, x, y) {
      var x, y :| Removable(g, x, y);
      RemovableHasPair(g, x, y);
    }
  }

  /** The game is over exactly when cells are left but no click would remove anything. */
  lemma GameOverIffNoRemovable(g: Grid)
    requires IsGrid(g)
    ensures PhaseAfter(g) == GameOver <==> !AllEmpty(g) && forall x, y :: !Removable(g, x, y)
  {
    HasMoveIffRemovable(g);
  }
}
