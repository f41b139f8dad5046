/**
 * Connected groups: the cells reachable from a seed through 4-adjacent cells of one colour,
 * and the facts the flood fill needs about the visited markers it keeps.
 */
module Groups {
  import opened Cells

  /** The neighbour offsets in the order the flood fill tries them: right, left, down, up. */
  const Directions: seq<Pos> := [(1, 0), (-1, 0), (0, 1), (0, -1)]

  /** The neighbour of `p` in direction `d`. */
  function Step(p: Pos, d: int): Pos
    requires 0 <= d < 4
  {
    (p.0 + Directions[d].0, p.1 + Directions[d].1)
  }

  /** `q` is one of the four orthogonal neighbours of `p`. */
  predicate Adjacent(p: Pos, q: Pos)
  {
    q == (p.0 + 1, p.1) || q == (p.0 - 1, p.1) || q == (p.0, p.1 + 1) || q == (p.0, p.1 - 1)
  }

  /** Cell `p` is on the board and holds `color`. */
  predicate HasColor(g: Grid, color: Cell, p: Pos)
    requires IsGrid(g)
  {
    InBounds(p.0, p.1) && g[p.0][p.1] == color
  }

  /** A chain of cells of `color`, each 4-adjacent to the next. */
  ghost predicate IsPath(g: Grid, color: Cell, path: seq<Pos>)
    requires IsGrid(g)
  {
    |path| > 0 &&
    (forall k :: 0 <= k < |path| ==> HasColor(g, color, path[k])) &&
    (forall k :: 0 <= k < |path| - 1 ==> Adjacent(path[k], path[k + 1]))
  }

  ghost predicate Reachable(g: Grid, color: Cell, s: Pos, t: Pos)
    requires IsGrid(g)
  {
    exists path :: IsPath(g, color, path) && path[0] == s && path[|path| - 1] == t
  }

  /** The group of (x, y) for `color`: every cell reachable from it through cells of that colour. */
  ghost function Group(g: Grid, x: int, y: int, color: Cell): set<Pos>
    requires IsGrid(g)
  {
    set i, j | 0 <= i < Width && 0 <= j < Height && Reachable(g, color, (x, y), (i, j)) :: (i, j)
  }

  lemma GroupMembers(g: Grid, x: int, y: int, color: Cell)
    requires IsGrid(g)
    ensures forall p :: p in Group(g, x, y, color) <==> InBounds(p.0, p.1) && Reachable(g, color, (x, y), p)
  {
    forall p: Pos | InBounds(p.0, p.1) && Reachable(g, color, (x, y), p)
      ensures p in Group(g, x, y, color)
    {
      var (i, j) := p;
      assert Reachable(g, color, (x, y), (i, j));
    }
  }

  /** Both ends of a path have the path's colour. */
  lemma ReachableEnds(g: Grid, color: Cell, s: Pos, t: Pos)
    requires IsGrid(g) && Reachable(g, color, s, t)
    ensures HasColor(g, color, s) && HasColor(g, color, t)
  {
    var path :| IsPath(g, color, path) && path[0] == s && path[|path| - 1] == t;
    assert HasColor(g, color, path[0]);
    assert HasColor(g, color, path[|path| - 1]);
  }

  lemma ReachableRefl(g: Grid, color: Cell, s: Pos)
    requires IsGrid(g) && HasColor(g, color, s)
    ensures Reachable(g, color, s, s)
  {
    assert IsPath(g, color, [s]);
  }

  /** A cell of the colour next to a cell that reaches `t` reaches `t` itself. */
  lemma ReachablePrepend(g: Grid, color: Cell, p: Pos, q: Pos, t: Pos)
    requires IsGrid(g) && HasColor(g, color, p) && Adjacent(p, q) && Reachable(g, color, q, t)
    ensures Reachable(g, color, p, t)
  {
    var path :| IsPath(g, color, path) && path[0] == q && path[|path| - 1] == t;
    var longer := [p] + path;
    assert forall k :: 1 <= k < |longer| ==> longer[k] == path[k - 1];
    assert IsPath(g, color, longer);
  }

  lemma ReachableAppend(g: Grid, color: Cell, s: Pos, t: Pos, u: Pos)
    requires IsGrid(g) && Reachable(g, color, s, t) && Adjacent(t, u) && HasColor(g, color, u)
    ensures Reachable(g, color, s, u)
  {
    var path :| IsPath(g, color, path) && path[0] == s && path[|path| - 1] == t;
    var longer := path + [u];
    assert IsPath(g, color, longer);
  }

  /** Reachability runs both ways: a path read backwards is a path. */
  lemma ReachableSymmetric(g: Grid, color: Cell, s: Pos, t: Pos)
    requires IsGrid(g) && Reachable(g, color, s, t)
    ensures Reachable(g, color, t, s)
  {
    var path :| IsPath(g, color, path) && path[0] == s && path[|path| - 1] == t;
    var n := |path|;
    var back := seq(n, k requires 0 <= k < n => path[n - 1 - k]);
    forall k | 0 <= k < n - 1
      ensures Adjacent(back[k], back[k + 1])
    {
      var i := n - 2 - k;
      assert Adjacent(path[i], path[i + 1]);
      assert back[k] == path[i + 1] && back[k + 1] == path[i];
    }
    assert IsPath(g, color, back);
  }

  lemma {:induction false} ReachableTrans(g: Grid, color: Cell, s: Pos, t: Pos, u: Pos)
    requires IsGrid(g) && Reachable(g, color, s, t) && Reachable(g, color, t, u)
    ensures Reachable(g, color, s, u)
  {
    var p1 :| IsPath(g, color, p1) && p1[0] == s && p1[|p1| - 1] == t;
    var p2 :| IsPath(g, color, p2) && p2[0] == t && p2[|p2| - 1] == u;
    var joined := p1 + p2[1..];
    assert forall k :: |p1| <= k < |joined| ==> joined[k] == p2[k - |p1| + 1];
    assert IsPath(g, color, joined);
  }

  /**
   * A group holds only cells of its colour; it is empty when the seed does not have the colour
   * (off the board included) and holds the seed when it does.
   */
  lemma GroupShape(g: Grid, x: int, y: int, color: Cell)
    requires IsGrid(g)
    ensures forall p :: p in Group(g, x, y, color) ==> HasColor(g, color, p)
    ensures HasColor(g, color, (x, y)) <==> (x, y) in Group(g, x, y, color)
    ensures !HasColor(g, color, (x, y)) ==> Group(g, x, y, color) == {}
  {
    GroupMembers(g, x, y, color);
    forall p | p in Group(g, x, y, color)
      ensures HasColor(g, color, p) && HasColor(g, color, (x, y))
    {
      ReachableEnds(g, color, (x, y), p);
    }
    if HasColor(g, color, (x, y)) {
      ReachableRefl(g, color, (x, y));
    }
  }

  /** Every member of a group has the same group: the group does not depend on where it is entered. */
  lemma GroupOfMember(g: Grid, x: int, y: int, color: Cell, a: int, b: int)
    requires IsGrid(g) && (a, b) in Group(g, x, y, color)
    ensures Group(g, a, b, color) == Group(g, x, y, color)
  {
    GroupMembers(g, x, y, color);
    GroupMembers(g, a, b, color);
    ReachableSymmetric(g, color, (x, y), (a, b));
    forall p | p in Group(g, a, b, color)
      ensures p in Group(g, x, y, color)
    {
      ReachableTrans(g, color, (x, y), (a, b), p);
    }
    forall p | p in Group(g, x, y, color)
      ensures p in Group(g, a, b, color)
    {
      ReachableTrans(g, color, (a, b), (x, y), p);
    }
  }

  // ---- Visited markers of the flood fill ----

  /** A cell of `color` at `p` is marked in `v`. */
  ghost predicate Covered(g: Grid, color: Cell, v: seq<bool>, p: Pos)
    requires IsGrid(g) && |v| == Width * Height
  {
    HasColor(g, color, p) ==> v[Idx(p.0, p.1)]
  }

  /** All four neighbours of `p` that have `color` are marked. */
  ghost predicate Expanded(g: Grid, color: Cell, v: seq<bool>, p: Pos)
    requires IsGrid(g) && |v| == Width * Height
  {
    forall d :: 0 <= d < 4 ==> Covered(g, color, v, Step(p, d))
  }

  /**
   * Every marked cell outside `pending` has had its neighbours explored. The cells in `pending`
   * are those whose exploration is still under way (the flood fill's call stack).
   */
  ghost predicate Closed(g: Grid, color: Cell, v: seq<bool>, pending: set<Pos>)
    requires IsGrid(g) && |v| == Width * Height
  {
    forall x, y {:trigger Expanded(g, color, v, (x, y))} ::
      InBounds(x, y) && v[Idx(x, y)] && (x, y) !in pending ==> Expanded(g, color, v, (x, y))
  }

  /** Marking `p` keeps the markers closed once `p` counts as under way. */
  lemma MarkKeepsClosed(g: Grid, color: Cell, v: seq<bool>, pending: set<Pos>, p: Pos)
    requires IsGrid(g) && |v| == Width * Height && Closed(g, color, v, pending)
    requires InBounds(p.0, p.1)
    ensures Closed(g, color, v[Idx(p.0, p.1) := true], pending + {p})
  {
    var w := v[Idx(p.0, p.1) := true];
    forall i, j | InBounds(i, j) && w[Idx(i, j)] && (i, j) !in pending + {p}
      ensures Expanded(g, color, w, (i, j))
    {
      assert v[Idx(i, j)];
      assert Expanded(g, color, v, (i, j));
      forall d | 0 <= d < 4
        ensures Covered(g, color, w, Step((i, j), d))
      {
        assert Covered(g, color, v, Step((i, j), d));
      }
    }
  }

  /** Once the neighbours of `p` are explored, `p` need no longer count as under way. */
  lemma FinishKeepsClosed(g: Grid, color: Cell, v: seq<bool>, pending: set<Pos>, p: Pos)
    requires IsGrid(g) && |v| == Width * Height
    requires Closed(g, color, v, pending + {p}) && Expanded(g, color, v, p)
    ensures Closed(g, color, v, pending)
  {
  }

  /** Marking more cells keeps every covered cell covered. */
  lemma CoveredGrows(g: Grid, color: Cell, a: seq<bool>, b: seq<bool>)
    requires IsGrid(g) && |a| == Width * Height && Grows(a, b)
    ensures forall p :: Covered(g, color, a, p) ==> Covered(g, color, b, p)
  {
  }

  lemma AdjacentIsStep(p: Pos, q: Pos) returns (d: int)
    requires Adjacent(p, q)
    ensures 0 <= d < 4 && q == Step(p, d)
  {
    if q == (p.0 + 1, p.1) { d := 0; }
    else if q == (p.0 - 1, p.1) { d := 1; }
    else if q == (p.0, p.1 + 1) { d := 2; }
    else { d := 3; }
  }

  lemma StepOf(x: int, y: int, d: int)
    requires 0 <= d < 4
    ensures Step((x, y), d) == (x + Directions[d].0, y + Directions[d].1)
  {
  }

  lemma StepIsAdjacent(p: Pos, d: int)
    requires 0 <= d < 4
    ensures Adjacent(p, Step(p, d))
  {
  }

  /** `b` keeps every marker of `a`. */
  ghost predicate Grows(a: seq<bool>, b: seq<bool>)
  {
    |a| == |b| && forall k :: 0 <= k < |a| && a[k] ==> b[k]
  }

  /** Every cell marked in `b` but not in `a` is reached from `s`. */
  ghost predicate NewlyReached(g: Grid, color: Cell, a: seq<bool>, b: seq<bool>, s: Pos)
    requires IsGrid(g) && |a| == Width * Height && |b| == Width * Height
  {
    forall i, j {:trigger b[Idx(i, j)], a[Idx(i, j)]} ::
      InBounds(i, j) && b[Idx(i, j)] && !a[Idx(i, j)] ==> Reachable(g, color, s, (i, j))
  }

  /** The first `n` neighbours of `p` that have `color` are marked. */
  ghost predicate CoveredUpTo(g: Grid, color: Cell, v: seq<bool>, p: Pos, n: int)
    requires IsGrid(g) && |v| == Width * Height && n <= 4
  {
    forall d :: 0 <= d < n ==> Covered(g, color, v, Step(p, d))
  }

  /**
   * After the flood fill from neighbour `d` of `p` (a cell of `color`), the fill from `p` has
   * marked only cells `p` reaches and covered one more neighbour.
   */
  lemma NeighbourExplored(g: Grid, color: Cell, v0: seq<bool>, before: seq<bool>, after: seq<bool>,
                          p: Pos, d: int, nx: int, ny: int)
    requires IsGrid(g) && |v0| == Width * Height && |before| == Width * Height
    requires |after| == Width * Height
    requires 0 <= d < 4 && HasColor(g, color, p)
    requires nx == p.0 + Directions[d].0 && ny == p.1 + Directions[d].1
    requires Grows(v0, before) && before[Idx(p.0, p.1)] && Grows(before, after)
    requires NewlyReached(g, color, v0, before, p)
    requires NewlyReached(g, color, before, after, (nx, ny)) && Covered(g, color, after, (nx, ny))
    requires CoveredUpTo(g, color, before, p, d)
    ensures Grows(v0, after) && after[Idx(p.0, p.1)]
    ensures NewlyReached(g, color, v0, after, p)
    ensures CoveredUpTo(g, color, after, p, d + 1)
  {
    StepOf(p.0, p.1, d);
    NeighbourReached(g, color, v0, before, after, p, d);
  }

  lemma NeighbourReached(g: Grid, color: Cell, v0: seq<bool>, before: seq<bool>, after: seq<bool>,
                         p: Pos, d: int)
    requires IsGrid(g) && |v0| == Width * Height && |before| == Width * Height
    requires |after| == Width * Height
    requires 0 <= d < 4 && HasColor(g, color, p)
    requires Grows(v0, before) && before[Idx(p.0, p.1)] && Grows(before, after)
    requires NewlyReached(g, color, v0, before, p)
    requires NewlyReached(g, color, before, after, Step(p, d)) && Covered(g, color, after, Step(p, d))
    requires CoveredUpTo(g, color, before, p, d)
    ensures Grows(v0, after) && after[Idx(p.0, p.1)]
    ensures NewlyReached(g, color, v0, after, p)
    ensures CoveredUpTo(g, color, after, p, d + 1)
  {
    StepIsAdjacent(p, d);
    CoveredGrows(g, color, before, after);
    forall i, j | InBounds(i, j) && after[Idx(i, j)] && !v0[Idx(i, j)]
      ensures Reachable(g, color, p, (i, j))
    {
      if !before[Idx(i, j)] {
        ReachablePrepend(g, color, p, Step(p, d), (i, j));
      }
    }
  }

  /** Marking `p`, a cell of `color`, starts the fill from `p`: the markers stay closed with `p` under way. */
  lemma FillStarts(g: Grid, color: Cell, v0: seq<bool>, v1: seq<bool>, pending: set<Pos>, p: Pos)
    requires IsGrid(g) && |v0| == Width * Height && HasColor(g, color, p)
    requires Closed(g, color, v0, pending) && v1 == v0[Idx(p.0, p.1) := true]
    ensures Grows(v0, v1) && v1[Idx(p.0, p.1)]
    ensures Closed(g, color, v1, pending + {p})
    ensures NewlyReached(g, color, v0, v1, p) && CoveredUpTo(g, color, v1, p, 0)
  {
    MarkKeepsClosed(g, color, v0, pending, p);
    ReachableRefl(g, color, p);
  }

  /** Markers closed under same-coloured adjacency hold every cell a marked cell reaches. */
  lemma ClosedCovers(g: Grid, color: Cell, v: seq<bool>, s: Pos, t: Pos)
    requires IsGrid(g) && |v| == Width * Height && Closed(g, color, v, {})
    requires InBounds(s.0, s.1) && v[Idx(s.0, s.1)] && Reachable(g, color, s, t)
    ensures InBounds(t.0, t.1) && v[Idx(t.0, t.1)]
  {
    var path :| IsPath(g, color, path) && path[0] == s && path[|path| - 1] == t;
    PathMarked(g, color, v, path, |path| - 1);
  }

  lemma {:induction false} PathMarked(g: Grid, color: Cell, v: seq<bool>, path: seq<Pos>, k: int)
    requires IsGrid(g) && |v| == Width * Height && Closed(g, color, v, {})
    requires IsPath(g, color, path) && InBounds(path[0].0, path[0].1) && v[Idx(path[0].0, path[0].1)]
    requires 0 <= k < |path|
    ensures InBounds(path[k].0, path[k].1) && v[Idx(path[k].0, path[k].1)]
  {
    if k > 0 {
      PathMarked(g, color, v, path, k - 1);
      var p := path[k - 1];
      assert Expanded(g, color, v, (p.0, p.1));
      var d := AdjacentIsStep(p, path[k]);
      assert Covered(g, color, v, Step(p, d));
      assert HasColor(g, color, path[k]);
    }
  }

  /**
   * What a finished flood fill from (x, y) leaves behind: markers closed under adjacency that
   * cover the seed and mark only cells the seed reaches. They mark exactly the seed's group.
   */
  lemma FillMarksGroup(g: Grid, color: Cell, v: seq<bool>, x: int, y: int)
    requires IsGrid(g) && |v| == Width * Height && Closed(g, color, v, {})
    requires Covered(g, color, v, (x, y))
    requires forall i, j :: InBounds(i, j) && v[Idx(i, j)] ==> Reachable(g, color, (x, y), (i, j))
    ensures forall i, j :: InBounds(i, j) ==> (v[Idx(i, j)] <==> Reachable(g, color, (x, y), (i, j)))
  {
    forall i, j | InBounds(i, j) && Reachable(g, color, (x, y), (i, j))
      ensures v[Idx(i, j)]
    {
      ReachableEnds(g, color, (x, y), (i, j));
      ClosedCovers(g, color, v, (x, y), (i, j));
    }
  }

  /**
   * A flood fill from (x, y) that starts with nothing marked and ends closed, covering the seed
   * and marking only what the seed reaches, has marked exactly the seed's group.
   */
  lemma FillFindsGroup(g: Grid, color: Cell, v0: seq<bool>, v: seq<bool>, x: int, y: int)
    requires IsGrid(g) && |v0| == Width * Height && |v| == Width * Height
    requires forall k :: 0 <= k < |v0| ==> !v0[k]
    requires Closed(g, color, v, {}) && Covered(g, color, v, (x, y))
    requires NewlyReached(g, color, v0, v, (x, y))
    ensures Marked(v, |v|) == Group(g, x, y, color)
  {
    forall i, j | InBounds(i, j) && v[Idx(i, j)]
      ensures Reachable(g, color, (x, y), (i, j))
    {
      assert !v0[Idx(i, j)];
    }
    FillMarksGroup(g, color, v, x, y);
    MarkedIsGroup(g, v, x, y, color);
  }

  /** The number of unmarked cells: the measure that makes the flood fill terminate. */
  function Unvisited(v: seq<bool>): (n: nat)
    ensures n <= |v|
  {
    if v == [] then 0 else (if v[0] then 0 else 1) + Unvisited(v[1..])
  }

  /** Marking more cells lowers the number of unmarked cells. */
  lemma {:induction false} UnvisitedShrinks(a: seq<bool>, b: seq<bool>, i: int)
    requires Grows(a, b)
    requires 0 <= i < |a| && !a[i] && b[i]
    ensures Unvisited(b) < Unvisited(a)
  {
    if i == 0 {
      UnvisitedMono(a[1..], b[1..]);
    } else {
      UnvisitedShrinks(a[1..], b[1..], i - 1);
    }
  }

  lemma {:induction false} UnvisitedMono(a: seq<bool>, b: seq<bool>)
    requires Grows(a, b)
    ensures Unvisited(b) <= Unvisited(a)
  {
    if a != [] {
      UnvisitedMono(a[1..], b[1..]);
    }
  }

  /** The cells whose flat index below `i` is marked in `v`. */
  ghost function Marked(v: seq<bool>, i: int): set<Pos>
    requires |v| == Width * Height && 0 <= i <= |v|
  {
    set k | 0 <= k < i && v[k] :: PosOf(k)
  }

  /** Counting the markers one index at a time counts the marked cells. */
  lemma MarkedStep(v: seq<bool>, i: int)
    requires |v| == Width * Height && 0 <= i < |v|
    ensures Marked(v, i + 1) == Marked(v, i) + (if v[i] then {PosOf(i)} else {})
    ensures PosOf(i) !in Marked(v, i)
  {
    assert forall k :: 0 <= k < i ==> PosOf(k) != PosOf(i) by {
      forall k | 0 <= k < i
        ensures PosOf(k) != PosOf(i)
      {
        assert Idx(PosOf(k).0, PosOf(k).1) == k;
      }
    }
    if v[i] {
      assert PosOf(i) in Marked(v, i + 1);
    }
  }

  /** Markers that mark exactly the group of (x, y) pick out that group. */
  lemma MarkedIsGroup(g: Grid, v: seq<bool>, x: int, y: int, color: Cell)
    requires IsGrid(g) && |v| == Width * Height
    requires forall i, j :: InBounds(i, j) ==> (v[Idx(i, j)] <==> Reachable(g, color, (x, y), (i, j)))
    ensures Marked(v, |v|) == Group(g, x, y, color)
  {
    GroupMembers(g, x, y, color);
    forall p | p in Group(g, x, y, color)
      ensures p in Marked(v, |v|)
    {
      var k := Idx(p.0, p.1);
      assert PosOf(k) == p;
    }
  }

  // ---- Removal ----

  /** The board with every cell of `group` emptied and every other cell as it was. */
  function Cleared(g: Grid, group: set<Pos>): (r: Grid)
    requires IsGrid(g)
    ensures IsGrid(r)
    ensures forall x, y :: InBounds(x, y) ==> r[x][y] == if (x, y) in group then Empty else g[x][y]
  {
    seq(Width, x requires 0 <= x < Width =>
      seq(Height, y requires 0 <= y < Height => if (x, y) in group then Empty else g[x][y]))
  }
}
