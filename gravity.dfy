/** Gravity: in every column the non-empty cells fall to the bottom, keeping their order. */
module Gravity {
  import opened Cells

  /** The non-empty cells of a column, from top to bottom. */
  function Blocks(c: seq<Cell>): (s: seq<Cell>)
    ensures |s| <= |c|
    ensures forall k :: 0 <= k < |s| ==> s[k] != Empty
  {
    if c == [] then []
    else (if c[0] == Empty then [] else [c[0]]) + Blocks(c[1..])
  }

  /** The column after gravity: empty cells on top, then the blocks in their original order. */
  function Settle(c: seq<Cell>): seq<Cell>
  {
    Blanks(|c| - |Blocks(c)|) + Blocks(c)
  }

  /** Gravity applied to every column on its own. */
  function SettleBoard(g: Grid): (r: Grid)
    ensures |r| == |g| && forall x :: 0 <= x < |g| ==> r[x] == Settle(g[x])
  {
    seq(|g|, x requires 0 <= x < |g| => Settle(g[x]))
  }

  /** No empty cell lies below a non-empty one. */
  predicate IsSettled(c: seq<Cell>)
  {
    forall i, j :: 0 <= i < j < |c| && c[i] != Empty ==> c[j] != Empty
  }

  lemma {:induction false} BlocksOfBlocks(s: seq<Cell>)
    requires forall k :: 0 <= k < |s| ==> s[k] != Empty
    ensures Blocks(s) == s
  {
    if s != [] {
      BlocksOfBlocks(s[1..]);
    }
  }

  lemma {:induction false} BlocksOfBlanks(n: nat, s: seq<Cell>)
    ensures Blocks(Blanks(n) + s) == Blocks(s)
  {
    if n > 0 {
      assert (Blanks(n) + s)[1..] == Blanks(n - 1) + s;
      BlocksOfBlanks(n - 1, s);
    } else {
      assert Blanks(n) + s == s;
    }
  }

  /** A column's cells are its blocks plus as many empty cells as it had. */
  lemma {:induction false} BlocksMultiset(c: seq<Cell>)
    ensures multiset(c) == multiset(Blocks(c)) + multiset(Blanks(|c| - |Blocks(c)|))
  {
    if c != [] {
      BlocksMultiset(c[1..]);
      if c[0] == Empty {
        BlocksMultisetBlank(c);
      } else {
        BlocksMultisetBlock(c);
      }
    }
  }

  /** The step of BlocksMultiset for a column whose top cell is empty. */
  lemma BlocksMultisetBlank(c: seq<Cell>)
    requires c != [] && c[0] == Empty
    requires multiset(c[1..]) == multiset(Blocks(c[1..])) + multiset(Blanks(|c[1..]| - |Blocks(c[1..])|))
    ensures multiset(c) == multiset(Blocks(c)) + multiset(Blanks(|c| - |Blocks(c)|))
  {
    BlocksHeadBlank(c);
    MultisetConsRight(c, Blocks(c[1..]), Blanks(|c[1..]| - |Blocks(c[1..])|), Blanks(|c| - |Blocks(c)|));
  }

  /** The step of BlocksMultiset for a column whose top cell is a block. */
  lemma BlocksMultisetBlock(c: seq<Cell>)
    requires c != [] && c[0] != Empty
    requires multiset(c[1..]) == multiset(Blocks(c[1..])) + multiset(Blanks(|c[1..]| - |Blocks(c[1..])|))
    ensures multiset(c) == multiset(Blocks(c)) + multiset(Blanks(|c| - |Blocks(c)|))
  {
    BlocksHeadBlock(c);
    MultisetConsLeft(c, Blocks(c[1..]), Blanks(|c[1..]| - |Blocks(c[1..])|), Blocks(c));
  }

  /** An empty top cell adds nothing to the blocks and one empty cell to the count. */
  lemma BlocksHeadBlank(c: seq<Cell>)
    requires c != [] && c[0] == Empty
    ensures Blocks(c) == Blocks(c[1..])
    ensures Blanks(|c| - |Blocks(c)|) == [Empty] + Blanks(|c[1..]| - |Blocks(c[1..])|)
  {
    BlanksCons(|c[1..]| - |Blocks(c[1..])|);
  }

  /** A block on top is the first of the blocks and leaves the count of empty cells alone. */
  lemma BlocksHeadBlock(c: seq<Cell>)
    requires c != [] && c[0] != Empty
    ensures Blocks(c) == [c[0]] + Blocks(c[1..])
    ensures Blanks(|c| - |Blocks(c)|) == Blanks(|c[1..]| - |Blocks(c[1..])|)
  {
    assert |c| - |Blocks(c)| == |c[1..]| - |Blocks(c[1..])|;
  }

  lemma BlanksCons(n: nat)
    ensures Blanks(n + 1) == [Empty] + Blanks(n)
  {
  }

  /** Moving a sequence's first element onto the first of two parts of the rest's elements. */
  lemma MultisetConsLeft<T>(s: seq<T>, k: seq<T>, e: seq<T>, b: seq<T>)
    requires s != [] && multiset(s[1..]) == multiset(k) + multiset(e) && b == [s[0]] + k
    ensures multiset(s) == multiset(b) + multiset(e)
  {
    assert s == [s[0]] + s[1..];
  }

  /** Moving a sequence's first element onto the second of two parts of the rest's elements. */
  lemma MultisetConsRight<T>(s: seq<T>, k: seq<T>, e: seq<T>, f: seq<T>)
    requires s != [] && multiset(s[1..]) == multiset(k) + multiset(e) && f == [s[0]] + e
    ensures multiset(s) == multiset(k) + multiset(f)
  {
    assert s == [s[0]] + s[1..];
  }

  /** Empty cells on top of blocks form a settled column. */
  lemma BlanksOverBlocksSettled(n: nat, s: seq<Cell>)
    requires forall k :: 0 <= k < |s| ==> s[k] != Empty
    ensures IsSettled(Blanks(n) + s)
  {
    var c := Blanks(n) + s;
    forall i, j | 0 <= i < j < |c| && c[i] != Empty
      ensures c[j] != Empty
    {
      assert i >= n;
      assert c[j] == s[j - n];
    }
  }

  /**
   * After gravity the column has its height, no empty cell below a block, the same cells,
   * and the same blocks in the same top-to-bottom order.
   */
  lemma SettleSpec(c: seq<Cell>)
    ensures |Settle(c)| == |c|
    ensures IsSettled(Settle(c))
    ensures multiset(Settle(c)) == multiset(c)
    ensures Blocks(Settle(c)) == Blocks(c)
  {
    BlocksMultiset(c);
    BlocksOfBlanks(|c| - |Blocks(c)|, Blocks(c));
    BlocksOfBlocks(Blocks(c));
    BlanksOverBlocksSettled(|c| - |Blocks(c)|, Blocks(c));
  }

  /** A settled column is left as it is. */
  lemma {:induction false} SettleFixesSettled(c: seq<Cell>)
    requires IsSettled(c)
    ensures Settle(c) == c
  {
    if c != [] {
      if c[0] == Empty {
        SettleFixesSettled(c[1..]);
        var n := |c[1..]| - |Blocks(c[1..])|;
        assert Blanks(n + 1) == [Empty] + Blanks(n);
        assert c == [c[0]] + c[1..];
      } else {
        BlocksOfBlocks(c);
      }
    }
  }

  /** Gravity applied twice changes nothing more than gravity applied once. */
  lemma SettleIdempotent(c: seq<Cell>)
    ensures Settle(Settle(c)) == Settle(c)
  {
    SettleSpec(c);
    SettleFixesSettled(Settle(c));
  }

  lemma SettleBoardIdempotent(g: Grid)
    ensures SettleBoard(SettleBoard(g)) == SettleBoard(g)
  {
    forall x | 0 <= x < |g|
      ensures SettleBoard(SettleBoard(g))[x] == SettleBoard(g)[x]
    {
      SettleIdempotent(g[x]);
    }
  }

  /** Gravity keeps the board's shape and each column's multiset of cells. */
  lemma SettleBoardSpec(g: Grid)
    requires IsGrid(g)
    ensures IsGrid(SettleBoard(g))
    ensures forall x :: 0 <= x < Width ==>
      IsSettled(SettleBoard(g)[x]) && multiset(SettleBoard(g)[x]) == multiset(g[x])
  {
    forall x | 0 <= x < Width
      ensures |SettleBoard(g)[x]| == Height
      ensures IsSettled(SettleBoard(g)[x]) && multiset(SettleBoard(g)[x]) == multiset(g[x])
    {
      SettleSpec(g[x]);
    }
  }

  // ---- The steps of the in-place loop ----

  /**
   * The in-place loop scans a column from the bottom up. With the rows below `y` done, the
   * column reads: the untouched rows 0..y, the empty cells seen below `y`, then the blocks of
   * the rows below `y` in order.
   */
  function Partial(orig: seq<Cell>, y: int): seq<Cell>
    requires -1 <= y < |orig|
  {
    orig[..y + 1] + Blanks(EmptyBelow(orig, y)) + Blocks(orig[y + 1..])
  }

  /** The rows below `y` that hold no block: the loop's emptyCount. */
  function EmptyBelow(orig: seq<Cell>, y: int): nat
    requires -1 <= y < |orig|
  {
    |orig| - 1 - y - |Blocks(orig[y + 1..])|
  }

  /** The loop's emptyCount at row `y` is the number of empty cells in the rows below `y`. */
  lemma EmptyBelowCounts(orig: seq<Cell>, y: int)
    requires -1 <= y < |orig|
    ensures EmptyBelow(orig, y) == multiset(orig[y + 1..])[Empty]
  {
    var below := orig[y + 1..];
    BlocksMultiset(below);
    BlocksHoldNoEmpty(below);
    BlanksCount(|below| - |Blocks(below)|);
  }

  lemma BlocksHoldNoEmpty(c: seq<Cell>)
    ensures multiset(Blocks(c))[Empty] == 0
  {
    assert Empty !in Blocks(c);
  }

  lemma {:induction false} BlanksCount(n: nat)
    ensures multiset(Blanks(n))[Empty] == n
  {
    if n > 0 {
      BlanksCount(n - 1);
      BlanksCons(n - 1);
    }
  }

  lemma PartialStart(orig: seq<Cell>)
    ensures Partial(orig, |orig| - 1) == orig && EmptyBelow(orig, |orig| - 1) == 0
  {
    assert orig[|orig|..] == [];
    assert orig[..|orig|] == orig;
  }

  lemma PartialEnd(orig: seq<Cell>)
    ensures Partial(orig, -1) == Settle(orig)
  {
    assert orig[0..] == orig;
  }

  /** The blocks of the rows from `y` down are those of the rows below `y`, after row `y`'s own. */
  lemma BlocksFrom(orig: seq<Cell>, y: int)
    requires 0 <= y < |orig|
    ensures Blocks(orig[y..]) == (if orig[y] == Empty then [] else [orig[y]]) + Blocks(orig[y + 1..])
  {
    assert orig[y..][1..] == orig[y + 1..];
  }

  /**
   * One step of the scan at row `y`: row `y` is still untouched, an empty cell adds one to the
   * count, and a block drops by the count (when it is not zero) into the last empty cell.
   */
  lemma PartialStep(orig: seq<Cell>, y: int)
    requires 0 <= y < |orig|
    ensures var e := EmptyBelow(orig, y);
      var cur := Partial(orig, y);
      |cur| == |orig| && cur[y] == orig[y] && y + e < |orig| &&
      EmptyBelow(orig, y - 1) == e + (if orig[y] == Empty then 1 else 0) &&
      if orig[y] == Empty || e == 0 then Partial(orig, y - 1) == cur
      else Partial(orig, y - 1) == cur[y + e := orig[y]][y := Empty]
  {
    var e := EmptyBelow(orig, y);
    var tail := Blocks(orig[y + 1..]);
    BlocksFrom(orig, y);
    var cur := Partial(orig, y);
    var prev := Partial(orig, y - 1);
    assert |cur| == |orig| == |prev|;
    if orig[y] == Empty {
      forall k | 0 <= k < |orig|
        ensures prev[k] == cur[k]
      {
        if k < y {
          assert prev[k] == orig[k] && cur[k] == orig[k];
        } else if k <= y + e {
          assert prev[k] == Empty && cur[k] == Empty;
        } else {
          assert prev[k] == tail[k - y - e - 1] && cur[k] == tail[k - y - e - 1];
        }
      }
    } else if e == 0 {
      forall k | 0 <= k < |orig|
        ensures prev[k] == cur[k]
      {
        if k < y {
          assert prev[k] == orig[k] && cur[k] == orig[k];
        } else if k == y {
          assert prev[k] == orig[y] && cur[k] == orig[y];
        } else {
          assert prev[k] == tail[k - y - 1] && cur[k] == tail[k - y - 1];
        }
      }
    } else {
      var next := cur[y + e := orig[y]][y := Empty];
      forall k | 0 <= k < |orig|
        ensures prev[k] == next[k]
      {
        if k < y {
          assert prev[k] == orig[k] && next[k] == orig[k];
        } else if k < y + e {
          assert prev[k] == Empty && next[k] == Empty;
        } else if k == y + e {
          assert prev[k] == orig[y] && next[k] == orig[y];
        } else {
          assert prev[k] == tail[k - y - e - 1] && next[k] == tail[k - y - e - 1];
        }
      }
    }
  }
}
