/** Column compaction: empty columns are dropped and the others pack to the left. */
module Compaction {
  import opened Cells
  import opened Gravity

  predicate IsEmptyColumn(c: seq<Cell>)
  {
    forall y :: 0 <= y < |c| ==> c[y] == Empty
  }

  /** The non-empty columns of `g`, from left to right. */
  function Kept(g: Grid): (k: Grid)
    ensures |k| <= |g|
  {
    if g == [] then []
    else Kept(g[..|g| - 1]) + (if IsEmptyColumn(g[|g| - 1]) then [] else [g[|g| - 1]])
  }

  /** `n` empty columns of the board's height. */
  function EmptyColumns(n: nat): (r: Grid)
    ensures |r| == n
  {
    seq(n, _ => Blanks(Height))
  }

  /** The board after compaction: the non-empty columns, then empty columns up to the width. */
  function Compact(g: Grid): Grid
  {
    Kept(g) + EmptyColumns(|g| - |Kept(g)|)
  }

  /** No empty column stands left of a non-empty one. */
  predicate IsCompacted(g: Grid)
  {
    forall i, j :: 0 <= i < j < |g| && IsEmptyColumn(g[i]) ==> IsEmptyColumn(g[j])
  }

  /** Every kept column is a non-empty column of the board. */
  lemma {:induction false} KeptColumns(g: Grid)
    ensures forall i :: 0 <= i < |Kept(g)| ==> !IsEmptyColumn(Kept(g)[i]) && Kept(g)[i] in g
  {
    if g != [] {
      var init := g[..|g| - 1];
      KeptColumns(init);
      assert forall c :: c in init ==> c in g;
    }
  }

  lemma {:induction false} KeptOfNonEmpty(g: Grid)
    requires forall i :: 0 <= i < |g| ==> !IsEmptyColumn(g[i])
    ensures Kept(g) == g
  {
    if g != [] {
      KeptOfNonEmpty(g[..|g| - 1]);
    }
  }

  /** The kept columns of a prefix grow by the next column exactly when it is not empty. */
  lemma KeptStep(g: Grid, x: int)
    requires 0 <= x < |g|
    ensures Kept(g[..x + 1]) == Kept(g[..x]) + (if IsEmptyColumn(g[x]) then [] else [g[x]])
  {
    assert g[..x + 1][..x] == g[..x];
  }

  lemma EmptyColumnIsBlanks(c: seq<Cell>)
    requires |c| == Height && IsEmptyColumn(c)
    ensures c == Blanks(Height)
  {
  }

  /** A grid's columns are its kept columns and as many empty columns as it had. */
  lemma {:induction false} KeptMultiset(g: Grid)
    requires ColumnsOfHeight(g, Height)
    ensures multiset(g) == multiset(Kept(g)) + multiset(EmptyColumns(|g| - |Kept(g)|))
  {
    if g != [] {
      ColumnsOfPrefix(g, |g| - 1);
      KeptMultiset(g[..|g| - 1]);
      KeptMultisetStep(g);
    }
  }

  lemma ColumnsOfPrefix(g: Grid, n: int)
    requires ColumnsOfHeight(g, Height) && 0 <= n <= |g|
    ensures ColumnsOfHeight(g[..n], Height)
  {
  }

  /** The step of KeptMultiset: from the board without its last column to the whole board. */
  lemma KeptMultisetStep(g: Grid)
    requires g != [] && |g[|g| - 1]| == Height
    requires var init := g[..|g| - 1];
      multiset(init) == multiset(Kept(init)) + multiset(EmptyColumns(|init| - |Kept(init)|))
    ensures multiset(g) == multiset(Kept(g)) + multiset(EmptyColumns(|g| - |Kept(g)|))
  {
    if IsEmptyColumn(g[|g| - 1]) {
      KeptMultisetDrop(g);
    } else {
      KeptMultisetKeep(g);
    }
  }

  lemma KeptMultisetDrop(g: Grid)
    requires g != [] && |g[|g| - 1]| == Height && IsEmptyColumn(g[|g| - 1])
    requires var init := g[..|g| - 1];
      multiset(init) == multiset(Kept(init)) + multiset(EmptyColumns(|init| - |Kept(init)|))
    ensures multiset(g) == multiset(Kept(g)) + multiset(EmptyColumns(|g| - |Kept(g)|))
  {
    var init := g[..|g| - 1];
    var k, n := Kept(init), |init| - |Kept(init)|;
    assert Kept(g) == k;
    assert |g| - |Kept(g)| == n + 1;
    EmptyColumnIsBlanks(g[|g| - 1]);
    EmptyColumnsSnoc(n);
    MultisetSnocRight(g, k, EmptyColumns(n), Blanks(Height));
  }

  lemma KeptMultisetKeep(g: Grid)
    requires g != [] && !IsEmptyColumn(g[|g| - 1])
    requires var init := g[..|g| - 1];
      multiset(init) == multiset(Kept(init)) + multiset(EmptyColumns(|init| - |Kept(init)|))
    ensures multiset(g) == multiset(Kept(g)) + multiset(EmptyColumns(|g| - |Kept(g)|))
  {
    var init := g[..|g| - 1];
    KeptHeadKeep(g);
    MultisetSnocLeft(g, Kept(init), EmptyColumns(|init| - |Kept(init)|));
  }

  /** A non-empty last column is the last kept column and adds no empty column. */
  lemma KeptHeadKeep(g: Grid)
    requires g != [] && !IsEmptyColumn(g[|g| - 1])
    ensures Kept(g) == Kept(g[..|g| - 1]) + [g[|g| - 1]]
    ensures EmptyColumns(|g| - |Kept(g)|) == EmptyColumns(|g[..|g| - 1]| - |Kept(g[..|g| - 1])|)
  {
    assert |g| - |Kept(g)| == |g[..|g| - 1]| - |Kept(g[..|g| - 1])|;
  }

  /** Moving a sequence's last element onto the first of two parts of its front's cells. */
  lemma MultisetSnocLeft<T>(s: seq<T>, k: seq<T>, e: seq<T>)
    requires s != [] && multiset(s[..|s| - 1]) == multiset(k) + multiset(e)
    ensures multiset(s) == multiset(k + [s[|s| - 1]]) + multiset(e)
  {
    assert s == s[..|s| - 1] + [s[|s| - 1]];
  }

  /** Moving a sequence's last element onto the second of two parts of its front's cells. */
  lemma MultisetSnocRight<T>(s: seq<T>, k: seq<T>, e: seq<T>, x: T)
    requires s != [] && s[|s| - 1] == x && multiset(s[..|s| - 1]) == multiset(k) + multiset(e)
    ensures multiset(s) == multiset(k) + multiset(e + [x])
  {
    assert s == s[..|s| - 1] + [s[|s| - 1]];
  }

  lemma EmptyColumnsSnoc(n: nat)
    ensures EmptyColumns(n + 1) == EmptyColumns(n) + [Blanks(Height)]
  {
    assert EmptyColumns(n + 1)[..n] == EmptyColumns(n);
  }

  /**
   * After compaction the board has its shape, no empty column stands left of a non-empty one,
   * and it holds the same columns (hence the same cells) as before.
   */
  lemma CompactSpec(g: Grid)
    requires IsGrid(g)
    ensures IsGrid(Compact(g))
    ensures IsCompacted(Compact(g))
    ensures multiset(Compact(g)) == multiset(g)
  {
    var c := Compact(g);
    var k := |Kept(g)|;
    KeptMultiset(g);
    KeptColumns(g);
    forall i | 0 <= i < |c|
      ensures |c[i]| == Height
    {
      if i < k {
        assert c[i] in g;
      }
    }
    forall i, j | 0 <= i < j < |c| && IsEmptyColumn(c[i])
      ensures IsEmptyColumn(c[j])
    {
      assert i >= k;
    }
  }

  /** A compacted board is left as it is. */
  lemma {:induction false} CompactFixesCompacted(g: Grid)
    requires ColumnsOfHeight(g, Height) && IsCompacted(g)
    ensures Compact(g) == g
  {
    if g != [] {
      var init, last := g[..|g| - 1], g[|g| - 1];
      if IsEmptyColumn(last) {
        CompactFixesCompacted(init);
        var n := |init| - |Kept(init)|;
        assert last == Blanks(Height);
        assert EmptyColumns(n + 1) == EmptyColumns(n) + [Blanks(Height)];
        assert g == init + [last];
      } else {
        KeptOfNonEmpty(g);
      }
    }
  }

  /** A board holding the kept columns of `g` on the left and empty cells beyond them is `g` compacted. */
  lemma CompactedBoard(b: Grid, g: Grid)
    requires IsGrid(b) && IsGrid(g) && ColumnsOfHeight(Kept(g), Height)
    requires forall i, j :: 0 <= i < |Kept(g)| && 0 <= j < Height ==> b[i][j] == Kept(g)[i][j]
    requires forall i, j :: |Kept(g)| <= i < Width && 0 <= j < Height ==> b[i][j] == Empty
    ensures b == Compact(g)
  {
    CompactSpec(g);
    GridExtensionality(b, Compact(g));
  }

  /** Compaction applied twice changes nothing more than compaction applied once. */
  lemma CompactIdempotent(g: Grid)
    requires IsGrid(g)
    ensures Compact(Compact(g)) == Compact(g)
  {
    CompactSpec(g);
    CompactFixesCompacted(Compact(g));
  }

  /** Settled columns stay settled: compaction keeps columns whole and adds empty ones. */
  lemma CompactKeepsSettled(g: Grid)
    requires IsGrid(g) && forall x :: 0 <= x < |g| ==> IsSettled(g[x])
    ensures forall x :: 0 <= x < |Compact(g)| ==> IsSettled(Compact(g)[x])
  {
    var c := Compact(g);
    KeptColumns(g);
    forall x | 0 <= x < |c|
      ensures IsSettled(c[x])
    {
      if x < |Kept(g)| {
        assert c[x] in g;
      }
    }
  }

  /** A board in normal form: every column settled, and compacted. */
  ghost predicate IsNormal(g: Grid)
  {
    (forall x :: 0 <= x < |g| ==> IsSettled(g[x])) && IsCompacted(g)
  }

  /** Gravity then compaction leaves any board in normal form, which both then leave alone. */
  lemma SettleThenCompactNormal(g: Grid)
    requires IsGrid(g)
    ensures IsGrid(Compact(SettleBoard(g)))
    ensures IsNormal(Compact(SettleBoard(g)))
  {
    SettleBoardSpec(g);
    CompactSpec(SettleBoard(g));
    CompactKeepsSettled(SettleBoard(g));
  }

  lemma NormalIsFixed(g: Grid)
    requires IsGrid(g) && IsNormal(g)
    ensures SettleBoard(g) == g && Compact(g) == g
  {
    CompactFixesCompacted(g);
    forall x | 0 <= x < |g|
      ensures SettleBoard(g)[x] == g[x]
    {
      SettleFixesSettled(g[x]);
    }
  }
}
