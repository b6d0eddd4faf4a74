/**
 * SudokuLadder/UniqueInRegion.swift: the uniqueness rule over an arbitrary
 * group of cells.  Two filled cells at different positions with the same
 * effective value both break the rule.
 */
module UniqueInRegion {
  import opened Optional
  import opened CellModel

  /** Cells `a` and `b` of the group clash: different positions, same non-nil value. */
  ghost predicate Clash(g: seq<Cell>, a: int, b: int)
    requires 0 <= a < |g| && 0 <= b < |g|
  {
    && g[a].Position() != g[b].Position()
    && g[a].EffectiveValue().Some?
    && g[a].EffectiveValue() == g[b].EffectiveValue()
  }

  /** Cell `a` of the group clashes with some other cell of the group. */
  ghost predicate Duplicated(g: seq<Cell>, a: int)
    requires 0 <= a < |g|
  {
    exists b :: 0 <= b < |g| && Clash(g, a, b)
  }

  /** The positions the rule reports: those of the duplicated cells. */
  ghost function Duplicates(g: seq<Cell>): set<Point>
  {
    set a | 0 <= a < |g| && Duplicated(g, a) :: g[a].Position()
  }

  /** Pair (a, b) comes before (i, j) in the order the nested loops visit pairs. */
  ghost predicate Visited(a: int, b: int, i: int, j: int) {
    a < i || (a == i && b < j)
  }

  /**
   * What the nested loops have inserted when they reach pair (i, j): both ends
   * of every clash among the pairs visited before it, in row-major pair order.
   */
  ghost function ClashesSeen(g: seq<Cell>, i: int, j: int): set<Point>
    requires 0 <= i <= |g| && 0 <= j <= |g| && (j > 0 ==> i < |g|)
    decreases i, j
  {
    if j > 0 then
      ClashesSeen(g, i, j - 1) + (if Clash(g, i, j - 1) then {g[i].Position(), g[j - 1].Position()} else {})
    else if i > 0 then
      ClashesSeen(g, i - 1, |g|)
    else
      {}
  }

  /** The loops' running set holds exactly both ends of the clashes visited so far. */
  lemma {:induction false} ClashesSeenMembers(g: seq<Cell>, i: int, j: int, p: Point)
    requires 0 <= i <= |g| && 0 <= j <= |g| && (j > 0 ==> i < |g|)
    ensures p in ClashesSeen(g, i, j) <==>
      exists a, b :: 0 <= a < |g| && 0 <= b < |g| && Visited(a, b, i, j) && Clash(g, a, b)
                     && (p == g[a].Position() || p == g[b].Position())
    decreases i, j
  {
    if j > 0 {
      ClashesSeenMembers(g, i, j - 1, p);
      if p in ClashesSeen(g, i, j) && p !in ClashesSeen(g, i, j - 1) {
        assert Visited(i, j - 1, i, j) && Clash(g, i, j - 1);
      }
      if exists a, b :: 0 <= a < |g| && 0 <= b < |g| && Visited(a, b, i, j) && Clash(g, a, b)
                        && (p == g[a].Position() || p == g[b].Position()) {
        var a, b :| 0 <= a < |g| && 0 <= b < |g| && Visited(a, b, i, j) && Clash(g, a, b)
                    && (p == g[a].Position() || p == g[b].Position());
        if !Visited(a, b, i, j - 1) {
          assert a == i && b == j - 1;
        }
      }
    } else if i > 0 {
      ClashesSeenMembers(g, i - 1, |g|, p);
      assert forall a, b :: 0 <= b < |g| ==> (Visited(a, b, i - 1, |g|) <==> Visited(a, b, i, 0));
    }
  }

  lemma ClashesSeenStep(g: seq<Cell>, i: int, j: int)
    requires 0 <= i < |g| && 0 <= j < |g|
    ensures ClashesSeen(g, i, j + 1)
         == ClashesSeen(g, i, j) + (if Clash(g, i, j) then {g[i].Position(), g[j].Position()} else {})
  {
  }

  lemma ClashesSeenNextRow(g: seq<Cell>, i: int)
    requires 0 <= i < |g|
    ensures ClashesSeen(g, i, |g|) == ClashesSeen(g, i + 1, 0)
  {
  }

  /** A row of the pair loops whose first cell is empty inserts nothing. */
  lemma {:induction false} ClashesSeenSkipEmpty(g: seq<Cell>, i: int, j: int)
    requires 0 <= i < |g| && 0 <= j <= |g| && g[i].EffectiveValue().None?
    ensures ClashesSeen(g, i, j) == ClashesSeen(g, i, 0)
  {
    if j > 0 {
      ClashesSeenSkipEmpty(g, i, j - 1);
    }
  }

  lemma ClashSymmetric(g: seq<Cell>, a: int, b: int)
    requires 0 <= a < |g| && 0 <= b < |g|
    ensures Clash(g, a, b) <==> Clash(g, b, a)
  {
  }

  lemma ClashesSeenAll(g: seq<Cell>)
    ensures ClashesSeen(g, |g|, 0) == Duplicates(g)
  {
    forall p ensures p in ClashesSeen(g, |g|, 0) <==> p in Duplicates(g) {
      ClashesSeenMembers(g, |g|, 0, p);
      if p in Duplicates(g) {
        var a :| 0 <= a < |g| && Duplicated(g, a) && p == g[a].Position();
        var b :| 0 <= b < |g| && Clash(g, a, b);
        assert Visited(a, b, |g|, 0);
      }
      if p in ClashesSeen(g, |g|, 0) {
        var a, b :| 0 <= a < |g| && 0 <= b < |g| && Visited(a, b, |g|, 0) && Clash(g, a, b)
                    && (p == g[a].Position() || p == g[b].Position());
        ClashSymmetric(g, a, b);
        assert Duplicated(g, a) && Duplicated(g, b);
      }
    }
  }

  /** `uniqueInRegion(group:)`: every cell pair is compared, both ends of a clash are inserted. */
  method UniqueInRegion(group: seq<Cell>) returns (out: set<Point>)
    ensures out == Duplicates(group)
  {
    out := {};
    var i := 0;
    while i < |group|
      invariant 0 <= i <= |group|
      invariant out == ClashesSeen(group, i, 0)
    {
      var cell := group[i];
      var j := 0;
      while j < |group|
        invariant 0 <= j <= |group|
        invariant out == ClashesSeen(group, i, j)
      {
        var c := group[j];
        ClashesSeenStep(group, i, j);
        if c.col == cell.col && c.row == cell.row {
        } else if c.EffectiveValue().None? {
        } else if cell.EffectiveValue().None? {
        } else if c.EffectiveValue() == cell.EffectiveValue() {
          out := out + {cell.Position()};
          out := out + {c.Position()};
        }
        j := j + 1;
      }
      ClashesSeenNextRow(group, i);
      i := i + 1;
    }
    ClashesSeenAll(group);
  }

  // Properties of the rule.

  /** Only positions of group cells are reported, and only of cells with a value. */
  lemma DuplicatesAreFilledGroupCells(g: seq<Cell>, p: Point)
    requires p in Duplicates(g)
    ensures exists a :: 0 <= a < |g| && g[a].Position() == p && g[a].EffectiveValue().Some?
  {
  }

  /** A position is reported iff a filled cell there shares its value with a cell elsewhere. */
  lemma DuplicatesCharacterized(g: seq<Cell>, p: Point)
    ensures p in Duplicates(g) <==>
      exists a, b :: 0 <= a < |g| && 0 <= b < |g| && g[a].Position() == p && g[b].Position() != p
                     && g[a].EffectiveValue().Some? && g[a].EffectiveValue() == g[b].EffectiveValue()
  {
    if p in Duplicates(g) {
      var a :| 0 <= a < |g| && Duplicated(g, a) && p == g[a].Position();
      var b :| 0 <= b < |g| && Clash(g, a, b);
      assert g[a].Position() == p && g[b].Position() != p;
    } else {
      forall a, b | 0 <= a < |g| && 0 <= b < |g| && g[a].Position() == p
        ensures !(g[b].Position() != p && g[a].EffectiveValue().Some?
                  && g[a].EffectiveValue() == g[b].EffectiveValue())
      {
        assert !Duplicated(g, a);
        assert !Clash(g, a, b);
      }
    }
  }

  /** Empty cells are never reported (unless another filled cell shares the position). */
  lemma EmptyCellsNotFlagged(g: seq<Cell>, a: int)
    requires 0 <= a < |g| && g[a].EffectiveValue().None?
    requires forall b :: 0 <= b < |g| && g[b].Position() == g[a].Position() ==> g[b].EffectiveValue().None?
    ensures g[a].Position() !in Duplicates(g)
  {
  }

  /** If `a` is reported because of `b`, then `b` is reported too. */
  lemma DuplicatesSymmetric(g: seq<Cell>, a: int, b: int)
    requires 0 <= a < |g| && 0 <= b < |g| && Clash(g, a, b)
    ensures g[a].Position() in Duplicates(g) && g[b].Position() in Duplicates(g)
  {
    ClashSymmetric(g, a, b);
    assert Duplicated(g, a) && Duplicated(g, b);
  }

  /** Filled cells with pairwise distinct values (or sharing a position) give no report. */
  lemma DistinctValuesNoDuplicates(g: seq<Cell>)
    requires forall a, b :: (0 <= a < |g| && 0 <= b < |g| && g[a].EffectiveValue().Some?
                              && g[a].EffectiveValue() == g[b].EffectiveValue())
                              ==> g[a].Position() == g[b].Position()
    ensures Duplicates(g) == {}
  {
    forall a | 0 <= a < |g| ensures !Duplicated(g, a) {
    }
  }

  lemma DuplicatesIncluded(g: seq<Cell>, h: seq<Cell>)
    requires forall c :: c in g ==> c in h
    ensures Duplicates(g) <= Duplicates(h)
  {
    forall p | p in Duplicates(g) ensures p in Duplicates(h) {
      var a :| 0 <= a < |g| && Duplicated(g, a) && p == g[a].Position();
      var b :| 0 <= b < |g| && Clash(g, a, b);
      assert g[a] in h && g[b] in h;
      var a' :| 0 <= a' < |h| && h[a'] == g[a];
      var b' :| 0 <= b' < |h| && h[b'] == g[b];
      assert Clash(h, a', b');
      assert Duplicated(h, a');
    }
  }

  /** The report depends only on which cells the group holds, not on their order or repetition. */
  lemma DuplicatesOrderIndependent(g1: seq<Cell>, g2: seq<Cell>)
    requires forall c :: c in g1 <==> c in g2
    ensures Duplicates(g1) == Duplicates(g2)
  {
    DuplicatesIncluded(g1, g2);
    DuplicatesIncluded(g2, g1);
  }

  /** The rule reads nothing but positions and effective values. */
  lemma DuplicatesDependOnValuesOnly(g1: seq<Cell>, g2: seq<Cell>)
    requires |g1| == |g2|
    requires forall a :: 0 <= a < |g1| ==>
               g1[a].Position() == g2[a].Position() && g1[a].EffectiveValue() == g2[a].EffectiveValue()
    ensures Duplicates(g1) == Duplicates(g2)
  {
    forall a | 0 <= a < |g1| ensures Duplicated(g1, a) <==> Duplicated(g2, a) {
      if Duplicated(g1, a) {
        var b :| 0 <= b < |g1| && Clash(g1, a, b);
        assert Clash(g2, a, b);
      }
      if Duplicated(g2, a) {
        var b :| 0 <= b < |g2| && Clash(g2, a, b);
        assert Clash(g1, a, b);
      }
    }
  }
}
