/**
 * SudokuLadder/KillerCage.swift: `KillerCageWithSumConstraint(sum:)` returns a
 * rule for one cage.  The rule reports every clash (as the uniqueness rule
 * does) and, when the filled values do not add up to the target, every filled
 * cell.  The sum test runs on partly filled cages too.
 */
module KillerCage {
  import opened Optional
  import opened CellModel
  import opened UniqueInRegion

  /** The value a cell adds to the running sum: its effective value, or nothing. */
  ghost function Contribution(c: Cell): int {
    if c.EffectiveValue().Some? then c.EffectiveValue().value else 0
  }

  /** `realSum`: the sum of the effective values present in the group. */
  ghost function FilledSum(g: seq<Cell>): int {
    if g == [] then 0 else FilledSum(g[..|g| - 1]) + Contribution(g[|g| - 1])
  }

  /** Positions of the group's filled cells. */
  ghost function Filled(g: seq<Cell>): set<Point> {
    set a | 0 <= a < |g| && g[a].EffectiveValue().Some? :: g[a].Position()
  }

  /** What the cage rule reports for the target `sum`. */
  ghost function CageViolations(sum: int, g: seq<Cell>): set<Point> {
    Duplicates(g) + (if FilledSum(g) != sum then Filled(g) else {})
  }

  /** `realSum` after the first `k` cells of the loop. */
  ghost function PrefixSum(g: seq<Cell>, k: int): int
    requires 0 <= k <= |g|
  {
    if k == 0 then 0 else PrefixSum(g, k - 1) + Contribution(g[k - 1])
  }

  lemma {:induction false} PrefixSumIsFilledSum(g: seq<Cell>, k: int)
    requires 0 <= k <= |g|
    ensures PrefixSum(g, k) == FilledSum(g[..k])
  {
    if k > 0 {
      PrefixSumIsFilledSum(g, k - 1);
      assert g[..k][..k - 1] == g[..k - 1];
    }
  }

  lemma FilledStep(g: seq<Cell>, k: int)
    requires 0 <= k < |g|
    ensures Filled(g[..k + 1]) == Filled(g[..k]) + (if g[k].EffectiveValue().Some? then {g[k].Position()} else {})
  {
    var s, t := g[..k], g[..k + 1];
    assert forall a :: 0 <= a < k ==> t[a] == s[a];
    assert t[k] == g[k];
  }

  /** The inner loop of the first pass: compare filled cell `i` with every cell of the cage. */
  method CompareWithCage(region: seq<Cell>, i: int, out0: set<Point>) returns (out: set<Point>)
    requires 0 <= i < |region| && region[i].EffectiveValue().Some?
    requires out0 == ClashesSeen(region, i, 0)
    ensures out == ClashesSeen(region, i, |region|)
  {
    out := out0;
    var cell := region[i];
    var j := 0;
    while j < |region|
      invariant 0 <= j <= |region|
      invariant out == ClashesSeen(region, i, j)
    {
      var cell2 := region[j];
      ClashesSeenStep(region, i, j);
      ghost var seen := out;
      if cell2.EffectiveValue().None? {
        assert !Clash(region, i, j);
      } else if cell.row == cell2.row && cell.col == cell2.col {
        assert !Clash(region, i, j);
      } else if cell.EffectiveValue().value == cell2.EffectiveValue().value {
        assert Clash(region, i, j);
        out := out + {cell2.Position()};
        out := out + {cell.Position()};
        assert out == seen + {cell.Position(), cell2.Position()};
      } else {
        assert !Clash(region, i, j);
      }
      j := j + 1;
    }
  }

  /**
   * The closure returned by `KillerCageWithSumConstraint(sum:)`, applied to a cage:
   * a first pass sums the filled values and inserts both ends of every clash, a
   * second pass inserts every filled cell when the sum is off.
   */
  method KillerCageWithSumConstraint(sum: int, region: seq<Cell>) returns (out: set<Point>)
    ensures out == CageViolations(sum, region)
  {
    out := {};
    var realSum := 0;
    var i := 0;
    while i < |region|
      invariant 0 <= i <= |region|
      invariant realSum == PrefixSum(region, i)
      invariant out == ClashesSeen(region, i, 0)
    {
      var cell := region[i];
      if cell.EffectiveValue().Some? {
        realSum := realSum + cell.EffectiveValue().value;
        out := CompareWithCage(region, i, out);
      } else {
        ClashesSeenSkipEmpty(region, i, |region|);
      }
      ClashesSeenNextRow(region, i);
      i := i + 1;
    }
    PrefixSumIsFilledSum(region, |region|);
    assert region[..|region|] == region;
    ClashesSeenAll(region);
    if sum != realSum {
      ghost var clashes := out;
      var k := 0;
      while k < |region|
        invariant 0 <= k <= |region|
        invariant out == clashes + Filled(region[..k])
      {
        FilledStep(region, k);
        if region[k].EffectiveValue().Some? {
          out := out + {region[k].Position()};
        }
        k := k + 1;
      }
    }
  }

  // Properties of the rule.

  /** A position is reported iff a filled cell sits there that clashes or the filled sum is off. */
  lemma CageViolationsCharacterized(sum: int, g: seq<Cell>, p: Point)
    ensures p in CageViolations(sum, g) <==>
      exists a :: 0 <= a < |g| && g[a].Position() == p && g[a].EffectiveValue().Some?
                  && (Duplicated(g, a) || FilledSum(g) != sum)
  {
    if p in Duplicates(g) {
      var a :| 0 <= a < |g| && Duplicated(g, a) && p == g[a].Position();
      var b :| 0 <= b < |g| && Clash(g, a, b);
    }
  }

  /** Two filled cells at different positions with the same value are both reported. */
  lemma CageClashBothReported(sum: int, g: seq<Cell>, a: int, b: int)
    requires 0 <= a < |g| && 0 <= b < |g| && Clash(g, a, b)
    ensures g[a].Position() in CageViolations(sum, g) && g[b].Position() in CageViolations(sum, g)
  {
    DuplicatesSymmetric(g, a, b);
  }

  /** A wrong sum reports every filled cell, even while other cells of the cage are empty. */
  lemma WrongSumFlagsEveryFilledCell(sum: int, g: seq<Cell>, a: int)
    requires 0 <= a < |g| && g[a].EffectiveValue().Some? && FilledSum(g) != sum
    ensures g[a].Position() in CageViolations(sum, g)
  {
  }

  /** Empty cells contribute nothing to the sum. */
  lemma {:induction false} FilledSumOfEmpty(g: seq<Cell>)
    requires forall a :: 0 <= a < |g| ==> g[a].EffectiveValue().None?
    ensures FilledSum(g) == 0
  {
    if g != [] {
      FilledSumOfEmpty(g[..|g| - 1]);
    }
  }

  /** A cage with no filled cell reports nothing, whatever its target. */
  lemma EmptyCageReportsNothing(sum: int, g: seq<Cell>)
    requires forall a :: 0 <= a < |g| ==> g[a].EffectiveValue().None?
    ensures CageViolations(sum, g) == {}
  {
    DistinctValuesNoDuplicates(g);
  }

  /** Distinct filled values adding up to the target: nothing is reported. */
  lemma SolvedCageReportsNothing(sum: int, g: seq<Cell>)
    requires forall a, b :: (0 <= a < |g| && 0 <= b < |g| && g[a].EffectiveValue().Some?
                              && g[a].EffectiveValue() == g[b].EffectiveValue())
                              ==> g[a].Position() == g[b].Position()
    requires FilledSum(g) == sum
    ensures CageViolations(sum, g) == {}
  {
    DistinctValuesNoDuplicates(g);
  }

  /** For a completely filled cage the sum part fires exactly when the values miss the target. */
  lemma FullCageSumCheck(sum: int, g: seq<Cell>)
    requires g != [] && forall a :: 0 <= a < |g| ==> g[a].EffectiveValue().Some?
    ensures Filled(g) <= CageViolations(sum, g) <==> FilledSum(g) != sum || Filled(g) <= Duplicates(g)
  {
  }

  lemma {:induction false} FilledSumAppend(s: seq<Cell>, t: seq<Cell>)
    ensures FilledSum(s + t) == FilledSum(s) + FilledSum(t)
  {
    if t == [] {
      assert s + t == s;
    } else {
      var u := t[..|t| - 1];
      assert (s + t)[..|s + t| - 1] == s + u;
      FilledSumAppend(s, u);
    }
  }

  /** Removing one cell from anywhere in the cage lowers the sum by that cell's value. */
  lemma FilledSumRemove(g: seq<Cell>, k: int)
    requires 0 <= k < |g|
    ensures FilledSum(g) == FilledSum(g[..k] + g[k + 1..]) + Contribution(g[k])
  {
    var left, right := g[..k + 1], g[k + 1..];
    assert g == left + right;
    FilledSumAppend(left, right);
    assert left[..k] == g[..k];
    FilledSumAppend(g[..k], right);
  }

  lemma MultisetRemove(g: seq<Cell>, k: int)
    requires 0 <= k < |g|
    ensures multiset(g[..k] + g[k + 1..]) == multiset(g) - multiset{g[k]}
  {
    assert g == g[..k] + [g[k]] + g[k + 1..];
    assert multiset(g) == multiset(g[..k]) + multiset{g[k]} + multiset(g[k + 1..]);
  }

  /** The running sum does not depend on the order in which the cage lists its cells. */
  lemma {:induction false} FilledSumPermutation(g1: seq<Cell>, g2: seq<Cell>)
    requires multiset(g1) == multiset(g2)
    ensures FilledSum(g1) == FilledSum(g2)
    decreases |g1|
  {
    if g1 == [] {
      assert |g2| == |multiset(g2)| == 0;
    } else {
      var n := |g1| - 1;
      var x := g1[n];
      var init := g1[..n];
      MultisetRemove(g1, n);
      assert g1[..n] + g1[n + 1..] == init;
      assert x in multiset(g2);
      var k :| 0 <= k < |g2| && g2[k] == x;
      var rest := g2[..k] + g2[k + 1..];
      MultisetRemove(g2, k);
      FilledSumPermutation(init, rest);
      FilledSumRemove(g2, k);
      assert g1[..|g1| - 1] == init;
    }
  }

  /** Reordering the cage's cells does not change what it reports. */
  lemma CageViolationsPermutation(sum: int, g1: seq<Cell>, g2: seq<Cell>)
    requires multiset(g1) == multiset(g2)
    ensures CageViolations(sum, g1) == CageViolations(sum, g2)
  {
    forall c ensures c in g1 <==> c in g2 {
      assert c in g1 <==> c in multiset(g1);
      assert c in g2 <==> c in multiset(g2);
    }
    DuplicatesOrderIndependent(g1, g2);
    FilledSumPermutation(g1, g2);
    forall p ensures p in Filled(g1) <==> p in Filled(g2) {
      if p in Filled(g1) {
        var a :| 0 <= a < |g1| && g1[a].EffectiveValue().Some? && g1[a].Position() == p;
        assert g1[a] in g2;
      }
      if p in Filled(g2) {
        var a :| 0 <= a < |g2| && g2[a].EffectiveValue().Some? && g2[a].Position() == p;
        assert g2[a] in g1;
      }
    }
  }

  /** The cage rule reads nothing but positions and effective values. */
  lemma {:induction false} CageViolationsDependOnValuesOnly(sum: int, g1: seq<Cell>, g2: seq<Cell>)
    requires |g1| == |g2|
    requires forall a :: 0 <= a < |g1| ==>
               g1[a].Position() == g2[a].Position() && g1[a].EffectiveValue() == g2[a].EffectiveValue()
    ensures FilledSum(g1) == FilledSum(g2)
    ensures CageViolations(sum, g1) == CageViolations(sum, g2)
  {
    DuplicatesDependOnValuesOnly(g1, g2);
    if g1 != [] {
      var n := |g1| - 1;
      CageViolationsDependOnValuesOnly(sum, g1[..n], g2[..n]);
    }
    assert Filled(g1) == Filled(g2);
  }
}
