/** The reference definition of the optimal (Needleman-Wunsch) alignment cost, the
    recurrence that both the full table (basic.py:116-131) and the two-row scans
    (efficient.py:35-52, 66-83) evaluate, and the facts about it that the
    divide-and-conquer aligner relies on.

    The cost is defined on a "box": the substring `s1[i0..i1]` against `s2[j0..j1]` of two
    fixed strings, so that splitting a problem only moves indices. */
module OptimalCost {
  import opened CostModel
  import opened Alignments

  /** Filling a table for `s1` and `s2` looks every pair `s1[i] + s2[j]` up in the mismatch
      table, so it succeeds exactly when one side is empty or both are all nucleotides. */
  predicate Alignable(s1: string, s2: string) {
    s1 == [] || s2 == [] || (Bases(s1) && Bases(s2))
  }

  /** Every symbol of `s[lo..hi]` is a nucleotide. */
  predicate BasesIn(s: string, lo: nat, hi: nat)
    requires lo <= hi <= |s|
  {
    forall k :: lo <= k < hi ==> IsBase(s[k])
  }

  /** `s1[i0..i1]` against `s2[j0..j1]` is a box whose table can be filled. */
  predicate InBox(s1: string, s2: string, i0: nat, i1: nat, j0: nat, j1: nat) {
    i0 <= i1 <= |s1| && j0 <= j1 <= |s2| &&
    (i0 == i1 || j0 == j1 || (BasesIn(s1, i0, i1) && BasesIn(s2, j0, j1)))
  }

  /** Python's three-argument `min`. */
  function Min3(a: int, b: int, c: int): (m: int)
    ensures m <= a && m <= b && m <= c
    ensures m == a || m == b || m == c
  {
    if a <= b && a <= c then a else if b <= c then b else c
  }

  /** The optimal cost of aligning `s1[i0..i1]` with `s2[j0..j1]`: the last column is a
      substitution, a symbol of `s1` against a gap, or a symbol of `s2` against a gap; an
      empty side costs one gap per symbol of the other. */
  ghost function BoxCost(s1: string, s2: string, i0: nat, i1: nat, j0: nat, j1: nat): nat
    requires InBox(s1, s2, i0, i1, j0, j1)
    decreases i1 - i0 + j1 - j0
  {
    if i1 == i0 then GapPenalty * (j1 - j0)
    else if j1 == j0 then GapPenalty * (i1 - i0)
    else
      Min3(MismatchPenalty(s1[i1 - 1], s2[j1 - 1]) + BoxCost(s1, s2, i0, i1 - 1, j0, j1 - 1),
           GapPenalty + BoxCost(s1, s2, i0, i1 - 1, j0, j1),
           GapPenalty + BoxCost(s1, s2, i0, i1, j0, j1 - 1))
  }

  /** The optimal cost of aligning the whole of `s1` with the whole of `s2`. */
  ghost function OptCost(s1: string, s2: string): nat
    requires Alignable(s1, s2)
  {
    BoxCost(s1, s2, 0, |s1|, 0, |s2|)
  }

  /** `s[i0..i1]` and `t[a0..a1]` are the same substring. */
  ghost predicate SameSlice(s: string, i0: nat, i1: nat, t: string, a0: nat, a1: nat) {
    i0 <= i1 <= |s| && a0 <= a1 <= |t| && s[i0..i1] == t[a0..a1]
  }

  /** Equal slices stay equal after dropping their last symbol, which is also shared. */
  lemma SliceDropLast(s: string, i0: nat, i1: nat, t: string, a0: nat, a1: nat)
    requires i0 < i1 && SameSlice(s, i0, i1, t, a0, a1)
    ensures a0 < a1 && SameSlice(s, i0, i1 - 1, t, a0, a1 - 1) && s[i1 - 1] == t[a1 - 1]
  {
    assert |s[i0..i1]| == |t[a0..a1]|;
    assert s[i0..i1 - 1] == s[i0..i1][..i1 - 1 - i0];
    assert t[a0..a1 - 1] == t[a0..a1][..a1 - 1 - a0];
    assert s[i1 - 1] == s[i0..i1][i1 - 1 - i0];
    assert t[a1 - 1] == t[a0..a1][a1 - 1 - a0];
  }

  /** Equal slices hold nucleotides alike. */
  lemma SliceBases(s: string, i0: nat, i1: nat, t: string, a0: nat, a1: nat)
    requires SameSlice(s, i0, i1, t, a0, a1) && BasesIn(s, i0, i1)
    ensures BasesIn(t, a0, a1)
  {
    forall k | a0 <= k < a1
      ensures IsBase(t[k])
    {
      assert t[k] == t[a0..a1][k - a0] == s[i0..i1][k - a0] == s[i0 + (k - a0)];
    }
  }

  /** Two boxes, of two pairs of strings, that have the same cost. */
  ghost predicate SameCost(s1: string, s2: string, i0: nat, i1: nat, j0: nat, j1: nat,
                           t1: string, t2: string, a0: nat, a1: nat, b0: nat, b1: nat)
    requires InBox(s1, s2, i0, i1, j0, j1)
  {
    InBox(t1, t2, a0, a1, b0, b1) && BoxCost(s1, s2, i0, i1, j0, j1) == BoxCost(t1, t2, a0, a1, b0, b1)
  }

  /** Every box inside two alignable strings can be filled. */
  lemma AlignableInBox(s1: string, s2: string, i0: nat, i1: nat, j0: nat, j1: nat)
    requires Alignable(s1, s2) && i0 <= i1 <= |s1| && j0 <= j1 <= |s2|
    ensures InBox(s1, s2, i0, i1, j0, j1)
  {
  }

  /** `v` is the cell `(i, j)` of the full table: the optimum of `s1[..i]` against `s2[..j]`. */
  ghost predicate CellIs(s1: string, s2: string, i: nat, j: nat, v: int) {
    InBox(s1, s2, 0, i, 0, j) && v == BoxCost(s1, s2, 0, i, 0, j)
  }

  /** The first row and the first column of the table: `k` gap penalties. */
  lemma CellBorder(s1: string, s2: string, i: nat, j: nat)
    requires i <= |s1| && j <= |s2| && (i == 0 || j == 0)
    ensures CellIs(s1, s2, i, j, (i + j) * GapPenalty)
  {
  }

  /** One step of the table fill: an inner cell is the cheapest of its three neighbours'
      values plus the cost of the column that reaches it from each. */
  lemma CellStep(s1: string, s2: string, i: nat, j: nat, diagonal: int, up: int, left: int)
    requires 0 < i <= |s1| && 0 < j <= |s2| && IsBase(s1[i - 1]) && IsBase(s2[j - 1])
    requires CellIs(s1, s2, i - 1, j - 1, diagonal) && CellIs(s1, s2, i - 1, j, up) && CellIs(s1, s2, i, j - 1, left)
    ensures CellIs(s1, s2, i, j, Min3(MismatchPenalty(s1[i - 1], s2[j - 1]) + diagonal, GapPenalty + up, GapPenalty + left))
  {
    assert BasesIn(s1, 0, i) && BasesIn(s2, 0, j);
  }

  /** The cost of a box depends only on the two substrings it spans. */
  lemma {:induction false} BoxCostSlices(s1: string, s2: string, i0: nat, i1: nat, j0: nat, j1: nat,
                                         t1: string, t2: string, a0: nat, a1: nat, b0: nat, b1: nat)
    requires InBox(s1, s2, i0, i1, j0, j1)
    requires SameSlice(s1, i0, i1, t1, a0, a1) && SameSlice(s2, j0, j1, t2, b0, b1)
    ensures SameCost(s1, s2, i0, i1, j0, j1, t1, t2, a0, a1, b0, b1)
    decreases i1 - i0 + j1 - j0
  {
    if i1 > i0 && j1 > j0 {
      SliceDropLast(s1, i0, i1, t1, a0, a1);
      SliceDropLast(s2, j0, j1, t2, b0, b1);
      BoxCostSlices(s1, s2, i0, i1 - 1, j0, j1 - 1, t1, t2, a0, a1 - 1, b0, b1 - 1);
      BoxCostSlices(s1, s2, i0, i1 - 1, j0, j1, t1, t2, a0, a1 - 1, b0, b1);
      BoxCostSlices(s1, s2, i0, i1, j0, j1 - 1, t1, t2, a0, a1, b0, b1 - 1);
      BoxCostStep(s1, s2, i0, i1, j0, j1, t1, t2, a0, a1, b0, b1);
    } else {
      assert |s1[i0..i1]| == |t1[a0..a1]| && |s2[j0..j1]| == |t2[b0..b1]|;
    }
  }

  /** Two boxes whose last symbols agree and whose three sub-boxes cost the same cost the same. */
  lemma BoxCostStep(s1: string, s2: string, i0: nat, i1: nat, j0: nat, j1: nat,
                    t1: string, t2: string, a0: nat, a1: nat, b0: nat, b1: nat)
    requires InBox(s1, s2, i0, i1, j0, j1) && i0 < i1 && j0 < j1 && a0 < a1 && b0 < b1
    requires SameSlice(s1, i0, i1, t1, a0, a1) && SameSlice(s2, j0, j1, t2, b0, b1)
    requires SameCost(s1, s2, i0, i1 - 1, j0, j1 - 1, t1, t2, a0, a1 - 1, b0, b1 - 1)
    requires SameCost(s1, s2, i0, i1 - 1, j0, j1, t1, t2, a0, a1 - 1, b0, b1)
    requires SameCost(s1, s2, i0, i1, j0, j1 - 1, t1, t2, a0, a1, b0, b1 - 1)
    ensures SameCost(s1, s2, i0, i1, j0, j1, t1, t2, a0, a1, b0, b1)
  {
    SliceBases(s1, i0, i1, t1, a0, a1);
    SliceBases(s2, j0, j1, t2, b0, b1);
    SliceDropLast(s1, i0, i1, t1, a0, a1);
    SliceDropLast(s2, j0, j1, t2, b0, b1);
  }

  /** The box cost is the optimal cost of the two substrings. */
  lemma BoxIsOptCost(s1: string, s2: string, i0: nat, i1: nat, j0: nat, j1: nat)
    requires InBox(s1, s2, i0, i1, j0, j1)
    ensures Alignable(s1[i0..i1], s2[j0..j1])
    ensures BoxCost(s1, s2, i0, i1, j0, j1) == OptCost(s1[i0..i1], s2[j0..j1])
  {
    assert SameSlice(s1, i0, i1, s1[i0..i1], 0, i1 - i0) by {
      assert s1[i0..i1][0..i1 - i0] == s1[i0..i1];
    }
    assert SameSlice(s2, j0, j1, s2[j0..j1], 0, j1 - j0) by {
      assert s2[j0..j1][0..j1 - j0] == s2[j0..j1];
    }
    BoxCostSlices(s1, s2, i0, i1, j0, j1, s1[i0..i1], s2[j0..j1], 0, i1 - i0, 0, j1 - j0);
  }

  /** One more symbol of `s1` against a gap costs at most one gap more. */
  lemma GapInSecond(s1: string, s2: string, i0: nat, i1: nat, j0: nat, j1: nat)
    requires InBox(s1, s2, i0, i1, j0, j1) && i0 < i1
    ensures BoxCost(s1, s2, i0, i1, j0, j1) <= GapPenalty + BoxCost(s1, s2, i0, i1 - 1, j0, j1)
  {
  }

  /** One more symbol of `s2` against a gap costs at most one gap more. */
  lemma GapInFirst(s1: string, s2: string, i0: nat, i1: nat, j0: nat, j1: nat)
    requires InBox(s1, s2, i0, i1, j0, j1) && j0 < j1
    ensures BoxCost(s1, s2, i0, i1, j0, j1) <= GapPenalty + BoxCost(s1, s2, i0, i1, j0, j1 - 1)
  {
  }

  /** Placing an alignment of the upper-left box before one of the lower-right box aligns the
      whole box, so the optimum of the whole is at most the sum of the two optima. */
  lemma {:induction false} SplitUpper(s1: string, s2: string, i0: nat, i1: nat, i2: nat, j0: nat, j1: nat, j2: nat)
    requires InBox(s1, s2, i0, i2, j0, j2) && i0 <= i1 <= i2 && j0 <= j1 <= j2
    ensures BoxCost(s1, s2, i0, i2, j0, j2) <= BoxCost(s1, s2, i0, i1, j0, j1) + BoxCost(s1, s2, i1, i2, j1, j2)
    decreases i2 - i1 + j2 - j1, 2
  {
    if i2 == i1 && j2 == j1 {
    } else if i2 == i1 {
      SplitUpperRight(s1, s2, i0, i1, i2, j0, j1, j2);
    } else if j2 == j1 {
      SplitUpperDown(s1, s2, i0, i1, i2, j0, j1, j2);
    } else {
      var second := BoxCost(s1, s2, i1, i2, j1, j2);
      if second == MismatchPenalty(s1[i2 - 1], s2[j2 - 1]) + BoxCost(s1, s2, i1, i2 - 1, j1, j2 - 1) {
        SplitUpperDiagonal(s1, s2, i0, i1, i2, j0, j1, j2);
      } else if second == GapPenalty + BoxCost(s1, s2, i1, i2 - 1, j1, j2) {
        SplitUpperDown(s1, s2, i0, i1, i2, j0, j1, j2);
      } else {
        SplitUpperRight(s1, s2, i0, i1, i2, j0, j1, j2);
      }
    }
  }

  /** `SplitUpper` when the lower-right box's last column holds a symbol of `s2` against a gap
      (always so once its part of `s1` is empty): so may the whole box's. */
  lemma {:induction false} SplitUpperRight(s1: string, s2: string, i0: nat, i1: nat, i2: nat, j0: nat, j1: nat, j2: nat)
    requires InBox(s1, s2, i0, i2, j0, j2) && i0 <= i1 <= i2 && j0 <= j1 < j2
    requires i1 == i2 || BoxCost(s1, s2, i1, i2, j1, j2) == GapPenalty + BoxCost(s1, s2, i1, i2, j1, j2 - 1)
    ensures BoxCost(s1, s2, i0, i2, j0, j2) <= BoxCost(s1, s2, i0, i1, j0, j1) + BoxCost(s1, s2, i1, i2, j1, j2)
    decreases i2 - i1 + j2 - j1, 1
  {
    SplitUpper(s1, s2, i0, i1, i2, j0, j1, j2 - 1);
    GapInFirst(s1, s2, i0, i2, j0, j2);
  }

  /** `SplitUpper` when the lower-right box's last column holds a symbol of `s1` against a gap
      (always so once its part of `s2` is empty): so may the whole box's. */
  lemma {:induction false} SplitUpperDown(s1: string, s2: string, i0: nat, i1: nat, i2: nat, j0: nat, j1: nat, j2: nat)
    requires InBox(s1, s2, i0, i2, j0, j2) && i0 <= i1 < i2 && j0 <= j1 <= j2
    requires j1 == j2 || BoxCost(s1, s2, i1, i2, j1, j2) == GapPenalty + BoxCost(s1, s2, i1, i2 - 1, j1, j2)
    ensures BoxCost(s1, s2, i0, i2, j0, j2) <= BoxCost(s1, s2, i0, i1, j0, j1) + BoxCost(s1, s2, i1, i2, j1, j2)
    decreases i2 - i1 + j2 - j1, 1
  {
    SplitUpper(s1, s2, i0, i1, i2 - 1, j0, j1, j2);
    GapInSecond(s1, s2, i0, i2, j0, j2);
  }

  /** `SplitUpper` when the lower-right box ends in a substitution: so may the whole box. */
  lemma {:induction false} SplitUpperDiagonal(s1: string, s2: string, i0: nat, i1: nat, i2: nat, j0: nat, j1: nat, j2: nat)
    requires InBox(s1, s2, i0, i2, j0, j2) && i0 <= i1 < i2 && j0 <= j1 < j2
    requires BoxCost(s1, s2, i1, i2, j1, j2) ==
               MismatchPenalty(s1[i2 - 1], s2[j2 - 1]) + BoxCost(s1, s2, i1, i2 - 1, j1, j2 - 1)
    ensures BoxCost(s1, s2, i0, i2, j0, j2) <= BoxCost(s1, s2, i0, i1, j0, j1) + BoxCost(s1, s2, i1, i2, j1, j2)
    decreases i2 - i1 + j2 - j1, 1
  {
    SplitUpper(s1, s2, i0, i1, i2 - 1, j0, j1, j2 - 1);
  }

  /** An optimal alignment of the box passes row `i1` at some column `j1`: the optimum of the
      whole is at least the sum of the two boxes' optima there. */
  lemma {:induction false} SplitWitness(s1: string, s2: string, i0: nat, i1: nat, i2: nat, j0: nat, j2: nat)
    returns (j1: nat)
    requires InBox(s1, s2, i0, i2, j0, j2) && i0 <= i1 <= i2
    ensures j0 <= j1 <= j2
    ensures BoxCost(s1, s2, i0, i1, j0, j1) + BoxCost(s1, s2, i1, i2, j1, j2) <= BoxCost(s1, s2, i0, i2, j0, j2)
    decreases i2 - i1 + j2 - j0, 1
  {
    if i2 == i1 {
      j1 := j2;
    } else if j2 == j0 {
      j1 := j0;
    } else {
      var whole := BoxCost(s1, s2, i0, i2, j0, j2);
      if whole == MismatchPenalty(s1[i2 - 1], s2[j2 - 1]) + BoxCost(s1, s2, i0, i2 - 1, j0, j2 - 1) {
        j1 := SplitWitnessDiagonal(s1, s2, i0, i1, i2, j0, j2);
      } else if whole == GapPenalty + BoxCost(s1, s2, i0, i2 - 1, j0, j2) {
        j1 := SplitWitnessDown(s1, s2, i0, i1, i2, j0, j2);
      } else {
        j1 := SplitWitnessRight(s1, s2, i0, i1, i2, j0, j2);
      }
    }
  }

  /** `SplitWitness` when the whole box ends in a substitution. */
  lemma {:induction false} SplitWitnessDiagonal(s1: string, s2: string, i0: nat, i1: nat, i2: nat, j0: nat, j2: nat)
    returns (j1: nat)
    requires InBox(s1, s2, i0, i2, j0, j2) && i0 <= i1 < i2 && j0 < j2
    requires BoxCost(s1, s2, i0, i2, j0, j2) ==
               MismatchPenalty(s1[i2 - 1], s2[j2 - 1]) + BoxCost(s1, s2, i0, i2 - 1, j0, j2 - 1)
    ensures j0 <= j1 <= j2
    ensures BoxCost(s1, s2, i0, i1, j0, j1) + BoxCost(s1, s2, i1, i2, j1, j2) <= BoxCost(s1, s2, i0, i2, j0, j2)
    decreases i2 - i1 + j2 - j0, 0
  {
    j1 := SplitWitness(s1, s2, i0, i1, i2 - 1, j0, j2 - 1);
  }

  /** `SplitWitness` when the whole box ends in a symbol of `s1` against a gap. */
  lemma {:induction false} SplitWitnessDown(s1: string, s2: string, i0: nat, i1: nat, i2: nat, j0: nat, j2: nat)
    returns (j1: nat)
    requires InBox(s1, s2, i0, i2, j0, j2) && i0 <= i1 < i2 && j0 < j2
    requires BoxCost(s1, s2, i0, i2, j0, j2) == GapPenalty + BoxCost(s1, s2, i0, i2 - 1, j0, j2)
    ensures j0 <= j1 <= j2
    ensures BoxCost(s1, s2, i0, i1, j0, j1) + BoxCost(s1, s2, i1, i2, j1, j2) <= BoxCost(s1, s2, i0, i2, j0, j2)
    decreases i2 - i1 + j2 - j0, 0
  {
    j1 := SplitWitness(s1, s2, i0, i1, i2 - 1, j0, j2);
    GapInSecond(s1, s2, i1, i2, j1, j2);
  }

  /** `SplitWitness` when the whole box ends in a symbol of `s2` against a gap. */
  lemma {:induction false} SplitWitnessRight(s1: string, s2: string, i0: nat, i1: nat, i2: nat, j0: nat, j2: nat)
    returns (j1: nat)
    requires InBox(s1, s2, i0, i2, j0, j2) && i0 <= i1 < i2 && j0 < j2
    requires BoxCost(s1, s2, i0, i2, j0, j2) == GapPenalty + BoxCost(s1, s2, i0, i2, j0, j2 - 1)
    ensures j0 <= j1 <= j2
    ensures BoxCost(s1, s2, i0, i1, j0, j1) + BoxCost(s1, s2, i1, i2, j1, j2) <= BoxCost(s1, s2, i0, i2, j0, j2)
    decreases i2 - i1 + j2 - j0, 0
  {
    j1 := SplitWitness(s1, s2, i0, i1, i2, j0, j2 - 1);
    GapInFirst(s1, s2, i1, i2, j1, j2);
  }

  /** The cost of crossing row `mid` at column `j`: the optimum of the upper-left box up to
      there plus that of the lower-right box from there. */
  ghost function SplitCost(s1: string, s2: string, mid: nat, j: nat): nat
    requires InBox(s1, s2, 0, |s1|, 0, |s2|) && mid <= |s1| && j <= |s2|
  {
    BoxCost(s1, s2, 0, mid, 0, j) + BoxCost(s1, s2, mid, |s1|, j, |s2|)
  }

  /** Hirschberg's split: cutting `s1` at row `mid`, the optimum of the whole problem is the
      sum of the two halves' optima at any column `cut` of `s2` that minimises that sum. */
  lemma SplitAtMinimum(s1: string, s2: string, mid: nat, cut: nat)
    requires Alignable(s1, s2) && mid <= |s1| && cut <= |s2|
    requires forall j :: 0 <= j <= |s2| ==> SplitCost(s1, s2, mid, cut) <= SplitCost(s1, s2, mid, j)
    ensures OptCost(s1, s2) == SplitCost(s1, s2, mid, cut)
  {
    var j := SplitWitness(s1, s2, 0, mid, |s1|, 0, |s2|);
    assert SplitCost(s1, s2, mid, j) <= OptCost(s1, s2);
    SplitUpper(s1, s2, 0, mid, |s1|, 0, cut, |s2|);
    assert OptCost(s1, s2) <= SplitCost(s1, s2, mid, cut);
  }

  /** `(a1, a2)` can be scored and costs at least the optimum of `s1[..i]` against `s2[..j]`. */
  ghost predicate AtLeastOptimal(a1: string, a2: string, s1: string, s2: string, i: nat, j: nat)
    requires InBox(s1, s2, 0, i, 0, j)
  {
    Scorable(a1, a2) && BoxCost(s1, s2, 0, i, 0, j) <= AlignCost(a1, a2)
  }

  /** Every alignment of `s1[..i]` with `s2[..j]` costs at least the optimum (one half of the
      Needleman-Wunsch optimality argument; the backtrace provides the other). */
  lemma {:induction false} LowerBound(a1: string, a2: string, s1: string, s2: string, i: nat, j: nat)
    requires InBox(s1, s2, 0, i, 0, j) && IsAlignmentOf(a1, a2, s1[..i], s2[..j])
    ensures AtLeastOptimal(a1, a2, s1, s2, i, j)
    decreases |a1|
  {
    if a1 == [] {
      assert |s1[..i]| == 0 && |s2[..j]| == 0;
    } else {
      var n := |a1| - 1;
      var i', j' := AlignmentDropLast(a1, a2, s1, s2, i, j);
      InBoxShrink(s1, s2, i, j, i', j');
      LowerBound(a1[..n], a2[..n], s1, s2, i', j');
      LowerBoundLast(a1, a2, s1, s2, i, j, i', j');
    }
  }

  /** A box anchored at the origin stays fillable when it shrinks. */
  lemma InBoxShrink(s1: string, s2: string, i: nat, j: nat, i': nat, j': nat)
    requires InBox(s1, s2, 0, i, 0, j) && i' <= i && j' <= j
    ensures InBox(s1, s2, 0, i', 0, j')
  {
  }

  /** The last column of a non-empty alignment of `s1[..i]` with `s2[..j]` holds a gap in at
      most one row, and otherwise the last symbol of that row's prefix; `(i', j')` is the cell
      left once it is dropped. */
  ghost predicate LastColumn(a1: string, a2: string, s1: string, s2: string, i: nat, j: nat, i': nat, j': nat) {
    a1 != [] && |a1| == |a2| && i' <= i <= |s1| && j' <= j <= |s2| &&
    (a1[|a1| - 1] != GapSymbol || a2[|a2| - 1] != GapSymbol) &&
    (if a1[|a1| - 1] == GapSymbol then i' == i else i' + 1 == i && a1[|a1| - 1] == s1[i - 1]) &&
    (if a2[|a2| - 1] == GapSymbol then j' == j else j' + 1 == j && a2[|a2| - 1] == s2[j - 1])
  }

  /** The step of `LowerBound`: the last column is one of the three moves of the recurrence,
      chosen by where its gap is, and dropping it moves to the matching cell. */
  lemma LowerBoundLast(a1: string, a2: string, s1: string, s2: string, i: nat, j: nat, i': nat, j': nat)
    requires InBox(s1, s2, 0, i, 0, j) && InBox(s1, s2, 0, i', 0, j')
    requires LastColumn(a1, a2, s1, s2, i, j, i', j')
    requires AtLeastOptimal(a1[..|a1| - 1], a2[..|a2| - 1], s1, s2, i', j')
    ensures AtLeastOptimal(a1, a2, s1, s2, i, j)
  {
    var n := |a1| - 1;
    if a1[n] == GapSymbol {
      LowerBoundGapInFirst(a1, a2, s1, s2, i, j);
    } else if a2[n] == GapSymbol {
      LowerBoundGapInSecond(a1, a2, s1, s2, i, j);
    } else {
      LowerBoundSubstitution(a1, a2, s1, s2, i, j);
    }
  }

  /** Removing the last column of an alignment of `s1[..i]` with `s2[..j]` leaves an alignment
      of the prefixes without the symbols that column held. */
  lemma AlignmentDropLast(a1: string, a2: string, s1: string, s2: string, i: nat, j: nat)
    returns (i': nat, j': nat)
    requires i <= |s1| && j <= |s2| && a1 != [] && IsAlignmentOf(a1, a2, s1[..i], s2[..j])
    ensures LastColumn(a1, a2, s1, s2, i, j, i', j')
    ensures IsAlignmentOf(a1[..|a1| - 1], a2[..|a2| - 1], s1[..i'], s2[..j'])
  {
    var n := |a1| - 1;
    var x, y := a1[n], a2[n];
    assert Strip(a1) == Strip(a1[..n]) + (if x == GapSymbol then [] else [x]);
    assert Strip(a2) == Strip(a2[..n]) + (if y == GapSymbol then [] else [y]);
    i' := if x == GapSymbol then i else i - 1;
    j' := if y == GapSymbol then j else j - 1;
    if x != GapSymbol {
      assert s1[..i][..i'] == s1[..i'] && s1[..i][i'] == s1[i'];
    }
    if y != GapSymbol {
      assert s2[..j][..j'] == s2[..j'] && s2[..j][j'] == s2[j'];
    }
  }

  /** A last column that a table can score keeps a scorable prefix scorable. */
  lemma ScorableSnoc(a1: string, a2: string)
    requires a1 != [] && |a1| == |a2| && Scorable(a1[..|a1| - 1], a2[..|a2| - 1])
    requires a1[|a1| - 1] == GapSymbol || a2[|a2| - 1] == GapSymbol ||
             (IsBase(a1[|a1| - 1]) && IsBase(a2[|a2| - 1]))
    ensures Scorable(a1, a2)
  {
    var n := |a1| - 1;
    forall k | 0 <= k < n && a1[k] != GapSymbol && a2[k] != GapSymbol
      ensures IsBase(a1[k]) && IsBase(a2[k])
    {
      assert a1[..n][k] == a1[k] && a2[..n][k] == a2[k];
    }
  }

  /** `LowerBound` when the last column holds a symbol of `s2` against a gap. */
  lemma LowerBoundGapInFirst(a1: string, a2: string, s1: string, s2: string, i: nat, j: nat)
    requires InBox(s1, s2, 0, i, 0, j) && a1 != [] && |a1| == |a2| && 0 < j
    requires a1[|a1| - 1] == GapSymbol
    requires AtLeastOptimal(a1[..|a1| - 1], a2[..|a2| - 1], s1, s2, i, j - 1)
    ensures AtLeastOptimal(a1, a2, s1, s2, i, j)
  {
    ScorableSnoc(a1, a2);
    GapInFirst(s1, s2, 0, i, 0, j);
  }

  /** `LowerBound` when the last column holds a symbol of `s1` against a gap. */
  lemma LowerBoundGapInSecond(a1: string, a2: string, s1: string, s2: string, i: nat, j: nat)
    requires InBox(s1, s2, 0, i, 0, j) && a1 != [] && |a1| == |a2| && 0 < i
    requires a2[|a2| - 1] == GapSymbol
    requires AtLeastOptimal(a1[..|a1| - 1], a2[..|a2| - 1], s1, s2, i - 1, j)
    ensures AtLeastOptimal(a1, a2, s1, s2, i, j)
  {
    ScorableSnoc(a1, a2);
    GapInSecond(s1, s2, 0, i, 0, j);
  }

  /** `LowerBound` when the last column pairs `s1[i - 1]` with `s2[j - 1]`. */
  lemma LowerBoundSubstitution(a1: string, a2: string, s1: string, s2: string, i: nat, j: nat)
    requires InBox(s1, s2, 0, i, 0, j) && a1 != [] && |a1| == |a2| && 0 < i && 0 < j
    requires a1[|a1| - 1] == s1[i - 1] && a2[|a2| - 1] == s2[j - 1]
    requires AtLeastOptimal(a1[..|a1| - 1], a2[..|a2| - 1], s1, s2, i - 1, j - 1)
    ensures AtLeastOptimal(a1, a2, s1, s2, i, j)
  {
    assert IsBase(s1[i - 1]) && IsBase(s2[j - 1]);
    ScorableSnoc(a1, a2);
  }

  /** `LowerBound` for whole strings. */
  lemma OptCostLowerBound(a1: string, a2: string, s1: string, s2: string)
    requires Alignable(s1, s2) && IsAlignmentOf(a1, a2, s1, s2)
    ensures Scorable(a1, a2) && OptCost(s1, s2) <= AlignCost(a1, a2)
  {
    assert s1[..|s1|] == s1 && s2[..|s2|] == s2;
    LowerBound(a1, a2, s1, s2, |s1|, |s2|);
  }
}
