/** The linear-space aligner of efficient.py: `get_prefix` and `get_suffix` keep two rows
    of the table, and `memory_efficient_sequence_alignment` cuts `s1` in half, finds where
    the optimal path crosses the middle row, and recurses on the two quarters, handing
    strings shorter than two symbols to the full aligner. */
module Efficient {
  import opened Results
  import opened CostModel
  import opened Alignments
  import opened OptimalCost
  import opened Basic

  // ---------------------------------------------------------------------------------------
  // Reversal: the suffix scan is the prefix scan of the reversed strings.
  // ---------------------------------------------------------------------------------------

  /** Reversing strings keeps them alignable. */
  lemma AlignableRev(x: string, y: string)
    requires Alignable(x, y)
    ensures Alignable(Rev(x), Rev(y))
  {
    if x != [] && y != [] {
      assert forall k :: 0 <= k < |x| ==> Rev(x)[k] == x[|x| - 1 - k];
      assert forall k :: 0 <= k < |y| ==> Rev(y)[k] == y[|y| - 1 - k];
    }
  }

  /** Nucleotide strings hold no gap symbol. */
  lemma BasesGapFree(s: string)
    requires Bases(s)
    ensures GapFree(s)
  {
    assert forall k :: 0 <= k < |s| ==> s[k] != GapSymbol;
  }

  /** Reversing both strings costs no more: the reversed backtrace aligns them at the same cost. */
  lemma OptCostRevAtMost(x: string, y: string)
    requires Alignable(x, y)
    ensures Alignable(Rev(x), Rev(y)) && OptCost(Rev(x), Rev(y)) <= OptCost(x, y)
  {
    AlignableRev(x, y);
    if x == [] || y == [] {
      assert |Rev(x)| == |x| && |Rev(y)| == |y|;
    } else {
      BasesGapFree(x);
      BasesGapFree(y);
      FullAlignSound(x, y);
      var al := FullAlign(x, y).value;
      AlignmentRev(al.aligned1, al.aligned2, x, y);
      AlignCostRev(al.aligned1, al.aligned2);
      OptCostLowerBound(Rev(al.aligned1), Rev(al.aligned2), Rev(x), Rev(y));
    }
  }

  /** The optimal cost does not depend on the direction in which the strings are read. */
  lemma OptCostRev(x: string, y: string)
    requires Alignable(x, y)
    ensures Alignable(Rev(x), Rev(y)) && OptCost(Rev(x), Rev(y)) == OptCost(x, y)
  {
    OptCostRevAtMost(x, y);
    OptCostRevAtMost(Rev(x), Rev(y));
    RevRev(x);
    RevRev(y);
  }

  /** The first `|s| - j` symbols of a reversed string are the reversed suffix `s[j..]`. */
  lemma RevPrefix(s: string, j: nat)
    requires j <= |s|
    ensures Rev(s)[..|s| - j] == Rev(s[j..])
  {
  }

  // ---------------------------------------------------------------------------------------
  // The two-row scans.
  // ---------------------------------------------------------------------------------------

  /** The last row of the full table of `s1` against `s2` holds the optima against the
      prefixes of `s2`. */
  lemma PrefixCell(s1: string, s2: string, j: nat, v: int)
    requires Alignable(s1, s2) && j <= |s2| && CellIs(s1, s2, |s1|, j, v)
    ensures Alignable(s1, s2[..j]) && v == OptCost(s1, s2[..j])
  {
    BoxIsOptCost(s1, s2, 0, |s1|, 0, j);
    assert s1[0..|s1|] == s1 && s2[0..j] == s2[..j];
  }

  /** A whole last row of the full table. */
  lemma PrefixRow(s1: string, s2: string, row: seq<int>)
    requires s1 != [] && |row| == |s2| + 1
    requires forall j :: 0 <= j <= |s2| ==> CellIs(s1, s2, |s1|, j, row[j])
    ensures Alignable(s1, s2)
    ensures forall j :: 0 <= j <= |s2| ==> Alignable(s1, s2[..j]) && row[j] == OptCost(s1, s2[..j])
  {
    assert CellIs(s1, s2, |s1|, |s2|, row[|s2|]);
    forall j | 0 <= j <= |s2|
      ensures Alignable(s1, s2[..j]) && row[j] == OptCost(s1, s2[..j])
    {
      PrefixCell(s1, s2, j, row[j]);
    }
  }

  /** A whole last row of the full table of the reversed strings. */
  lemma SuffixRow(s1: string, s2: string, row: seq<int>)
    requires s1 != [] && |row| == |s2| + 1
    requires forall j :: 0 <= j <= |s2| ==> CellIs(Rev(s1), Rev(s2), |s1|, j, row[j])
    ensures Alignable(s1, s2)
    ensures forall j :: 0 <= j <= |s2| ==> Alignable(s1, s2[j..]) && row[|s2| - j] == OptCost(s1, s2[j..])
  {
    var t1, t2 := Rev(s1), Rev(s2);
    assert CellIs(t1, t2, |s1|, |s2|, row[|s2|]);
    if s2 != [] {
      assert BasesIn(t1, 0, |s1|) && BasesIn(t2, 0, |s2|);
      assert forall k :: 0 <= k < |s1| ==> s1[k] == t1[|s1| - 1 - k];
      assert forall k :: 0 <= k < |s2| ==> s2[k] == t2[|s2| - 1 - k];
    }
    AlignableRev(s1, s2);
    forall j | 0 <= j <= |s2|
      ensures Alignable(s1, s2[j..]) && row[|s2| - j] == OptCost(s1, s2[j..])
    {
      SuffixCell(s1, s2, j, row[|s2| - j]);
    }
  }

  /** Column `|s2| - j` of the last row of the full table of the reversed strings holds the
      optimum of `s1` against the suffix `s2[j..]`. */
  lemma SuffixCell(s1: string, s2: string, j: nat, v: int)
    requires Alignable(s1, s2) && j <= |s2|
    requires Alignable(Rev(s1), Rev(s2)) && CellIs(Rev(s1), Rev(s2), |s1|, |s2| - j, v)
    ensures Alignable(s1, s2[j..]) && v == OptCost(s1, s2[j..])
  {
    PrefixCell(Rev(s1), Rev(s2), |s2| - j, v);
    RevPrefix(s2, j);
    var t := s2[j..];
    assert Alignable(s1, t) by {
      assert forall k :: 0 <= k < |t| ==> t[k] == s2[j + k];
    }
    OptCostRev(s1, t);
  }

  /** Cells `0 .. hi - 1` of `row` hold row `i` of the full table of `s1` against `s2`. */
  ghost predicate RowHolds(s1: string, s2: string, row: seq<int>, i: nat, hi: nat) {
    hi <= |row| && forall j {:trigger CellIs(s1, s2, i, j, row[j])} :: 0 <= j < hi ==> CellIs(s1, s2, i, j, row[j])
  }

  /** `get_prefix`: `row0` and `row1` are the two rows `dp_prefix[0]` and `dp_prefix[1]`.
      With row 0 holding the border, each pass over `s1` fills row 1 from row 0 and copies
      it back; the answer is row 1, which is the last row of the full table, or all zeros
      when `s1` is empty and row 1 was never filled. A pair missing from the mismatch table
      raises a KeyError. */
  method GetPrefix(s1: string, s2: string) returns (r: Result<seq<int>>)
    ensures r.Success? <==> Alignable(s1, s2)
    ensures r.Success? ==> |r.value| == |s2| + 1
    ensures r.Success? && s1 != [] ==>
              forall j :: 0 <= j <= |s2| ==> Alignable(s1, s2[..j]) && r.value[j] == OptCost(s1, s2[..j])
    ensures r.Success? && s1 == [] ==> forall j :: 0 <= j <= |s2| ==> r.value[j] == 0
  {
    var n1, n2 := |s1|, |s2|;
    var row0, row1 := seq(n2 + 1, _ => 0), seq(n2 + 1, _ => 0);
    for idx1 := 0 to n2 + 1
      invariant |row0| == n2 + 1
      invariant forall j :: 0 <= j < idx1 ==> row0[j] == j * GapPenalty
    {
      row0 := row0[idx1 := idx1 * GapPenalty];
    }
    forall j | 0 <= j <= n2
      ensures CellIs(s1, s2, 0, j, row0[j])
    {
      CellBorder(s1, s2, 0, j);
    }
    for idx1 := 1 to n1 + 1
      invariant |row0| == |row1| == n2 + 1
      invariant RowHolds(s1, s2, row0, idx1 - 1, n2 + 1)
      invariant idx1 == 1 ==> row1 == seq(n2 + 1, _ => 0)
      invariant idx1 > 1 ==> row1 == row0
    {
      CellBorder(s1, s2, idx1, 0);
      assert CellIs(s1, s2, idx1 - 1, 0, row0[0]);
      row1 := row1[0 := row0[0] + GapPenalty];
      for idx2 := 1 to n2 + 1
        invariant |row1| == n2 + 1
        invariant RowHolds(s1, s2, row1, idx1, idx2)
      {
        var mismatch :- Lookup(s1[idx1 - 1], s2[idx2 - 1]);
        CellStep(s1, s2, idx1, idx2, row0[idx2 - 1], row0[idx2], row1[idx2 - 1]);
        row1 := row1[idx2 := Min3(row0[idx2 - 1] + mismatch, row0[idx2] + GapPenalty, row1[idx2 - 1] + GapPenalty)];
      }
      for idx := 0 to n2 + 1
        invariant |row0| == n2 + 1
        invariant forall j :: 0 <= j < idx ==> row0[j] == row1[j]
      {
        row0 := row0[idx := row1[idx]];
      }
      assert row0 == row1;
    }
    if n1 > 0 {
      PrefixRow(s1, s2, row1);
    }
    r := Success(row1);
  }

  /** `get_suffix`: the same scan as `get_prefix`, reading row `idx1` and column `idx2` as the
      symbols `s1[|s1| - idx1]` and `s2[|s2| - idx2]`, so that it fills the table of the
      reversed strings; the answer holds, at `|s2| - j`, the optimum of `s1` against the
      suffix `s2[j..]`, or all zeros when `s1` is empty. */
  method GetSuffix(s1: string, s2: string) returns (r: Result<seq<int>>)
    ensures r.Success? <==> Alignable(s1, s2)
    ensures r.Success? ==> |r.value| == |s2| + 1
    ensures r.Success? && s1 != [] ==>
              forall j :: 0 <= j <= |s2| ==> Alignable(s1, s2[j..]) && r.value[|s2| - j] == OptCost(s1, s2[j..])
    ensures r.Success? && s1 == [] ==> forall j :: 0 <= j <= |s2| ==> r.value[j] == 0
  {
    var n1, n2 := |s1|, |s2|;
    ghost var t1, t2 := Rev(s1), Rev(s2);
    var row0, row1 := seq(n2 + 1, _ => 0), seq(n2 + 1, _ => 0);
    for idx1 := 0 to n2 + 1
      invariant |row0| == n2 + 1
      invariant forall j :: 0 <= j < idx1 ==> row0[j] == j * GapPenalty
    {
      row0 := row0[idx1 := idx1 * GapPenalty];
    }
    forall j | 0 <= j <= n2
      ensures CellIs(t1, t2, 0, j, row0[j])
    {
      CellBorder(t1, t2, 0, j);
    }
    for idx1 := 1 to n1 + 1
      invariant |row0| == |row1| == n2 + 1
      invariant RowHolds(t1, t2, row0, idx1 - 1, n2 + 1)
      invariant idx1 == 1 ==> row1 == seq(n2 + 1, _ => 0)
      invariant idx1 > 1 ==> row1 == row0
    {
      CellBorder(t1, t2, idx1, 0);
      assert CellIs(t1, t2, idx1 - 1, 0, row0[0]);
      row1 := row1[0 := row0[0] + GapPenalty];
      for idx2 := 1 to n2 + 1
        invariant |row1| == n2 + 1
        invariant RowHolds(t1, t2, row1, idx1, idx2)
      {
        var mismatch :- Lookup(s1[n1 - idx1], s2[n2 - idx2]);
        assert t1[idx1 - 1] == s1[n1 - idx1] && t2[idx2 - 1] == s2[n2 - idx2];
        CellStep(t1, t2, idx1, idx2, row0[idx2 - 1], row0[idx2], row1[idx2 - 1]);
        row1 := row1[idx2 := Min3(row0[idx2 - 1] + mismatch, row0[idx2] + GapPenalty, row1[idx2 - 1] + GapPenalty)];
      }
      for idx := 0 to n2 + 1
        invariant |row0| == n2 + 1
        invariant forall j :: 0 <= j < idx ==> row0[j] == row1[j]
      {
        row0 := row0[idx := row1[idx]];
      }
      assert row0 == row1;
    }
    if n1 > 0 {
      SuffixRow(s1, s2, row1);
    }
    r := Success(row1);
  }

  // ---------------------------------------------------------------------------------------
  // Divide and conquer.
  // ---------------------------------------------------------------------------------------

  /** The list comprehension `[prefix[idx] + suffix[n2 - idx] for idx in range(n2 + 1)]`:
      the cost of an optimal path through the middle row at each column. */
  function Partition(prefix: seq<int>, suffix: seq<int>): (p: seq<int>)
    requires |prefix| == |suffix|
    ensures |p| == |prefix|
    ensures forall idx :: 0 <= idx < |p| ==> p[idx] == prefix[idx] + suffix[|suffix| - 1 - idx]
  {
    seq(|prefix|, idx requires 0 <= idx < |prefix| => prefix[idx] + suffix[|suffix| - 1 - idx])
  }

  /** Python's `min` of a non-empty list. */
  function SeqMin(xs: seq<int>): (m: int)
    requires xs != []
    ensures m in xs
    ensures forall k :: 0 <= k < |xs| ==> m <= xs[k]
  {
    if |xs| == 1 then xs[0]
    else
      var rest := SeqMin(xs[1..]);
      assert forall k :: 1 <= k < |xs| ==> xs[k] == xs[1..][k - 1];
      if xs[0] <= rest then xs[0] else rest
  }

  /** Python's `list.index`: the first position holding `v`. */
  function IndexOf(xs: seq<int>, v: int): (k: nat)
    requires v in xs
    ensures k < |xs| && xs[k] == v
    ensures forall i :: 0 <= i < k ==> xs[i] != v
  {
    if xs[0] == v then 0
    else
      assert xs == [xs[0]] + xs[1..];
      1 + IndexOf(xs[1..], v)
  }

  /** The cut is where an optimal path crosses the middle row: the partition built from the
      two scans holds, at each column, the sum of the optima of the two quarters, so a
      column that minimises it splits the optimum of the whole. */
  lemma CutIsOptimal(s1: string, s2: string, mid: nat, prefix: seq<int>, suffix: seq<int>, cut: nat)
    requires Alignable(s1, s2) && mid <= |s1| && cut <= |s2|
    requires |prefix| == |suffix| == |s2| + 1
    requires forall j :: 0 <= j <= |s2| ==>
               Alignable(s1[..mid], s2[..j]) && prefix[j] == OptCost(s1[..mid], s2[..j])
    requires forall j :: 0 <= j <= |s2| ==>
               Alignable(s1[mid..], s2[j..]) && suffix[|s2| - j] == OptCost(s1[mid..], s2[j..])
    requires forall j :: 0 <= j <= |s2| ==> Partition(prefix, suffix)[cut] <= Partition(prefix, suffix)[j]
    ensures Alignable(s1[..mid], s2[..cut]) && Alignable(s1[mid..], s2[cut..])
    ensures OptCost(s1, s2) == OptCost(s1[..mid], s2[..cut]) + OptCost(s1[mid..], s2[cut..])
  {
    var p := Partition(prefix, suffix);
    forall j | 0 <= j <= |s2|
      ensures p[j] == SplitCost(s1, s2, mid, j)
    {
      QuarterCosts(s1, s2, mid, j);
    }
    SplitAtMinimum(s1, s2, mid, cut);
    QuarterCosts(s1, s2, mid, cut);
  }

  /** The optima of the two quarters cut at `(mid, j)` are box costs of the whole strings. */
  lemma QuarterCosts(s1: string, s2: string, mid: nat, j: nat)
    requires Alignable(s1, s2) && mid <= |s1| && j <= |s2|
    ensures Alignable(s1[..mid], s2[..j]) && Alignable(s1[mid..], s2[j..])
    ensures OptCost(s1[..mid], s2[..j]) == BoxCost(s1, s2, 0, mid, 0, j)
    ensures OptCost(s1[mid..], s2[j..]) == BoxCost(s1, s2, mid, |s1|, j, |s2|)
  {
    AlignableInBox(s1, s2, 0, mid, 0, j);
    AlignableInBox(s1, s2, mid, |s1|, j, |s2|);
    BoxIsOptCost(s1, s2, 0, mid, 0, j);
    BoxIsOptCost(s1, s2, mid, |s1|, j, |s2|);
    assert s1[0..mid] == s1[..mid] && s2[0..j] == s2[..j];
    assert s1[mid..|s1|] == s1[mid..] && s2[j..|s2|] == s2[j..];
  }

  /** Two halves of `s1`, each alignable with `s2`, make `s1` alignable with `s2`. */
  lemma AlignableHalves(s1: string, s2: string, mid: nat)
    requires mid <= |s1| && s2 != []
    ensures Alignable(s1, s2) <==> Alignable(s1[..mid], s2) && Alignable(s1[mid..], s2)
  {
    assert s1 == s1[..mid] + s1[mid..];
    assert forall k :: 0 <= k < |s1| ==> s1[k] == if k < mid then s1[..mid][k] else s1[mid..][k - mid];
  }

  /** Concatenating sound answers for the two quarters gives a sound answer for the whole
      problem. */
  lemma CombineHalves(s1: string, s2: string, mid: nat, cut: nat, first: Alignment, second: Alignment)
    requires mid <= |s1| && cut <= |s2|
    requires Sound(first, s1[..mid], s2[..cut]) && Sound(second, s1[mid..], s2[cut..])
    ensures Sound(Alignment(first.aligned1 + second.aligned1, first.aligned2 + second.aligned2,
                            first.cost + second.cost), s1, s2)
  {
    SoundConcat(first, second, s1[..mid], s2[..cut], s1[mid..], s2[cut..]);
    assert s1[..mid] + s1[mid..] == s1 && s2[..cut] + s2[cut..] == s2;
  }

  /** An answer that fails exactly for strings that cannot be aligned and otherwise costs the
      optimum agrees with the full aligner on both counts. */
  lemma AgreesWithFullAlign(s1: string, s2: string, r: Result<Alignment>)
    requires r.Success? <==> Alignable(s1, s2)
    requires r.Success? ==> r.value.cost == OptCost(s1, s2)
    ensures r.Success? <==> FullAlign(s1, s2).Success?
    ensures r.Success? ==> r.value.cost == FullAlign(s1, s2).value.cost
  {
  }

  /** `memory_efficient_sequence_alignment`: strings shorter than two symbols go to the full
      aligner; otherwise `s1` is cut at `|s1| / 2`, the two-row scans give the optima of its
      halves against every prefix and suffix of `s2`, `s2` is cut at the first column of
      least total, and the two quarters are aligned recursively and concatenated. A pair
      missing from the mismatch table raises a KeyError. The cost is the optimum, the same
      as the full aligner's. */
  method MemoryEfficientAlignment(s1: string, s2: string) returns (r: Result<Alignment>)
    ensures r.Success? <==> Alignable(s1, s2)
    ensures r.Success? ==> r.value.cost == OptCost(s1, s2) && Sound(r.value, s1, s2)
    ensures r.Success? <==> FullAlign(s1, s2).Success?
    ensures r.Success? ==> r.value.cost == FullAlign(s1, s2).value.cost
    ensures |s1| < 2 || |s2| < 2 ==> r == FullAlign(s1, s2)
    decreases |s1|
  {
    var n1, n2 := |s1|, |s2|;
    if n1 < 2 || n2 < 2 {
      r := SequenceAlignment(s1, s2);
      if r.Success? {
        FullAlignSound(s1, s2);
      }
      return;
    }
    var mid := n1 / 2;
    AlignableHalves(s1, s2, mid);
    var prefix :- GetPrefix(s1[..mid], s2);
    var suffix :- GetSuffix(s1[mid..], s2);
    var partition := Partition(prefix, suffix);
    var partitionMin := SeqMin(partition);
    var cut := IndexOf(partition, partitionMin);
    CutIsOptimal(s1, s2, mid, prefix, suffix, cut);
    var first := MemoryEfficientAlignment(s1[..mid], s2[..cut]);
    var second := MemoryEfficientAlignment(s1[mid..], s2[cut..]);
    CombineHalves(s1, s2, mid, cut, first.value, second.value);
    r := Success(Alignment(first.value.aligned1 + second.value.aligned1,
                           first.value.aligned2 + second.value.aligned2,
                           first.value.cost + second.value.cost));
    AgreesWithFullAlign(s1, s2, r);
  }
}
