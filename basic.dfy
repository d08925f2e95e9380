/** The quadratic-space aligner of basic.py: `sequence_alignment` fills the whole
    (|s1| + 1) x (|s2| + 1) table and `build_aligned_sequences` walks it back from the
    bottom-right corner to recover the two aligned strings. */
module Basic {
  import opened Results
  import opened CostModel
  import opened Alignments
  import opened OptimalCost

  /** The pair of strings that `build_aligned_sequences` builds when it starts from cell `(i, j)`
      of a correctly filled table. While both indices are positive it tries, in this order,
      a symbol of `s1` against a gap, a substitution, and a symbol of `s2` against a gap,
      each time prepending one column; once an index reaches zero the rest of the other
      string is drained against gaps. */
  ghost function Backtrace(s1: string, s2: string, i: nat, j: nat): (r: (string, string))
    requires Alignable(s1, s2) && i <= |s1| && j <= |s2|
    decreases i + j
  {
    if i == 0 then (Gaps(j), s2[..j])
    else if j == 0 then (s1[..i], Gaps(i))
    else if BoxCost(s1, s2, 0, i, 0, j) == GapPenalty + BoxCost(s1, s2, 0, i - 1, 0, j) then
      var p := Backtrace(s1, s2, i - 1, j);
      (p.0 + [s1[i - 1]], p.1 + [GapSymbol])
    else if BoxCost(s1, s2, 0, i, 0, j) ==
              MismatchPenalty(s1[i - 1], s2[j - 1]) + BoxCost(s1, s2, 0, i - 1, 0, j - 1) then
      var p := Backtrace(s1, s2, i - 1, j - 1);
      (p.0 + [s1[i - 1]], p.1 + [s2[j - 1]])
    else
      var p := Backtrace(s1, s2, i, j - 1);
      (p.0 + [GapSymbol], p.1 + [s2[j - 1]])
  }

  /** The walk never gets stuck: an inner cell always equals one of the three values the
      backtrace compares it with, so the last test, when reached, succeeds. */
  lemma OneBranchMatches(s1: string, s2: string, i: nat, j: nat)
    requires Alignable(s1, s2) && 0 < i <= |s1| && 0 < j <= |s2|
    ensures BoxCost(s1, s2, 0, i, 0, j) == GapPenalty + BoxCost(s1, s2, 0, i - 1, 0, j) ||
            BoxCost(s1, s2, 0, i, 0, j) == MismatchPenalty(s1[i - 1], s2[j - 1]) + BoxCost(s1, s2, 0, i - 1, 0, j - 1) ||
            BoxCost(s1, s2, 0, i, 0, j) == GapPenalty + BoxCost(s1, s2, 0, i, 0, j - 1)
  {
  }

  /** The backtrace from `(i, j)` is a sound answer for `s1[..i]` against `s2[..j]` whose
      cost is that cell. */
  ghost predicate Traced(s1: string, s2: string, i: nat, j: nat)
    requires Alignable(s1, s2) && i <= |s1| && j <= |s2|
  {
    var r := Backtrace(s1, s2, i, j);
    Sound(Alignment(r.0, r.1, BoxCost(s1, s2, 0, i, 0, j)), s1[..i], s2[..j])
  }

  /** The strings that the backtrace builds align the two prefixes, and their columns add up
      to the optimal cost stored in the starting cell. */
  lemma {:induction false} BacktraceSound(s1: string, s2: string, i: nat, j: nat)
    requires Alignable(s1, s2) && i <= |s1| && j <= |s2|
    ensures Traced(s1, s2, i, j)
    decreases i + j
  {
    if i == 0 {
      TracedDrainSecond(s1, s2, j);
    } else if j == 0 {
      TracedDrainFirst(s1, s2, i);
    } else if BoxCost(s1, s2, 0, i, 0, j) == GapPenalty + BoxCost(s1, s2, 0, i - 1, 0, j) {
      BacktraceSound(s1, s2, i - 1, j);
      TracedUp(s1, s2, i, j);
    } else if BoxCost(s1, s2, 0, i, 0, j) ==
              MismatchPenalty(s1[i - 1], s2[j - 1]) + BoxCost(s1, s2, 0, i - 1, 0, j - 1) {
      BacktraceSound(s1, s2, i - 1, j - 1);
      TracedDiagonal(s1, s2, i, j);
    } else {
      OneBranchMatches(s1, s2, i, j);
      BacktraceSound(s1, s2, i, j - 1);
      TracedLeft(s1, s2, i, j);
    }
  }

  /** With `s1` used up, the rest of `s2` is drained against gaps. */
  lemma TracedDrainSecond(s1: string, s2: string, j: nat)
    requires Alignable(s1, s2) && j <= |s2|
    ensures Traced(s1, s2, 0, j)
  {
    var x := s2[..j];
    AlignCostGaps(x);
    StripGaps(j);
    if GapFree(x) {
      StripGapFree(x);
      assert NoGapColumn(Gaps(j), x) by {
        forall k | 0 <= k < j ensures x[k] != GapSymbol { assert x[k] in x; }
      }
    }
  }

  /** With `s2` used up, the rest of `s1` is drained against gaps. */
  lemma TracedDrainFirst(s1: string, s2: string, i: nat)
    requires Alignable(s1, s2) && i <= |s1|
    ensures Traced(s1, s2, i, 0)
  {
    var x := s1[..i];
    AlignCostGaps(x);
    StripGaps(i);
    if GapFree(x) {
      StripGapFree(x);
      assert NoGapColumn(x, Gaps(i)) by {
        forall k | 0 <= k < i ensures x[k] != GapSymbol { assert x[k] in x; }
      }
    }
  }

  /** A prefix one symbol longer. */
  lemma PrefixSnoc(s: string, i: nat)
    requires 0 < i <= |s|
    ensures s[..i] == s[..i - 1] + [s[i - 1]]
  {
  }

  /** The step of the backtrace that takes `s1[i - 1]` against a gap. */
  lemma TracedUp(s1: string, s2: string, i: nat, j: nat)
    requires Alignable(s1, s2) && 0 < i <= |s1| && 0 < j <= |s2|
    requires BoxCost(s1, s2, 0, i, 0, j) == GapPenalty + BoxCost(s1, s2, 0, i - 1, 0, j)
    requires Traced(s1, s2, i - 1, j)
    ensures Traced(s1, s2, i, j)
  {
    var p := Backtrace(s1, s2, i - 1, j);
    assert Backtrace(s1, s2, i, j).0 == p.0 + [s1[i - 1]] && Backtrace(s1, s2, i, j).1 == p.1 + [GapSymbol];
    assert IsBase(s1[i - 1]);
    SoundSnoc(Alignment(p.0, p.1, BoxCost(s1, s2, 0, i - 1, 0, j)), s1[..i - 1], s2[..j], s1[i - 1], GapSymbol);
    assert ColumnCost(s1[i - 1], GapSymbol) == GapPenalty;
    PrefixSnoc(s1, i);
  }

  /** The step of the backtrace that pairs `s1[i - 1]` with `s2[j - 1]`. */
  lemma TracedDiagonal(s1: string, s2: string, i: nat, j: nat)
    requires Alignable(s1, s2) && 0 < i <= |s1| && 0 < j <= |s2|
    requires BoxCost(s1, s2, 0, i, 0, j) != GapPenalty + BoxCost(s1, s2, 0, i - 1, 0, j)
    requires BoxCost(s1, s2, 0, i, 0, j) ==
             MismatchPenalty(s1[i - 1], s2[j - 1]) + BoxCost(s1, s2, 0, i - 1, 0, j - 1)
    requires Traced(s1, s2, i - 1, j - 1)
    ensures Traced(s1, s2, i, j)
  {
    var p := Backtrace(s1, s2, i - 1, j - 1);
    assert Backtrace(s1, s2, i, j).0 == p.0 + [s1[i - 1]] && Backtrace(s1, s2, i, j).1 == p.1 + [s2[j - 1]];
    assert IsBase(s1[i - 1]) && IsBase(s2[j - 1]);
    SoundSnoc(Alignment(p.0, p.1, BoxCost(s1, s2, 0, i - 1, 0, j - 1)), s1[..i - 1], s2[..j - 1], s1[i - 1], s2[j - 1]);
    PrefixSnoc(s1, i);
    PrefixSnoc(s2, j);
  }

  /** The step of the backtrace that takes `s2[j - 1]` against a gap. */
  lemma TracedLeft(s1: string, s2: string, i: nat, j: nat)
    requires Alignable(s1, s2) && 0 < i <= |s1| && 0 < j <= |s2|
    requires BoxCost(s1, s2, 0, i, 0, j) != GapPenalty + BoxCost(s1, s2, 0, i - 1, 0, j)
    requires BoxCost(s1, s2, 0, i, 0, j) !=
             MismatchPenalty(s1[i - 1], s2[j - 1]) + BoxCost(s1, s2, 0, i - 1, 0, j - 1)
    requires BoxCost(s1, s2, 0, i, 0, j) == GapPenalty + BoxCost(s1, s2, 0, i, 0, j - 1)
    requires Traced(s1, s2, i, j - 1)
    ensures Traced(s1, s2, i, j)
  {
    var p := Backtrace(s1, s2, i, j - 1);
    assert Backtrace(s1, s2, i, j).0 == p.0 + [GapSymbol] && Backtrace(s1, s2, i, j).1 == p.1 + [s2[j - 1]];
    assert IsBase(s2[j - 1]);
    SoundSnoc(Alignment(p.0, p.1, BoxCost(s1, s2, 0, i, 0, j - 1)), s1[..i], s2[..j - 1], GapSymbol, s2[j - 1]);
    PrefixSnoc(s2, j);
  }

  /** What `sequence_alignment` returns: a KeyError when the table fill meets a pair of
      symbols outside the mismatch table, and otherwise the backtrace from the bottom-right
      corner together with the optimal cost stored there. */
  ghost function FullAlign(s1: string, s2: string): Result<Alignment> {
    if Alignable(s1, s2) then
      var r := Backtrace(s1, s2, |s1|, |s2|);
      Success(Alignment(r.0, r.1, OptCost(s1, s2)))
    else
      Failure(KeyError)
  }

  /** The answer of the full aligner is sound: its columns add up to the reported cost and,
      for inputs free of gap symbols, it aligns the two inputs. */
  lemma FullAlignSound(s1: string, s2: string)
    requires FullAlign(s1, s2).Success?
    ensures Sound(FullAlign(s1, s2).value, s1, s2)
  {
    BacktraceSound(s1, s2, |s1|, |s2|);
    assert s1[..|s1|] == s1 && s2[..|s2|] == s2;
  }

  /** The answer of the full aligner is optimal: no alignment of the two inputs costs less. */
  lemma FullAlignOptimal(s1: string, s2: string, a1: string, a2: string)
    requires Alignable(s1, s2) && IsAlignmentOf(a1, a2, s1, s2)
    ensures FullAlign(s1, s2).Success? && Scorable(a1, a2)
    ensures FullAlign(s1, s2).value.cost <= AlignCost(a1, a2)
  {
    OptCostLowerBound(a1, a2, s1, s2);
  }

  /** With an empty first string the table is one row: the answer is all gaps against `s2`
      and never a KeyError, whatever `s2` holds. */
  lemma FullAlignEmptyFirst(s2: string)
    ensures FullAlign([], s2) == Success(Alignment(Gaps(|s2|), s2, GapPenalty * |s2|))
  {
    assert s2[..|s2|] == s2;
  }

  /** With an empty second string the table is one column: the answer is `s1` against all
      gaps and never a KeyError, whatever `s1` holds. */
  lemma FullAlignEmptySecond(s1: string)
    ensures FullAlign(s1, []) == Success(Alignment(s1, Gaps(|s1|), GapPenalty * |s1|))
  {
    assert s1[..|s1|] == s1;
  }
  /** The table for `AC` against `AG`, cell by cell. */
  lemma TwoGapsTable()
    ensures Bases("AC") && Bases("AG")
    ensures BoxCost("AC", "AG", 0, 1, 0, 1) == 0 && BoxCost("AC", "AG", 0, 1, 0, 2) == 30
    ensures BoxCost("AC", "AG", 0, 2, 0, 1) == 30 && BoxCost("AC", "AG", 0, 2, 0, 2) == 60
  {
    var s1, s2 := "AC", "AG";
    assert Bases(s1) && Bases(s2);
    assert s1[0] == 'A' && s1[1] == 'C' && s2[0] == 'A' && s2[1] == 'G';
    assert BoxCost(s1, s2, 0, 1, 0, 1) == Min3(0, 60, 60);
    assert BoxCost(s1, s2, 0, 1, 0, 2) == Min3(78, 90, 30);
    assert BoxCost(s1, s2, 0, 2, 0, 1) == Min3(140, 30, 90);
    assert BoxCost(s1, s2, 0, 2, 0, 2) == Min3(118, 60, 60);
  }

  /** A worked case: for `AC` against `AG`, two gaps (60) beat substituting `C` for `G` (118),
      and the tie-break order (vertical first) yields `A_C` over `AG_`. */
  lemma FullAlignTwoGapsBeatSubstitution()
    ensures FullAlign("AC", "AG") == Success(Alignment("A_C", "AG_", 60))
  {
    var s1, s2 := "AC", "AG";
    TwoGapsTable();
    assert s1[0] == 'A' && s1[1] == 'C' && s2[0] == 'A' && s2[1] == 'G';
    assert Backtrace(s1, s2, 0, 0).0 == "" && Backtrace(s1, s2, 0, 0).1 == "";
    assert Backtrace(s1, s2, 1, 1).0 == "A" && Backtrace(s1, s2, 1, 1).1 == "A";
    assert Backtrace(s1, s2, 1, 2).0 == "A_" && Backtrace(s1, s2, 1, 2).1 == "AG";
    assert Backtrace(s1, s2, 2, 2).0 == "A_C" && Backtrace(s1, s2, 2, 2).1 == "AG_";
  }

  /** Loop invariant of the backtrace walk: the columns built so far, `a1` and `a2`, are what
      the backtrace of the whole table appends after the backtrace of the cell `(i, j)`. */
  ghost predicate Pending(s1: string, s2: string, i: nat, j: nat, a1: string, a2: string)
    requires Alignable(s1, s2) && i <= |s1| && j <= |s2|
  {
    var whole, rest := Backtrace(s1, s2, |s1|, |s2|), Backtrace(s1, s2, i, j);
    whole.0 == rest.0 + a1 && whole.1 == rest.1 + a2
  }

  /** One backward step of the walk: moving from `(i, j)` to `(i', j')` prepends the column
      `(x, y)` that the backtrace of `(i, j)` appends to that of `(i', j')`. */
  lemma PendingStep(s1: string, s2: string, i: nat, j: nat, i': nat, j': nat, x: char, y: char,
                    a1: string, a2: string)
    requires Alignable(s1, s2) && i <= |s1| && j <= |s2| && i' <= |s1| && j' <= |s2|
    requires Pending(s1, s2, i, j, a1, a2)
    requires Backtrace(s1, s2, i, j).0 == Backtrace(s1, s2, i', j').0 + [x]
    requires Backtrace(s1, s2, i, j).1 == Backtrace(s1, s2, i', j').1 + [y]
    ensures Pending(s1, s2, i', j', [x] + a1, [y] + a2)
  {
    var whole, rest, p := Backtrace(s1, s2, |s1|, |s2|), Backtrace(s1, s2, i, j), Backtrace(s1, s2, i', j');
    Prepend(whole.0, rest.0, p.0, x, a1);
    Prepend(whole.1, rest.1, p.1, y, a2);
  }

  /** Moving the last symbol of the unexplored part to the front of the built part. */
  lemma Prepend(whole: string, rest: string, p: string, x: char, a: string)
    requires whole == rest + a && rest == p + [x]
    ensures whole == p + ([x] + a)
  {
    assert p + [x] + a == p + ([x] + a);
  }

  /** The walk starts at the bottom-right corner with nothing built. */
  lemma PendingStart(s1: string, s2: string)
    requires Alignable(s1, s2)
    ensures Pending(s1, s2, |s1|, |s2|, [], [])
  {
    var whole := Backtrace(s1, s2, |s1|, |s2|);
    assert whole.0 + [] == whole.0 && whole.1 + [] == whole.1;
  }

  /** The walk ends at the top-left corner with the whole backtrace built. */
  lemma PendingDone(s1: string, s2: string, a1: string, a2: string)
    requires Alignable(s1, s2) && Pending(s1, s2, 0, 0, a1, a2)
    ensures a1 == Backtrace(s1, s2, |s1|, |s2|).0 && a2 == Backtrace(s1, s2, |s1|, |s2|).1
  {
    assert Backtrace(s1, s2, 0, 0).0 == [] && Backtrace(s1, s2, 0, 0).1 == [];
  }

  /** In terms of stored cell values: an inner cell equals one of the three values the walk
      compares it with. */
  lemma CellChoices(s1: string, s2: string, i: nat, j: nat, v: int, up: int, diagonal: int, left: int)
    requires Alignable(s1, s2) && 0 < i <= |s1| && 0 < j <= |s2|
    requires CellIs(s1, s2, i, j, v) && CellIs(s1, s2, i - 1, j, up)
    requires CellIs(s1, s2, i - 1, j - 1, diagonal) && CellIs(s1, s2, i, j - 1, left)
    ensures v == GapPenalty + up || v == MismatchPenalty(s1[i - 1], s2[j - 1]) + diagonal ||
            v == GapPenalty + left
  {
    OneBranchMatches(s1, s2, i, j);
  }

  /** The walk's vertical move: `s1[i - 1]` against a gap. */
  lemma WalkUp(s1: string, s2: string, i: nat, j: nat, v: int, up: int, a1: string, a2: string)
    requires Alignable(s1, s2) && 0 < i <= |s1| && 0 < j <= |s2|
    requires CellIs(s1, s2, i, j, v) && CellIs(s1, s2, i - 1, j, up) && v == GapPenalty + up
    requires Pending(s1, s2, i, j, a1, a2)
    ensures Pending(s1, s2, i - 1, j, [s1[i - 1]] + a1, [GapSymbol] + a2)
  {
    assert Backtrace(s1, s2, i, j).0 == Backtrace(s1, s2, i - 1, j).0 + [s1[i - 1]];
    assert Backtrace(s1, s2, i, j).1 == Backtrace(s1, s2, i - 1, j).1 + [GapSymbol];
    PendingStep(s1, s2, i, j, i - 1, j, s1[i - 1], GapSymbol, a1, a2);
  }

  /** The walk's diagonal move: `s1[i - 1]` against `s2[j - 1]`, taken only when the
      vertical test failed. */
  lemma WalkDiagonal(s1: string, s2: string, i: nat, j: nat, v: int, up: int, diagonal: int,
                     a1: string, a2: string)
    requires Alignable(s1, s2) && 0 < i <= |s1| && 0 < j <= |s2|
    requires CellIs(s1, s2, i, j, v) && CellIs(s1, s2, i - 1, j, up) && v != GapPenalty + up
    requires CellIs(s1, s2, i - 1, j - 1, diagonal)
    requires v == MismatchPenalty(s1[i - 1], s2[j - 1]) + diagonal
    requires Pending(s1, s2, i, j, a1, a2)
    ensures Pending(s1, s2, i - 1, j - 1, [s1[i - 1]] + a1, [s2[j - 1]] + a2)
  {
    assert Backtrace(s1, s2, i, j).0 == Backtrace(s1, s2, i - 1, j - 1).0 + [s1[i - 1]];
    assert Backtrace(s1, s2, i, j).1 == Backtrace(s1, s2, i - 1, j - 1).1 + [s2[j - 1]];
    PendingStep(s1, s2, i, j, i - 1, j - 1, s1[i - 1], s2[j - 1], a1, a2);
  }

  /** The walk's horizontal move: a gap against `s2[j - 1]`, taken only when the two other
      tests failed. */
  lemma WalkLeft(s1: string, s2: string, i: nat, j: nat, v: int, up: int, diagonal: int,
                 a1: string, a2: string)
    requires Alignable(s1, s2) && 0 < i <= |s1| && 0 < j <= |s2|
    requires CellIs(s1, s2, i, j, v) && CellIs(s1, s2, i - 1, j, up) && v != GapPenalty + up
    requires CellIs(s1, s2, i - 1, j - 1, diagonal)
    requires v != MismatchPenalty(s1[i - 1], s2[j - 1]) + diagonal
    requires Pending(s1, s2, i, j, a1, a2)
    ensures Pending(s1, s2, i, j - 1, [GapSymbol] + a1, [s2[j - 1]] + a2)
  {
    assert Backtrace(s1, s2, i, j).0 == Backtrace(s1, s2, i, j - 1).0 + [GapSymbol];
    assert Backtrace(s1, s2, i, j).1 == Backtrace(s1, s2, i, j - 1).1 + [s2[j - 1]];
    PendingStep(s1, s2, i, j, i, j - 1, GapSymbol, s2[j - 1], a1, a2);
  }

  /** Draining `s2` once `s1` is used up: a gap against `s2[j - 1]`. */
  lemma WalkDrainSecond(s1: string, s2: string, j: nat, a1: string, a2: string)
    requires Alignable(s1, s2) && 0 < j <= |s2| && Pending(s1, s2, 0, j, a1, a2)
    ensures Pending(s1, s2, 0, j - 1, [GapSymbol] + a1, [s2[j - 1]] + a2)
  {
    assert Gaps(j) == Gaps(j - 1) + [GapSymbol];
    PrefixSnoc(s2, j);
    PendingStep(s1, s2, 0, j, 0, j - 1, GapSymbol, s2[j - 1], a1, a2);
  }

  /** Draining `s1` once `s2` is used up: `s1[i - 1]` against a gap. */
  lemma WalkDrainFirst(s1: string, s2: string, i: nat, a1: string, a2: string)
    requires Alignable(s1, s2) && 0 < i <= |s1| && Pending(s1, s2, i, 0, a1, a2)
    ensures Pending(s1, s2, i - 1, 0, [s1[i - 1]] + a1, [GapSymbol] + a2)
  {
    assert Gaps(i) == Gaps(i - 1) + [GapSymbol];
    PrefixSnoc(s1, i);
    PendingStep(s1, s2, i, 0, i - 1, 0, s1[i - 1], GapSymbol, a1, a2);
  }

  /** One pass of the main backtrace loop: from cell `(i, j)`, both indices positive, move up,
      diagonally or left, whichever branch the cell's value matches first, and prepend the
      column that move emits. */
  method BacktraceMove(s1: string, s2: string, table: array2<int>, i: nat, j: nat, a1: string, a2: string)
    returns (i': nat, j': nat, b1: string, b2: string)
    requires Alignable(s1, s2)
    requires table.Length0 == |s1| + 1 && table.Length1 == |s2| + 1
    requires forall i, j :: 0 <= i <= |s1| && 0 <= j <= |s2| ==> CellIs(s1, s2, i, j, table[i, j])
    requires 0 < i <= |s1| && 0 < j <= |s2|
    requires Pending(s1, s2, i, j, a1, a2)
    ensures i' + j' < i + j && i' <= i && j' <= j
    ensures Pending(s1, s2, i', j', b1, b2)
  {
    var v, up, diagonal, left := table[i, j], table[i - 1, j], table[i - 1, j - 1], table[i, j - 1];
    CellChoices(s1, s2, i, j, v, up, diagonal, left);
    if v == GapPenalty + up {
      WalkUp(s1, s2, i, j, v, up, a1, a2);
      i', j', b1, b2 := i - 1, j, [s1[i - 1]] + a1, [GapSymbol] + a2;
    } else if v == MismatchPenalty(s1[i - 1], s2[j - 1]) + diagonal {
      WalkDiagonal(s1, s2, i, j, v, up, diagonal, a1, a2);
      i', j', b1, b2 := i - 1, j - 1, [s1[i - 1]] + a1, [s2[j - 1]] + a2;
    } else if v == GapPenalty + left {
      WalkLeft(s1, s2, i, j, v, up, diagonal, a1, a2);
      i', j', b1, b2 := i, j - 1, [GapSymbol] + a1, [s2[j - 1]] + a2;
    } else {
      assert false;
    }
  }

  /** `build_aligned_sequences`: walks a filled table back from the bottom-right corner,
      prepending one column per step, then drains whichever string is left. */
  method BuildAlignedSequences(s1: string, s2: string, table: array2<int>) returns (a1: string, a2: string)
    requires Alignable(s1, s2)
    requires table.Length0 == |s1| + 1 && table.Length1 == |s2| + 1
    requires forall i, j :: 0 <= i <= |s1| && 0 <= j <= |s2| ==> CellIs(s1, s2, i, j, table[i, j])
    ensures a1 == Backtrace(s1, s2, |s1|, |s2|).0 && a2 == Backtrace(s1, s2, |s1|, |s2|).1
  {
    var idx1: nat, idx2: nat := |s1|, |s2|;
    a1, a2 := "", "";
    PendingStart(s1, s2);
    while idx1 > 0 && idx2 > 0
      invariant idx1 <= |s1| && idx2 <= |s2|
      invariant Pending(s1, s2, idx1, idx2, a1, a2)
      decreases idx1 + idx2
    {
      idx1, idx2, a1, a2 := BacktraceMove(s1, s2, table, idx1, idx2, a1, a2);
    }
    while idx2 > 0
      invariant idx1 <= |s1| && idx2 <= |s2| && (idx1 == 0 || idx2 == 0)
      invariant Pending(s1, s2, idx1, idx2, a1, a2)
    {
      WalkDrainSecond(s1, s2, idx2, a1, a2);
      a1 := [GapSymbol] + a1;
      a2 := [s2[idx2 - 1]] + a2;
      idx2 := idx2 - 1;
    }
    while idx1 > 0
      invariant idx1 <= |s1| && idx2 == 0
      invariant Pending(s1, s2, idx1, idx2, a1, a2)
    {
      WalkDrainFirst(s1, s2, idx1, a1, a2);
      a1 := [s1[idx1 - 1]] + a1;
      a2 := [GapSymbol] + a2;
      idx1 := idx1 - 1;
    }
    PendingDone(s1, s2, a1, a2);
  }

  /** `sequence_alignment`: fills the whole table, borders first and then column by column,
      looking each pair of symbols up in the mismatch table (a KeyError when the pair is
      missing), and walks it back. The answer is the specification `FullAlign`. */
  method SequenceAlignment(s1: string, s2: string) returns (r: Result<Alignment>)
    ensures r == FullAlign(s1, s2)
  {
    var n1, n2 := |s1|, |s2|;
    var table := new int[n1 + 1, n2 + 1]((_, _) => 0);
    for idx1 := 0 to n1 + 1
      invariant forall i :: 0 <= i < idx1 ==> table[i, 0] == i * GapPenalty
    {
      table[idx1, 0] := idx1 * GapPenalty;
    }
    for idx2 := 0 to n2 + 1
      invariant forall i :: 0 <= i <= n1 ==> table[i, 0] == i * GapPenalty
      invariant forall j :: 0 <= j < idx2 ==> table[0, j] == j * GapPenalty
    {
      table[0, idx2] := idx2 * GapPenalty;
    }
    forall i | 0 <= i <= n1
      ensures CellIs(s1, s2, i, 0, table[i, 0])
    {
      CellBorder(s1, s2, i, 0);
    }
    for idx2 := 1 to n2 + 1
      invariant forall i, j :: 0 <= i <= n1 && 0 <= j < idx2 ==> CellIs(s1, s2, i, j, table[i, j])
      invariant forall j :: idx2 <= j <= n2 ==> table[0, j] == j * GapPenalty
    {
      CellBorder(s1, s2, 0, idx2);
      for idx1 := 1 to n1 + 1
        invariant forall i, j :: 0 <= i <= n1 && 0 <= j < idx2 ==> CellIs(s1, s2, i, j, table[i, j])
        invariant forall i :: 0 <= i < idx1 ==> CellIs(s1, s2, i, idx2, table[i, idx2])
        invariant forall j :: idx2 < j <= n2 ==> table[0, j] == j * GapPenalty
      {
        var mismatch :- Lookup(s1[idx1 - 1], s2[idx2 - 1]);
        CellStep(s1, s2, idx1, idx2, table[idx1 - 1, idx2 - 1], table[idx1 - 1, idx2], table[idx1, idx2 - 1]);
        table[idx1, idx2] := Min3(mismatch + table[idx1 - 1, idx2 - 1],
                                  GapPenalty + table[idx1 - 1, idx2],
                                  GapPenalty + table[idx1, idx2 - 1]);
      }
    }
    assert CellIs(s1, s2, n1, n2, table[n1, n2]);
    var a1, a2 := BuildAlignedSequences(s1, s2, table);
    r := Success(Alignment(a1, a2, table[n1, n2]));
  }
}
