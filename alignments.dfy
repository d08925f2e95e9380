/** Aligned strings and their cost: the shape of the `[aligned_str1, aligned_str2, cost]`
    triple that both aligners return, and the column-by-column cost it claims. */
module Alignments {
  import opened CostModel

  /** The result triple of `sequence_alignment` and `memory_efficient_sequence_alignment`. */
  datatype Alignment = Alignment(aligned1: string, aligned2: string, cost: int)

  /** `'_' * n`. */
  function Gaps(n: nat): (g: string)
    ensures |g| == n
    ensures forall k :: 0 <= k < n ==> g[k] == GapSymbol
  {
    seq(n, _ => GapSymbol)
  }

  /** `s` holds no gap symbol. */
  predicate GapFree(s: string) {
    GapSymbol !in s
  }

  /** The symbols of an aligned string, with its gaps deleted. */
  ghost function Strip(a: string): (s: string)
    ensures GapFree(s) && |s| <= |a|
  {
    if a == [] then []
    else Strip(a[..|a| - 1]) + (if a[|a| - 1] == GapSymbol then [] else [a[|a| - 1]])
  }

  /** Every column that pairs two symbols pairs two nucleotides, so it has a table entry. */
  ghost predicate Scorable(a1: string, a2: string) {
    |a1| == |a2| &&
    forall k :: 0 <= k < |a1| && a1[k] != GapSymbol && a2[k] != GapSymbol ==> IsBase(a1[k]) && IsBase(a2[k])
  }

  /** The cost of one column: the gap penalty when a gap is involved, the mismatch penalty otherwise. */
  function ColumnCost(x: char, y: char): (c: nat)
    requires x == GapSymbol || y == GapSymbol || (IsBase(x) && IsBase(y))
    ensures x == GapSymbol || y == GapSymbol ==> c == GapPenalty
  {
    if x == GapSymbol || y == GapSymbol then GapPenalty else MismatchPenalty(x, y)
  }

  /** The summed column costs of two aligned strings. */
  ghost function AlignCost(a1: string, a2: string): nat
    requires Scorable(a1, a2)
  {
    if a1 == [] then 0
    else AlignCost(a1[..|a1| - 1], a2[..|a2| - 1]) + ColumnCost(a1[|a1| - 1], a2[|a2| - 1])
  }

  /** No column of two equally long aligned strings holds two gaps. */
  ghost predicate NoGapColumn(a1: string, a2: string)
    requires |a1| == |a2|
  {
    forall k :: 0 <= k < |a1| ==> a1[k] != GapSymbol || a2[k] != GapSymbol
  }

  /** `(a1, a2)` is an alignment of `s1` with `s2`: equal lengths, no column of two gaps,
      and deleting the gaps gives back the two strings. */
  ghost predicate IsAlignmentOf(a1: string, a2: string, s1: string, s2: string) {
    |a1| == |a2| && NoGapColumn(a1, a2) && Strip(a1) == s1 && Strip(a2) == s2
  }

  /** What an aligner promises about the triple it returns for `s1` and `s2`: the table can
      score its columns, the reported cost is their sum, and, for inputs that hold no gap
      symbol themselves, the two strings are an alignment of the inputs. */
  ghost predicate Sound(al: Alignment, s1: string, s2: string) {
    Scorable(al.aligned1, al.aligned2) && AlignCost(al.aligned1, al.aligned2) == al.cost &&
    (GapFree(s1) && GapFree(s2) ==> IsAlignmentOf(al.aligned1, al.aligned2, s1, s2))
  }

  /** Appending one column `(x, y)` to two aligned strings: the gaps deleted, the columns
      scored and summed, and the no-double-gap rule all extend by that column alone. */
  lemma SnocColumn(a1: string, a2: string, x: char, y: char)
    requires |a1| == |a2|
    ensures (a1 + [x])[..|a1|] == a1 && (a2 + [y])[..|a2|] == a2
    ensures Strip(a1 + [x]) == Strip(a1) + (if x == GapSymbol then [] else [x])
    ensures Strip(a2 + [y]) == Strip(a2) + (if y == GapSymbol then [] else [y])
    ensures Scorable(a1, a2) && (x == GapSymbol || y == GapSymbol || (IsBase(x) && IsBase(y))) ==>
              Scorable(a1 + [x], a2 + [y]) &&
              AlignCost(a1 + [x], a2 + [y]) == AlignCost(a1, a2) + ColumnCost(x, y)
    ensures NoGapColumn(a1, a2) && (x != GapSymbol || y != GapSymbol) ==> NoGapColumn(a1 + [x], a2 + [y])
  {
    assert (a1 + [x])[..|a1|] == a1 && (a2 + [y])[..|a2|] == a2;
    assert forall k :: 0 <= k < |a1| ==> (a1 + [x])[k] == a1[k] && (a2 + [y])[k] == a2[k];
  }

  /** Appending a column `(x, y)` to a sound answer for `u` and `v` gives a sound answer for `u`
      and `v` extended by the symbols of that column, at the cost of that column more. */
  lemma SoundSnoc(al: Alignment, u: string, v: string, x: char, y: char)
    requires |al.aligned1| == |al.aligned2| && Sound(al, u, v) && (x != GapSymbol || y != GapSymbol)
    requires x == GapSymbol || y == GapSymbol || (IsBase(x) && IsBase(y))
    ensures Sound(Alignment(al.aligned1 + [x], al.aligned2 + [y], al.cost + ColumnCost(x, y)),
                  u + (if x == GapSymbol then [] else [x]), v + (if y == GapSymbol then [] else [y]))
  {
    SnocColumn(al.aligned1, al.aligned2, x, y);
  }

  /** A string aligned against gaps only costs one gap penalty per symbol, either way round. */
  lemma {:induction false} AlignCostGaps(s: string)
    ensures Scorable(Gaps(|s|), s) && Scorable(s, Gaps(|s|))
    ensures AlignCost(Gaps(|s|), s) == GapPenalty * |s| && AlignCost(s, Gaps(|s|)) == GapPenalty * |s|
    decreases |s|
  {
    if s != [] {
      var n := |s| - 1;
      AlignCostGaps(s[..n]);
      assert Gaps(|s|) == Gaps(n) + [GapSymbol];
      assert s == s[..n] + [s[n]];
      SnocColumn(Gaps(n), s[..n], GapSymbol, s[n]);
      SnocColumn(s[..n], Gaps(n), s[n], GapSymbol);
    }
  }

  /** Deleting the gaps of a string that holds none gives it back. */
  lemma {:induction false} StripGapFree(s: string)
    requires GapFree(s)
    ensures Strip(s) == s
    decreases |s|
  {
    if s != [] {
      var n := |s| - 1;
      assert s == s[..n] + [s[n]];
      assert GapFree(s[..n]) by {
        forall k | 0 <= k < n ensures s[..n][k] != GapSymbol { assert s[..n][k] == s[k]; }
      }
      StripGapFree(s[..n]);
    }
  }

  /** Deleting the gaps of a string of gaps leaves nothing. */
  lemma {:induction false} StripGaps(n: nat)
    ensures Strip(Gaps(n)) == []
    decreases n
  {
    if n > 0 {
      assert Gaps(n)[..n - 1] == Gaps(n - 1);
      StripGaps(n - 1);
    }
  }

  /** The reversal of a string. */
  function Rev(s: string): (r: string)
    ensures |r| == |s|
  {
    seq(|s|, k requires 0 <= k < |s| => s[|s| - 1 - k])
  }

  lemma RevConcat(a: string, b: string)
    ensures Rev(a + b) == Rev(b) + Rev(a)
  {
    assert forall k :: 0 <= k < |a| + |b| ==> Rev(a + b)[k] == (Rev(b) + Rev(a))[k] by {
      forall k | 0 <= k < |a| + |b| ensures Rev(a + b)[k] == (Rev(b) + Rev(a))[k] {
        if k < |b| { } else { }
      }
    }
  }

  lemma RevRev(s: string)
    ensures Rev(Rev(s)) == s
  {
  }

  /** Deleting gaps distributes over concatenation. */
  lemma {:induction false} StripConcat(a: string, b: string)
    ensures Strip(a + b) == Strip(a) + Strip(b)
    decreases |b|
  {
    if b == [] {
      assert a + b == a;
    } else {
      var b' := b[..|b| - 1];
      assert (a + b)[..|a + b| - 1] == a + b';
      StripConcat(a, b');
    }
  }

  /** Column costs add up over concatenation. */
  lemma {:induction false} AlignCostConcat(a1: string, a2: string, b1: string, b2: string)
    requires Scorable(a1, a2) && Scorable(b1, b2)
    ensures Scorable(a1 + b1, a2 + b2)
    ensures AlignCost(a1 + b1, a2 + b2) == AlignCost(a1, a2) + AlignCost(b1, b2)
    decreases |b1|
  {
    if b1 == [] {
      assert a1 + b1 == a1 && a2 + b2 == a2;
    } else {
      var n := |b1| - 1;
      assert (a1 + b1)[..|a1| + n] == a1 + b1[..n];
      assert (a2 + b2)[..|a2| + n] == a2 + b2[..n];
      AlignCostConcat(a1, a2, b1[..n], b2[..n]);
    }
  }

  /** Concatenating an alignment of `x` with `p` and one of `y` with `t` aligns `x + y` with `p + t`. */
  lemma AlignmentConcat(a1: string, a2: string, b1: string, b2: string,
                        x: string, p: string, y: string, t: string)
    requires IsAlignmentOf(a1, a2, x, p) && IsAlignmentOf(b1, b2, y, t)
    ensures IsAlignmentOf(a1 + b1, a2 + b2, x + y, p + t)
  {
    StripConcat(a1, b1);
    StripConcat(a2, b2);
    forall k | 0 <= k < |a1 + b1|
      ensures (a1 + b1)[k] != GapSymbol || (a2 + b2)[k] != GapSymbol
    {
      if k < |a1| {
        assert (a1 + b1)[k] == a1[k] && (a2 + b2)[k] == a2[k];
      } else {
        assert (a1 + b1)[k] == b1[k - |a1|] && (a2 + b2)[k] == b2[k - |a1|];
      }
    }
  }

  /** Concatenating two sound answers, for `x1` against `x2` and for `y1` against `y2`,
      gives a sound answer for `x1 + y1` against `x2 + y2` whose cost is the sum. */
  lemma SoundConcat(f: Alignment, g: Alignment, x1: string, x2: string, y1: string, y2: string)
    requires Sound(f, x1, x2) && Sound(g, y1, y2)
    ensures Sound(Alignment(f.aligned1 + g.aligned1, f.aligned2 + g.aligned2, f.cost + g.cost),
                  x1 + y1, x2 + y2)
  {
    AlignCostConcat(f.aligned1, f.aligned2, g.aligned1, g.aligned2);
    if GapFree(x1 + y1) && GapFree(x2 + y2) {
      assert GapFree(x1) && GapFree(y1) by {
        assert forall k :: 0 <= k < |x1| ==> x1[k] == (x1 + y1)[k];
        assert forall k :: 0 <= k < |y1| ==> y1[k] == (x1 + y1)[|x1| + k];
      }
      assert GapFree(x2) && GapFree(y2) by {
        assert forall k :: 0 <= k < |x2| ==> x2[k] == (x2 + y2)[k];
        assert forall k :: 0 <= k < |y2| ==> y2[k] == (x2 + y2)[|x2| + k];
      }
      AlignmentConcat(f.aligned1, f.aligned2, g.aligned1, g.aligned2, x1, x2, y1, y2);
    }
  }

  /** Deleting gaps commutes with reversal. */
  lemma {:induction false} StripRev(a: string)
    ensures Strip(Rev(a)) == Rev(Strip(a))
    decreases |a|
  {
    if a != [] {
      var n := |a| - 1;
      var x, c := a[..n], [a[n]];
      assert a == x + c;
      StripRev(x);
      RevConcat(x, c);
      assert Rev(c) == c;
      StripConcat(c, Rev(x));
      StripConcat(x, c);
      RevConcat(Strip(x), Strip(c));
      assert Strip(c) == Rev(Strip(c)) by {
        assert c[..0] == [];
      }
    }
  }

  /** Reversing both rows of a scorable pair keeps it scorable, at the same cost. */
  lemma {:induction false} AlignCostRev(a1: string, a2: string)
    requires Scorable(a1, a2)
    ensures Scorable(Rev(a1), Rev(a2))
    ensures AlignCost(Rev(a1), Rev(a2)) == AlignCost(a1, a2)
    decreases |a1|
  {
    if a1 != [] {
      var n := |a1| - 1;
      var x1, x2 := a1[..n], a2[..n];
      var c1, c2 := [a1[n]], [a2[n]];
      assert a1 == x1 + c1 && a2 == x2 + c2;
      AlignCostRev(x1, x2);
      RevConcat(x1, c1);
      RevConcat(x2, c2);
      assert Rev(c1) == c1 && Rev(c2) == c2;
      assert AlignCost(c1, c2) == ColumnCost(a1[n], a2[n]) by {
        assert c1[..0] == [];
      }
      AlignCostConcat(c1, c2, Rev(x1), Rev(x2));
    }
  }

  /** Reversing both rows of an alignment of `s1` with `s2` aligns the reversed strings. */
  lemma AlignmentRev(a1: string, a2: string, s1: string, s2: string)
    requires IsAlignmentOf(a1, a2, s1, s2)
    ensures IsAlignmentOf(Rev(a1), Rev(a2), Rev(s1), Rev(s2))
  {
    StripRev(a1);
    StripRev(a2);
    assert forall k :: 0 <= k < |a1| ==> Rev(a1)[k] == a1[|a1| - 1 - k] && Rev(a2)[k] == a2[|a2| - 1 - k];
  }
}
