/** The fixed cost model shared by both aligners: the nucleotide mismatch table
    (basic.py:11-16, repeated verbatim at efficient.py:15-20) and the gap penalty. */
module CostModel {
  import opened Results

  /** Penalty for a symbol aligned against a gap. */
  const GapPenalty: nat := 30

  /** The gap symbol written into aligned strings. */
  const GapSymbol: char := '_'

  /** The mismatch table, keyed by the two-symbol string `a + b` as in the source. */
  const MismatchTable: map<string, nat> :=
    map["AA" := 0, "AC" := 110, "CA" := 110,
        "AG" := 48, "GA" := 48, "CC" := 0,
        "AT" := 94, "TA" := 94, "CG" := 118,
        "GC" := 118, "GG" := 0, "TG" := 110,
        "GT" := 110, "TT" := 0, "CT" := 48,
        "TC" := 48]

  /** A nucleotide: a symbol the mismatch table knows. */
  predicate IsBase(c: char) {
    c == 'A' || c == 'C' || c == 'G' || c == 'T'
  }

  /** Every symbol of `s` is a nucleotide. */
  predicate Bases(s: string) {
    forall k :: 0 <= k < |s| ==> IsBase(s[k])
  }

  /** The key `a + b` is present exactly for pairs of nucleotides. */
  lemma KeyPresent(a: char, b: char)
    ensures [a, b] in MismatchTable <==> IsBase(a) && IsBase(b)
  {
    if [a, b] in MismatchTable {
      assert [a, b][0] == a && [a, b][1] == b;
    }
  }

  /** The table entry for two nucleotides, written out pair by pair. */
  function MismatchPenalty(a: char, b: char): (p: nat)
    requires IsBase(a) && IsBase(b)
    ensures p == 0 <==> a == b
  {
    if a == b then 0
    else if (a == 'A' && b == 'C') || (a == 'C' && b == 'A') then 110
    else if (a == 'A' && b == 'G') || (a == 'G' && b == 'A') then 48
    else if (a == 'A' && b == 'T') || (a == 'T' && b == 'A') then 94
    else if (a == 'C' && b == 'G') || (a == 'G' && b == 'C') then 118
    else if (a == 'G' && b == 'T') || (a == 'T' && b == 'G') then 110
    else 48
  }

  /** The dictionary lookup `mismatch_penalty[a + b]`: a KeyError outside the table, the
      written-out entry inside it. */
  function Lookup(a: char, b: char): (r: Result<nat>)
    ensures r.Success? <==> IsBase(a) && IsBase(b)
    ensures r.Success? ==> r.value == MismatchPenalty(a, b)
  {
    KeyPresent(a, b);
    if [a, b] in MismatchTable then Success(MismatchTable[[a, b]]) else Failure(KeyError)
  }

  /** The table is symmetric. */
  lemma MismatchSymmetric(a: char, b: char)
    requires IsBase(a) && IsBase(b)
    ensures MismatchPenalty(a, b) == MismatchPenalty(b, a)
  {
  }
}
