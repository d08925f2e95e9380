/** The input expander of extractInput.py: `generator` grows a base string by inserting,
    for each index in turn, a copy of the whole current string after position `idx + 1`. */
module ExtractInput {
  import opened CostModel

  /** `2 ^ k`. */
  function Pow2(k: nat): (p: nat)
    ensures p >= 1
  {
    if k == 0 then 1 else 2 * Pow2(k - 1)
  }

  /** Where one step inserts the copy: Python's slice `s[:idx + 1]` stops at the end of `s`. */
  function InsertAt(s: string, idx: nat): (k: nat)
    ensures k <= |s|
    ensures k == idx + 1 || (k == |s| && idx + 1 >= |s|)
  {
    if idx + 1 <= |s| then idx + 1 else |s|
  }

  /** One step, `s[:idx+1] + s + s[idx+1:]`: a copy of `s` inserted at `InsertAt(s, idx)`,
      with the rest of `s` after it. */
  function Step(s: string, idx: nat): (r: string)
    ensures |r| == 2 * |s|
    ensures r[..InsertAt(s, idx)] == s[..InsertAt(s, idx)]
    ensures r[InsertAt(s, idx)..InsertAt(s, idx) + |s|] == s
    ensures r[InsertAt(s, idx) + |s|..] == s[InsertAt(s, idx)..]
  {
    var k := InsertAt(s, idx);
    var r := s[..k] + s + s[k..];
    assert r[..k] == s[..k];
    assert r[k..k + |s|] == s;
    assert r[k + |s|..] == s[k..];
    r
  }

  /** The clamp: an index at or past the last position appends the copy at the end. */
  lemma StepAtEnd(s: string, idx: nat)
    requires idx + 1 >= |s|
    ensures Step(s, idx) == s + s
  {
    var r := Step(s, idx);
    assert r == r[..|s|] + r[|s|..2 * |s|];
  }

  /** Every step doubles the number of occurrences of every symbol. */
  lemma StepDoubles(s: string, idx: nat)
    ensures forall c :: multiset(Step(s, idx))[c] == 2 * multiset(s)[c]
  {
    var k := InsertAt(s, idx);
    assert Step(s, idx) == s[..k] + s + s[k..];
    assert s == s[..k] + s[k..];
    assert multiset(Step(s, idx)) == multiset(s[..k]) + multiset(s) + multiset(s[k..]);
    assert multiset(s) == multiset(s[..k]) + multiset(s[k..]);
  }

  /** The left fold of `Step` over the indices, in order. */
  function Expand(base: string, indices: seq<nat>): (r: string)
    ensures indices == [] ==> r == base
    ensures |r| == |base| * Pow2(|indices|)
    decreases |indices|
  {
    if indices == [] then base
    else Step(Expand(base, indices[..|indices| - 1]), indices[|indices| - 1])
  }

  /** Indices are applied left to right: one more index is one more step on the result. */
  lemma ExpandSnoc(base: string, indices: seq<nat>, idx: nat)
    ensures Expand(base, indices + [idx]) == Step(Expand(base, indices), idx)
  {
    assert (indices + [idx])[..|indices|] == indices;
  }

  /** After `k` indices every symbol occurs `2 ^ k` times as often as in the base string. */
  lemma {:induction false} ExpandCounts(base: string, indices: seq<nat>)
    ensures forall c :: multiset(Expand(base, indices))[c] == Pow2(|indices|) * multiset(base)[c]
    decreases |indices|
  {
    if indices != [] {
      var front := indices[..|indices| - 1];
      ExpandCounts(base, front);
      StepDoubles(Expand(base, front), indices[|indices| - 1]);
      forall c
        ensures multiset(Expand(base, indices))[c] == Pow2(|indices|) * multiset(base)[c]
      {
        Twice(Pow2(|front|), multiset(base)[c]);
      }
    }
  }

  /** Doubling a multiple doubles the factor. */
  lemma Twice(p: int, m: int)
    ensures 2 * (p * m) == (2 * p) * m
  {
  }

  /** A positive multiple of a count is positive exactly when the count is. */
  lemma ScaledCount(p: nat, m: nat)
    requires p >= 1
    ensures p * m > 0 <==> m > 0
  {
    if m > 0 {
      assert p * m >= m;
    }
  }

  /** The expanded string uses exactly the symbols of the base string. */
  lemma ExpandSymbols(base: string, indices: seq<nat>)
    ensures forall c :: c in Expand(base, indices) <==> c in base
  {
    ExpandCounts(base, indices);
    forall c
      ensures c in Expand(base, indices) <==> c in base
    {
      ScaledCount(Pow2(|indices|), multiset(base)[c]);
      assert c in multiset(Expand(base, indices)) <==> c in multiset(base);
    }
  }

  /** An expanded nucleotide string is a nucleotide string, so the aligners can score it. */
  lemma ExpandBases(base: string, indices: seq<nat>)
    requires Bases(base)
    ensures Bases(Expand(base, indices))
  {
    ExpandSymbols(base, indices);
    var r := Expand(base, indices);
    forall k | 0 <= k < |r|
      ensures IsBase(r[k])
    {
      assert r[k] in r;
      var i :| 0 <= i < |base| && base[i] == r[k];
    }
  }

  /** `generator`: the loop rebinding `base_string` once per index. */
  method Generator(baseString: string, indices: seq<nat>) returns (s: string)
    ensures s == Expand(baseString, indices)
  {
    s := baseString;
    for i := 0 to |indices|
      invariant s == Expand(baseString, indices[..i])
    {
      var idx := indices[i];
      var k := if idx + 1 <= |s| then idx + 1 else |s|;
      assert indices[..i + 1] == indices[..i] + [idx];
      ExpandSnoc(baseString, indices[..i], idx);
      s := s[..k] + s + s[k..];
    }
    assert indices[..|indices|] == indices;
  }
}
