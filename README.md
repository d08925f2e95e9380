# Needleman-Wunsch alignment, full-table and linear-space, in Dafny

This project models the core of a course project (CSCI570) that aligns two nucleotide
strings under a fixed cost model:
- a gap costs 30;
- a substitution costs the entry of a symmetric 4x4 mismatch table over `A`, `C`, `G`, `T`.

There are two aligners and an input expander:

- **The full-table aligner** (`basic.py`).
  - `sequence_alignment` fills the whole `(|s1|+1) x (|s2|+1)` table.
  - `build_aligned_sequences` walks the table back from the bottom-right corner, testing in order a vertical move, a diagonal move and a horizontal move.
  - It returns `[aligned1, aligned2, cost]`.
- **The linear-space aligner** (`efficient.py`, Hirschberg's method).
  - `get_prefix` and `get_suffix` compute the last table row with two rolling rows.
  - `memory_efficient_sequence_alignment` cuts `s1` in half and cuts `s2` at the first column that minimises the sum of the two scans. It recurses on the two quarters and concatenates the answers.
  - Strings shorter than two symbols go to the full aligner.
- **The input expander** (`extractInput.py`). `generator` repeatedly inserts a copy of the current string after position `idx + 1`.

The model is one Dafny module per concern:

- `Results`: a `Result` type whose only failure is the `KeyError` of a mismatch-table lookup.
- `CostModel`: the table as a `map` keyed by two-symbol strings, the gap penalty and the lookup.
- `Alignments`: the answer triple, deleting gaps, column costs, and the predicate `Sound` (an answer is a scorable alignment of the inputs whose columns add up to its cost).
- `OptimalCost`: the reference definition.
  - `BoxCost` is the recurrence on a sub-box of the table and `OptCost` is its whole-string instance.
  - It also holds the facts the two aligners need: the fill step, the split at a middle row, and the lower bound that makes the recurrence optimal.
- `Basic`: the table fill as a method over an `array2`, and the backtrace as a method with three `while` loops. Both are proved against the ghost specification `FullAlign`.
- `Efficient`: the two rolling-row scans as methods with loops and the recursive divide-and-conquer aligner. The aligner is proved to return a sound answer of optimal cost, the same cost as `FullAlign`.
- `ExtractInput`: `generator` as a method with a loop, proved equal to the left fold `Expand`, with the properties of that fold.

A symbol pair missing from the mismatch table raises a KeyError in the source. Both aligners fail exactly when both strings are non-empty and one of them holds a symbol other than `A`, `C`, `G`, `T` (`OptimalCost.Alignable`). With one side empty, no lookup happens and any symbols pass through.

## Model

| member | source | states |
|---|---|---|
| CostModel.KeyPresent | CSCI570/basic.py:11-16 | The key `a + b` is in the mismatch table exactly when both symbols are nucleotides. |
| CostModel.MismatchPenalty | CSCI570/basic.py:11-16 | A table entry is zero exactly on the diagonal (`a == b`). |
| CostModel.MismatchSymmetric | CSCI570/basic.py:11-16 | The table is symmetric. |
| CostModel.Lookup | CSCI570/basic.py:129 | `mismatch_penalty[a + b]` raises a KeyError exactly when a symbol is not a nucleotide, and otherwise gives the table entry. |
| OptimalCost.Min3 | CSCI570/basic.py:129-131 | Python's three-way `min` is at most each argument and equal to one of them. |
| OptimalCost.CellBorder | CSCI570/basic.py:116-122 | Border cells `(i, 0)` and `(0, j)` hold `30 * i` and `30 * j`, the optimum against an empty string. |
| OptimalCost.CellStep | CSCI570/basic.py:125-131 | An inner cell filled as the minimum of diagonal + mismatch, up + 30 and left + 30 holds the optimum of the two prefixes. |
| OptimalCost.OptCostLowerBound | CSCI570/basic.py:93-95 | Every alignment of `s1` with `s2` is scorable and costs at least `OptCost(s1, s2)`. |
| OptimalCost.BoxIsOptCost | CSCI570/efficient.py:120-122 | A sub-box of the table costs what the two substrings it spans cost as a problem of their own. |
| OptimalCost.SplitAtMinimum | CSCI570/efficient.py:125-127 | The optimum of the whole equals the two halves' optima at any column minimising their sum across the middle row. |
| Basic.OneBranchMatches | CSCI570/basic.py:48-74 | At every inner cell one of the three tested equalities holds, so the walk never gets stuck. |
| Basic.CellChoices | CSCI570/basic.py:53-74 | The same in terms of the stored cell values the walk compares. |
| Basic.BacktraceSound | CSCI570/basic.py:23-89 | The walk from `(i, j)` yields equal-length strings with no two-gap column that strip to `s1[..i]` and `s2[..j]` and whose column costs sum to the cell. |
| Basic.PendingStart | CSCI570/basic.py:40-44 | The walk starts at the bottom-right corner with nothing built. |
| Basic.WalkUp | CSCI570/basic.py:53-56 | The vertical move prepends `(s1[i-1], _)` and keeps the walk on the backtrace. |
| Basic.WalkDiagonal | CSCI570/basic.py:61-65 | The diagonal move, tested only when the vertical one fails, prepends `(s1[i-1], s2[j-1])`. |
| Basic.WalkLeft | CSCI570/basic.py:71-74 | The horizontal move, tested when both others fail, prepends `(_, s2[j-1])`. |
| Basic.WalkDrainSecond | CSCI570/basic.py:77-80 | Once `s1` is used up, the rest of `s2` is prepended against gaps. |
| Basic.WalkDrainFirst | CSCI570/basic.py:83-86 | Once `s2` is used up, the rest of `s1` is prepended against gaps. |
| Basic.PendingDone | CSCI570/basic.py:89 | At `(0, 0)` the built strings are the whole backtrace. |
| Basic.BacktraceMove | CSCI570/basic.py:53-74 | One main-loop iteration strictly decreases `idx1 + idx2` and keeps the built strings on the backtrace. |
| Basic.BuildAlignedSequences | CSCI570/basic.py:23-89 | On a correctly filled table, the three loops return exactly the backtrace from the bottom-right corner. |
| Basic.SequenceAlignment | CSCI570/basic.py:92-141 | The method returns `FullAlign(s1, s2)`: a KeyError when the fill meets a pair outside the table, otherwise the backtrace and the bottom-right cell. |
| Basic.FullAlignSound | CSCI570/basic.py:135-141 | The full aligner's answer is sound: an alignment of the inputs whose column costs sum to the returned cost. |
| Basic.FullAlignOptimal | CSCI570/basic.py:125-141 | No alignment of the inputs costs less than the full aligner's answer. |
| Basic.FullAlignEmptyFirst | CSCI570/basic.py:77-80 | `sequence_alignment("", s)` is `['_' * len(s), s, 30 * len(s)]` and never fails. |
| Basic.FullAlignEmptySecond | CSCI570/basic.py:83-86 | `sequence_alignment(s, "")` is `[s, '_' * len(s), 30 * len(s)]` and never fails. |
| Basic.TwoGapsTable | CSCI570/basic.py:125-131 | For `AC` against `AG` the table's inner cells are 0, 30, 30 and 60. |
| Basic.FullAlignTwoGapsBeatSubstitution | CSCI570/basic.py:48-74 | `sequence_alignment("AC", "AG")` is `["A_C", "AG_", 60]`. |
| Efficient.OptCostRev | CSCI570/efficient.py:72-79 | Reading both strings backwards gives the same optimum, which is what the suffix scan relies on. |
| Efficient.PrefixRow | CSCI570/efficient.py:55 | The last row of the full table holds, at `j`, the optimum of `s1` against `s2[..j]`. |
| Efficient.SuffixRow | CSCI570/efficient.py:77-85 | The last row of the reversed strings' table holds, at `len(s2) - j`, the optimum of `s1` against `s2[j..]`. |
| Efficient.GetPrefix | CSCI570/efficient.py:26-55 | Fails exactly for unalignable inputs; otherwise returns `len(s2) + 1` entries. Entry `j` is the optimum of `s1` against `s2[..j]`, or all zeros when `s1` is empty. |
| Efficient.GetSuffix | CSCI570/efficient.py:57-85 | Fails exactly for unalignable inputs; otherwise entry `len(s2) - j` is the optimum of `s1` against `s2[j..]`, or all zeros when `s1` is empty. |
| Efficient.Partition | CSCI570/efficient.py:125 | One entry per column `idx`: `prefix[idx] + suffix[len(s2) - idx]`, where `len(suffix) == len(s2) + 1`. |
| Efficient.SeqMin | CSCI570/efficient.py:126 | `min(partition_matrix)` is an element and at most every element. |
| Efficient.IndexOf | CSCI570/efficient.py:127 | `list.index` returns the first position holding the value. |
| Efficient.CutIsOptimal | CSCI570/efficient.py:125-127 | The partition at the chosen column is the sum of the quarters' optima and their sum is the optimum of the whole. |
| Efficient.AlignableHalves | CSCI570/efficient.py:120-122 | With `s2` non-empty, the two scans succeed exactly when the whole problem is alignable. |
| Efficient.CombineHalves | CSCI570/efficient.py:147 | Concatenating sound answers for the two quarters component-wise gives a sound answer for the whole. |
| Efficient.AgreesWithFullAlign | CSCI570/efficient.py:89-147 | An answer that fails exactly on unalignable inputs and costs the optimum agrees with `sequence_alignment` on failure and cost. |
| Efficient.MemoryEfficientAlignment | CSCI570/efficient.py:89-147 | Fails exactly when `sequence_alignment` does; otherwise the answer is sound and costs the optimum, the same as `sequence_alignment`. Below two symbols it is `sequence_alignment`'s answer itself. Recursion is on strictly shorter `s1`. |
| Alignments.SoundConcat | CSCI570/efficient.py:147 | Sound answers for `x1`/`x2` and `y1`/`y2`, concatenated, are a sound answer for `x1 + y1`/`x2 + y2` costing the sum. |
| Alignments.AlignCostGaps | CSCI570/basic.py:77-86 | A string against gaps costs 30 per symbol, either way round. |
| ExtractInput.InsertAt | CSCI570/extractInput.py:54 | The slice `s[:idx+1]` stops at `idx + 1`, or at the end of `s` when that is past it. |
| ExtractInput.Step | CSCI570/extractInput.py:54 | One step doubles the length: `s[..k]`, then all of `s`, then `s[k..]`. |
| ExtractInput.StepAtEnd | CSCI570/extractInput.py:54 | An index at or past the last position appends the copy: the step gives `s + s`. |
| ExtractInput.StepDoubles | CSCI570/extractInput.py:54 | One step doubles the count of every symbol. |
| ExtractInput.Expand | CSCI570/extractInput.py:53-55 | No indices give the base string unchanged; `k` indices give length `len(base) * 2^k`. |
| ExtractInput.ExpandSnoc | CSCI570/extractInput.py:53-55 | Indices apply left to right: one more index is one more step on the result. |
| ExtractInput.ExpandCounts | CSCI570/extractInput.py:53-54 | After `k` indices every symbol occurs `2^k` times as often as in the base string. |
| ExtractInput.ExpandSymbols | CSCI570/extractInput.py:54 | The output holds exactly the symbols of the base string. |
| ExtractInput.ExpandBases | CSCI570/extractInput.py:41-55 | A nucleotide base string expands to a nucleotide string, which the aligners can score. |
| ExtractInput.Generator | CSCI570/extractInput.py:41-55 | The loop returns `Expand(base, indices)`. |

## Left out

- The `__main__` drivers of `basic.py` and `efficient.py`: reading arguments, timing, memory tracing with `tracemalloc`, and printing the results.
- `generateStrings` (`extractInput.py:3-38`): file reading and line classification. Its only computation is the two calls to `generator`, which are modelled.
- `graph.py`: plotting of measured numbers.
- The assignments at `efficient.py:129-133`: they rebind `prefix` and `suffix` to empty lists and bind an unused name `partition`, with no functional effect. The model holds no space or time bounds.
- Efficient.MemoryEfficientAlignment: claims the same cost as the full aligner and a sound answer, not the same strings. Where costs tie, the split can choose a different optimal alignment.
- Basic.BacktraceSound: the round trip (deleting gaps gives back the inputs) is stated only for inputs that hold no `_` themselves. With one side empty the source accepts any symbols, and an input `_` cannot be told apart from an inserted gap.
- ExtractInput.Generator: indices are natural numbers. A negative index, which `int(line)` could read from a file, would make Python slice from the end; that is not modelled.
- The KeyError carries no payload. Python's names the missing key.
- The two rolling rows of `get_prefix` and `get_suffix` are modelled as sequences reassigned cell by cell rather than as a list of two lists. The source never aliases them, so nothing observable is lost.
