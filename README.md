# Palmyra position-to-rule pipeline in Dafny

Palmyra compresses a nucleotide sequence by describing where each base occurs
as a list of arithmetic progressions ("rules"). This project models the core
of that pipeline, minus the file and console I/O. For one base it covers:

- **Position extraction.** `Chunk.getPositionsOf` lists the offsets at which the
  base occurs (`chunk.dfy`, class `Chunks.Chunk`).
- **Indicator array.** `Utils.intListOfPositionsToIntArrayOfPositionalIndicators`
  and its `double[]` twin sort the offsets in place and lay them out as a dense
  0/1 array (`indicators.dfy`). Both twins are one generic method, called with
  `1`/`0` or `1.0`/`0.0`.
- **Greedy progression miner.** `Utils.rulesFor` (`miner.dfy`) builds `allOnes`,
  the set of 1-cells, and a shrinking copy `leftToRemove`. Each round it grows,
  for every seed `a` still left and every other 1-cell `b`, the chain of step
  `|b - a|` through `allOnes`. It scores the chain by how many members are still
  left, keeps the best, emits `Rule(low, high, d)` and strikes the chain off.
- **`Rule`.** The mutable `(start, end, step)` object (`rules.dfy`, class
  `Rules.Rule`) and its tab-separated `toString`. The decimal text and splitting
  routines behind `toString` are in `text.dfy`.
- **Report layout.** The lines `writeRulesToFile` writes: each rule's text, then
  `End of rule.` after each group (`report.dfy`).
- **Padding helpers.** `getNextPowerOfTwo`, `isPowerOfTwo` and `correctNumber`
  on 32-bit ints (`bits.dfy`, `powers.dfy`).
- **One per-base pass of `Main.run`.** Offsets, then indicator array, then rules
  (`pipeline.dfy`).

Java's `HashSet` iteration order is not specified, so the model chooses a seed
and a partner nondeterministically. The main results are stated about any
choice that the round's scoring allows. The miner's methods return a ghost
`trace` of `Choice` records, one per round, that names the pair chosen and what
was left. The ghost predicates `Round`, `Chosen`, `GreedyProgress` and
`GreedyRun` say what a legal run is.

Two ways the builder throws are modelled as results:

- **Empty offset list.** `list.get(-1)` throws; the model returns
  `Failure(EmptyList)`. A base that does not occur in the chunk takes this path.
- **Negative largest offset.** `new int[m]` throws `NegativeArraySizeException`;
  the model returns `Failure(NegativeLength(m))`.

Negative offsets below a non-negative largest offset are accepted, as in the
code: they simply get no cell, since only the indices `0` to `length - 1` are
filled.

The array is as long as the largest offset, so that offset gets no cell (see
Findings). `Pipeline.RulesForBaseAsWritten` is the per-base pass with that
builder; `Pipeline.RulesForBase` is the same pass with the corrected builder,
whose array is one cell longer.

## Model

| member | source | states |
|---|---|---|
| Chunks.Chunk.Empty | src/org/engenomics/palmyra/Chunk.java:9-11 | The no-argument chunk holds the empty sequence and has length 0, so no offset satisfies `GetPositionsOf`'s membership condition. |
| Chunks.Chunk.constructor | src/org/engenomics/palmyra/Chunk.java:13-15 | `getValue` returns the given sequence and `getLength` its length. |
| Chunks.Chunk.SetValue | src/org/engenomics/palmyra/Chunk.java:21-23 | After `setValue(v)`, `getValue()` is `v` and `getLength()` is `|v|`. |
| Chunks.Chunk.GetPositionsOf | src/org/engenomics/palmyra/Chunk.java:29-39 | Offset `i` is listed iff `0 <= i < getLength()` and the chunk holds the base there. The list is strictly increasing, so it has no duplicates. There is one entry per occurrence of the base, never more than the length. The method has no `modifies`, so `value` is left unchanged. |
| Rules.Rule.constructor | src/org/engenomics/palmyra/Rule.java:8-12 | `getStart`, `getEnd` and `getStep` return the three constructor arguments. |
| Rules.Rule.SetStart | src/org/engenomics/palmyra/Rule.java:19-21 | `start` takes the new value; `end` and `step` are unchanged. |
| Rules.Rule.SetEnd | src/org/engenomics/palmyra/Rule.java:36-38 | `end` takes the new value; `start` and `step` are unchanged. |
| Rules.Rule.SetStep | src/org/engenomics/palmyra/Rule.java:44-46 | `step` takes the new value; `start` and `end` are unchanged. |
| Rules.Rule.ToString | src/org/engenomics/palmyra/Rule.java:23-30 | Splitting the text on tabs gives exactly the three decimal fields start, end, step. Parsing the text gives back the rule's triple. |
| Rules.FormatFields | src/org/engenomics/palmyra/Rule.java:25-29 | The record has exactly two tabs, and they separate the decimal forms of start, end and step. |
| Rules.ParseFormat | src/org/engenomics/palmyra/Rule.java:25-29 | Splitting a rule's record on its tabs and parsing the three integers recovers `(start, end, step)`. |
| Text.ParseIntToString | src/org/engenomics/palmyra/Rule.java:26-28 | Reading back the decimal text Java's `"" + i` gives for an int yields that int. |
| Text.SplitField | src/org/engenomics/palmyra/Rule.java:26-28 | Splitting a field that has no tab, followed by a tab, peels off exactly that field. |
| Rules.MembersIff | src/org/engenomics/palmyra/Utils.java:185-187 | The removal loop `i = low; i <= high; i += d` visits exactly the indices between the bounds that are a whole number of steps above `low`. |
| Rules.EndsCovered | src/org/engenomics/palmyra/Utils.java:185-187 | Both ends of a well-formed rule are among the indices it covers. |
| Indicators.Sort | src/org/engenomics/palmyra/Utils.java:57 | `Collections.sort`: afterwards the caller's list is ascending and holds the same multiset of elements. |
| Indicators.BuildIndicators | src/org/engenomics/palmyra/Utils.java:55-67 | The caller's list ends up sorted, with the same elements. An empty list fails as `EmptyList`; a negative largest element fails as `NegativeLength`. Otherwise the result is a fresh array whose length is the largest element, with cell `i` equal to `one` iff `i` is in the list and `zero` otherwise. With `1.0`/`0.0` it is the `double[]` twin at lines 41-53. |
| Indicators.MarkPositions | src/org/engenomics/palmyra/Utils.java:63 | The fill loop (and its `double[]` copy at line 49): a fresh array of the given length whose cell `i` is `one` iff `i` is in the list and `zero` otherwise. |
| Indicators.LargestPositionDropped | src/org/engenomics/palmyra/Utils.java:60 | As written, the list `[0, 3]` gives `[1, 0, 0]`: the largest position has no cell. |
| Indicators.BuildIndicatorsInclusive | src/org/engenomics/palmyra/Utils.java:55-67 | The corrected builder: the same contract, with the length one past the largest element, so every non-negative position gets its 1-cell. |
| Indicators.LargestPositionKept | src/org/engenomics/palmyra/Utils.java:60 | Corrected, the list `[0, 3]` gives `[1, 0, 0, 1]`. |
| PowersOfTwo.SingleBitValue | src/org/engenomics/palmyra/Utils.java:123 | `x != 0 && (x & (x - 1)) == 0` holds exactly when the unsigned value of `x` is a power of two. |
| PowersOfTwo.IsPowerOfTwo | src/org/engenomics/palmyra/Utils.java:122-124 | True iff the 32 bits of `n` denote a power of two. For `n >= 0` that is iff `n` is a positive power of two. |
| PowersOfTwo.Smear | src/org/engenomics/palmyra/Utils.java:109-113 | For a non-negative `x`, the five or-shifts set every bit below the highest bit of `x`, so the result plus one is a single bit just above it. For a negative `x` the result is all ones. |
| PowersOfTwo.NextPowerOfTwo | src/org/engenomics/palmyra/Utils.java:107-119 | When `n - 1` is a non-negative int, the result is a single bit above every bit of `n - 1`, the next bit down being set in `n - 1` (1 when `n` is 1). When `n - 1` is negative, the result is 0. |
| PowersOfTwo.RoundsUpBounds | src/org/engenomics/palmyra/Utils.java:107-119 | For `n >= 1` the result is a power of two `p` with `n <= p < 2n`. |
| PowersOfTwo.PaddedLength | src/org/engenomics/palmyra/Utils.java:92 | For a length up to `Integer.MAX_VALUE`: 0 gives 0; otherwise the result is the least power of two at least the length, and it is negative as an int exactly when the length exceeds `2^30`. |
| PowersOfTwo.PadWithZeroes | src/org/engenomics/palmyra/Utils.java:93-99 | A fresh array of the requested size whose front is the input and whose tail is all zero. |
| PowersOfTwo.CorrectNumber | src/org/engenomics/palmyra/Utils.java:85-103 | An array whose length is a power of two comes back itself. Any other array up to `2^30` long comes back as a fresh array whose length is the least power of two at least its own (0 for 0), with the input as prefix and zeroes after. Above `2^30` it fails (`None`). |
| Miner.CollectOnes | src/org/engenomics/palmyra/Utils.java:131-135 | `allOnes` holds exactly the indices whose cell is 1. |
| Miner.WalkDown | src/org/engenomics/palmyra/Utils.java:157-165 | The downward loop stops at the lowest point of the chain of step `d` through `a` that stays in `allOnes`, a whole number of steps below `a`. The count is how many chain members from there up to `a` are still left. |
| Miner.WalkUp | src/org/engenomics/palmyra/Utils.java:166-174 | The upward loop stops at the highest point of the chain inside `allOnes`. The count becomes how many members of the whole chain `low..high` are still left. |
| Miner.GrowChain | src/org/engenomics/palmyra/Utils.java:153-174 | A seed and step give the chain's two ends, and the score is the number of its members still in `leftToRemove`. |
| Miner.CandidateShape | src/org/engenomics/palmyra/Utils.java:153-174 | The chain of seed `a` and partner `b` has a step of at least 1 and satisfies `low <= a <= high` with `high - low` divisible by the step. Every index it covers is in `allOnes`, and it cannot be extended at either end. |
| Miner.BestCandidate | src/org/engenomics/palmyra/Utils.java:144-182 | With at least two 1-cells and something left, a pair is always found, so the sentinel `-1` values never escape. The chosen pair's score is at least that of every seed-partner pair of the round (ties broken arbitrarily) and is at least 1. The returned `low, high, d` are that pair's chain. |
| Miner.RemoveChain | src/org/engenomics/palmyra/Utils.java:185-187 | What is left afterwards is what was left minus the chain's indices. |
| Miner.OneRound | src/org/engenomics/palmyra/Utils.java:143-187 | One pass of the main loop is a legal round. It emits a well-formed rule inside `allOnes`, covering the seed, for a best pair, as a freshly allocated `Rule`. `leftToRemove` strictly shrinks. |
| Miner.RoundShrinks | src/org/engenomics/palmyra/Utils.java:185-187 | A round removes at least its seed, so what is left strictly shrinks in both set and size. |
| Miner.GreedyInvariant | src/org/engenomics/palmyra/Utils.java:142-188 | Throughout the loop, `leftToRemove` is `allOnes` minus the indices covered so far, inside `allOnes`. The number of rounds plus what is left never exceeds `|allOnes|`. |
| Miner.RoundsWithin | src/org/engenomics/palmyra/Utils.java:143-187 | Every round starts inside `allOnes`, emits a well-formed rule whose indices are all in `allOnes`, and strictly shrinks what is left. |
| Miner.GreedyCoversAll | src/org/engenomics/palmyra/Utils.java:142-188 | At termination every emitted rule is a well-formed progression inside `allOnes`, and together they cover exactly `allOnes`. There are at most `|allOnes|` rules. |
| Miner.CoversDetermine | src/org/engenomics/palmyra/Utils.java:183-187 | A well-formed rule covering the same indices as the progression `lo, lo + d, ..., hi` (at least two of them) is the rule `(lo, hi, d)`. |
| Miner.ProgressionCandidate | src/org/engenomics/palmyra/Utils.java:153-174 | When the 1-cells are the progression `lo, lo + d, ..., hi`, the seed `lo` with partner `lo + d` grows the whole progression `(lo, hi, d)`. |
| Miner.GreedyProgression | src/org/engenomics/palmyra/Utils.java:142-188 | When the 1-cells form one progression `lo, lo + d, ..., lo + k*d` with `k, d >= 1`, whatever the iteration order, the run emits the single rule `(lo, lo + k*d, d)`. |
| Miner.GreedyEmpty | src/org/engenomics/palmyra/Utils.java:143 | With no 1-cells the loop never runs and no rule is emitted. |
| Miner.PairCandidate | src/org/engenomics/palmyra/Utils.java:148-174 | With two 1-cells `p < q`, either one as seed proposes `(p, q, q - p)`, which covers both. |
| Miner.GreedyPair | src/org/engenomics/palmyra/Utils.java:142-188 | With exactly two 1-cells `p < q`, whatever the iteration order, the run emits the single rule `(p, q, q - p)`. |
| Miner.GreedyRounds | src/org/engenomics/palmyra/Utils.java:142-188 | The main loop returns one freshly allocated `Rule` per round, pairwise distinct, holding that round's rule, and the rounds form a finished greedy run over `allOnes`. |
| Miner.RulesFor | src/org/engenomics/palmyra/Utils.java:128-191 | The returned `Rule` objects are freshly allocated and pairwise distinct. With exactly one 1-cell `a` the result is the single rule `(a, a, 1)`. Otherwise the rules are those of a finished greedy run over the 1-cells, so none for no 1-cells; `Miner.GreedyCoversAll` and `Miner.GreedyPair` apply. |
| Pipeline.IndicatorOnes | src/org/engenomics/palmyra/Main.java:31-33 | With the corrected builder, the 1-cells of the indicator array of a chunk's offsets are exactly the offsets of the base. |
| Pipeline.IndicatorOnesAsWritten | src/org/engenomics/palmyra/Main.java:31-33 | With the builder as written, the 1-cells are the offsets of the base except the largest one. |
| Pipeline.RulesForBase | src/org/engenomics/palmyra/Main.java:31-35 | The per-base pass with the corrected builder (length largest offset + 1). A base that does not occur fails as an empty list. A single occurrence `a` gives `(a, a, 1)`. More occurrences give a greedy run whose rules cover exactly the occurrences of the base, at most one rule per occurrence. The `Rule` objects are freshly allocated and pairwise distinct. |
| Pipeline.RulesForBaseAsWritten | src/org/engenomics/palmyra/Main.java:31-35 | The per-base pass as the code performs it. A base that does not occur fails as an empty list. Otherwise the rules are those of `RulesFor` on every occurrence but the last: one occurrence gives no rule, two give `(a, a, 1)` for the first, more give a greedy run covering exactly the occurrences before the last. The `Rule` objects are fresh and pairwise distinct. |
| Pipeline.AlternatingReport | src/org/engenomics/palmyra/Utils.java:193-200 | The report of the single group `[(0, 4, 2)]` is the two lines `0\t4\t2` and `End of rule.`. |
| Pipeline.AlternatingExample | src/org/engenomics/palmyra/Main.java:23-42 | For the chunk `"ACACAC"` and base `'A'`, the pass with the corrected builder gives exactly the rules `[(0, 4, 2)]`, and their report is `0\t4\t2` then `End of rule.`. |
| Pipeline.LastOccurrenceLost | src/org/engenomics/palmyra/Main.java:33 | The chunk `"A"` leaves no occurrence to mine, and the chunk `"AA"` leaves only offset 0. |
| Report.ReportLines | src/org/engenomics/palmyra/Utils.java:193-200 | The lines `writeRulesToFile` writes: for each group its rule records in order, then `End of rule.`. There is one line per rule plus one marker per group, and a report with any group ends on the marker. `Report.ParseReportLines` reads it back. |
| Report.GroupLines | src/org/engenomics/palmyra/Utils.java:196-197 | One group's lines: one record per rule, in order, then exactly one `End of rule.` line. |
| Report.RuleLines | src/org/engenomics/palmyra/Utils.java:196 | One line per rule, in order, each the rule's tab-separated record. |
| Report.FormatIsNotMarker | src/org/engenomics/palmyra/Utils.java:196-197 | No rule record equals the `End of rule.` marker. |
| Report.TakeGroupLines | src/org/engenomics/palmyra/Utils.java:196-197 | Reading one group's lines stops at its marker and yields exactly its rule lines. |
| Report.SplitReportLines | src/org/engenomics/palmyra/Utils.java:195-198 | Cutting the report at the markers recovers each group's rule lines. |
| Report.ParseRuleLines | src/org/engenomics/palmyra/Utils.java:196 | Parsing a group's rule lines gives back its rules. |
| Report.ParseGroupLines | src/org/engenomics/palmyra/Utils.java:195-198 | Parsing every group's lines gives back every group's rules. |
| Report.ParseReportLines | src/org/engenomics/palmyra/Utils.java:193-200 | Reading the report's lines back gives exactly the groups of rules that were written. |

## Left out

- `readFileIntoStringNoBreaks` (Utils.java:27-33): file I/O and a library join. The chunk text is a parameter instead.
- `fourierTransform` and the static transformer (Utils.java:18, 75-77): a floating-point FFT from a library whose code is not part of this model. `correctNumber`, its padding step, is modelled.
- `writeRulesToFile` (Utils.java:193-200): opening, writing and closing `output.txt` is left out. Only the sequence of lines it writes is modelled, by `Report.ReportLines`, with each rule given by its value.
- The progress `System.out.println` in `rulesFor` (Utils.java:184) and the one in `Main.run`: console output only, with no effect on results.
- `Main.run` (Main.java): only one per-base pass is modelled (`Pipeline.RulesForBaseAsWritten`, and `Pipeline.RulesForBase` with the corrected builder). Reading the file, the loop over the four bases and the list of groups are left out. `Config.java` holds install-specific paths only.
- Java `int` overflow in the miner: positions are mathematical integers. Two sums can leave the int range: `high2 + d2` in the upward walk (Utils.java:167) and `i += d` in the removal loop (Utils.java:185), both equal to `high + d`. A wrapped `high2 + d2` fails `allOnes.contains` as the unbounded sum does, but a wrapped `i` is negative, so `i <= high` holds again and the Java loop goes on removing indices no rule covers (with the chain `(0, 2^30 + 2, 2^30 + 2)` it next visits `-2^31 + 4`, `-2^30 + 6` and `8`). Miner.RemoveChain, Miner.GreedyCoversAll and the rest of the miner's results therefore assume `high + d <= Integer.MAX_VALUE`, which holds for indicator arrays of at most `2^30` cells. The power-of-two helpers are the exception: they are modelled on the 32 bits of the int (`bv32`).
- Chunks.Chunk.GetPositionsOf: the chunk is a sequence of Dafny `char`s, which are Unicode scalar values, while Java's `charAt` and `length()` count UTF-16 code units. After a character outside the Basic Multilingual Plane the Java offsets are one higher per such character than the model's. Nucleotide text is ASCII, where the two agree.
- Pipeline.RulesForBase: it uses the corrected builder, not the one `Main.run` calls at Main.java:33, so it promises coverage of every occurrence; for a single occurrence it promises `(a, a, 1)` where the code returns no rule. `Pipeline.RulesForBaseAsWritten` states what the code does.
- Miner.BestCandidate: `HashSet` iteration order is not modelled. The seed and partner are picked nondeterministically, so the tie-break between equally scored pairs is any one, not the first in hash order.
- `List<Integer>` and `List<Rule>` are modelled as an `array<int>` (the builder sorts it in place) and a `seq<Rule>`. `double` cells are `real`, since only `0.0` and `1.0` are ever stored.
- `Chunk.getValue`, `Chunk.getLength` and the three `Rule` getters are plain field reads. They have no contract of their own; the constructors and setters state what they return.
- PowersOfTwo.CorrectNumber: arrays longer than `Integer.MAX_VALUE` elements cannot exist in Java, so the method requires a length up to that bound.

## Findings

| source | as written | input that shows it | evidently intended | confidence | as-written member | corrected member |
|---|---|---|---|---|---|---|
| src/org/engenomics/palmyra/Utils.java:60 | The indicator array is `new int[max]`, one cell short: the largest position gets no cell, so its occurrence never reaches `rulesFor` (the same holds for the `double[]` twin at line 46). | The list `[0, 3]` gives `[1, 0, 0]`; the occurrence at 3 is lost. | `new int[max + 1]`, giving `[1, 0, 0, 1]`, so the rules cover every occurrence. | not executed | Indicators.LargestPositionDropped | Indicators.LargestPositionKept |
