/**
 * One pass of the per-base loop of `Main.run`: the offsets of a base in a
 * chunk, laid out as an indicator array, mined into rules. `RulesForBase`
 * builds the indicator array one cell past the largest offset, so the
 * rules account for every occurrence of the base; `RulesForBaseAsWritten`
 * sizes it by the largest offset, as `Utils` does, and loses that offset.
 */
module Pipeline {
  import opened Wrappers
  import opened Chunks
  import opened Indicators
  import opened Rules
  import opened Miner
  import opened Report

  /** The offsets at which `base` occurs in `s`. */
  ghost function Occurrences(s: string, base: char): set<int>
  {
    set i | 0 <= i < |s| && s[i] == base
  }

  /** The offsets at which `base` occurs in `s` with a later occurrence after them: all but the last. */
  ghost function OccurrencesBeforeLast(s: string, base: char): set<int>
  {
    set i | 0 <= i < |s| && s[i] == base && base in s[i + 1..]
  }

  /** A lone occurrence counts for nothing; of two, only the first counts. */
  lemma LastOccurrenceLost()
    ensures OccurrencesBeforeLast("A", 'A') == {}
    ensures OccurrencesBeforeLast("AA", 'A') == {0}
  {
  }

  /** The 1-cells of the indicator array of a chunk's offsets are exactly the offsets. */
  lemma IndicatorOnes(cells: seq<int>, positions: seq<int>, s: string, base: char)
    requires forall i :: i in positions <==> 0 <= i < |s| && s[i] == base
    requires |positions| > 0 && MarksPositions(cells, positions, Max(positions) + 1, 1, 0)
    ensures OnesOf(cells) == Occurrences(s, base)
  {
    forall i | i in Occurrences(s, base)
      ensures i in OnesOf(cells)
    {
      assert i in positions;
    }
  }

  /**
   * The offsets of `base` go through the inclusive indicator builder and
   * then through `RulesFor`. A base that does not occur fails as an empty
   * list; otherwise the rules cover exactly the offsets of the base: a
   * single occurrence `a` gives `(a, a, 1)`, more give a greedy run whose
   * rules together cover every occurrence and nothing else.
   */
  method RulesForBase(chunk: Chunk, base: char) returns (r: Result<seq<Rule>, IndicatorError>, ghost trace: seq<Choice>)
    ensures r.Failure? <==> base !in chunk.GetValue()
    ensures r.Failure? ==> r.error == EmptyList
    ensures r.Success? ==>
      var occ := Occurrences(chunk.GetValue(), base);
      |r.value| == |trace| && (forall k :: 0 <= k < |trace| ==> r.value[k].Value() == trace[k].rule) &&
      (forall k :: 0 <= k < |trace| ==> fresh(r.value[k])) &&
      (forall j, k :: 0 <= j < k < |trace| ==> r.value[j] != r.value[k]) &&
      (|occ| == 1 ==> forall a :: a in occ ==> |trace| == 1 && trace[0].rule == RuleValue(a, a, 1)) &&
      (|occ| != 1 ==> GreedyRun(occ, trace) && Covered(trace) == occ && |trace| <= |occ|)
  {
    var positions := chunk.GetPositionsOf(base);
    var list := new int[|positions|](i requires 0 <= i < |positions| => positions[i]);
    assert list[..] == positions;
    var built := BuildIndicatorsInclusive(list, 1, 0);
    if built.Failure? {
      assert forall i :: 0 <= i < |chunk.GetValue()| ==> chunk.GetValue()[i] != base;
      return Failure(built.error), [];
    }
    var cells := built.value;
    assert |positions| > 0 && positions[0] in positions;
    IndicatorOnes(cells[..], positions, chunk.GetValue(), base);
    var rules;
    rules, trace := RulesFor(cells);
    if |Occurrences(chunk.GetValue(), base)| != 1 {
      GreedyCoversAll(Occurrences(chunk.GetValue(), base), trace);
    }
    return Success(rules), trace;
  }

  /** Sized by the largest offset, the 1-cells are the offsets except the largest one. */
  lemma IndicatorOnesAsWritten(cells: seq<int>, positions: seq<int>, s: string, base: char)
    requires forall i :: i in positions <==> 0 <= i < |s| && s[i] == base
    requires |positions| > 0 && MarksPositions(cells, positions, Max(positions), 1, 0)
    ensures OnesOf(cells) == OccurrencesBeforeLast(s, base)
  {
    var m := Max(positions);
    forall i | i in OnesOf(cells)
      ensures i in OccurrencesBeforeLast(s, base)
    {
      assert i in positions && i < m;
      assert s[i + 1..][m - i - 1] == base;
    }
    forall i | i in OccurrencesBeforeLast(s, base)
      ensures i in OnesOf(cells)
    {
      var j :| 0 <= j < |s[i + 1..]| && s[i + 1..][j] == base;
      assert i + 1 + j in positions;
      assert i in positions;
    }
  }

  /**
   * The per-base pass as `Main.run` performs it, with the builder that sizes
   * the indicator array by the largest offset. A base that does not occur
   * fails as an empty list; otherwise the rules account for every
   * occurrence except the last: one occurrence gives no rule at all, two
   * give the single rule `(a, a, 1)` for the first.
   */
  method RulesForBaseAsWritten(chunk: Chunk, base: char) returns (r: Result<seq<Rule>, IndicatorError>, ghost trace: seq<Choice>)
    ensures r.Failure? <==> base !in chunk.GetValue()
    ensures r.Failure? ==> r.error == EmptyList
    ensures r.Success? ==>
      var occ := OccurrencesBeforeLast(chunk.GetValue(), base);
      |r.value| == |trace| && (forall k :: 0 <= k < |trace| ==> r.value[k].Value() == trace[k].rule) &&
      (forall k :: 0 <= k < |trace| ==> fresh(r.value[k])) &&
      (forall j, k :: 0 <= j < k < |trace| ==> r.value[j] != r.value[k]) &&
      (|occ| == 1 ==> forall a :: a in occ ==> |trace| == 1 && trace[0].rule == RuleValue(a, a, 1)) &&
      (|occ| != 1 ==> GreedyRun(occ, trace) && Covered(trace) == occ && |trace| <= |occ|)
  {
    var positions := chunk.GetPositionsOf(base);
    var list := new int[|positions|](i requires 0 <= i < |positions| => positions[i]);
    assert list[..] == positions;
    var built := BuildIndicators(list, 1, 0);
    if built.Failure? {
      assert forall i :: 0 <= i < |chunk.GetValue()| ==> chunk.GetValue()[i] != base;
      return Failure(built.error), [];
    }
    var cells := built.value;
    assert |positions| > 0 && positions[0] in positions;
    IndicatorOnesAsWritten(cells[..], positions, chunk.GetValue(), base);
    var rules;
    rules, trace := RulesFor(cells);
    if |OccurrencesBeforeLast(chunk.GetValue(), base)| != 1 {
      GreedyCoversAll(OccurrencesBeforeLast(chunk.GetValue(), base), trace);
    }
    return Success(rules), trace;
  }

  /** The offsets of `'A'` in `"ACACAC"` are the progression `0, 2, 4`. */
  lemma AlternatingOccurrences()
    ensures Occurrences("ACACAC", 'A') == Members(0, 4, 2) == {0, 2, 4}
  {
    var s := "ACACAC";
    assert s[0] == 'A' && s[1] == 'C' && s[2] == 'A' && s[3] == 'C' && s[4] == 'A' && s[5] == 'C';
    assert Members(0, 4, 2) == {0} + ({2} + ({4} + Members(6, 4, 2)));
  }

  /** The report of the single group `[(0, 4, 2)]`. */
  lemma AlternatingReport()
    ensures ReportLines([[RuleValue(0, 4, 2)]]) == ["0\t4\t2", "End of rule."]
  {
    assert Format(RuleValue(0, 4, 2)) == "0\t4\t2";
    assert ReportLines([[RuleValue(0, 4, 2)]]) == GroupLines([RuleValue(0, 4, 2)]) + ReportLines([]);
  }

  /**
   * The pass for base `'A'` over the chunk `"ACACAC"`: the rules are the
   * single progression `(0, 4, 2)`, and the report for it is that record
   * followed by the marker.
   */
  method AlternatingExample() returns (rules: seq<RuleValue>, lines: seq<string>)
    ensures rules == [RuleValue(0, 4, 2)]
    ensures lines == ["0\t4\t2", "End of rule."]
  {
    var chunk := new Chunk("ACACAC");
    assert chunk.GetValue()[0] == 'A';
    var r, trace := RulesForBase(chunk, 'A');
    AlternatingOccurrences();
    assert r.Success?;
    var occ := Occurrences("ACACAC", 'A');
    assert |occ| == 3;
    assert GreedyRun(occ, trace);
    GreedyProgression(occ, trace, 0, 2, 2);
    assert |r.value| == 1 && r.value[0].Value() == trace[0].rule;
    var rule := trace[0].rule;
    assert rule == RuleValue(0, 4, 2);
    rules := [r.value[0].Value()];
    AlternatingReport();
    lines := ReportLines([rules]);
  }
}
