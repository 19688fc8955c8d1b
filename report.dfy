/**
 * The line layout of `Utils.writeRulesToFile`: for each list of rules,
 * one line per rule in its tab-separated text form, then the marker line
 * `End of rule.`. The layout is unambiguous: the groups can be read back
 * from the lines.
 */
module Report {
  import opened Wrappers
  import opened Text
  import opened Rules

  const EndMarker: string := "End of rule."

  /** One line per rule, in order. */
  function RuleLines(rules: seq<RuleValue>): (lines: seq<string>)
    ensures |lines| == |rules|
    ensures forall k :: 0 <= k < |rules| ==> lines[k] == Format(rules[k])
  {
    if rules == [] then [] else [Format(rules[0])] + RuleLines(rules[1..])
  }

  /** The lines one list of rules contributes: its rule lines, then the marker. */
  function GroupLines(rules: seq<RuleValue>): (lines: seq<string>)
    ensures |lines| == |rules| + 1 && lines[|rules|] == EndMarker
    ensures forall k :: 0 <= k < |rules| ==> lines[k] == Format(rules[k])
  {
    RuleLines(rules) + [EndMarker]
  }

  /** The report has one line per rule plus one marker per group. */
  ghost function LineCount(groups: seq<seq<RuleValue>>): nat
  {
    if groups == [] then 0 else |groups[0]| + 1 + LineCount(groups[1..])
  }

  /**
   * All lines of the report, group after group: one line per rule plus one
   * marker per group, and a report with any group ends on the marker.
   */
  function ReportLines(groups: seq<seq<RuleValue>>): (lines: seq<string>)
    ensures |lines| == LineCount(groups)
    ensures groups != [] ==> lines[|lines| - 1] == EndMarker
  {
    if groups == [] then [] else GroupLines(groups[0]) + ReportLines(groups[1..])
  }

  /** The lines before the next marker, and how many lines that takes with the marker. */
  function TakeGroup(lines: seq<string>): (r: Option<(seq<string>, nat)>)
    ensures r.Some? ==> 1 <= r.value.1 <= |lines|
  {
    if lines == [] then None
    else if lines[0] == EndMarker then Some(([], 1))
    else match TakeGroup(lines[1..])
      case None => None
      case Some((group, used)) => Some(([lines[0]] + group, used + 1))
  }

  /** Cuts the lines into groups at the markers; lines after the last marker are an error. */
  function SplitGroups(lines: seq<string>): Option<seq<seq<string>>>
    decreases |lines|
  {
    if lines == [] then Some([])
    else match TakeGroup(lines)
      case None => None
      case Some((group, used)) =>
        match SplitGroups(lines[used..])
        case None => None
        case Some(groups) => Some([group] + groups)
  }

  /** Parses each line of a group as a rule. */
  function ParseRules(lines: seq<string>): Option<seq<RuleValue>>
  {
    if lines == [] then Some([])
    else match Parse(lines[0])
      case None => None
      case Some(rule) =>
        match ParseRules(lines[1..])
        case None => None
        case Some(rules) => Some([rule] + rules)
  }

  /** Parses every group. */
  function ParseGroups(groups: seq<seq<string>>): Option<seq<seq<RuleValue>>>
  {
    if groups == [] then Some([])
    else match ParseRules(groups[0])
      case None => None
      case Some(rules) =>
        match ParseGroups(groups[1..])
        case None => None
        case Some(rest) => Some([rules] + rest)
  }

  /** Reads a whole report back into its groups of rules. */
  function ParseReport(lines: seq<string>): Option<seq<seq<RuleValue>>>
  {
    match SplitGroups(lines)
    case None => None
    case Some(groups) => ParseGroups(groups)
  }

  /** The rule lines of each group. */
  function LinesOfGroups(groups: seq<seq<RuleValue>>): seq<seq<string>>
  {
    if groups == [] then [] else [RuleLines(groups[0])] + LinesOfGroups(groups[1..])
  }

  /** No rule line is mistaken for the marker. */
  lemma FormatIsNotMarker(r: RuleValue)
    ensures Format(r) != EndMarker
  {
    ParseFormat(r);
    SplitNoSeparator(EndMarker, '\t');
  }

  /** The lines of one group are taken up to and including its marker. */
  lemma {:induction false} TakeGroupLines(rules: seq<RuleValue>, rest: seq<string>)
    ensures TakeGroup(GroupLines(rules) + rest) == Some((RuleLines(rules), |rules| + 1))
  {
    var lines := GroupLines(rules) + rest;
    if rules != [] {
      FormatIsNotMarker(rules[0]);
      assert lines[1..] == GroupLines(rules[1..]) + rest;
      TakeGroupLines(rules[1..], rest);
    } else {
      assert lines[0] == EndMarker;
    }
  }

  lemma {:induction false} SplitReportLines(groups: seq<seq<RuleValue>>)
    ensures SplitGroups(ReportLines(groups)) == Some(LinesOfGroups(groups))
  {
    if groups != [] {
      var lines := ReportLines(groups);
      TakeGroupLines(groups[0], ReportLines(groups[1..]));
      assert lines[|groups[0]| + 1..] == ReportLines(groups[1..]);
      SplitReportLines(groups[1..]);
    }
  }

  lemma {:induction false} ParseRuleLines(rules: seq<RuleValue>)
    ensures ParseRules(RuleLines(rules)) == Some(rules)
  {
    if rules != [] {
      var lines := RuleLines(rules);
      ParseFormat(rules[0]);
      assert lines[1..] == RuleLines(rules[1..]);
      ParseRuleLines(rules[1..]);
      assert [rules[0]] + rules[1..] == rules;
    }
  }

  /** A parsable group in front of parsable groups adds that group. */
  lemma ParseGroupsCons(groups: seq<seq<string>>, rules: seq<RuleValue>, rest: seq<seq<RuleValue>>)
    requires groups != [] && ParseRules(groups[0]) == Some(rules) && ParseGroups(groups[1..]) == Some(rest)
    ensures ParseGroups(groups) == Some([rules] + rest)
  {
  }

  lemma {:induction false} ParseGroupLines(groups: seq<seq<RuleValue>>)
    ensures ParseGroups(LinesOfGroups(groups)) == Some(groups)
  {
    if groups != [] {
      var lines := LinesOfGroups(groups);
      assert lines[0] == RuleLines(groups[0]) && lines[1..] == LinesOfGroups(groups[1..]);
      ParseRuleLines(groups[0]);
      ParseGroupLines(groups[1..]);
      ParseGroupsCons(lines, groups[0], groups[1..]);
      assert [groups[0]] + groups[1..] == groups;
    }
  }

  /** Reading the report back gives the groups of rules that were written. */
  lemma ParseReportLines(groups: seq<seq<RuleValue>>)
    ensures ParseReport(ReportLines(groups)) == Some(groups)
  {
    SplitReportLines(groups);
    ParseGroupLines(groups);
  }
}
