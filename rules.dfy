/**
 * Rules: arithmetic progressions `start, start + step, ..., end`, their
 * one-line text form, and the mutable `Rule` object that holds one.
 */
module Rules {
  import opened Wrappers
  import opened Text
  import Arith

  /** The (start, end, step) triple a rule holds. */
  datatype RuleValue = RuleValue(start: int, end: int, step: int)

  /** A rule that denotes a genuine progression: it runs upward in whole steps. */
  predicate WellFormed(r: RuleValue) {
    r.step >= 1 && r.start <= r.end && (r.end - r.start) % r.step == 0
  }

  /** The indices `lo, lo + d, lo + 2d, ...` that do not exceed `hi`. */
  function Members(lo: int, hi: int, d: int): set<int>
    requires d > 0
    decreases hi - lo
  {
    if lo > hi then {} else {lo} + Members(lo + d, hi, d)
  }

  /** The indices a rule covers. */
  function Covers(r: RuleValue): set<int>
    requires r.step > 0
  {
    Members(r.start, r.end, r.step)
  }

  /** `x` is on the progression iff it lies between the bounds a whole number of steps above `lo`. */
  lemma {:induction false} MembersIff(lo: int, hi: int, d: int, x: int)
    requires d > 0
    ensures x in Members(lo, hi, d) <==> lo <= x <= hi && (x - lo) % d == 0
    decreases hi - lo
  {
    if lo <= hi {
      MembersIff(lo + d, hi, d, x);
      if lo <= x < lo + d {
        Arith.ModSmall(x - lo, d);
      } else if x >= lo + d {
        Arith.ModShift(x - (lo + d), d);
      }
    }
  }

  /** Both ends of a well-formed rule are covered. */
  lemma EndsCovered(r: RuleValue)
    requires WellFormed(r)
    ensures r.start in Covers(r) && r.end in Covers(r)
  {
    MembersIff(r.start, r.end, r.step, r.start);
    MembersIff(r.start, r.end, r.step, r.end);
  }

  /** A progression ending on a member gains exactly one index when extended by one step. */
  lemma {:induction false} MembersExtend(lo: int, hi: int, d: int)
    requires d > 0 && lo <= hi && (hi - lo) % d == 0
    ensures Members(lo, hi + d, d) == Members(lo, hi, d) + {hi + d}
    decreases hi - lo
  {
    if lo + d <= hi {
      Arith.ModShift(hi - (lo + d), d);
      MembersExtend(lo + d, hi, d);
    } else {
      Arith.ModSmall(hi - lo, d);
      assert Members(lo + d, hi + d, d) == {lo + d} + Members(lo + d + d, hi + d, d);
    }
  }

  /** The text form of a rule: decimal start, a tab, decimal end, a tab, decimal step. */
  function Format(r: RuleValue): string
  {
    IntToString(r.start) + "\t" + IntToString(r.end) + "\t" + IntToString(r.step)
  }

  /** The text form has exactly two tabs, which separate the three decimal fields. */
  lemma FormatFields(r: RuleValue)
    ensures Split(Format(r), '\t') == [IntToString(r.start), IntToString(r.end), IntToString(r.step)]
  {
    var a, b, c := IntToString(r.start), IntToString(r.end), IntToString(r.step);
    SplitField(a, '\t', b + "\t" + c);
    SplitField(b, '\t', c);
    SplitNoSeparator(c, '\t');
    assert a + "\t" + b + "\t" + c == a + ['\t'] + (b + ['\t'] + c);
  }

  /** Reads a line of three tab-separated integers back into a rule. */
  function Parse(s: string): Option<RuleValue> {
    var parts := Split(s, '\t');
    if |parts| == 3 && IsInteger(parts[0]) && IsInteger(parts[1]) && IsInteger(parts[2]) then
      Some(RuleValue(ParseInt(parts[0]), ParseInt(parts[1]), ParseInt(parts[2])))
    else
      None
  }

  /** Splitting the text form on its tabs and parsing the parts recovers the rule. */
  lemma ParseFormat(r: RuleValue)
    ensures Parse(Format(r)) == Some(r)
  {
    FormatFields(r);
    ParseIntToString(r.start);
    ParseIntToString(r.end);
    ParseIntToString(r.step);
  }

  /** The mutable rule object: three int fields with getters and setters. */
  class Rule {
    var start: int
    var end: int
    var step: int

    constructor (start: int, end: int, step: int)
      ensures GetStart() == start && GetEnd() == end && GetStep() == step
    {
      this.start := start;
      this.end := end;
      this.step := step;
    }

    function GetStart(): int
      reads this
    {
      start
    }

    method SetStart(start: int)
      modifies this`start
      ensures GetStart() == start
      ensures GetEnd() == old(GetEnd()) && GetStep() == old(GetStep())
    {
      this.start := start;
    }

    function GetEnd(): int
      reads this
    {
      end
    }

    method SetEnd(end: int)
      modifies this`end
      ensures GetEnd() == end
      ensures GetStart() == old(GetStart()) && GetStep() == old(GetStep())
    {
      this.end := end;
    }

    function GetStep(): int
      reads this
    {
      step
    }

    method SetStep(step: int)
      modifies this`step
      ensures GetStep() == step
      ensures GetStart() == old(GetStart()) && GetEnd() == old(GetEnd())
    {
      this.step := step;
    }

    /** The triple this object currently holds. */
    function Value(): RuleValue
      reads this
    {
      RuleValue(start, end, step)
    }

    /** The record format of the report: three tab-separated decimal fields that parse back to the fields. */
    function ToString(): (s: string)
      reads this
      ensures Split(s, '\t') == [IntToString(GetStart()), IntToString(GetEnd()), IntToString(GetStep())]
      ensures Parse(s) == Some(RuleValue(GetStart(), GetEnd(), GetStep()))
    {
      FormatFields(Value());
      ParseFormat(Value());
      Format(Value())
    }
  }
}
