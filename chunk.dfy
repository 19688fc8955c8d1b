/** A chunk of sequence text and the search for the offsets of one base in it. */
module Chunks {
  class Chunk {
    var value: string

    /** A chunk holding the empty sequence. */
    constructor Empty()
      ensures GetValue() == "" && GetLength() == 0
    {
      value := "";
    }

    constructor (value: string)
      ensures GetValue() == value && GetLength() == |value|
    {
      this.value := value;
    }

    function GetValue(): string
      reads this
    {
      value
    }

    method SetValue(value: string)
      modifies this
      ensures GetValue() == value && GetLength() == |value|
    {
      this.value := value;
    }

    function GetLength(): nat
      reads this
    {
      |value|
    }

    /**
     * The offsets at which `base` occurs, in increasing order: one entry per
     * occurrence, so there are as many as `base` has occurrences and never more
     * than the chunk is long.
     */
    method GetPositionsOf(base: char) returns (positions: seq<int>)
      ensures forall i :: i in positions <==> 0 <= i < GetLength() && GetValue()[i] == base
      ensures forall j, k :: 0 <= j < k < |positions| ==> positions[j] < positions[k]
      ensures |positions| == multiset(GetValue())[base] <= GetLength()
    {
      positions := [];
      var i := 0;
      while i < |value|
        invariant 0 <= i <= |value|
        invariant forall x :: x in positions <==> 0 <= x < i && value[x] == base
        invariant forall j, k :: 0 <= j < k < |positions| ==> positions[j] < positions[k]
        invariant forall j :: 0 <= j < |positions| ==> positions[j] < i
        invariant |positions| == multiset(value[..i])[base]
      {
        assert value[..i + 1] == value[..i] + [value[i]];
        if value[i] == base {
          positions := positions + [i];
        }
        i := i + 1;
      }
      assert value[..i] == value;
      assert multiset(value)[base] <= |multiset(value)|;
    }
  }
}
