/**
 * `RDB$RANGES.NUMBERS` (src/jrd/sys-packages/RangesPackage.cpp): the result set is
 * built in full by the constructor, one entry per integer from `numberFrom` to `numberTo`, and
 * `fetch` hands the entries out one per call.
 */
module Ranges {
  import opened Int128

  /** One row of the output message: `number` and its NULL flag. */
  datatype NumberEntry = NumberEntry(numberNull: bool, number: Int32)

  /** The entries for `lo` up to `hi`, in ascending order and never NULL. */
  function Entries(lo: int, hi: int): (r: seq<NumberEntry>)
    requires Int32Min <= lo && hi <= Int32Max
    decreases hi - lo
    ensures |r| == (if hi >= lo then hi - lo + 1 else 0)
    ensures forall i :: 0 <= i < |r| ==> r[i].number == lo + i && !r[i].numberNull
  {
    if lo > hi then [] else Entries(lo, hi - 1) + [NumberEntry(false, hi)]
  }

  /** The condition under which the constructor runs its loop at all, as written. */
  predicate BuildsEntries(numberFromNull: bool, numberFrom: Int32, numberToNull: bool, numberTo: Int32) {
    !numberFromNull || !numberToNull || numberTo >= numberFrom
  }

  /**
   * The loop's step as written: `i` is a 32-bit integer, so `i++` past the largest
   * value wraps to the smallest.
   */
  function StepAsWritten(i: Int32): Int32 {
    Wrap32(i + 1)
  }

  /** Whether the loop as written is still running after `steps` more increments of `i`. */
  predicate StillLoopingAsWritten(i: Int32, numberTo: Int32, steps: nat)
    decreases steps
  {
    i <= numberTo && (steps == 0 || StillLoopingAsWritten(StepAsWritten(i), numberTo, steps - 1))
  }

  /** With `numberTo` the largest 32-bit value, the loop as written never ends, however many steps it takes. */
  lemma {:induction false} NeverEndsAsWritten(i: Int32, steps: nat)
    ensures StillLoopingAsWritten(i, Int32Max, steps)
    decreases steps
  {
    if steps > 0 {
      NeverEndsAsWritten(StepAsWritten(i), steps - 1);
    }
  }

  /** `*out`: the caller's output message. */
  class OutputMessage {
    var value: NumberEntry

    constructor (value: NumberEntry)
      ensures this.value == value
    {
      this.value := value;
    }
  }

  class NumbersResultSet {
    /** `out`. */
    const out: OutputMessage
    /** `resultEntries`. */
    var entries: seq<NumberEntry>
    /** `resultIterator`, as an index into `entries`. */
    var position: nat

    ghost predicate Valid()
      reads this
    {
      position <= |entries|
    }

    /**
     * The constructor: when the guard holds, one entry per integer from `numberFrom` to
     * `numberTo` (none when `numberFrom > numberTo`); the position starts at the first entry.
     */
    constructor (numberFromNull: bool, numberFrom: Int32, numberToNull: bool, numberTo: Int32, out: OutputMessage)
      ensures Valid() && this.out == out && position == 0
      ensures entries == if BuildsEntries(numberFromNull, numberFrom, numberToNull, numberTo) then Entries(numberFrom, numberTo) else []
    {
      this.out := out;
      var result := [];
      if !numberFromNull || !numberToNull || numberTo >= numberFrom {
        var i: int := numberFrom;
        while i <= numberTo
          invariant numberFrom <= i <= (if numberFrom <= numberTo then numberTo + 1 else numberFrom)
          invariant result == Entries(numberFrom, i - 1)
          decreases numberTo - i
        {
          result := result + [NumberEntry(false, i)];
          i := i + 1;
        }
      }
      entries := result;
      position := 0;
    }

    /**
     * `fetch`: false, with `out` untouched, once the position is at the end;
     * otherwise the current entry is copied to `out`, the position advances and the
     * call returns true.
     */
    method Fetch() returns (more: bool)
      requires Valid()
      modifies this, out
      ensures Valid() && entries == old(entries)
      ensures more == (old(position) < |entries|)
      ensures more ==> out.value == entries[old(position)] && position == old(position) + 1
      ensures !more ==> out.value == old(out.value) && position == old(position)
    {
      if position >= |entries| {
        return false;
      }
      out.value := entries[position];
      position := position + 1;
      more := true;
    }
  }
}
