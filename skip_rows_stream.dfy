/**
 * The "skip N rows" filter (src/jrd/recsrc/SkipRowsStream.cpp): `open` evaluates
 * the skip count and opens the child, the first `getRecord` discards that many
 * child rows, and every later call passes straight through to the child.
 */
module SkipRows {
  import opened Common
  import opened RecordSource
  import Int128

  /** The number of rows to skip: an absent value or SQL NULL counts as zero. */
  function SkipValue(value: Option<Int128.Int64>): int {
    match value
    case None => 0
    case Some(v) => v
  }

  /** How many child rows a `getRecord` call with counter `count` discards before it returns one. */
  function Discarded(count: int): (d: nat)
    ensures d == 0 <==> count <= 1
    ensures count > 1 ==> d == count - 1
  {
    if count > 1 then count - 1 else 0
  }

  /** `irsb_count = value + 1` as the 64-bit counter computes it. */
  function CountAsWritten(value: Int128.Int64): Int128.Int64 {
    Int128.Wrap64(value + 1)
  }

  /**
   * With the largest skip value the 64-bit counter wraps to the smallest value,
   * so the first `getRecord` discards no row at all instead of every row; its
   * decrement then wraps the counter back to the largest value, so the second
   * `getRecord` discards all but one of 2^63 - 1 rows.
   */
  lemma LargestSkipAsWritten()
    ensures CountAsWritten(Int128.Int64Max) == Int128.Int64Min
    ensures Discarded(CountAsWritten(Int128.Int64Max)) == 0
    ensures Int128.Wrap64(CountAsWritten(Int128.Int64Max) - 1) == Int128.Int64Max
    ensures Discarded(Int128.Int64Max) == Int128.Int64Max - 1
  {
  }

  /** The text `print` appends: nothing of its own in a plain plan, one nesting level in the explained ones. */
  function PlanText(format: PlanFormat, level: nat, child: (PlanFormat, nat) -> string,
                    indent: (PlanFormat, nat) -> string, extras: string): string
  {
    match format
    case Plain => child(Plain, level)
    case ExplainLegacy =>
      indent(ExplainLegacy, level + 1) + "Skip N Records" + child(ExplainLegacy, level + 1)
    case ExplainXml =>
      indent(ExplainXml, level + 1) + "<Node operation=\"Skip N Records\"" + extras + ">" +
      child(ExplainXml, level + 1) + indent(ExplainXml, level + 1) + "</Node>"
  }

  /**
   * A plain plan shows only the child; an explained plan puts the child one level
   * deeper than this node and, in XML, closes the element this node opened.
   */
  lemma PlanNesting(format: PlanFormat, level: nat, child: (PlanFormat, nat) -> string,
                    indent: (PlanFormat, nat) -> string, extras: string)
    ensures format == Plain ==> PlanText(format, level, child, indent, extras) == child(Plain, level)
    ensures format == ExplainLegacy ==>
      var t := PlanText(format, level, child, indent, extras);
      var head := indent(format, level + 1) + "Skip N Records";
      t[..|head|] == head && t[|head|..] == child(format, level + 1)
    ensures format == ExplainXml ==>
      var t := PlanText(format, level, child, indent, extras);
      var close := indent(format, level + 1) + "</Node>";
      |t| >= |close| && t[|t| - |close|..] == close
  {
    var t := PlanText(format, level, child, indent, extras);
    if format == ExplainLegacy {
      var head := indent(format, level + 1) + "Skip N Records";
      assert t == head + child(format, level + 1);
    } else if format == ExplainXml {
      var close := indent(format, level + 1) + "</Node>";
      var front := indent(ExplainXml, level + 1) + "<Node operation=\"Skip N Records\"" + extras + ">" +
        child(ExplainXml, level + 1);
      assert t == front + close;
    }
  }

  class SkipRowsStream {
    /** `m_next`, the child operator. */
    const next: InputStream
    /** Whether `m_value` is a literal, which decides the XML plan's `skipRows` attribute. */
    const valueIsLiteral: bool
    /** `irsb_flags & irsb_open` of the impure area. */
    var isOpen: bool
    /** `irsb_count`: one more than the rows still to be skipped. */
    var count: int

    ghost predicate Valid()
      reads this, next
    {
      next.Valid()
    }

    /** The impure area starts zeroed: closed, with a zero counter. */
    constructor (next: InputStream, valueIsLiteral: bool)
      requires next.Valid()
      ensures Valid() && this.next == next && this.valueIsLiteral == valueIsLiteral
      ensures !isOpen && count == 0
    {
      this.next := next;
      this.valueIsLiteral := valueIsLiteral;
      isOpen := false;
      count := 0;
    }

    /**
     * `open`: the stream is flagged open first; a negative skip value then raises
     * `isc_bad_skip_param` before the child is opened, and otherwise the counter is
     * the skip value plus one and the child is opened.
     */
    method Open(value: Option<Int128.Int64>) returns (r: Outcome<Status>)
      requires Valid()
      modifies this, next
      ensures Valid() && isOpen
      ensures SkipValue(value) < 0 ==>
        r == Fail(BadSkipParam) && count == old(count) && unchanged(next)
      ensures SkipValue(value) >= 0 ==>
        r == Pass && count == SkipValue(value) + 1 &&
        next.isOpen && next.pos == 0 && next.recordValid == old(next.recordValid) &&
        next.recursive == old(next.recursive)
    {
      isOpen := true;
      var v := SkipValue(value);
      if v < 0 {
        return Fail(BadSkipParam);
      }
      count := v + 1;
      next.Open();
      r := Pass;
    }

    /**
     * `close`: the child's records are invalidated; the child is closed only when
     * this stream was open, so a second `close` changes nothing more.
     */
    method Close()
      requires Valid()
      modifies this, next
      ensures Valid() && !isOpen && count == old(count)
      ensures !next.recordValid && next.pos == old(next.pos) && next.recursive == old(next.recursive)
      ensures next.isOpen == (old(next.isOpen) && !old(isOpen))
    {
      next.InvalidateRecords();
      if isOpen {
        isOpen := false;
        next.Close();
      }
    }

    /**
     * `getRecord`: on a closed stream, false without touching the child. Otherwise
     * the call discards `Discarded(count)` child rows and returns the next one, or
     * false as soon as the child runs out. After a row has been returned the counter
     * stays at or below zero, so later calls only pass through.
     */
    method GetRecord() returns (found: bool)
      requires Valid()
      modifies this, next
      ensures Valid() && isOpen == old(isOpen)
      ensures !old(isOpen) ==> !found && count == old(count) && unchanged(next)
      ensures old(isOpen) ==>
        var c, rem := old(count), old(next.Remaining());
        (found <==> Discarded(c) < rem) &&
        next.pos == old(next.pos) + (if found then Discarded(c) + 1 else rem) &&
        count == (if found then (if c > 1 then 0 else c - 1) else c - rem - 1) &&
        (found ==> count <= 0) &&
        next.recordValid == found && next.isOpen == old(next.isOpen) &&
        next.recursive == old(next.recursive)
    {
      if !isOpen {
        return false;
      }
      ghost var c, rem, p0 := count, next.Remaining(), next.pos;
      while count > 1
        invariant isOpen && next.Valid()
        invariant next.isOpen == old(next.isOpen) && next.recursive == old(next.recursive)
        invariant if c > 1 then 1 <= count <= c else count == c
        invariant c - count <= rem && next.pos == p0 + (c - count)
        invariant next.Remaining() == rem - (c - count)
        invariant c - count > 0 ==> next.recordValid
        invariant c - count == 0 ==> next.recordValid == old(next.recordValid)
        decreases count
      {
        count := count - 1;
        var got := next.GetRecord();
        if !got {
          return false;
        }
      }
      count := count - 1;
      found := next.GetRecord();
    }

    /**
     * `open` followed by two `getRecord` calls: a negative skip value fails and
     * nothing is read; otherwise the first call skips exactly `value` child rows and
     * returns the next one, whatever `value` is, and the second call skips nothing
     * and returns the row after it.
     */
    method OpenThenRead(value: Int128.Int64) returns (r: Outcome<Status>, first: bool, second: bool)
      requires Valid()
      modifies this, next
      ensures value < 0 ==> r == Fail(BadSkipParam) && !first && !second
      ensures value >= 0 ==> r == Pass
      ensures value >= 0 ==> (first <==> value < |next.rows|)
      ensures value >= 0 && first ==> (second <==> value + 1 < |next.rows|)
      ensures second ==> next.pos == value + 2 && next.recordValid
      ensures first && !second ==> next.pos == |next.rows| && !next.recordValid
    {
      r := Open(Some(value));
      if r != Pass {
        return r, false, false;
      }
      first := GetRecord();
      if !first {
        return r, false, false;
      }
      second := GetRecord();
    }

    /** `refetchRecord`: the child's answer. */
    method RefetchRecord() returns (b: bool)
      ensures b == next.refetchAnswer
    {
      b := next.RefetchRecord();
    }

    /** `lockRecord`: the child's answer. */
    method LockRecord() returns (b: bool)
      ensures b == next.lockAnswer
    {
      b := next.LockRecord();
    }

    /** `markRecursive`: passed on to the child. */
    method MarkRecursive()
      requires Valid()
      modifies next
      ensures Valid() && next.recursive
      ensures next.isOpen == old(next.isOpen) && next.pos == old(next.pos)
      ensures next.recordValid == old(next.recordValid)
    {
      next.MarkRecursive();
    }

    /**
     * `print`: the text appended to `plan`. The XML form carries a `skipRows`
     * attribute only when the skip value is a literal; `valueText` is that value
     * as the engine formats it.
     */
    method Print(plan: string, format: PlanFormat, level: nat, indent: (PlanFormat, nat) -> string,
                 valueText: string) returns (r: string)
      ensures r == plan + PlanText(format, level, next.plan, indent,
                                   if valueIsLiteral then " skipRows=\"" + valueText + "\"" else "")
    {
      r := plan;
      var lvl := level;
      var extras := "";
      match format {
        case Plain =>
        case ExplainLegacy =>
          lvl := lvl + 1;
          r := r + indent(format, lvl) + "Skip N Records";
        case ExplainXml =>
          if valueIsLiteral {
            extras := " skipRows=\"" + valueText + "\"";
          }
          lvl := lvl + 1;
          r := r + indent(format, lvl) + "<Node operation=\"Skip N Records\"" + extras + ">";
      }
      r := r + next.plan(format, lvl);
      if format == ExplainXml {
        r := r + indent(format, lvl) + "</Node>";
      }
    }
  }
}
