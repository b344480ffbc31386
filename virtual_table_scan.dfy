/**
 * The scan of a virtual (monitoring) table (src/jrd/recsrc/VirtualTableScan.cpp):
 * every `getRecord` moves the record number one place up and asks the table for
 * the record there, so a run stops at the first number the table cannot supply.
 */
module VirtualTable {
  import opened Common
  import opened RecordSource

  /** What `n` successive `getRecord` calls on an open scan return, starting with the record number at `from`. */
  function Outcomes(retrievable: set<int>, from: int, n: nat): (r: seq<bool>)
    ensures |r| == n
    decreases n
  {
    if n == 0 then [] else [from + 1 in retrievable] + Outcomes(retrievable, from + 1, n - 1)
  }

  /**
   * When the numbers after `from` up to `from + k` can be retrieved and the next
   * one cannot, the scan returns exactly `k` rows before its first false.
   */
  lemma {:induction false} RunStopsAtFirstMiss(retrievable: set<int>, from: int, k: nat)
    requires forall i :: from < i <= from + k ==> i in retrievable
    requires from + k + 1 !in retrievable
    ensures Outcomes(retrievable, from, k + 1) == seq(k, _ => true) + [false]
    decreases k
  {
    if k > 0 {
      RunStopsAtFirstMiss(retrievable, from + 1, k - 1);
      assert seq(k, _ => true) == [true] + seq(k - 1, _ => true);
    }
  }

  /** From the position before the first record, a table with records 0 to k-1 yields exactly k rows. */
  lemma ScanFromBof(retrievable: set<int>, k: nat)
    requires forall i :: 0 <= i < k ==> i in retrievable
    requires k !in retrievable
    ensures Outcomes(retrievable, BofNumber, k + 1) == seq(k, _ => true) + [false]
  {
    RunStopsAtFirstMiss(retrievable, BofNumber, k);
  }

  /** The plain-format plan: the table's name and NATURAL, in parentheses at the top level only. */
  function PlainPlan(level: nat, name: string): string {
    (if level == 0 then "(" else "") + name + " NATURAL" + (if level == 0 then ")" else "")
  }

  /** The top-level plan is the nested one wrapped in parentheses. */
  lemma PlainPlanNesting(name: string, level: nat)
    requires level > 0
    ensures PlainPlan(0, name) == "(" + PlainPlan(level, name) + ")"
    ensures PlainPlan(level, name) == name + " NATURAL"
  {
  }

  class VirtualTableScan {
    /** The record numbers `retrieveRecord` can supply. */
    const retrievable: set<int>
    /** `rpb_number` of this stream's record parameter block. */
    const number: RecordNumber
    /** `irsb_flags & irsb_open`. */
    var isOpen: bool

    constructor (retrievable: set<int>, number: RecordNumber)
      ensures this.retrievable == retrievable && this.number == number && !isOpen
    {
      this.retrievable := retrievable;
      this.number := number;
      isOpen := false;
    }

    /** `open`: flagged open, positioned before the first record. */
    method Open()
      modifies this, number
      ensures isOpen && number.value == BofNumber && number.valid == old(number.valid)
    {
      isOpen := true;
      number.SetValue(BofNumber);
    }

    /** `close`: the record is invalidated and the flag cleared; a second call changes nothing more. */
    method Close()
      modifies this, number
      ensures !isOpen && !number.valid && number.value == old(number.value)
    {
      number.SetValid(false);
      if isOpen {
        isOpen := false;
      }
    }

    /**
     * `getRecord`: on a closed scan the position is marked invalid and the call
     * returns false. Otherwise the number moves up by one, and the call returns
     * whether the table supplies a record there, marking the position valid or not.
     */
    method GetRecord() returns (found: bool)
      modifies number
      ensures !isOpen ==> !found && !number.valid && number.value == old(number.value)
      ensures isOpen ==>
        number.value == old(number.value) + 1 &&
        [found] == Outcomes(retrievable, old(number.value), 1) &&
        number.valid == found
    {
      if !isOpen {
        number.SetValid(false);
        return false;
      }
      number.Increment();
      if number.value in retrievable {
        number.SetValid(true);
        return true;
      }
      number.SetValid(false);
      return false;
    }

    /**
     * `open`, then `getRecord` until it answers false, collecting the record number
     * of every row: a table with records 0 to k-1 and none at k yields exactly those
     * k numbers, in order, and the scan is left at k with an invalid record.
     */
    method ScanAll(k: nat) returns (rows: seq<int>)
      requires forall i :: 0 <= i < k ==> i in retrievable
      requires k !in retrievable
      modifies this, number
      ensures |rows| == k && forall i :: 0 <= i < k ==> rows[i] == i
      ensures isOpen && number.value == k && !number.valid
    {
      Open();
      rows := [];
      while true
        invariant isOpen && number.value == |rows| - 1 <= k - 1
        invariant forall i :: 0 <= i < |rows| ==> rows[i] == i
        decreases k - number.value
      {
        ghost var before := number.value;
        var found := GetRecord();
        assert Outcomes(retrievable, before, 1) == [before + 1 in retrievable];
        if !found {
          break;
        }
        rows := rows + [number.value];
      }
    }

    /** `refetchRecord`: always succeeds. */
    method RefetchRecord() returns (b: bool)
      ensures b
    {
      b := true;
    }

    /** `lockRecord`: always raises `isc_record_lock_not_supp`. */
    method LockRecord() returns (r: Outcome<Status>)
      ensures r == Fail(RecordLockNotSupported)
    {
      r := Fail(RecordLockNotSupported);
    }

    /** `print` in the plain format; `name` is the alias as `printName` writes it. */
    method PrintPlain(plan: string, level: nat, name: string) returns (r: string)
      ensures r == plan + PlainPlan(level, name)
    {
      r := plan;
      if level == 0 {
        r := r + "(";
      }
      r := r + name + " NATURAL";
      if level == 0 {
        r := r + ")";
      }
    }
  }
}
