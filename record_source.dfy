/**
 * What the record-source operators share: the status errors they raise, the plan
 * formats they print in, the record number each stream keeps in its record
 * parameter block, and an input stream that stands in for the child operator a
 * filter reads from.
 */
module RecordSource {

  /** The status codes the modelled operators raise. */
  datatype Status = BadSkipParam | RecordLockNotSupported

  /** `isc_info_sql_plan_format_plain`, `_explain_legacy` and `_explain_xml`. */
  datatype PlanFormat = Plain | ExplainLegacy | ExplainXml

  /** `BOF_NUMBER`: the position before the first record of a stream. */
  const BofNumber: int := -1

  /**
   * `rpb_number` of a stream's record parameter block: a position and a flag
   * that says whether a record is currently there.
   */
  class RecordNumber {
    var value: int
    var valid: bool

    constructor (value: int, valid: bool)
      ensures this.value == value && this.valid == valid
    {
      this.value := value;
      this.valid := valid;
    }

    predicate IsBof()
      reads this
    {
      value == BofNumber
    }

    /** `setValue`: moves the position; the validity flag is left as it was. */
    method SetValue(v: int)
      modifies this
      ensures value == v && valid == old(valid)
    {
      value := v;
    }

    method SetValid(b: bool)
      modifies this
      ensures valid == b && value == old(value)
    {
      valid := b;
    }

    /** `increment`: the next position. */
    method Increment()
      modifies this
      ensures value == old(value) + 1 && valid == old(valid)
    {
      value := value + 1;
    }
  }

  /**
   * The child operator of a filter: it yields the rows of `rows` in order while
   * it is open, and answers refetch and lock requests with fixed answers. The
   * rows it has already handed out are `rows[..pos]`.
   */
  class InputStream {
    const rows: seq<int>
    const refetchAnswer: bool
    const lockAnswer: bool
    const plan: (PlanFormat, nat) -> string
    var isOpen: bool
    var pos: nat
    var recordValid: bool
    var recursive: bool

    ghost predicate Valid()
      reads this
    {
      pos <= |rows|
    }

    /** How many rows a `getRecord` loop can still obtain. */
    ghost function Remaining(): nat
      reads this
      requires Valid()
    {
      if isOpen then |rows| - pos else 0
    }

    constructor (rows: seq<int>, refetchAnswer: bool, lockAnswer: bool, plan: (PlanFormat, nat) -> string)
      ensures Valid() && !isOpen && pos == 0 && !recordValid && !recursive
      ensures this.rows == rows && this.refetchAnswer == refetchAnswer
      ensures this.lockAnswer == lockAnswer && this.plan == plan
    {
      this.rows := rows;
      this.refetchAnswer := refetchAnswer;
      this.lockAnswer := lockAnswer;
      this.plan := plan;
      isOpen := false;
      pos := 0;
      recordValid := false;
      recursive := false;
    }

    method Open()
      modifies this
      ensures Valid() && isOpen && pos == 0
      ensures recordValid == old(recordValid) && recursive == old(recursive)
    {
      isOpen := true;
      pos := 0;
    }

    method Close()
      modifies this
      ensures !isOpen && pos == old(pos)
      ensures recordValid == old(recordValid) && recursive == old(recursive)
    {
      isOpen := false;
    }

    /** The next row while the stream is open and not exhausted; false otherwise. */
    method GetRecord() returns (found: bool)
      requires Valid()
      modifies this
      ensures Valid() && isOpen == old(isOpen) && recursive == old(recursive)
      ensures found <==> old(Remaining()) > 0
      ensures pos == if found then old(pos) + 1 else old(pos)
      ensures recordValid == found
      ensures Remaining() == if found then old(Remaining()) - 1 else 0
    {
      found := isOpen && pos < |rows|;
      if found {
        pos := pos + 1;
      }
      recordValid := found;
    }

    method RefetchRecord() returns (b: bool)
      ensures b == refetchAnswer
    {
      b := refetchAnswer;
    }

    method LockRecord() returns (b: bool)
      ensures b == lockAnswer
    {
      b := lockAnswer;
    }

    method InvalidateRecords()
      modifies this
      ensures !recordValid
      ensures isOpen == old(isOpen) && pos == old(pos) && recursive == old(recursive)
    {
      recordValid := false;
    }

    method MarkRecursive()
      modifies this
      ensures recursive
      ensures isOpen == old(isOpen) && pos == old(pos) && recordValid == old(recordValid)
    {
      recursive := true;
    }
  }
}
