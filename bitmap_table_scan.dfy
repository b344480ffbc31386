/**
 * The scan driven by a bitmap of record ids (src/jrd/recsrc/BitmapTableScan.cpp):
 * the bitmap yields ids in ascending order, and `getRecord` skips the ids that do
 * not resolve to a record visible to the transaction.
 */
module BitmapTable {
  import opened Common
  import opened RecordSource

  predicate Increasing(ids: seq<int>) {
    forall i, j :: 0 <= i < j < |ids| ==> ids[i] < ids[j]
  }

  /** The ids of a record bitmap: distinct record numbers in ascending order. */
  predicate WellFormedBitmap(ids: seq<int>) {
    Increasing(ids) && forall i :: 0 <= i < |ids| ==> ids[i] >= 0
  }

  /** The index of the first id at or after `start` that resolves to a visible record. */
  function NextVisible(ids: seq<int>, visible: set<int>, start: nat): (r: Option<nat>)
    ensures r.Some? ==> start <= r.value < |ids| && ids[r.value] in visible
    ensures r.Some? ==> forall j :: start <= j < r.value ==> ids[j] !in visible
    ensures r.None? ==> forall j :: start <= j < |ids| ==> ids[j] !in visible
    decreases |ids| - start
  {
    if start >= |ids| then None
    else if ids[start] in visible then Some(start)
    else NextVisible(ids, visible, start + 1)
  }

  /** The visible ids of a sequence, in its order. */
  function VisibleIds(ids: seq<int>, visible: set<int>): seq<int> {
    if ids == [] then []
    else (if ids[0] in visible then [ids[0]] else []) + VisibleIds(ids[1..], visible)
  }

  /** The rows that successive `getRecord` calls return when the next id to look at is `start`. */
  function Yield(ids: seq<int>, visible: set<int>, start: nat): seq<int>
    decreases |ids| - start
  {
    match NextVisible(ids, visible, start)
    case None => []
    case Some(j) => [ids[j]] + Yield(ids, visible, j + 1)
  }

  /** A run from `start` returns exactly the visible ids from `start` on, in bitmap order. */
  lemma {:induction false} YieldIsVisible(ids: seq<int>, visible: set<int>, start: nat)
    requires start <= |ids|
    ensures Yield(ids, visible, start) == VisibleIds(ids[start..], visible)
    decreases |ids| - start
  {
    if start < |ids| {
      YieldIsVisible(ids, visible, start + 1);
      assert ids[start..][1..] == ids[start + 1..];
      if ids[start] !in visible {
        assert NextVisible(ids, visible, start) == NextVisible(ids, visible, start + 1);
        YieldSkipsInvisible(ids, visible, start);
      }
    }
  }

  lemma YieldSkipsInvisible(ids: seq<int>, visible: set<int>, start: nat)
    requires start < |ids| && ids[start] !in visible
    ensures Yield(ids, visible, start) == Yield(ids, visible, start + 1)
  {
  }

  /** The visible ids of an ascending sequence are ascending too, so no row comes twice, and they are exactly its visible members. */
  lemma VisibleIdsOrdered(ids: seq<int>, visible: set<int>)
    requires Increasing(ids)
    ensures Increasing(VisibleIds(ids, visible))
    ensures forall x :: x in VisibleIds(ids, visible) <==> x in ids && x in visible
  {
    VisibleIdsMembers(ids, visible);
    VisibleIdsIncreasing(ids, visible);
  }

  lemma {:induction false} VisibleIdsMembers(ids: seq<int>, visible: set<int>)
    ensures forall x :: x in VisibleIds(ids, visible) <==> x in ids && x in visible
  {
    if ids != [] {
      VisibleIdsMembers(ids[1..], visible);
      assert forall x :: x in ids <==> x == ids[0] || x in ids[1..];
    }
  }

  lemma {:induction false} VisibleIdsIncreasing(ids: seq<int>, visible: set<int>)
    requires Increasing(ids)
    ensures Increasing(VisibleIds(ids, visible))
  {
    if ids != [] {
      var rest := ids[1..];
      VisibleIdsIncreasing(rest, visible);
      if ids[0] in visible {
        var tail := VisibleIds(rest, visible);
        VisibleIdsMembers(rest, visible);
        forall k | 0 <= k < |tail|
          ensures ids[0] < tail[k]
        {
          assert tail[k] in tail;
          var m :| 0 <= m < |rest| && rest[m] == tail[k];
          assert ids[m + 1] == rest[m];
        }
        PrependIncreasing(ids[0], tail);
      }
    }
  }

  lemma PrependIncreasing(x: int, s: seq<int>)
    requires Increasing(s) && forall k :: 0 <= k < |s| ==> x < s[k]
    ensures Increasing([x] + s)
  {
    var t := [x] + s;
    forall i, j | 0 <= i < j < |t|
      ensures t[i] < t[j]
    {
      assert t[j] == s[j - 1];
      if i > 0 {
        assert t[i] == s[i - 1];
      }
    }
  }

  /** The plain-format plan: the alias, INDEX and the inversion in parentheses, wrapped again at the top level only. */
  function PlainPlan(level: nat, name: string, indices: string): string {
    (if level == 0 then "(" else "") + name + " INDEX (" + indices + ")" + (if level == 0 then ")" else "")
  }

  /** The top-level plan is the nested one wrapped in parentheses. */
  lemma PlainPlanNesting(name: string, indices: string, level: nat)
    requires level > 0
    ensures PlainPlan(0, name, indices) == "(" + PlainPlan(level, name, indices) + ")"
  {
  }

  class BitmapTableScan {
    /** The record numbers `VIO_get` finds visible. */
    const visible: set<int>
    /** `rpb_number` of this stream's record parameter block. */
    const number: RecordNumber
    /** `m_recursive`. */
    var recursive: bool
    /** `irsb_flags & irsb_open`. */
    var isOpen: bool
    /** The bitmap `irsb_bitmap` points to, as its ids; None when there is none. */
    var bitmap: Option<seq<int>>
    /** The bitmap's iteration position: the index of `current()`, -1 before `getFirst`. */
    var cursor: int

    ghost predicate Valid()
      reads this
    {
      bitmap.Some? ==> WellFormedBitmap(bitmap.value) && -1 <= cursor < |bitmap.value|
    }

    constructor (visible: set<int>, number: RecordNumber)
      ensures Valid() && this.visible == visible && this.number == number
      ensures !recursive && !isOpen && bitmap == None
    {
      this.visible := visible;
      this.number := number;
      recursive := false;
      isOpen := false;
      bitmap := None;
      cursor := -1;
    }

    /** `open`: flagged open, the bitmap the inversion evaluates to, positioned before the first record. */
    method Open(evaluated: Option<seq<int>>)
      requires evaluated.Some? ==> WellFormedBitmap(evaluated.value)
      modifies this, number
      ensures Valid() && isOpen && bitmap == evaluated && cursor == -1 && recursive == old(recursive)
      ensures number.value == BofNumber && number.valid == old(number.valid)
    {
      isOpen := true;
      bitmap := evaluated;
      cursor := -1;
      number.SetValue(BofNumber);
    }

    /**
     * `close`: the record is invalidated and the flag cleared; only a recursive
     * scan that was open releases its bitmap, so a second call changes nothing more.
     */
    method Close()
      requires Valid()
      modifies this, number
      ensures Valid() && !isOpen && !number.valid && number.value == old(number.value)
      ensures bitmap == if old(isOpen) && recursive then None else old(bitmap)
      ensures recursive == old(recursive) && cursor == old(cursor)
    {
      number.SetValid(false);
      if isOpen {
        isOpen := false;
        if recursive {
          bitmap := None;
        }
      }
    }

    /** `markRecursive`. */
    method MarkRecursive()
      modifies this
      ensures recursive && isOpen == old(isOpen) && bitmap == old(bitmap) && cursor == old(cursor)
    {
      recursive := true;
    }

    /** `getFirst` of the bitmap. */
    method GetFirst() returns (more: bool)
      requires Valid() && bitmap.Some?
      modifies this
      ensures Valid() && bitmap == old(bitmap) && isOpen == old(isOpen) && recursive == old(recursive)
      ensures more == (|bitmap.value| > 0)
      ensures cursor == if more then 0 else old(cursor)
    {
      more := |bitmap.value| > 0;
      if more {
        cursor := 0;
      }
    }

    /** `getNext` of the bitmap. */
    method GetNext() returns (more: bool)
      requires Valid() && bitmap.Some?
      modifies this
      ensures Valid() && bitmap == old(bitmap) && isOpen == old(isOpen) && recursive == old(recursive)
      ensures more == (old(cursor) + 1 < |bitmap.value|)
      ensures cursor == if more then old(cursor) + 1 else old(cursor)
    {
      more := cursor + 1 < |bitmap.value|;
      if more {
        cursor := cursor + 1;
      }
    }

    /**
     * `getRecord`: false with an invalid position when the scan is closed or has no
     * bitmap. Otherwise it starts with the first id when positioned before the first
     * record and with the next id otherwise, skips the ids that are not visible, and
     * returns the first visible one with a valid position, or false with an invalid
     * position once the bitmap is exhausted.
     */
    method GetRecord() returns (found: bool)
      requires Valid()
      modifies this, number
      ensures Valid() && isOpen == old(isOpen) && bitmap == old(bitmap) && recursive == old(recursive)
      ensures !isOpen || bitmap.None? ==>
        !found && !number.valid && number.value == old(number.value) && cursor == old(cursor)
      ensures isOpen && bitmap.Some? ==>
        var ids := bitmap.value;
        var start := if old(number.value) == BofNumber then 0 else old(cursor) + 1;
        match NextVisible(ids, visible, start)
        case Some(j) => found && cursor == j && number.value == ids[j] && number.valid
        case None =>
          !found && !number.valid &&
          (start < |ids| ==> cursor == |ids| - 1 && number.value == ids[|ids| - 1]) &&
          (start >= |ids| ==> cursor == old(cursor) && number.value == old(number.value))
    {
      if !isOpen || bitmap.None? {
        number.SetValid(false);
        return false;
      }
      var ids := bitmap.value;
      ghost var start := if number.value == BofNumber then 0 else cursor + 1;
      var more;
      if number.IsBof() {
        more := GetFirst();
      } else {
        more := GetNext();
      }
      if more {
        while true
          invariant Valid() && isOpen && bitmap == Some(ids) && recursive == old(recursive)
          invariant start <= cursor < |ids|
          invariant forall j :: start <= j < cursor ==> ids[j] !in visible
          decreases |ids| - cursor
        {
          number.SetValue(ids[cursor]);
          if ids[cursor] in visible {
            number.SetValid(true);
            return true;
          }
          more := GetNext();
          if !more {
            break;
          }
        }
      }
      number.SetValid(false);
      return false;
    }

    /**
     * `open` with the evaluated bitmap, then `getRecord` until it answers false,
     * collecting the record number of every row: the rows are exactly the bitmap's
     * visible ids, ascending, and none without a bitmap.
     */
    method ScanAll(evaluated: Option<seq<int>>) returns (rows: seq<int>)
      requires evaluated.Some? ==> WellFormedBitmap(evaluated.value)
      modifies this, number
      ensures evaluated.None? ==> rows == []
      ensures evaluated.Some? ==> rows == Yield(evaluated.value, visible, 0)
      ensures evaluated.Some? ==> rows == VisibleIds(evaluated.value, visible) && Increasing(rows)
      ensures isOpen && !number.valid
    {
      Open(evaluated);
      rows := [];
      if evaluated.None? {
        var found := GetRecord();
        return;
      }
      var ids := evaluated.value;
      while true
        invariant Valid() && isOpen && bitmap == Some(ids)
        invariant (number.value == BofNumber) == (cursor == -1)
        invariant rows + Yield(ids, visible, cursor + 1) == Yield(ids, visible, 0)
        decreases |ids| - cursor
      {
        var found := GetRecord();
        if !found {
          break;
        }
        rows := rows + [number.value];
      }
      YieldIsVisible(ids, visible, 0);
      assert ids[0..] == ids;
      VisibleIdsOrdered(ids, visible);
    }

    /** `print` in the plain format; `name` is the alias and `indices` the inversion as the engine writes them. */
    method PrintPlain(plan: string, level: nat, name: string, indices: string) returns (r: string)
      ensures r == plan + PlainPlan(level, name, indices)
    {
      r := plan;
      if level == 0 {
        r := r + "(";
      }
      r := r + name + " INDEX (";
      r := r + indices + ")";
      if level == 0 {
        r := r + ")";
      }
    }
  }
}
