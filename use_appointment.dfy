/**
 * The appointment controller: the derived list of grid cells (occupied,
 * then invalid, then the selection, then idle filler, sorted by index) and
 * the two-index selection with its transitions.
 */
module UseAppointment {
  import opened TimeText
  import opened AppointmentTypes
  import opened Sorting
  import opened SlotGrid
  import opened RangeMerge
  import opened CellPasses

  function IndexKey(c: Cell): int {
    c.index
  }

  /** The pass after the occupied ranges, the invalid ranges and the selection, before the idle filler. */
  function DirtyPass(times: seq<Time>, occupied: seq<TimeRange>, invalid: seq<TimeRange>, s: int, e: int): Pass {
    var afterOccupied := ByRange(Pass([], {}), times, occupied, Occupied);
    var afterInvalid := ByRange(afterOccupied, times, invalid, Invalid);
    ByIndex(afterInvalid, s, e, Selected)
  }

  /** The cells in the order the passes push them. */
  function PushedCells(times: seq<Time>, occupied: seq<TimeRange>, invalid: seq<TimeRange>, s: int, e: int): seq<Cell> {
    Neat(DirtyPass(times, occupied, invalid, s, e), |times|).cells
  }

  /** The `cells` list: the pushed cells, sorted by index. */
  function DeriveCells(times: seq<Time>, occupied: seq<TimeRange>, invalid: seq<TimeRange>, s: int, e: int): seq<Cell> {
    SortBy(PushedCells(times, occupied, invalid, s, e), IndexKey)
  }

  lemma DirtyPassConsistent(times: seq<Time>, occupied: seq<TimeRange>, invalid: seq<TimeRange>, s: int, e: int)
    ensures Consistent(DirtyPass(times, occupied, invalid, s, e))
  {
    var p0 := Pass([], {});
    ByRangeConsistent(p0, times, occupied, Occupied);
    var p1 := ByRange(p0, times, occupied, Occupied);
    ByRangeConsistent(p1, times, invalid, Invalid);
    ByIndexConsistent(ByRange(p1, times, invalid, Invalid), s, e, Selected);
  }

  /**
   * The cells are sorted by index, are a reordering of the cells the passes
   * pushed, and cells with equal index keep the order in which they were
   * pushed (occupied before invalid before selected).
   */
  lemma DeriveCellsOrder(times: seq<Time>, occupied: seq<TimeRange>, invalid: seq<TimeRange>, s: int, e: int)
    ensures var cells, pushed := DeriveCells(times, occupied, invalid, s, e), PushedCells(times, occupied, invalid, s, e);
      && SortedBy(cells, IndexKey)
      && multiset(cells) == multiset(pushed)
      && forall v :: WithKey(cells, IndexKey, v) == WithKey(pushed, IndexKey, v)
  {
    var pushed := PushedCells(times, occupied, invalid, s, e);
    SortBySorted(pushed, IndexKey);
    SortByPermutes(pushed, IndexKey);
    forall v ensures WithKey(SortBy(pushed, IndexKey), IndexKey, v) == WithKey(pushed, IndexKey, v) {
      SortByStable(pushed, IndexKey, v);
    }
  }

  /** A cell is in the list exactly when the passes pushed it. */
  lemma DeriveCellsMember(times: seq<Time>, occupied: seq<TimeRange>, invalid: seq<TimeRange>, s: int, e: int, c: Cell)
    ensures c in DeriveCells(times, occupied, invalid, s, e) <==> c in PushedCells(times, occupied, invalid, s, e)
  {
    var pushed := PushedCells(times, occupied, invalid, s, e);
    SortByPermutes(pushed, IndexKey);
    assert c in pushed <==> c in multiset(pushed);
  }

  /** Some cell of the list claims grid index `i`. */
  ghost predicate Claimed(cells: seq<Cell>, i: int) {
    exists c :: c in cells && Claims(c, i)
  }

  /** The index set after the dirty passes is exactly the set of indices some list cell claims. */
  lemma ClaimedIsDirty(times: seq<Time>, occupied: seq<TimeRange>, invalid: seq<TimeRange>, s: int, e: int, i: int)
    ensures i in DirtyPass(times, occupied, invalid, s, e).claimed <==> Claimed(DeriveCells(times, occupied, invalid, s, e), i)
  {
    var p := DirtyPass(times, occupied, invalid, s, e);
    var cells := DeriveCells(times, occupied, invalid, s, e);
    var n := |times|;
    DirtyPassConsistent(times, occupied, invalid, s, e);
    IdleCellsMembers(n, p.claimed);
    if i in p.claimed {
      var c :| c in p.cells && Claims(c, i);
      DeriveCellsMember(times, occupied, invalid, s, e, c);
    }
    if Claimed(cells, i) {
      var c :| c in cells && Claims(c, i);
      DeriveCellsMember(times, occupied, invalid, s, e, c);
      assert c in p.cells;
    }
  }

  /**
   * Completeness: each grid index is either claimed by an occupied,
   * invalid or selected cell, or has exactly one idle cell, and never both.
   */
  lemma DeriveCellsSlot(times: seq<Time>, occupied: seq<TimeRange>, invalid: seq<TimeRange>, s: int, e: int, i: int)
    requires 0 <= i < |times|
    ensures var cells := DeriveCells(times, occupied, invalid, s, e);
      multiset(cells)[IdleCell(i)] == if Claimed(cells, i) then 0 else 1
  {
    var p := DirtyPass(times, occupied, invalid, s, e);
    var pushed := PushedCells(times, occupied, invalid, s, e);
    var idle := IdleCells(|times|, p.claimed);
    DirtyPassConsistent(times, occupied, invalid, s, e);
    SortByPermutes(pushed, IndexKey);
    assert multiset(pushed) == multiset(p.cells) + multiset(idle);
    assert IdleCell(i) !in p.cells;
    IdleCellsCount(|times|, p.claimed, i);
    ClaimedIsDirty(times, occupied, invalid, s, e, i);
  }

  /**
   * Every cell starts its layout one row after its index and is never
   * Expired; every idle cell is the one-slot cell of a grid index that no
   * other cell claims.
   */
  lemma DeriveCellsShape(times: seq<Time>, occupied: seq<TimeRange>, invalid: seq<TimeRange>, s: int, e: int)
    ensures var cells := DeriveCells(times, occupied, invalid, s, e);
      forall c :: c in cells ==>
        && c.rowStart == c.index + 1
        && c.status != Expired
        && (c.status == Idle ==> c == IdleCell(c.index) && 0 <= c.index < |times| && !Claimed(cells, c.index))
  {
    var p := DirtyPass(times, occupied, invalid, s, e);
    var cells := DeriveCells(times, occupied, invalid, s, e);
    DirtyPassConsistent(times, occupied, invalid, s, e);
    IdleCellsMembers(|times|, p.claimed);
    forall c | c in cells
      ensures c.rowStart == c.index + 1 && c.status != Expired
      ensures c.status == Idle ==> c == IdleCell(c.index) && 0 <= c.index < |times| && !Claimed(cells, c.index)
    {
      DeriveCellsMember(times, occupied, invalid, s, e, c);
      assert c in p.cells || c in IdleCells(|times|, p.claimed);
      ClaimedIsDirty(times, occupied, invalid, s, e, c.index);
      if c in p.cells {
        DirtyStatus(times, occupied, invalid, s, e, c);
      }
    }
  }

  /** The dirty passes only push Occupied, Invalid and Selected cells. */
  lemma DirtyStatus(times: seq<Time>, occupied: seq<TimeRange>, invalid: seq<TimeRange>, s: int, e: int, c: Cell)
    requires c in DirtyPass(times, occupied, invalid, s, e).cells
    ensures c.status == Occupied || c.status == Invalid || c.status == Selected
  {
    DirtyCells(times, occupied, invalid, s, e, c);
  }

  /**
   * The cells other than the idle filler are exactly: the cell of each
   * occupied range that hits the grid, the cell of each invalid range that
   * hits the grid, and the selection's cell when both indices are set.
   */
  lemma DirtyCells(times: seq<Time>, occupied: seq<TimeRange>, invalid: seq<TimeRange>, s: int, e: int, c: Cell)
    ensures c in DirtyPass(times, occupied, invalid, s, e).cells <==>
      || FromRanges(times, occupied, Occupied, c)
      || FromRanges(times, invalid, Invalid, c)
      || (s != -1 && e != -1 && c == SpanCell(s, e, Selected))
  {
    var p0 := Pass([], {});
    var p1 := ByRange(p0, times, occupied, Occupied);
    ByRangeCells(p0, times, occupied, Occupied, c);
    ByRangeCells(p1, times, invalid, Invalid, c);
  }

  /** The list's cells other than the idle filler, characterised as in DirtyCells. */
  lemma DeriveCellsDirty(times: seq<Time>, occupied: seq<TimeRange>, invalid: seq<TimeRange>, s: int, e: int, c: Cell)
    ensures c in DeriveCells(times, occupied, invalid, s, e) && c.status != Idle <==>
      || FromRanges(times, occupied, Occupied, c)
      || FromRanges(times, invalid, Invalid, c)
      || (s != -1 && e != -1 && c == SpanCell(s, e, Selected))
  {
    var p := DirtyPass(times, occupied, invalid, s, e);
    DeriveCellsMember(times, occupied, invalid, s, e, c);
    IdleCellsMembers(|times|, p.claimed);
    DirtyCells(times, occupied, invalid, s, e, c);
    if c in p.cells {
      DirtyStatus(times, occupied, invalid, s, e, c);
    }
  }

  /** The selection both `doExpandTime` branches start from: an unset index stands for the clicked one. */
  function Anchor(sel: Indices, i: int): Indices {
    Indices(if sel.startIndex == -1 then i else sel.startIndex,
            if sel.endIndex == -1 then i else sel.endIndex)
  }

  /** The smallest span holding both the anchored selection and index `i`. */
  function Hull(a: Indices, i: int): Indices {
    Indices(if i < a.startIndex then i else a.startIndex, if i > a.endIndex then i else a.endIndex)
  }

  /**
   * `doExpandTime` on the selection: grow it to reach the clicked index `i`
   * unless a cell between the nearer end and `i` blocks, in which case start
   * again at `i` alone; a click inside the selection keeps it.
   */
  function Expand(sel: Indices, i: int, cells: seq<Cell>): (r: Indices)
    ensures sel.startIndex == -1 && sel.endIndex == -1 ==> r == Indices(i, i)
    ensures Anchor(sel, i).startIndex < i < Anchor(sel, i).endIndex ==> r == Anchor(sel, i)
  {
    var a := Anchor(sel, i);
    if i <= a.startIndex then
      if Blocked(cells, i, a.startIndex) then Indices(i, i) else Indices(i, a.endIndex)
    else if i >= a.endIndex then
      if Blocked(cells, a.endIndex, i) then Indices(i, i) else Indices(a.startIndex, i)
    else a
  }

  /**
   * From an ordered selection, the result is ordered and holds `i`; it is
   * either `i` alone or the hull of the selection and `i`, and it is the
   * hull whenever the hull is not blocked.
   */
  lemma ExpandHull(sel: Indices, i: int, cells: seq<Cell>)
    requires Anchor(sel, i).startIndex <= Anchor(sel, i).endIndex
    ensures var r, h := Expand(sel, i, cells), Hull(Anchor(sel, i), i);
      && r.startIndex <= i <= r.endIndex
      && (r == Indices(i, i) || r == h)
      && (!Blocked(cells, h.startIndex, h.endIndex) ==> r == h)
  {
    var a := Anchor(sel, i);
    var h := Hull(a, i);
    if i <= a.startIndex && Blocked(cells, i, a.startIndex) {
      BlockedWiden(cells, i, a.startIndex, h.startIndex, h.endIndex);
    } else if a.startIndex < i && a.endIndex <= i && Blocked(cells, a.endIndex, i) {
      BlockedWiden(cells, a.endIndex, i, h.startIndex, h.endIndex);
    }
  }

  /** Growing an unblocked selection gives an unblocked selection, unless it restarts at `i` alone. */
  lemma ExpandClear(sel: Indices, i: int, cells: seq<Cell>)
    requires var a := Anchor(sel, i); a.startIndex <= a.endIndex && !Blocked(cells, a.startIndex, a.endIndex)
    ensures var r := Expand(sel, i, cells); r == Indices(i, i) || !Blocked(cells, r.startIndex, r.endIndex)
  {
    var a := Anchor(sel, i);
    if i <= a.startIndex && !Blocked(cells, i, a.startIndex) {
      BlockedSplit(cells, i, a.startIndex - 1, a.endIndex);
      if Blocked(cells, i, a.startIndex - 1) {
        BlockedWiden(cells, i, a.startIndex - 1, i, a.startIndex);
      }
    } else if a.startIndex < i && a.endIndex <= i && !Blocked(cells, a.endIndex, i) {
      BlockedSplit(cells, a.startIndex, a.endIndex, i);
      if Blocked(cells, a.endIndex + 1, i) {
        BlockedWiden(cells, a.endIndex + 1, i, a.endIndex, i);
      }
    }
  }

  /** No selection, or an ordered span of grid indices. */
  predicate SelectionInGrid(sel: Indices, n: int) {
    (sel.startIndex == -1 && sel.endIndex == -1) || 0 <= sel.startIndex <= sel.endIndex < n
  }

  /** Clicking a grid index keeps the selection inside the grid and ordered. */
  lemma ExpandInGrid(sel: Indices, i: int, cells: seq<Cell>, n: int)
    requires SelectionInGrid(sel, n) && 0 <= i < n
    ensures var r := Expand(sel, i, cells); 0 <= r.startIndex <= i <= r.endIndex < n
  {
    ExpandHull(sel, i, cells);
  }

  /** `rawTimes[k]`, with the empty string for the `undefined` of an index off the grid. */
  function At(times: seq<Time>, k: int): string {
    if 0 <= k < |times| then times[k] else ""
  }

  /** The pair `updateSelectedTime` returns: the selection's first slot time and the time its last slot ends. */
  function SelectedTimes(times: seq<Time>, endTime: Time, s: int, e: int): seq<string> {
    [At(times, s), if e == |times| - 1 then endTime else At(times, e + 1)]
  }

  /**
   * On a grid, an in-grid selection `[s, e]` shows as the time of slot `s`
   * and the time slot `e` ends: the next slot's start, or the day's end for
   * the last slot. The two are non-empty, the start comes first, the end is
   * at most one interval after slot `e` starts, and the preview is shown.
   */
  lemma SelectedTimesOnGrid(times: seq<Time>, start: int, endTime: Time, interval: int, s: int, e: int)
    requires IsGrid(times, start, TimeToNumber(endTime), interval) && interval > 0
    requires TimeToNumber(endTime) <= start + |times| * interval
    requires 0 <= s <= e < |times|
    ensures var r := SelectedTimes(times, endTime, s, e);
      var until := if e == |times| - 1 then TimeToNumber(endTime) else TimeToNumber(times[e + 1]);
      && r[0] == times[s]
      && r[1] == (if e == |times| - 1 then endTime else times[e + 1])
      && TimeToNumber(times[s]) == start + s * interval
      && TimeToNumber(times[e]) < until <= start + (e + 1) * interval
      && TimeToNumber(times[s]) < until
      && PreviewSelectedTimes(r) != ""
  {
    GridValues(times, TimeToNumber, start, TimeToNumber(endTime), interval, s);
    GridValues(times, TimeToNumber, start, TimeToNumber(endTime), interval, e);
    MulSucc(e, interval);
    if e + 1 < |times| {
      GridValues(times, TimeToNumber, start, TimeToNumber(endTime), interval, e + 1);
    }
    GridIncreasing(times, start, TimeToNumber(endTime), interval);
    assert TimeToNumber(times[s]) <= TimeToNumber(times[e]);
    assert times[s] != "" by { assert IsTime(times[s]); }
    assert endTime != "" by { assert IsTime(endTime); }
    if e + 1 < |times| {
      assert times[e + 1] != "" by { assert IsTime(times[e + 1]); }
    }
  }

  /** The state `useAppointment` keeps for one grid: the derived inputs and the selection. */
  class Appointment {
    const times: seq<Time>
    const endTime: Time
    const occupiedRanges: seq<TimeRange>
    const invalidRanges: seq<TimeRange>
    var selectedStartIndex: int
    var selectedEndIndex: int

    /**
     * Builds the grid and the merged occupied ranges; the invalid ranges are
     * the merged `invalid` in View mode and `editInvalid` (what the Edit-mode
     * inference returns) in Edit mode. Nothing is selected.
     */
    constructor (mode: WorkMode, startTime: Time, endTime: Time, interval: int,
                 occupied: array<TimeRange>, invalid: array<TimeRange>, editInvalid: seq<TimeRange>)
      requires interval > 0 || TimeToNumber(startTime) >= TimeToNumber(endTime)
      modifies occupied, invalid
      ensures IsGrid(times, TimeToNumber(startTime), TimeToNumber(endTime), interval) && IsCanonical(times)
      ensures TimeToNumber(endTime) <= TimeToNumber(startTime) + |times| * interval
      ensures this.endTime == endTime
      ensures occupiedRanges == Merged(old(occupied[..]))
      ensures mode == Edit ==> invalidRanges == editInvalid && occupied[..] == MergedArray(old(occupied[..]))
      ensures mode == View && invalid != occupied ==>
        && invalidRanges == Merged(old(invalid[..]))
        && occupied[..] == MergedArray(old(occupied[..]))
        && invalid[..] == MergedArray(old(invalid[..]))
      ensures mode == View && invalid == occupied ==>
        && invalidRanges == Merged(MergedArray(old(occupied[..])))
        && occupied[..] == MergedArray(MergedArray(old(occupied[..])))
      ensures selectedStartIndex == -1 && selectedEndIndex == -1
    {
      var grid := GetTimes(startTime, endTime, interval);
      var occ := MergeRanges(occupied);
      var inv := editInvalid;
      if mode == View {
        inv := MergeRanges(invalid);
      }
      times := grid;
      this.endTime := endTime;
      occupiedRanges := occ;
      invalidRanges := inv;
      selectedStartIndex := -1;
      selectedEndIndex := -1;
    }

    /** `cells`: run the four passes on a fresh list and index set, then sort by index. */
    method Cells() returns (cells: seq<Cell>)
      ensures cells == DeriveCells(times, occupiedRanges, invalidRanges, selectedStartIndex, selectedEndIndex)
    {
      var sink := new CellSink();
      sink.GetDirtyCellsByRange(times, occupiedRanges, Occupied);
      sink.GetDirtyCellsByRange(times, invalidRanges, Invalid);
      sink.GetDirtyCellsByIndex(selectedStartIndex, selectedEndIndex, Selected);
      sink.GetNeatCells(times);
      cells := SortBy(sink.cells, IndexKey);
    }

    /** `updateSelectedIndex`: overwrite both indices. */
    method UpdateSelectedIndex(startIndex: int, endIndex: int)
      modifies this
      ensures selectedStartIndex == startIndex && selectedEndIndex == endIndex
    {
      selectedStartIndex := startIndex;
      selectedEndIndex := endIndex;
    }

    /** `updateSelectedTime`: store the indices and return the selection's start and end times. */
    method UpdateSelectedTime(startIndex: int, endIndex: int) returns (r: seq<string>)
      modifies this
      ensures selectedStartIndex == startIndex && selectedEndIndex == endIndex
      ensures r == SelectedTimes(times, endTime, startIndex, endIndex)
    {
      var startTime := At(times, startIndex);
      var endT := if endIndex == |times| - 1 then endTime else At(times, endIndex + 1);
      UpdateSelectedIndex(startIndex, endIndex);
      r := [startTime, endT];
    }

    /** `doExpandTime`: grow the selection towards the clicked cell, or restart there when blocked. */
    method DoExpandTime(cell: Cell) returns (r: seq<string>)
      modifies this
      ensures Indices(selectedStartIndex, selectedEndIndex)
           == Expand(Indices(old(selectedStartIndex), old(selectedEndIndex)), cell.index,
                     DeriveCells(times, occupiedRanges, invalidRanges, old(selectedStartIndex), old(selectedEndIndex)))
      ensures r == SelectedTimes(times, endTime, selectedStartIndex, selectedEndIndex)
    {
      var rawCells := Cells();
      var startIndex := if selectedStartIndex == -1 then cell.index else selectedStartIndex;
      var endIndex := if selectedEndIndex == -1 then cell.index else selectedEndIndex;
      if cell.index <= startIndex {
        var blocked := IsBlocked(rawCells, cell.index, startIndex);
        startIndex, endIndex := cell.index, if blocked then cell.index else endIndex;
      } else if cell.index >= endIndex {
        var blocked := IsBlocked(rawCells, endIndex, cell.index);
        startIndex, endIndex := if blocked then cell.index else startIndex, cell.index;
      }
      r := UpdateSelectedTime(startIndex, endIndex);
    }

    /** `doNarrowTime`: select the single slot `offset` away from the cell, with no blocking check. */
    method DoNarrowTime(cell: Cell, offset: int) returns (r: seq<string>)
      modifies this
      ensures selectedStartIndex == cell.index + offset && selectedEndIndex == cell.index + offset
      ensures r == SelectedTimes(times, endTime, cell.index + offset, cell.index + offset)
    {
      var index := cell.index + offset;
      r := UpdateSelectedTime(index, index);
    }
  }
}
