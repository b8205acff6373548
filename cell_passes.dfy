/**
 * The helpers that build a cell list: each pushes cells onto the caller's
 * list and records the slot indices it claims in the caller's set
 * (`rangeNumber`, `getDirtyCellsByIndex`, `getDirtyCellsByRange`,
 * `getNeatCells`), and the blocking test over a finished list
 * (`isBlocked`).
 */
module CellPasses {
  import opened TimeText
  import opened AppointmentTypes
  import opened SlotGrid

  /** The cell for the slot span `[s, e]`. */
  function SpanCell(s: int, e: int, status: CellStatus): Cell {
    Cell(s, s + 1, e + 2, status)
  }

  /** The slot indices `s..e`; empty when `e < s`. */
  function Span(s: int, e: int): (r: set<int>)
    ensures forall k :: k in r <==> s <= k <= e
    decreases e - s
  {
    if e < s then {} else Span(s, e - 1) + {e}
  }

  /** The cells pushed so far and the indices claimed so far. */
  datatype Pass = Pass(cells: seq<Cell>, claimed: set<int>)

  /** `getDirtyCellsByIndex` on values: one cell and its span, unless either index is -1. */
  function ByIndex(p: Pass, s: int, e: int, status: CellStatus): Pass {
    if s == -1 || e == -1 then p
    else Pass(p.cells + [SpanCell(s, e, status)], p.claimed + Span(s, e))
  }

  /** `getDirtyCellsByRange` on values: ByIndex for each range's slot span, in order. */
  function ByRange(p: Pass, times: seq<Time>, ranges: seq<TimeRange>, status: CellStatus): Pass
    decreases |ranges|
  {
    if |ranges| == 0 then p
    else
      var ix := TimeIndices(times, ranges[0]);
      ByRange(ByIndex(p, ix.startIndex, ix.endIndex, status), times, ranges[1..], status)
  }

  /** One idle cell for each index below `n` that is not claimed, in increasing order. */
  function IdleCells(n: nat, claimed: set<int>): seq<Cell> {
    if n == 0 then []
    else if n - 1 in claimed then IdleCells(n - 1, claimed)
    else IdleCells(n - 1, claimed) + [IdleCell(n - 1)]
  }

  /** `getNeatCells` on values. */
  function Neat(p: Pass, n: nat): Pass {
    Pass(p.cells + IdleCells(n, p.claimed), p.claimed)
  }

  /** Cell `c` marks slot `k` as taken by a status other than Idle. */
  predicate Claims(c: Cell, k: int) {
    c.status != Idle && c.index <= k <= c.rowEnd - 2
  }

  /**
   * Every cell pushed so far is a non-idle span cell, and the claimed set
   * is exactly the union of their spans.
   */
  ghost predicate Consistent(p: Pass) {
    && (forall c :: c in p.cells ==> c.status != Idle && c.rowStart == c.index + 1)
    && (forall k :: k in p.claimed <==> exists c :: c in p.cells && Claims(c, k))
  }

  /** Pushing a span cell keeps the claimed set equal to the union of the spans. */
  lemma ByIndexConsistent(p: Pass, s: int, e: int, status: CellStatus)
    requires Consistent(p) && status != Idle
    ensures Consistent(ByIndex(p, s, e, status))
  {
    if s != -1 && e != -1 {
      var q := ByIndex(p, s, e, status);
      var c := SpanCell(s, e, status);
      forall k ensures k in q.claimed <==> exists d :: d in q.cells && Claims(d, k) {
        if k in Span(s, e) {
          assert c in q.cells && Claims(c, k);
        }
        if k in p.claimed {
          var d :| d in p.cells && Claims(d, k);
          assert d in q.cells;
        }
        if exists d :: d in q.cells && Claims(d, k) {
          var d :| d in q.cells && Claims(d, k);
          if d != c {
            assert d in p.cells;
          }
        }
      }
    }
  }

  lemma {:induction false} ByRangeConsistent(p: Pass, times: seq<Time>, ranges: seq<TimeRange>, status: CellStatus)
    requires Consistent(p) && status != Idle
    ensures Consistent(ByRange(p, times, ranges, status))
    decreases |ranges|
  {
    if |ranges| > 0 {
      var ix := TimeIndices(times, ranges[0]);
      ByIndexConsistent(p, ix.startIndex, ix.endIndex, status);
      ByRangeConsistent(ByIndex(p, ix.startIndex, ix.endIndex, status), times, ranges[1..], status);
    }
  }

  /** The cell `getDirtyCellsByRange` pushes for one range, when its span is not `(-1, -1)`. */
  function RangeCell(times: seq<Time>, rng: TimeRange, status: CellStatus): Cell {
    var ix := TimeIndices(times, rng);
    SpanCell(ix.startIndex, ix.endIndex, status)
  }

  /** Some grid slot starts inside the range, so it gets a cell. */
  predicate Hits(times: seq<Time>, rng: TimeRange) {
    TimeIndices(times, rng).endIndex != -1
  }

  /** Range `rng` hits the grid and `c` is its cell. */
  predicate MakesCell(times: seq<Time>, rng: TimeRange, status: CellStatus, c: Cell) {
    Hits(times, rng) && c == RangeCell(times, rng, status)
  }

  /** Range `rng` hits the grid and index `i` lies in its span. */
  predicate SpanHas(times: seq<Time>, rng: TimeRange, i: int) {
    var ix := TimeIndices(times, rng);
    ix.endIndex != -1 && ix.startIndex <= i <= ix.endIndex
  }

  /** `c` is the cell of one of the ranges that hit the grid. */
  ghost predicate FromRanges(times: seq<Time>, ranges: seq<TimeRange>, status: CellStatus, c: Cell) {
    exists k :: 0 <= k < |ranges| && MakesCell(times, ranges[k], status, c)
  }

  /** Index `i` lies in the span of one of the ranges that hit the grid. */
  ghost predicate InRangeSpans(times: seq<Time>, ranges: seq<TimeRange>, i: int) {
    exists k :: 0 <= k < |ranges| && SpanHas(times, ranges[k], i)
  }

  /** Some entry of a non-empty sequence satisfies `P` exactly when its head or some entry of its tail does. */
  lemma SomeCons<T>(xs: seq<T>, P: T -> bool)
    requires |xs| > 0
    ensures (exists k :: 0 <= k < |xs| && P(xs[k])) <==> P(xs[0]) || exists k :: 0 <= k < |xs[1..]| && P(xs[1..][k])
  {
    var rest := xs[1..];
    if exists k :: 0 <= k < |xs| && P(xs[k]) {
      var k :| 0 <= k < |xs| && P(xs[k]);
      if k > 0 {
        assert rest[k - 1] == xs[k];
      }
    }
    if exists k :: 0 <= k < |rest| && P(rest[k]) {
      var k :| 0 <= k < |rest| && P(rest[k]);
      assert rest[k] == xs[k + 1];
    }
  }

  lemma FromRangesCons(times: seq<Time>, ranges: seq<TimeRange>, status: CellStatus, c: Cell)
    requires |ranges| > 0
    ensures FromRanges(times, ranges, status, c) <==>
      MakesCell(times, ranges[0], status, c) || FromRanges(times, ranges[1..], status, c)
  {
    SomeCons(ranges, r => MakesCell(times, r, status, c));
  }

  lemma InRangeSpansCons(times: seq<Time>, ranges: seq<TimeRange>, i: int)
    requires |ranges| > 0
    ensures InRangeSpans(times, ranges, i) <==> SpanHas(times, ranges[0], i) || InRangeSpans(times, ranges[1..], i)
  {
    SomeCons(ranges, r => SpanHas(times, r, i));
  }

  /** `getDirtyCellsByRange` adds the cell of each range that hits the grid, and no other cell. */
  lemma {:induction false} ByRangeCells(p: Pass, times: seq<Time>, ranges: seq<TimeRange>, status: CellStatus, c: Cell)
    ensures c in ByRange(p, times, ranges, status).cells <==> c in p.cells || FromRanges(times, ranges, status, c)
    decreases |ranges|
  {
    if |ranges| > 0 {
      var ix := TimeIndices(times, ranges[0]);
      ByRangeCells(ByIndex(p, ix.startIndex, ix.endIndex, status), times, ranges[1..], status, c);
      FromRangesCons(times, ranges, status, c);
    }
  }

  /** `getDirtyCellsByRange` claims the indices of each hitting range's span, and no other index. */
  lemma {:induction false} ByRangeClaims(p: Pass, times: seq<Time>, ranges: seq<TimeRange>, status: CellStatus, i: int)
    ensures i in ByRange(p, times, ranges, status).claimed <==> i in p.claimed || InRangeSpans(times, ranges, i)
    decreases |ranges|
  {
    if |ranges| > 0 {
      var ix := TimeIndices(times, ranges[0]);
      ByRangeClaims(ByIndex(p, ix.startIndex, ix.endIndex, status), times, ranges[1..], status, i);
      InRangeSpansCons(times, ranges, i);
    }
  }

  /** The cell for the single slot `i` with status Idle. */
  function IdleCell(i: int): Cell {
    SpanCell(i, i, Idle)
  }

  /** Every cell `getNeatCells` adds is the idle cell of an unclaimed index below `n`. */
  lemma {:induction false} IdleCellsMembers(n: nat, claimed: set<int>)
    ensures forall c :: c in IdleCells(n, claimed) ==>
      c == IdleCell(c.index) && 0 <= c.index < n && c.index !in claimed
  {
    if n > 0 {
      IdleCellsMembers(n - 1, claimed);
    }
  }

  /** `getNeatCells` adds an idle cell for index `i` exactly when `i` is an unclaimed index below `n`. */
  lemma {:induction false} IdleCellsIn(n: nat, claimed: set<int>, i: int)
    ensures IdleCell(i) in IdleCells(n, claimed) <==> 0 <= i < n && i !in claimed
  {
    if n > 0 {
      IdleCellsIn(n - 1, claimed, i);
    }
  }

  /** The cells' indices strictly increase along the list. */
  predicate IndexIncreasing(cells: seq<Cell>) {
    forall j, k :: 0 <= j < k < |cells| ==> cells[j].index < cells[k].index
  }

  /** `getNeatCells` adds its idle cells in increasing index order. */
  lemma {:induction false} IdleCellsIncreasing(n: nat, claimed: set<int>)
    ensures IndexIncreasing(IdleCells(n, claimed))
  {
    if n > 0 {
      var prev := IdleCells(n - 1, claimed);
      IdleCellsIncreasing(n - 1, claimed);
      if n - 1 !in claimed {
        IdleCellsMembers(n - 1, claimed);
        var s := prev + [IdleCell(n - 1)];
        forall j, k | 0 <= j < k < |s| ensures s[j].index < s[k].index {
          assert s[j] == prev[j] && prev[j] in prev;
          if k < |prev| {
            assert s[k] == prev[k];
          }
        }
      }
    }
  }

  /** `getNeatCells` adds the idle cell of index `i` once when `i` is an unclaimed index below `n`, and never otherwise. */
  lemma IdleCellsCount(n: nat, claimed: set<int>, i: int)
    ensures multiset(IdleCells(n, claimed))[IdleCell(i)] == if 0 <= i < n && i !in claimed then 1 else 0
  {
    var idle := IdleCells(n, claimed);
    IdleCellsIncreasing(n, claimed);
    assert forall j, k :: 0 <= j < k < |idle| ==> idle[j] != idle[k];
    IdleCellsIn(n, claimed, i);
    CountDistinct(idle, IdleCell(i));
  }

  /** Appending `x` adds one to its own count and leaves every other count alone. */
  lemma CountSnoc<T>(s: seq<T>, x: T, y: T)
    ensures multiset(s + [x])[y] == multiset(s)[y] + if x == y then 1 else 0
  {
    assert multiset(s + [x]) == multiset(s) + multiset{x};
  }

  /** In a sequence without repeats every value occurs once or not at all. */
  lemma {:induction false} CountDistinct<T>(s: seq<T>, x: T)
    requires forall j, k :: 0 <= j < k < |s| ==> s[j] != s[k]
    ensures multiset(s)[x] == if x in s then 1 else 0
  {
    if |s| > 0 {
      var init, last := s[..|s| - 1], s[|s| - 1];
      assert s == init + [last];
      CountDistinct(init, x);
      CountSnoc(init, last, x);
    }
  }

  /** Cell `c` sits at an index in `[lo, hi]` and is Occupied or Invalid. */
  predicate BlocksWithin(c: Cell, lo: int, hi: int) {
    lo <= c.index <= hi && (c.status == Occupied || c.status == Invalid)
  }

  /** Some cell whose index lies in `[lo, hi]` is Occupied or Invalid. */
  predicate Blocked(cells: seq<Cell>, lo: int, hi: int) {
    exists i :: 0 <= i < |cells| && BlocksWithin(cells[i], lo, hi)
  }

  /** `isBlocked`: scan the cells from the front, stopping at the first one that blocks `[lo, hi]`. */
  method IsBlocked(cells: seq<Cell>, lo: int, hi: int) returns (b: bool)
    ensures b == Blocked(cells, lo, hi)
  {
    var i := 0;
    while i < |cells|
      invariant 0 <= i <= |cells|
      invariant forall k :: 0 <= k < i ==> !BlocksWithin(cells[k], lo, hi)
    {
      var isWithin := lo <= cells[i].index && cells[i].index <= hi;
      var isBlockedStatus := cells[i].status == Occupied || cells[i].status == Invalid;
      if isWithin && isBlockedStatus {
        return true;
      }
      i := i + 1;
    }
    return false;
  }

  /** A wider window is blocked whenever a narrower one inside it is. */
  lemma BlockedWiden(cells: seq<Cell>, lo: int, hi: int, lo2: int, hi2: int)
    requires lo2 <= lo && hi <= hi2
    requires Blocked(cells, lo, hi)
    ensures Blocked(cells, lo2, hi2)
  {
    var i :| 0 <= i < |cells| && BlocksWithin(cells[i], lo, hi);
    assert BlocksWithin(cells[i], lo2, hi2);
  }

  /** The window `[lo, hi]` is blocked exactly when `[lo, mid]` or `[mid + 1, hi]` is. */
  lemma BlockedSplit(cells: seq<Cell>, lo: int, mid: int, hi: int)
    requires lo <= mid + 1 && mid <= hi
    ensures Blocked(cells, lo, hi) <==> Blocked(cells, lo, mid) || Blocked(cells, mid + 1, hi)
  {
    if Blocked(cells, lo, hi) {
      var i :| 0 <= i < |cells| && BlocksWithin(cells[i], lo, hi);
      if cells[i].index <= mid {
        assert BlocksWithin(cells[i], lo, mid);
      } else {
        assert BlocksWithin(cells[i], mid + 1, hi);
      }
    }
    if Blocked(cells, lo, mid) {
      BlockedWiden(cells, lo, mid, lo, hi);
    }
    if Blocked(cells, mid + 1, hi) {
      BlockedWiden(cells, mid + 1, hi, lo, hi);
    }
  }

  /**
   * The caller's cell list and index set, which the helpers below push to
   * and add to.
   */
  class CellSink {
    var cells: seq<Cell>
    var indices: set<int>

    constructor ()
      ensures cells == [] && indices == {}
    {
      cells := [];
      indices := {};
    }

    function State(): Pass
      reads this
    {
      Pass(cells, indices)
    }

    /** `rangeNumber`: add `s..e` to the index set (nothing when `e < s`). */
    method RangeNumber(s: int, e: int)
      modifies this`indices
      ensures indices == old(indices) + Span(s, e)
    {
      var k := 0;
      while k < e - s + 1
        invariant 0 <= k <= if e - s + 1 < 0 then 0 else e - s + 1
        invariant indices == old(indices) + Span(s, s + k - 1)
      {
        indices := indices + {s + k};
        k := k + 1;
      }
    }

    /** `getDirtyCellsByIndex`: push the span cell for `[s, e]` and claim its indices, unless either is -1. */
    method GetDirtyCellsByIndex(s: int, e: int, status: CellStatus)
      modifies this
      ensures State() == ByIndex(old(State()), s, e, status)
    {
      if s == -1 || e == -1 {
        return;
      }
      cells := cells + [SpanCell(s, e, status)];
      RangeNumber(s, e);
    }

    /** `getDirtyCellsByRange`: GetDirtyCellsByIndex for the slot span of each range, in order. */
    method GetDirtyCellsByRange(times: seq<Time>, ranges: seq<TimeRange>, status: CellStatus)
      modifies this
      ensures State() == ByRange(old(State()), times, ranges, status)
    {
      var i := 0;
      while i < |ranges|
        invariant 0 <= i <= |ranges|
        invariant ByRange(State(), times, ranges[i..], status) == ByRange(old(State()), times, ranges, status)
      {
        var ix := GetTimeIndices(times, ranges[i]);
        assert ranges[i..][1..] == ranges[i + 1..];
        GetDirtyCellsByIndex(ix.startIndex, ix.endIndex, status);
        i := i + 1;
      }
      assert ranges[i..] == [];
    }

    /** `getNeatCells`: push an idle cell for every grid index not in the set. */
    method GetNeatCells(times: seq<Time>)
      modifies this
      ensures State() == Neat(old(State()), |times|)
    {
      var i := 0;
      while i < |times|
        invariant 0 <= i <= |times|
        invariant indices == old(indices)
        invariant cells == old(cells) + IdleCells(i, indices)
      {
        if i !in indices {
          cells := cells + [Cell(i, i + 1, i + 2, Idle)];
        }
        i := i + 1;
      }
    }
  }
}
