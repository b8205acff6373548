/**
 * The slot grid of a day (`getTimes`) and the mapping of a time range onto
 * a span of grid indices (`getTimeIndices`).
 */
module SlotGrid {
  import opened TimeText
  import opened AppointmentTypes

  /** `ceil(a / b)` for a positive divisor. */
  function CeilDiv(a: nat, b: nat): nat
    requires b > 0
  {
    (a + b - 1) / b
  }


  /*
   * The grid and window reasoning is stated over any slot type `T` read
   * through a `key` (its minutes since midnight) and written by `show`;
   * the day's grid is the instance `T := Time`, `key := TimeToNumber`,
   * `show := NumberToTime`. The source's loops work on `Time` directly;
   * they are stated generically here so that their proofs see a time only
   * through its minute count and never unfold how the text is parsed,
   * which keeps them small enough for the verifier. `GetTimes` and
   * `GetTimeIndices` are the loops on `Time`.
   */

  /**
   * `xs` steps from `start` by `interval` under `key`, every entry strictly
   * before `end`.
   */
  predicate Steps<T>(xs: seq<T>, key: T -> nat, start: int, end: int, interval: int) {
    && (|xs| > 0 ==> key(xs[0]) == start)
    && (forall k :: 0 < k < |xs| ==> key(xs[k]) == key(xs[k - 1]) + interval)
    && (forall k :: 0 <= k < |xs| ==> key(xs[k]) < end)
  }

  /** Every entry is what `show` writes for its own key. */
  predicate Shown<T(==)>(xs: seq<T>, key: T -> nat, show: nat -> T) {
    forall k :: 0 <= k < |xs| ==> xs[k] == show(key(xs[k]))
  }

  /** The day's grid: slot times from `start` by `interval`, all before `end`. */
  predicate IsGrid(times: seq<Time>, start: int, end: int, interval: int) {
    Steps(times, TimeToNumber, start, end, interval)
  }

  /** Every entry is written in the canonical two-digit `HH:MM`-style form of its own minutes. */
  predicate IsCanonical(times: seq<Time>) {
    Shown(times, TimeToNumber, NumberToTime)
  }

  predicate StrictlyIncreasing(times: seq<Time>) {
    forall j, k :: 0 <= j < k < |times| ==> TimeToNumber(times[j]) < TimeToNumber(times[k])
  }

  lemma MulSucc(n: int, b: int)
    ensures (n + 1) * b == n * b + b
  {
  }

  lemma MulMonotone(x: int, y: int, b: int)
    requires x <= y && b > 0
    ensures x * b <= y * b
  {
    MulNonNegative(y - x, b);
    assert y * b - x * b == (y - x) * b;
  }

  lemma MulNonNegative(x: int, b: int)
    requires x >= 0 && b >= 0
    ensures x * b >= 0
  {
  }

  lemma CeilDivUnique(d: nat, b: nat, n: nat)
    requires b > 0
    requires n * b - b < d <= n * b
    ensures CeilDiv(d, b) == n
  {
    var q := (d + b - 1) / b;
    var r := (d + b - 1) % b;
    assert d + b - 1 == q * b + r && 0 <= r < b;
    if q <= n - 1 {
      MulMonotone(q, n - 1, b);
      MulSucc(n - 1, b);
    } else if q >= n + 1 {
      MulMonotone(n + 1, q, b);
      MulSucc(n, b);
    }
  }

  /**
   * The loop of `getTimes` for any `show` whose output `key` reads back:
   * what `show` writes for `start`, `start + interval`, ... while below `end`.
   */
  method StepFrom<T(==)>(start: nat, end: int, interval: int, key: T -> nat, show: nat -> T) returns (res: seq<T>)
    requires interval > 0 || start >= end
    requires forall n: nat :: key(show(n)) == n
    ensures Steps(res, key, start, end, interval)
    ensures Shown(res, key, show)
    ensures |res| == if start < end then CeilDiv(end - start, interval) else 0
    ensures end <= start + |res| * interval
  {
    res := [];
    var i: nat := start;
    while i < end
      invariant start <= i && i == start + |res| * interval
      invariant |res| > 0 ==> key(res[|res| - 1]) + interval == i
      invariant Steps(res, key, start, end, interval)
      invariant Shown(res, key, show)
      decreases end - i
    {
      MulSucc(|res|, interval);
      res := res + [show(i)];
      i := i + interval;
    }
    if start < end {
      assert |res| > 0;
      CeilDivUnique(end - start, interval, |res|);
    }
  }

  /**
   * `getTimes`: the slot grid from `startTime` up to, but not including,
   * `endTime`, one entry every `interval` minutes, each written in the
   * canonical form; the grid has `ceil((end - start) / interval)` entries and
   * reaches the end. The source's loop never ends when `interval <= 0` and
   * the day is not empty, so that is excluded.
   */
  method GetTimes(startTime: Time, endTime: Time, interval: int) returns (res: seq<Time>)
    requires interval > 0 || TimeToNumber(startTime) >= TimeToNumber(endTime)
    ensures IsGrid(res, TimeToNumber(startTime), TimeToNumber(endTime), interval)
    ensures IsCanonical(res)
    ensures var start, end := TimeToNumber(startTime), TimeToNumber(endTime);
      |res| == if start < end then CeilDiv(end - start, interval) else 0
    ensures TimeToNumber(endTime) <= TimeToNumber(startTime) + |res| * interval
  {
    TimeRoundTrips();
    res := StepFrom(TimeToNumber(startTime), TimeToNumber(endTime), interval, TimeToNumber, NumberToTime);
  }

  /** Entry `k` of a stepped sequence lies `k` intervals after the start. */
  lemma {:induction false} GridValues<T>(xs: seq<T>, key: T -> nat, start: int, end: int, interval: int, k: nat)
    requires Steps(xs, key, start, end, interval)
    requires k < |xs|
    ensures key(xs[k]) == start + k * interval
  {
    if k > 0 {
      GridValues(xs, key, start, end, interval, k - 1);
      MulSucc(k - 1, interval);
    }
  }

  /** With a positive interval the grid is strictly increasing. */
  lemma GridIncreasing(times: seq<Time>, start: int, end: int, interval: int)
    requires IsGrid(times, start, end, interval)
    requires interval > 0
    ensures StrictlyIncreasing(times)
  {
    forall j, k | 0 <= j < k < |times|
      ensures TimeToNumber(times[j]) < TimeToNumber(times[k])
    {
      GridValues(times, TimeToNumber, start, end, interval, j);
      GridValues(times, TimeToNumber, start, end, interval, k);
      MulMonotone(j + 1, k, interval);
      MulSucc(j, interval);
    }
  }

  /** A grid row other than the last is labelled exactly when its slot starts on the hour. */
  lemma ShowTimeOnGrid(times: seq<Time>, endTime: Time, index: nat)
    requires IsCanonical(times)
    requires index < |times| - 1
    ensures ShowTime(times, times[index], endTime, index) != "" <==> TimeToNumber(times[index]) % 60 == 0
    ensures ShowTime(times, times[index], endTime, index) != "" ==> ShowTime(times, times[index], endTime, index) == times[index]
  {
    OnTheHour(TimeToNumber(times[index]));
  }

  /**
   * The last row of a grid that reaches the day's end (as `GetTimes`
   * builds it) is labelled with the end time, and that is where the last
   * slot ends: after the last slot starts, and at most one interval later.
   */
  lemma ShowTimeLast(times: seq<Time>, start: int, endTime: Time, interval: int)
    requires IsGrid(times, start, TimeToNumber(endTime), interval)
    requires |times| > 0
    requires TimeToNumber(endTime) <= start + |times| * interval
    ensures var last := times[|times| - 1];
      && ShowTime(times, last, endTime, |times| - 1) == endTime
      && TimeToNumber(last) < TimeToNumber(endTime) <= TimeToNumber(last) + interval
  {
    GridValues(times, TimeToNumber, start, TimeToNumber(endTime), interval, |times| - 1);
    MulSucc(|times| - 1, interval);
  }

  /** Entry `x` has its key in the window `[lo, hi)`. */
  predicate Hit<T>(key: T -> nat, x: T, lo: int, hi: int) {
    lo <= key(x) < hi
  }

  /** The first index whose entry lies in `[lo, hi)`, or -1. */
  function FirstHit<T>(xs: seq<T>, key: T -> nat, lo: int, hi: int): (f: int)
    ensures -1 <= f < |xs|
    ensures f == -1 <==> forall k :: 0 <= k < |xs| ==> !Hit(key, xs[k], lo, hi)
    ensures f != -1 ==> Hit(key, xs[f], lo, hi) && forall k :: 0 <= k < f ==> !Hit(key, xs[k], lo, hi)
  {
    if |xs| == 0 then -1
    else if Hit(key, xs[0], lo, hi) then 0
    else
      var f := FirstHit(xs[1..], key, lo, hi);
      if f == -1 then -1 else f + 1
  }

  /** The last index whose entry lies in `[lo, hi)`, or -1. */
  function LastHit<T>(xs: seq<T>, key: T -> nat, lo: int, hi: int): (l: int)
    ensures -1 <= l < |xs|
    ensures l == -1 <==> forall k :: 0 <= k < |xs| ==> !Hit(key, xs[k], lo, hi)
    ensures l != -1 ==> Hit(key, xs[l], lo, hi) && forall k :: l < k < |xs| ==> !Hit(key, xs[k], lo, hi)
  {
    if |xs| == 0 then -1
    else if Hit(key, xs[|xs| - 1], lo, hi) then |xs| - 1
    else LastHit(xs[..|xs| - 1], key, lo, hi)
  }

  /** The loop of `getTimeIndices`: one pass recording the first and the last hit. */
  method ScanWindow<T>(xs: seq<T>, key: T -> nat, lo: int, hi: int) returns (first: int, last: int)
    ensures first == FirstHit(xs, key, lo, hi)
    ensures last == LastHit(xs, key, lo, hi)
  {
    first, last := -1, -1;
    var i := 0;
    while i < |xs|
      invariant 0 <= i <= |xs|
      invariant first == -1 <==> last == -1
      invariant first == -1 <==> forall k :: 0 <= k < i ==> !Hit(key, xs[k], lo, hi)
      invariant first != -1 ==>
        && 0 <= first <= last < i
        && Hit(key, xs[first], lo, hi)
        && Hit(key, xs[last], lo, hi)
        && (forall k :: 0 <= k < first ==> !Hit(key, xs[k], lo, hi))
        && (forall k :: last < k < i ==> !Hit(key, xs[k], lo, hi))
    {
      var cur := key(xs[i]);
      if lo <= cur && cur < hi {
        first := if first == -1 then i else first;
        last := i;
      }
      i := i + 1;
    }
  }

  /**
   * The slot span a range occupies: from the first slot starting inside the
   * range, pulled back one slot when the range starts part-way through the
   * slot before it, to the last slot starting inside the range; `(-1, -1)`
   * when no slot starts inside the range.
   */
  function TimeIndices(times: seq<Time>, rng: TimeRange): (r: Indices)
    ensures var lo, hi := TimeToNumber(rng.start), TimeToNumber(rng.end);
      && (r.startIndex == -1 <==> r.endIndex == -1)
      && (r.endIndex == -1 <==> forall k :: 0 <= k < |times| ==> !Hit(TimeToNumber, times[k], lo, hi))
      && (r.endIndex != -1 ==>
            && 0 <= r.startIndex <= r.endIndex < |times|
            && Hit(TimeToNumber, times[r.endIndex], lo, hi)
            && (forall k :: r.endIndex < k < |times| ==> !Hit(TimeToNumber, times[k], lo, hi)))
  {
    var lo, hi := TimeToNumber(rng.start), TimeToNumber(rng.end);
    var f, l := FirstHit(times, TimeToNumber, lo, hi), LastHit(times, TimeToNumber, lo, hi);
    if f != -1 && f > 0 && TimeToNumber(times[f]) > lo then Indices(f - 1, l) else Indices(f, l)
  }

  /**
   * The start index is the first slot starting inside the range, less one
   * exactly when that slot is not the first of the grid and starts after
   * the range does.
   */
  lemma TimeIndicesStart(times: seq<Time>, rng: TimeRange)
    ensures var lo, hi := TimeToNumber(rng.start), TimeToNumber(rng.end);
      var r, f := TimeIndices(times, rng), FirstHit(times, TimeToNumber, lo, hi);
      f != -1 ==>
        && Hit(TimeToNumber, times[f], lo, hi)
        && (forall k :: 0 <= k < f ==> !Hit(TimeToNumber, times[k], lo, hi))
        && (r.startIndex == f - 1 <==> f > 0 && TimeToNumber(times[f]) > lo)
        && (r.startIndex == f <==> !(f > 0 && TimeToNumber(times[f]) > lo))
  {
  }

  /**
   * On an increasing grid the span means what it is for: its first slot is
   * the one whose time contains the range's start (slot 0 when the range
   * starts before the grid), and its last slot is the last one that starts
   * before the range ends.
   */
  lemma TimeIndicesOnGrid(times: seq<Time>, rng: TimeRange)
    requires StrictlyIncreasing(times)
    ensures var lo, hi := TimeToNumber(rng.start), TimeToNumber(rng.end);
      var r := TimeIndices(times, rng);
      r.startIndex != -1 ==>
        && ((TimeToNumber(times[r.startIndex]) <= lo
              && (r.startIndex + 1 < |times| ==> lo < TimeToNumber(times[r.startIndex + 1])))
            || (r.startIndex == 0 && lo < TimeToNumber(times[0])))
        && TimeToNumber(times[r.endIndex]) < hi
        && (r.endIndex + 1 < |times| ==> hi <= TimeToNumber(times[r.endIndex + 1]))
  {
    var lo, hi := TimeToNumber(rng.start), TimeToNumber(rng.end);
    var r, f := TimeIndices(times, rng), FirstHit(times, TimeToNumber, lo, hi);
    if r.startIndex != -1 {
      var s, e := r.startIndex, r.endIndex;
      if e + 1 < |times| {
        assert !Hit(TimeToNumber, times[e + 1], lo, hi);
        assert TimeToNumber(times[e]) < TimeToNumber(times[e + 1]);
      }
      if s == f - 1 {
        assert !Hit(TimeToNumber, times[s], lo, hi);
        assert TimeToNumber(times[s]) < TimeToNumber(times[f]);
        assert TimeToNumber(times[f]) < hi;
      } else if f > 0 {
        assert TimeToNumber(times[f]) == lo;
      }
    }
  }

  /** `getTimeIndices`: the first and last hit of the range's window, then the pull-back. */
  method GetTimeIndices(times: seq<Time>, rng: TimeRange) returns (r: Indices)
    ensures r == TimeIndices(times, rng)
  {
    var start := TimeToNumber(rng.start);
    var end := TimeToNumber(rng.end);
    var startIndex, endIndex := ScanWindow(times, TimeToNumber, start, end);
    if startIndex != -1 && startIndex > 0 && TimeToNumber(times[startIndex]) > start {
      startIndex := startIndex - 1;
    }
    r := Indices(startIndex, endIndex);
  }
}
