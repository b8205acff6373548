/**
 * `mergeRanges`: sort time ranges by start, then fold each range into the
 * last merged one when it starts no later than that one ends, writing the
 * extended end through to the caller's array.
 *
 * The fold only looks at a range through its start and end minutes and only
 * builds ranges by joining the start of one with the end of another, so it
 * is defined once over any range representation `R` with those three
 * operations (`Keys`), and used with `TimeRange` through `Minutes`. The
 * source's fold works on time ranges directly; the generic statement keeps
 * the fold's proofs from unfolding how a time's text is parsed, which keeps
 * them small enough for the verifier. `Merged` and `MergeRanges` are the
 * fold on `TimeRange`.
 */
module RangeMerge {
  import opened TimeText
  import opened AppointmentTypes
  import opened Sorting

  /** A range's start and end minutes, and the range from one's start to another's end. */
  datatype Keys<!R> = Keys(start: R -> int, end: R -> int, join: (R, R) -> R)

  /**
   * A join starts where its first range starts and ends where its second
   * ends, and joining only ever keeps the outermost start and end.
   */
  ghost predicate Lawful<R(!new)>(k: Keys<R>) {
    && (forall a, b :: k.start(k.join(a, b)) == k.start(a))
    && (forall a, b :: k.end(k.join(a, b)) == k.end(b))
    && (forall a, b, c :: k.join(k.join(a, b), c) == k.join(a, c))
    && (forall a, b, c :: k.join(a, k.join(b, c)) == k.join(a, c))
  }

  /** Minute `m` lies in the half-open range `[start, end)`. */
  predicate Contains<R>(r: R, m: int, k: Keys<R>) {
    k.start(r) <= m < k.end(r)
  }

  /** Minute `m` lies in one of the ranges. */
  ghost predicate Covers<R>(rs: seq<R>, m: int, k: Keys<R>) {
    exists j :: 0 <= j < |rs| && Contains(rs[j], m, k)
  }

  /** Each range starts strictly after the one before it ends. */
  predicate Separated<R>(rs: seq<R>, k: Keys<R>) {
    forall j :: 0 < j < |rs| ==> k.end(rs[j - 1]) < k.start(rs[j])
  }

  /** One step of the fold: extend or keep the last merged range, or start a new one. */
  function Absorb<R>(res: seq<R>, r: R, k: Keys<R>): seq<R>
    requires |res| > 0
  {
    var n := |res| - 1;
    if k.start(r) <= k.end(res[n]) then
      if k.end(r) > k.end(res[n]) then res[n := k.join(res[n], r)] else res
    else res + [r]
  }

  /** The fold over ranges already sorted by start. */
  function FoldMerge<R>(sorted: seq<R>, k: Keys<R>): (res: seq<R>)
    requires |sorted| > 0
    ensures 0 < |res| <= |sorted|
  {
    if |sorted| == 1 then [sorted[0]]
    else Absorb(FoldMerge(sorted[..|sorted| - 1], k), sorted[|sorted| - 1], k)
  }

  /** One fold step keeps every start, and adds at most `r`'s start at the end. */
  lemma AbsorbStarts<R(!new)>(res: seq<R>, r: R, k: Keys<R>)
    requires |res| > 0 && Lawful(k)
    ensures var out := Absorb(res, r, k);
      && |res| <= |out| <= |res| + 1
      && (forall j :: 0 <= j < |res| ==> k.start(out[j]) == k.start(res[j]))
      && (|out| == |res| + 1 ==> out[|res|] == r && k.end(res[|res| - 1]) < k.start(r))
      && (forall j :: 0 <= j < |res| - 1 ==> out[j] == res[j])
      && k.end(res[|res| - 1]) <= k.end(out[|res| - 1])
  {
  }

  /** One fold step keeps the merged list sorted and separated, every start no later than `r`'s. */
  lemma AbsorbKeepsOrder<R(!new)>(res: seq<R>, r: R, k: Keys<R>)
    requires |res| > 0 && Lawful(k)
    requires SortedBy(res, k.start) && Separated(res, k)
    requires forall j :: 0 <= j < |res| ==> k.start(res[j]) <= k.start(r)
    ensures var out := Absorb(res, r, k);
      && SortedBy(out, k.start) && Separated(out, k)
      && (forall j :: 0 <= j < |out| ==> k.start(out[j]) <= k.start(r))
  {
    var out := Absorb(res, r, k);
    AbsorbStarts(res, r, k);
    forall i, j | 0 <= i < j < |out| ensures k.start(out[i]) <= k.start(out[j]) {
      if j < |res| {
        assert k.start(res[i]) <= k.start(res[j]);
      }
    }
    forall j | 0 < j < |out| ensures k.end(out[j - 1]) < k.start(out[j]) {
      if j < |res| {
        assert k.end(res[j - 1]) < k.start(res[j]);
      }
    }
  }

  /** One fold step covers the minutes covered before plus those of `r`. */
  lemma AbsorbCovers<R(!new)>(res: seq<R>, r: R, m: int, k: Keys<R>)
    requires |res| > 0 && Lawful(k)
    requires k.start(res[|res| - 1]) <= k.start(r)
    ensures Covers(Absorb(res, r, k), m, k) <==> Covers(res, m, k) || Contains(r, m, k)
  {
    var n := |res| - 1;
    if k.start(r) > k.end(res[n]) {
      CoversSnoc(res, r, m, k);
    } else if k.end(r) > k.end(res[n]) {
      var x := k.join(res[n], r);
      assert Contains(x, m, k) <==> Contains(res[n], m, k) || Contains(r, m, k);
      CoversSnoc(res[..n], res[n], m, k);
      CoversSnoc(res[..n], x, m, k);
      assert res[..n] + [res[n]] == res;
      assert res[..n] + [x] == Absorb(res, r, k);
    } else if Contains(r, m, k) {
      assert Contains(res[n], m, k);
    }
  }

  /** A list with one more range at its end covers the minutes of both parts. */
  lemma CoversSnoc<R>(init: seq<R>, r: R, m: int, k: Keys<R>)
    ensures Covers(init + [r], m, k) <==> Covers(init, m, k) || Contains(r, m, k)
  {
    var s := init + [r];
    if Covers(s, m, k) {
      var j :| 0 <= j < |s| && Contains(s[j], m, k);
      if j < |init| {
        assert Contains(init[j], m, k);
      }
    }
    if Covers(init, m, k) {
      var j :| 0 <= j < |init| && Contains(init[j], m, k);
      assert Contains(s[j], m, k);
    }
    if Contains(r, m, k) {
      assert Contains(s[|init|], m, k);
    }
  }

  /** Folding a start-sorted list yields sorted, separated ranges, none starting after the input's last. */
  lemma {:induction false} FoldMergeOrder<R(!new)>(sorted: seq<R>, k: Keys<R>)
    requires |sorted| > 0 && SortedBy(sorted, k.start) && Lawful(k)
    ensures var res := FoldMerge(sorted, k);
      && SortedBy(res, k.start) && Separated(res, k)
      && (forall j :: 0 <= j < |res| ==> k.start(res[j]) <= k.start(sorted[|sorted| - 1]))
  {
    if |sorted| > 1 {
      var init, r := sorted[..|sorted| - 1], sorted[|sorted| - 1];
      assert SortedBy(init, k.start);
      FoldMergeOrder(init, k);
      assert k.start(init[|init| - 1]) <= k.start(r);
      AbsorbKeepsOrder(FoldMerge(init, k), r, k);
    }
  }

  /** Folding a start-sorted list covers exactly the minutes the list covers. */
  lemma {:induction false} FoldMergeCovers<R(!new)>(sorted: seq<R>, m: int, k: Keys<R>)
    requires |sorted| > 0 && SortedBy(sorted, k.start) && Lawful(k)
    ensures Covers(FoldMerge(sorted, k), m, k) <==> Covers(sorted, m, k)
  {
    if |sorted| > 1 {
      var init, r := sorted[..|sorted| - 1], sorted[|sorted| - 1];
      assert SortedBy(init, k.start);
      FoldMergeCovers(init, m, k);
      var res := FoldMerge(init, k);
      FoldMergeOrder(init, k);
      assert k.start(init[|init| - 1]) <= k.start(r);
      AbsorbCovers(res, r, m, k);
      assert sorted == init + [r];
      CoversSnoc(init, r, m, k);
    } else {
      assert FoldMerge(sorted, k) == sorted;
    }
  }

  /** Reordering a list does not change the minutes it covers. */
  lemma CoversPermutation<R>(a: seq<R>, b: seq<R>, m: int, k: Keys<R>)
    requires multiset(a) == multiset(b)
    ensures Covers(a, m, k) <==> Covers(b, m, k)
  {
    if Covers(a, m, k) {
      var i :| 0 <= i < |a| && Contains(a[i], m, k);
      assert a[i] in multiset(b);
      var j :| 0 <= j < |b| && b[j] == a[i];
    }
    if Covers(b, m, k) {
      var i :| 0 <= i < |b| && Contains(b[i], m, k);
      assert b[i] in multiset(a);
      var j :| 0 <= j < |a| && a[j] == b[i];
    }
  }

  /** Folding ranges that are already separated changes nothing. */
  lemma {:induction false} FoldMergeOfSeparated<R>(rs: seq<R>, k: Keys<R>)
    requires |rs| > 0 && Separated(rs, k)
    ensures FoldMerge(rs, k) == rs
  {
    if |rs| > 1 {
      var init := rs[..|rs| - 1];
      assert Separated(init, k);
      FoldMergeOfSeparated(init, k);
      assert init + [rs[|rs| - 1]] == rs;
    }
  }

  /*
   * The fold as the source runs it on the caller's array. The merged list
   * starts with the array's first entry and later pushes array entries
   * themselves, so the last merged range is always the very tuple held at
   * position `head` of the array, and extending its end changes both.
   */

  /** The merged list so far, the array, and the position of the range the merged list ends with. */
  datatype FoldState<R> = FoldState(res: seq<R>, arr: seq<R>, head: nat)

  /** One step of the in-place fold, on entry `i` of the array. */
  function FoldStep<R>(st: FoldState<R>, i: nat, k: Keys<R>): FoldState<R>
    requires |st.res| > 0 && st.head < |st.arr| && i < |st.arr|
  {
    var n := |st.res| - 1;
    var r := st.arr[i];
    if k.start(r) <= k.end(st.res[n]) then
      if k.end(r) > k.end(st.res[n]) then
        var ext := k.join(st.res[n], r);
        FoldState(st.res[n := ext], st.arr[st.head := ext], st.head)
      else st
    else FoldState(st.res + [r], st.arr, i)
  }

  /** The in-place fold after the first `i` entries of a sorted array. */
  function FoldRun<R>(sorted: seq<R>, i: nat, k: Keys<R>): (st: FoldState<R>)
    requires 1 <= i <= |sorted|
    ensures |st.res| > 0 && |st.arr| == |sorted| && st.head < i
  {
    if i == 1 then FoldState([sorted[0]], sorted, 0) else FoldStep(FoldRun(sorted, i - 1, k), i - 1, k)
  }

  lemma FoldRunSucc<R>(sorted: seq<R>, i: nat, k: Keys<R>)
    requires 1 <= i < |sorted|
    ensures FoldRun(sorted, i + 1, k) == FoldStep(FoldRun(sorted, i, k), i, k)
  {
  }

  /** The merged list ends with the range at `head`, and the entries from `i` on are untouched. */
  ghost predicate FoldShape<R>(sorted: seq<R>, st: FoldState<R>, i: nat) {
    && |st.res| > 0 && |st.arr| == |sorted| && st.head < i <= |sorted|
    && st.res[|st.res| - 1] == st.arr[st.head]
    && forall j :: i <= j < |sorted| ==> st.arr[j] == sorted[j]
  }

  lemma FoldStepShape<R>(sorted: seq<R>, st: FoldState<R>, i: nat, k: Keys<R>)
    requires FoldShape(sorted, st, i) && i < |sorted|
    ensures FoldShape(sorted, FoldStep(st, i, k), i + 1)
  {
  }

  lemma {:induction false} FoldRunShape<R>(sorted: seq<R>, i: nat, k: Keys<R>)
    requires 1 <= i <= |sorted|
    ensures FoldShape(sorted, FoldRun(sorted, i, k), i)
  {
    if i > 1 {
      FoldRunShape(sorted, i - 1, k);
      FoldStepShape(sorted, FoldRun(sorted, i - 1, k), i - 1, k);
    }
  }

  /** On the merged list, a step of the in-place fold is a step of the value-level fold on the sorted entry. */
  lemma FoldStepAbsorbs<R>(sorted: seq<R>, st: FoldState<R>, i: nat, k: Keys<R>)
    requires FoldShape(sorted, st, i) && i < |sorted|
    ensures FoldStep(st, i, k).res == Absorb(st.res, sorted[i], k)
  {
  }

  /** The in-place fold merges exactly as the value-level fold does. */
  lemma {:induction false} FoldRunMerges<R>(sorted: seq<R>, i: nat, k: Keys<R>)
    requires 1 <= i <= |sorted|
    ensures FoldRun(sorted, i, k).res == FoldMerge(sorted[..i], k)
  {
    if i > 1 {
      var prev := FoldRun(sorted, i - 1, k);
      FoldRunMerges(sorted, i - 1, k);
      FoldRunShape(sorted, i - 1, k);
      FoldStepAbsorbs(sorted, prev, i - 1, k);
      var front := sorted[..i];
      assert front[..i - 1] == sorted[..i - 1] && front[i - 1] == sorted[i - 1];
      assert FoldMerge(front, k) == Absorb(FoldMerge(sorted[..i - 1], k), sorted[i - 1], k);
    }
  }

  lemma FoldRunMergesAll<R>(sorted: seq<R>, k: Keys<R>)
    requires |sorted| > 0
    ensures FoldRun(sorted, |sorted|, k).res == FoldMerge(sorted, k)
  {
    FoldRunMerges(sorted, |sorted|, k);
    assert sorted[..|sorted|] == sorted;
  }

  /**
   * Every entry the fold changed still starts where the sorted entry did
   * (joining the sorted entry with it gives it back), and holds a merged
   * range: the last one when it is the entry at `head`, an earlier one
   * otherwise.
   */
  ghost predicate ChangedAreMerged<R>(sorted: seq<R>, st: FoldState<R>, k: Keys<R>)
    requires |st.res| > 0
  {
    forall j :: 0 <= j < |sorted| && j < |st.arr| && st.arr[j] != sorted[j] ==>
      && st.arr[j] == k.join(sorted[j], st.arr[j])
      && (j == st.head || st.arr[j] in st.res[..|st.res| - 1])
  }

  /** Every merged range but the last sits in the array before `head`. */
  ghost predicate ClosedAreStored<R>(st: FoldState<R>) {
    st.head <= |st.arr| && forall j :: 0 <= j < |st.res| - 1 ==> st.res[j] in st.arr[..st.head]
  }

  /** Extending the last merged range, in the list and at `head`, keeps both invariants. */
  lemma ExtendKeeps<R(!new)>(sorted: seq<R>, st: FoldState<R>, i: nat, k: Keys<R>)
    requires FoldShape(sorted, st, i) && i < |sorted| && Lawful(k)
    requires ChangedAreMerged(sorted, st, k) && ClosedAreStored(st)
    ensures var n := |st.res| - 1; var ext := k.join(st.res[n], st.arr[i]);
      var next := FoldState(st.res[n := ext], st.arr[st.head := ext], st.head);
      ChangedAreMerged(sorted, next, k) && ClosedAreStored(next)
  {
    var n, h := |st.res| - 1, st.head;
    var ext := k.join(st.res[n], st.arr[i]);
    var next := FoldState(st.res[n := ext], st.arr[h := ext], h);
    assert next.res[..n] == st.res[..n];
    assert ext == k.join(sorted[h], st.arr[i]) by {
      if st.arr[h] != sorted[h] {
        assert st.res[n] == k.join(sorted[h], st.arr[h]);
      }
    }
    assert ext == k.join(sorted[h], ext);
    forall j | 0 <= j < |sorted| && j < |next.arr| && next.arr[j] != sorted[j]
      ensures next.arr[j] == k.join(sorted[j], next.arr[j])
      ensures j == next.head || next.arr[j] in next.res[..|next.res| - 1]
    {
      if j != h {
        assert next.arr[j] == st.arr[j];
      }
    }
    assert ChangedAreMerged(sorted, next, k);
    assert next.arr[..h] == st.arr[..h];
    forall j | 0 <= j < |next.res| - 1 ensures next.res[j] in next.arr[..h] {
      assert next.res[j] == st.res[j];
    }
  }

  /** Starting a new merged range at entry `i` keeps both invariants. */
  lemma PushKeeps<R>(sorted: seq<R>, st: FoldState<R>, i: nat, k: Keys<R>)
    requires FoldShape(sorted, st, i) && i < |sorted|
    requires ChangedAreMerged(sorted, st, k) && ClosedAreStored(st)
    ensures var next := FoldState(st.res + [st.arr[i]], st.arr, i);
      ChangedAreMerged(sorted, next, k) && ClosedAreStored(next)
  {
    var n := |st.res| - 1;
    var next := FoldState(st.res + [st.arr[i]], st.arr, i);
    assert next.res[..n + 1] == st.res;
    forall j | 0 <= j < |sorted| && next.arr[j] != sorted[j] ensures next.arr[j] in next.res[..n + 1] {
      if j != st.head {
        assert st.arr[j] in st.res[..n];
      }
    }
    var before := st.arr[..i];
    assert before[..st.head] == st.arr[..st.head];
    forall j | 0 <= j < |next.res| - 1 ensures next.res[j] in before {
      if j < n {
        assert next.res[j] == st.res[j] && st.res[j] in before[..st.head];
      } else {
        assert next.res[j] == before[st.head];
      }
    }
  }

  /** A step of the in-place fold is one of its three cases. */
  lemma FoldStepCases<R>(st: FoldState<R>, i: nat, k: Keys<R>)
    requires |st.res| > 0 && st.head < |st.arr| && i < |st.arr|
    ensures var n := |st.res| - 1; var next := FoldStep(st, i, k);
      var ext := k.join(st.res[n], st.arr[i]);
      || next == st
      || next == FoldState(st.res + [st.arr[i]], st.arr, i)
      || next == FoldState(st.res[n := ext], st.arr[st.head := ext], st.head)
  {
  }

  lemma {:induction false} FoldRunWrites<R(!new)>(sorted: seq<R>, i: nat, k: Keys<R>)
    requires 1 <= i <= |sorted| && Lawful(k)
    ensures ChangedAreMerged(sorted, FoldRun(sorted, i, k), k) && ClosedAreStored(FoldRun(sorted, i, k))
  {
    if i > 1 {
      FoldRunWrites(sorted, i - 1, k);
      var prev := FoldRun(sorted, i - 1, k);
      var next := FoldStep(prev, i - 1, k);
      assert FoldRun(sorted, i, k) == next;
      FoldRunShape(sorted, i - 1, k);
      FoldStepCases(prev, i - 1, k);
      var n := |prev.res| - 1;
      if next == FoldState(prev.res + [prev.arr[i - 1]], prev.arr, i - 1) {
        PushKeeps(sorted, prev, i - 1, k);
      } else if next != prev {
        ExtendKeeps(sorted, prev, i - 1, k);
      }
    }
  }

  /**
   * After the whole fold, each array entry is the sorted one or a merged
   * range that starts where the sorted one did, and each merged range is
   * in the array.
   */
  lemma FoldRunArray<R(!new)>(sorted: seq<R>, k: Keys<R>)
    requires |sorted| > 0 && Lawful(k)
    ensures var st := FoldRun(sorted, |sorted|, k);
      && (forall j :: 0 <= j < |sorted| ==>
            st.arr[j] == sorted[j] || (st.arr[j] == k.join(sorted[j], st.arr[j]) && st.arr[j] in st.res))
      && (forall r :: r in st.res ==> r in st.arr)
  {
    var st := FoldRun(sorted, |sorted|, k);
    FoldRunWrites(sorted, |sorted|, k);
    FoldRunShape(sorted, |sorted|, k);
    forall j | 0 <= j < |sorted| && st.arr[j] != sorted[j] ensures st.arr[j] in st.res {
      if j != st.head {
        assert st.arr[j] in st.res[..|st.res| - 1];
      }
    }
    forall r | r in st.res ensures r in st.arr {
      var j :| 0 <= j < |st.res| && st.res[j] == r;
      if j < |st.res| - 1 {
        assert r in st.arr[..st.head];
      }
    }
  }

  /*
   * The fold used with the appointment's own ranges.
   */

  function StartKey(r: TimeRange): int {
    TimeToNumber(r.start)
  }

  function EndKey(r: TimeRange): int {
    TimeToNumber(r.end)
  }

  /** `[a[0], b[1]]`: the range from `a`'s start to `b`'s end. */
  function Extend(a: TimeRange, b: TimeRange): TimeRange {
    TimeRange(a.start, b.end)
  }

  /** Time ranges seen through `timeToNumber`. */
  const Minutes: Keys<TimeRange> := Keys(StartKey, EndKey, Extend)

  lemma MinutesLawful()
    ensures Lawful(Minutes)
  {
  }

  /** The value `mergeRanges` returns. */
  function Merged(ranges: seq<TimeRange>): seq<TimeRange> {
    if |ranges| <= 1 then ranges else FoldMerge(SortBy(ranges, StartKey), Minutes)
  }

  /**
   * The merged ranges are sorted by start, each starts strictly after the
   * previous one ends, they cover exactly the minutes the input covers, and
   * there are never more of them than there were inputs.
   */
  lemma MergedSpec(ranges: seq<TimeRange>)
    ensures var res := Merged(ranges);
      && SortedBy(res, StartKey) && Separated(res, Minutes)
      && |res| <= |ranges|
      && (forall m :: Covers(res, m, Minutes) <==> Covers(ranges, m, Minutes))
  {
    if |ranges| > 1 {
      var sorted := SortBy(ranges, StartKey);
      MinutesLawful();
      SortBySorted(ranges, StartKey);
      SortByPermutes(ranges, StartKey);
      FoldMergeOrder(sorted, Minutes);
      forall m ensures Covers(FoldMerge(sorted, Minutes), m, Minutes) <==> Covers(ranges, m, Minutes) {
        FoldMergeCovers(sorted, m, Minutes);
        CoversPermutation(sorted, ranges, m, Minutes);
      }
    }
  }

  /** Merging is idempotent: merging merged ranges returns them unchanged. */
  lemma MergedIdempotent(ranges: seq<TimeRange>)
    ensures Merged(Merged(ranges)) == Merged(ranges)
  {
    var res := Merged(ranges);
    MergedSpec(ranges);
    if |res| > 1 {
      SortByOfSorted(res, StartKey);
      FoldMergeOfSeparated(res, Minutes);
    }
  }

  /** Merging a list that was already sorted in place gives what merging the original gives. */
  lemma MergedOfSorted(ranges: seq<TimeRange>)
    ensures Merged(SortBy(ranges, StartKey)) == Merged(ranges)
  {
    if |ranges| > 1 {
      SortByIdempotent(ranges, StartKey);
    } else if |ranges| == 1 {
      assert SortBy(ranges, StartKey) == Insert([], ranges[0], StartKey) == ranges;
    }
  }

  /** What `mergeRanges` leaves in the caller's array: sorted when longer than one, then written through by the fold. */
  function MergedArray(ranges: seq<TimeRange>): seq<TimeRange> {
    if |ranges| <= 1 then ranges else FoldRun(SortBy(ranges, StartKey), |ranges|, Minutes).arr
  }

  /** The value `mergeRanges` returns is the merged list of its in-place fold. */
  lemma MergedIsFoldRun(ranges: seq<TimeRange>)
    requires |ranges| > 1
    ensures Merged(ranges) == FoldRun(SortBy(ranges, StartKey), |ranges|, Minutes).res
  {
    FoldRunMergesAll(SortBy(ranges, StartKey), Minutes);
  }

  /** The entries of the array after a fold of more than one range, and the merged ranges it holds. */
  lemma MergedArrayEntries(ranges: seq<TimeRange>)
    requires |ranges| > 1
    ensures var arr, sorted := MergedArray(ranges), SortBy(ranges, StartKey);
      && |arr| == |sorted|
      && (forall j :: 0 <= j < |arr| ==>
            arr[j] == sorted[j] || (arr[j].start == sorted[j].start && arr[j] in Merged(ranges)))
      && (forall r :: r in Merged(ranges) ==> r in arr)
  {
    var sorted := SortBy(ranges, StartKey);
    MergedIsFoldRun(ranges);
    MinutesFoldRunArray(sorted);
    JoinsKeepStarts(sorted, MergedArray(ranges));
  }

  lemma MinutesFoldRunArray(sorted: seq<TimeRange>)
    requires |sorted| > 0
    ensures var st := FoldRun(sorted, |sorted|, Minutes);
      && (forall j :: 0 <= j < |sorted| ==>
            st.arr[j] == sorted[j] || (st.arr[j] == Minutes.join(sorted[j], st.arr[j]) && st.arr[j] in st.res))
      && (forall r :: r in st.res ==> r in st.arr)
  {
    MinutesLawful();
    FoldRunArray(sorted, Minutes);
  }

  /** Entries that joining the sorted entry with gives back start where the sorted entries do. */
  lemma JoinsKeepStarts(sorted: seq<TimeRange>, arr: seq<TimeRange>)
    requires |arr| == |sorted|
    requires forall j :: 0 <= j < |sorted| ==> arr[j] == sorted[j] || arr[j] == Minutes.join(sorted[j], arr[j])
    ensures forall j :: 0 <= j < |sorted| ==> arr[j] == sorted[j] || arr[j].start == sorted[j].start
  {
    forall j | 0 <= j < |sorted| && arr[j] != sorted[j] ensures arr[j].start == sorted[j].start {
      JoinKeepsStart(sorted[j], arr[j]);
    }
  }

  /** A range that joining `a` with it gives back starts where `a` starts. */
  lemma JoinKeepsStart(a: TimeRange, b: TimeRange)
    requires b == Minutes.join(a, b)
    ensures b.start == a.start
  {
  }

  /**
   * After `mergeRanges` the caller's array holds, at each position, the
   * sorted input's range there or, where the fold extended it, the merged
   * range that starts with the same start; so it is still sorted by start,
   * and every merged range is one of its entries.
   */
  lemma MergedArraySpec(ranges: seq<TimeRange>)
    ensures var arr, sorted := MergedArray(ranges), if |ranges| <= 1 then ranges else SortBy(ranges, StartKey);
      && |arr| == |ranges|
      && (forall j :: 0 <= j < |arr| ==>
            arr[j] == sorted[j] || (arr[j].start == sorted[j].start && arr[j] in Merged(ranges)))
      && SortedBy(arr, StartKey)
      && (forall r :: r in Merged(ranges) ==> r in arr)
  {
    if |ranges| > 1 {
      var arr, sorted := MergedArray(ranges), SortBy(ranges, StartKey);
      MergedArrayEntries(ranges);
      SortBySorted(ranges, StartKey);
      forall i, j | 0 <= i < j < |arr| ensures StartKey(arr[i]) <= StartKey(arr[j]) {
        assert arr[i].start == sorted[i].start && arr[j].start == sorted[j].start;
        assert StartKey(sorted[i]) <= StartKey(sorted[j]);
      }
    }
  }

  /**
   * `mergeRanges`: sorts the caller's array in place (when it holds more than
   * one range), then folds it into a fresh list, writing each extended end
   * through to the array entry the merged range shares.
   */
  method MergeRanges(ranges: array<TimeRange>) returns (res: seq<TimeRange>)
    modifies ranges
    ensures res == Merged(old(ranges[..]))
    ensures ranges[..] == MergedArray(old(ranges[..]))
  {
    if ranges.Length <= 1 {
      return ranges[..];
    }
    var sorted := SortBy(ranges[..], StartKey);
    forall j | 0 <= j < ranges.Length {
      ranges[j] := sorted[j];
    }
    assert ranges[..] == sorted;
    res := FoldInPlace(ranges, Minutes);
    FoldRunMergesAll(sorted, Minutes);
  }

  /**
   * The loop of `mergeRanges` over the sorted array: compare each range's
   * start with the end of the last merged range, extend that range (and the
   * array entry it is) or push the range.
   */
  method FoldInPlace<R>(ranges: array<R>, k: Keys<R>) returns (res: seq<R>)
    requires ranges.Length > 0
    modifies ranges
    ensures res == FoldRun(old(ranges[..]), ranges.Length, k).res
    ensures ranges[..] == FoldRun(old(ranges[..]), ranges.Length, k).arr
  {
    ghost var sorted := ranges[..];
    res := [ranges[0]];
    var head := 0;
    var i := 1;
    while i < ranges.Length
      invariant 1 <= i <= ranges.Length
      invariant FoldRun(sorted, i, k) == FoldState(res, ranges[..], head)
    {
      ghost var arr := ranges[..];
      FoldRunSucc(sorted, i, k);
      var n := |res| - 1;
      var r := ranges[i];
      if k.start(r) <= k.end(res[n]) {
        if k.end(r) > k.end(res[n]) {
          var ext := k.join(res[n], r);
          res := res[n := ext];
          ranges[head] := ext;
          assert ranges[..] == arr[head := ext];
        }
      } else {
        res := res + [r];
        head := i;
      }
      i := i + 1;
    }
  }
}
