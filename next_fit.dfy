/** The next-fit placement scan with wraparound, as a function of the
    occupancy map, the cursor and the number of units still to grant, and
    what it guarantees: the spans it grants and the map it leaves. */
module NextFit {
  import opened MemoryTypes
  import opened Occupancy

  /** Where a scan ends: the spans in the order found, the occupancy map
      with them marked used, and the position the scan stopped at. */
  datatype ScanResult = ScanResult(spans: seq<Span>, occ: seq<bool>, cursor: nat)

  /** The number of units a request for `size` grants: a size of zero or less
      asks for nothing. */
  function Granted(size: int): (g: nat)
  {
    if size > 0 then size else 0
  }

  /** Grant `need` more units, searching from unit ii, after the spans `acc`
      already granted: skip used units (wrapping at the end), take the free
      run found there up to the end of the buffer or the amount still
      needed, mark it used, append it, and go on from its end (wrapping when
      it reached the end of the buffer). The scan stops early only when no
      unit is free, which a caller that checked the free count never meets. */
  function Scan(occ: seq<bool>, ii: nat, need: nat, acc: seq<Span>): (r: ScanResult)
    requires ii < |occ|
    decreases need
  {
    var start := NextFree(occ, ii);
    if need == 0 || start == |occ| then ScanResult(acc, occ, ii)
    else
      var end := RunEnd(occ, start, start + need);
      Scan(Fill(occ, start, end, true), if end == |occ| then 0 else end, need - (end - start), acc + [Span(start, end - start)])
  }

  /** Proof helper, one unfolding of Scan. One round of the scan takes the
      run [start, end), at least one unit and at most what is needed, and
      continues from the map with the run marked used, after the run
      (wrapping at the end of the buffer), needing that many units less,
      with the run appended. */
  lemma ScanUnfold(occ: seq<bool>, ii: nat, need: nat, acc: seq<Span>, start: nat, end: nat,
                   occ': seq<bool>, ii': int, need': int, acc': seq<Span>)
    requires ii < |occ| && 0 < need
    requires start == NextFree(occ, ii) && start < |occ|
    requires end == RunEnd(occ, start, start + need)
    requires occ' == Fill(occ, start, end, true) && ii' == (if end == |occ| then 0 else end)
    requires need' == need - (end - start) && acc' == acc + [Span(start, end - start)]
    ensures start < end && end - start <= need && 0 <= ii' < |occ'| && 0 <= need'
    ensures Scan(occ', ii', need', acc') == Scan(occ, ii, need, acc)
  {
  }

  /** The scan leaves a map of the same size and stops at a unit of it. */
  lemma {:induction false} ScanShape(occ: seq<bool>, ii: nat, need: nat, acc: seq<Span>)
    requires ii < |occ|
    ensures |Scan(occ, ii, need, acc).occ| == |occ| && Scan(occ, ii, need, acc).cursor < |occ|
    decreases need
  {
    var start := NextFree(occ, ii);
    if need > 0 && start < |occ| {
      var end := RunEnd(occ, start, start + need);
      var occ', next, need', acc' := Fill(occ, start, end, true), (if end == |occ| then 0 else end), need - (end - start), acc + [Span(start, end - start)];
      ScanUnfold(occ, ii, need, acc, start, end, occ', next, need', acc');
      ScanShape(occ', next, need', acc');
    }
  }

  /** While units are still needed and enough are free, a round finds a free
      run of at least one unit, at most what is needed, and occupying it
      lowers the free count by its length. */
  lemma RoundFacts(occ: seq<bool>, ii: nat, need: nat, start: int, end: int)
    requires ii < |occ| && 0 < need <= FreeCount(occ)
    requires start == NextFree(occ, ii) && end == RunEnd(occ, start, start + need)
    ensures 0 <= start < end <= |occ| && end - start <= need
    ensures FreeCount(Fill(occ, start, end, true)) == FreeCount(occ) - (end - start)
  {
    NextFreeSkips(occ, ii);
    RunEndFree(occ, start, start + need);
    FillFreeCount(occ, start, end);
  }

  /** One round of ScanSum: if the rest of the scan adds lengths summing to
      what it still needs, the whole scan adds lengths summing to `need`. */
  lemma SumRound(occ: seq<bool>, ii: nat, need: nat, acc: seq<Span>, start: nat, end: nat,
                 occ': seq<bool>, ii': nat, need': nat, acc': seq<Span>)
    requires ii < |occ| && 0 < need
    requires start == NextFree(occ, ii) && start < |occ|
    requires end == RunEnd(occ, start, start + need)
    requires occ' == Fill(occ, start, end, true) && ii' == (if end == |occ| then 0 else end)
    requires need' == need - (end - start) && acc' == acc + [Span(start, end - start)]
    requires ii' < |occ'| && SumLengths(Scan(occ', ii', need', acc').spans) == SumLengths(acc') + need'
    ensures SumLengths(Scan(occ, ii, need, acc).spans) == SumLengths(acc) + need
  {
    ScanUnfold(occ, ii, need, acc, start, end, occ', ii', need', acc');
    SumSnoc(acc, Span(start, end - start));
  }

  /** When enough units are free, the lengths of the spans the scan adds
      sum to exactly the units needed. */
  lemma {:induction false} ScanSum(occ: seq<bool>, ii: nat, need: nat, acc: seq<Span>)
    requires ii < |occ| && need <= FreeCount(occ)
    ensures SumLengths(Scan(occ, ii, need, acc).spans) == SumLengths(acc) + need
    decreases need
  {
    if need > 0 {
      var start := NextFree(occ, ii);
      var end := RunEnd(occ, start, start + need);
      RoundFacts(occ, ii, need, start, end);
      var occ', next, need', acc' := Fill(occ, start, end, true), (if end == |occ| then 0 else end), need - (end - start), acc + [Span(start, end - start)];
      ScanSum(occ', next, need', acc');
      SumRound(occ, ii, need, acc, start, end, occ', next, need', acc');
    }
  }

  /** One round of ScanFreeCount: if the rest of the scan lowers the count
      by what it still needs, the whole scan lowers it by `need`. */
  lemma FreeRound(occ: seq<bool>, ii: nat, need: nat, acc: seq<Span>, start: nat, end: nat,
                  occ': seq<bool>, ii': nat, need': nat, acc': seq<Span>)
    requires ii < |occ| && 0 < need
    requires start == NextFree(occ, ii) && start < |occ|
    requires end == RunEnd(occ, start, start + need)
    requires occ' == Fill(occ, start, end, true) && ii' == (if end == |occ| then 0 else end)
    requires need' == need - (end - start) && acc' == acc + [Span(start, end - start)]
    requires FreeCount(occ') == FreeCount(occ) - (end - start)
    requires ii' < |occ'| && FreeCount(Scan(occ', ii', need', acc').occ) == FreeCount(occ') - need'
    ensures FreeCount(Scan(occ, ii, need, acc).occ) == FreeCount(occ) - need
  {
    ScanUnfold(occ, ii, need, acc, start, end, occ', ii', need', acc');
  }

  /** When enough units are free, the scan lowers the free count by exactly
      the units needed. */
  lemma {:induction false} ScanFreeCount(occ: seq<bool>, ii: nat, need: nat, acc: seq<Span>)
    requires ii < |occ| && need <= FreeCount(occ)
    ensures FreeCount(Scan(occ, ii, need, acc).occ) == FreeCount(occ) - need
    decreases need
  {
    if need > 0 {
      var start := NextFree(occ, ii);
      var end := RunEnd(occ, start, start + need);
      RoundFacts(occ, ii, need, start, end);
      var occ', next, need', acc' := Fill(occ, start, end, true), (if end == |occ| then 0 else end), need - (end - start), acc + [Span(start, end - start)];
      ScanFreeCount(occ', next, need', acc');
      FreeRound(occ, ii, need, acc, start, end, occ', next, need', acc');
    }
  }

  /** Every span holds at least one unit and lies inside the buffer. */
  predicate AllGranting(spans: seq<Span>, n: int)
  {
    forall i :: 0 <= i < |spans| ==> Granting(spans[i], n)
  }

  /** Every span the scan adds holds at least one unit and lies inside the
      buffer. */
  lemma {:induction false} ScanGranting(occ: seq<bool>, ii: nat, need: nat, acc: seq<Span>)
    requires ii < |occ| && AllGranting(acc, |occ|)
    ensures AllGranting(Scan(occ, ii, need, acc).spans, |occ|)
    decreases need
  {
    var start := NextFree(occ, ii);
    if need > 0 && start < |occ| {
      var end := RunEnd(occ, start, start + need);
      var occ', next, need', acc' := Fill(occ, start, end, true), (if end == |occ| then 0 else end), need - (end - start), acc + [Span(start, end - start)];
      ScanUnfold(occ, ii, need, acc, start, end, occ', next, need', acc');
      assert AllGranting(acc', |occ|);
      ScanGranting(occ', next, need', acc');
    }
  }

  /** The scan only appends: a unit covered by the spans it started with is
      covered by the spans it returns. */
  lemma {:induction false} ScanCoversAcc(occ: seq<bool>, ii: nat, need: nat, acc: seq<Span>, k: int)
    requires ii < |occ|
    ensures Covers(acc, k) ==> Covers(Scan(occ, ii, need, acc).spans, k)
    decreases need
  {
    var start := NextFree(occ, ii);
    if need > 0 && start < |occ| {
      var end := RunEnd(occ, start, start + need);
      var occ', next, need', acc' := Fill(occ, start, end, true), (if end == |occ| then 0 else end), need - (end - start), acc + [Span(start, end - start)];
      ScanUnfold(occ, ii, need, acc, start, end, occ', next, need', acc');
      CoversSnoc(acc, Span(start, end - start), k);
      ScanCoversAcc(occ', next, need', acc', k);
    }
  }

  /** One round of ScanOcc: if the rest of the scan keeps the property for
      unit k, the whole scan does. */
  lemma OccRound(occ: seq<bool>, ii: nat, need: nat, acc: seq<Span>, k: int, start: nat, end: nat,
                 occ': seq<bool>, ii': nat, need': nat, acc': seq<Span>)
    requires ii < |occ| && 0 <= k < |occ| && 0 < need
    requires start == NextFree(occ, ii) && start < |occ|
    requires end == RunEnd(occ, start, start + need)
    requires occ' == Fill(occ, start, end, true) && ii' == (if end == |occ| then 0 else end)
    requires need' == need - (end - start) && acc' == acc + [Span(start, end - start)]
    requires Covers(acc, k) ==> occ[k]
    requires ii' < |occ'|
    requires |Scan(occ', ii', need', acc').occ| == |occ'|
    requires Scan(occ', ii', need', acc').occ[k] == (occ'[k] || Covers(Scan(occ', ii', need', acc').spans, k))
    requires Covers(acc', k) ==> Covers(Scan(occ', ii', need', acc').spans, k)
    ensures |Scan(occ, ii, need, acc).occ| == |occ|
    ensures Scan(occ, ii, need, acc).occ[k] == (occ[k] || Covers(Scan(occ, ii, need, acc).spans, k))
  {
    ScanUnfold(occ, ii, need, acc, start, end, occ', ii', need', acc');
    CoversSnoc(acc, Span(start, end - start), k);
    FillAt(occ, start, end, true, k);
  }

  /** After the scan a unit is used exactly when it was used before or a
      span covers it (given that the spans it started with cover only used
      units). */
  lemma {:induction false} ScanOcc(occ: seq<bool>, ii: nat, need: nat, acc: seq<Span>, k: int)
    requires ii < |occ| && 0 <= k < |occ|
    requires Covers(acc, k) ==> occ[k]
    ensures |Scan(occ, ii, need, acc).occ| == |occ|
    ensures Scan(occ, ii, need, acc).occ[k] == (occ[k] || Covers(Scan(occ, ii, need, acc).spans, k))
    decreases need
  {
    var start := NextFree(occ, ii);
    if need > 0 && start < |occ| {
      var end := RunEnd(occ, start, start + need);
      var occ', next, need', acc' := Fill(occ, start, end, true), (if end == |occ| then 0 else end), need - (end - start), acc + [Span(start, end - start)];
      ScanUnfold(occ, ii, need, acc, start, end, occ', next, need', acc');
      AccStep(occ, start, end, acc, k);
      ScanOcc(occ', next, need', acc', k);
      ScanCoversAcc(occ', next, need', acc', k);
      OccRound(occ, ii, need, acc, k, start, end, occ', next, need', acc');
    }
  }

  lemma AccStep(occ: seq<bool>, start: nat, end: nat, acc: seq<Span>, k: int)
    requires 0 <= k < |occ|
    requires Covers(acc, k) ==> occ[k]
    ensures Covers(acc + [Span(start, end - start)], k) ==> Fill(occ, start, end, true)[k]
  {
    CoversSnoc(acc, Span(start, end - start), k);
    FillAt(occ, start, end, true, k);
  }

  /** Every unit a span added by the scan covers was free before it. */
  lemma {:induction false} ScanGrantsFree(occ: seq<bool>, ii: nat, need: nat, acc: seq<Span>, k: int)
    requires ii < |occ| && 0 <= k < |occ|
    ensures Covers(Scan(occ, ii, need, acc).spans, k) && !Covers(acc, k) ==> !occ[k]
    decreases need
  {
    var start := NextFree(occ, ii);
    if need > 0 && start < |occ| {
      var end := RunEnd(occ, start, start + need);
      var occ', next, need', acc' := Fill(occ, start, end, true), (if end == |occ| then 0 else end), need - (end - start), acc + [Span(start, end - start)];
      ScanUnfold(occ, ii, need, acc, start, end, occ', next, need', acc');
      CoversSnoc(acc, Span(start, end - start), k);
      ScanGrantsFree(occ', next, need', acc', k);
      FillAt(occ, start, end, true, k);
      RunEndFree(occ, start, start + need);
    }
  }

  /** No two spans of the list share a unit. */
  predicate PairwiseDisjoint(spans: seq<Span>)
  {
    forall i, j :: 0 <= i < j < |spans| ==> Disjoint(spans[i], spans[j])
  }

  /** Every unit of the buffer that a span covers is used. */
  predicate CoveredUsed(spans: seq<Span>, occ: seq<bool>)
  {
    forall k :: 0 <= k < |occ| && Covers(spans, k) ==> occ[k]
  }

  lemma DisjointStep(acc: seq<Span>, occ: seq<bool>, start: nat, end: int, need: int)
    requires PairwiseDisjoint(acc) && CoveredUsed(acc, occ) && AllGranting(acc, |occ|)
    requires start < end && start <= |occ| && end == RunEnd(occ, start, start + need)
    ensures PairwiseDisjoint(acc + [Span(start, end - start)])
    ensures CoveredUsed(acc + [Span(start, end - start)], Fill(occ, start, end, true))
    ensures AllGranting(acc + [Span(start, end - start)], |occ|)
  {
    RunEndFree(occ, start, start + need);
    var s := Span(start, end - start);
    var spans := acc + [s];
    forall i, j | 0 <= i < j < |spans|
      ensures Disjoint(spans[i], spans[j])
    {
      if j == |acc| && !Disjoint(acc[i], s) {
        var u := if start < acc[i].start then acc[i].start else start;
        assert InSpan(acc[i], u);
        CoversIff(acc, u);
        assert false;
      }
    }
    forall k | 0 <= k < |occ| && Covers(spans, k)
      ensures Fill(occ, start, end, true)[k]
    {
      CoversSnoc(acc, s, k);
      FillAt(occ, start, end, true, k);
    }
  }

  /** The spans the scan adds never overlap each other or the spans it
      started with (given that those cover only used units). */
  lemma {:induction false} ScanDisjoint(occ: seq<bool>, ii: nat, need: nat, acc: seq<Span>)
    requires ii < |occ| && PairwiseDisjoint(acc) && CoveredUsed(acc, occ) && AllGranting(acc, |occ|)
    ensures PairwiseDisjoint(Scan(occ, ii, need, acc).spans)
    decreases need
  {
    var start := NextFree(occ, ii);
    if need > 0 && start < |occ| {
      var end := RunEnd(occ, start, start + need);
      var occ', next, need', acc' := Fill(occ, start, end, true), (if end == |occ| then 0 else end), need - (end - start), acc + [Span(start, end - start)];
      ScanUnfold(occ, ii, need, acc, start, end, occ', next, need', acc');
      DisjointStep(acc, occ, start, end, need);
      ScanDisjoint(occ', next, need', acc');
    }
  }

  /** How far unit x lies from the cursor c, going upward and wrapping at
      n: (x - c + n) % n for a unit x of the buffer. */
  function Dist(c: int, n: int, x: int): (d: int)
  {
    if x >= c then x - c else x - c + n
  }

  /** The unit t steps upward from the cursor c, wrapping at n. */
  function Pos(c: int, n: int, t: int): (p: int)
  {
    if c + t < n then c + t else c + t - n
  }

  /** The spans come in cyclic order from the cursor c: each span ends, in
      distance from c, no later than the next one starts, and the last ends
      no further than t from c. */
  predicate CyclicOrder(spans: seq<Span>, c: int, n: int, t: int)
  {
    (forall i :: 0 <= i < |spans| - 1 ==>
      Dist(c, n, spans[i].start) + spans[i].length <= Dist(c, n, spans[i + 1].start)) &&
    (spans != [] ==> Dist(c, n, spans[|spans| - 1].start) + spans[|spans| - 1].length <= t)
  }

  /** Appending a span that starts no nearer to the cursor than t keeps the
      order. */
  lemma CyclicSnoc(acc: seq<Span>, s: Span, c: int, n: int, t: int, t': int)
    requires CyclicOrder(acc, c, n, t) && t <= Dist(c, n, s.start)
    requires t' == Dist(c, n, s.start) + s.length
    ensures CyclicOrder(acc + [s], c, n, t')
  {
    var spans := acc + [s];
    forall i | 0 <= i < |spans| - 1
      ensures Dist(c, n, spans[i].start) + spans[i].length <= Dist(c, n, spans[i + 1].start)
    {
      if i + 1 < |acc| {
        assert spans[i] == acc[i] && spans[i + 1] == acc[i + 1];
      } else {
        assert spans[i] == acc[|acc| - 1] && spans[i + 1] == s;
      }
    }
  }

  /** One round seen from the cursor c: when every unit less than t from c
      is used and the scan stands t units past c, the round's run starts at
      least t from c, does not run past c, and afterwards every unit less
      than the run's end from c is used, with the scan standing at that
      distance. */
  lemma CyclicRound(occ: seq<bool>, ii: nat, need: nat, c: int, t: int, n: int, start: int, end: int)
    requires n == |occ| && ii < n && 0 <= c < n && 0 <= t <= n && ii == Pos(c, n, t)
    requires 0 < need <= FreeCount(occ)
    requires forall k :: 0 <= k < n && Dist(c, n, k) < t ==> occ[k]
    requires start == NextFree(occ, ii) && end == RunEnd(occ, start, start + need)
    ensures 0 <= start < end <= n && t <= Dist(c, n, start)
    ensures Dist(c, n, start) + (end - start) <= n
    ensures (if end == n then 0 else end) == Pos(c, n, Dist(c, n, start) + (end - start))
    ensures forall k :: 0 <= k < n && Dist(c, n, k) < Dist(c, n, start) + (end - start) ==> Fill(occ, start, end, true)[k]
  {
    RoundFacts(occ, ii, need, start, end);
    NextFreeSkips(occ, ii);
    RunEndFree(occ, start, start + need);
    var ds := Dist(c, n, start);
    if start < c {
      assert occ[c] by {
        if t > 0 {
          assert Dist(c, n, c) < t;
        }
      }
    }
    forall k | 0 <= k < n && Dist(c, n, k) < ds + (end - start)
      ensures Fill(occ, start, end, true)[k]
    {
      FillAt(occ, start, end, true, k);
    }
  }

  /** The scan's spans keep the cyclic order from the cursor c: while every
      unit less than t from c is used and the scan stands t units past c,
      the spans it returns are in order and end no further than n from c. */
  lemma {:induction false} ScanCyclic(occ: seq<bool>, ii: nat, need: nat, acc: seq<Span>, c: int, t: int, n: int)
    requires n == |occ| && ii < n && 0 <= c < n && 0 <= t <= n && ii == Pos(c, n, t)
    requires need <= FreeCount(occ)
    requires forall k :: 0 <= k < n && Dist(c, n, k) < t ==> occ[k]
    requires CyclicOrder(acc, c, n, t)
    ensures CyclicOrder(Scan(occ, ii, need, acc).spans, c, n, n)
    decreases need
  {
    var start := NextFree(occ, ii);
    if need > 0 && start < |occ| {
      var end := RunEnd(occ, start, start + need);
      RoundFacts(occ, ii, need, start, end);
      CyclicRound(occ, ii, need, c, t, n, start, end);
      var occ', next, need', acc' := Fill(occ, start, end, true), (if end == |occ| then 0 else end), need - (end - start), acc + [Span(start, end - start)];
      var t' := Dist(c, n, start) + (end - start);
      CyclicSnoc(acc, Span(start, end - start), c, n, t, t');
      ScanCyclic(occ', next, need', acc', c, t', n);
      ScanUnfold(occ, ii, need, acc, start, end, occ', next, need', acc');
    }
  }

  /** When enough units are free, the spans of a scan from the cursor c come
      in cyclic order from c, and the last ends no further than one full
      pass from c: the scan passes the cursor at most once. */
  lemma ScanCyclicOrder(occ: seq<bool>, c: nat, need: nat)
    requires c < |occ| && need <= FreeCount(occ)
    ensures CyclicOrder(Scan(occ, c, need, []).spans, c, |occ|, |occ|)
  {
    ScanCyclic(occ, c, need, [], c, 0, |occ|);
  }

  /** Where a scan that appended to `acc` stops, seen from the cursor c, for
      a scan that stood t units past c at unit ii: it only appended to
      `acc`; when it appended nothing it stayed at ii; otherwise it stopped
      right after its last span (wrapping at the end of the buffer), and
      every unit cyclically before that point is used. */
  predicate StopsAfter(r: ScanResult, acc: seq<Span>, ii: int, c: int, n: int, t: int)
  {
    |r.occ| == n && |acc| <= |r.spans| && r.spans[..|acc|] == acc &&
    (|r.spans| == |acc| ==>
      r.cursor == ii && forall k :: 0 <= k < n && Dist(c, n, k) < t ==> r.occ[k]) &&
    (|r.spans| > |acc| ==>
      var s := r.spans[|r.spans| - 1];
      r.cursor == (if s.start + s.length == n then 0 else s.start + s.length) &&
      forall k :: 0 <= k < n && Dist(c, n, k) < Dist(c, n, s.start) + s.length ==> r.occ[k])
  }

  /** One round of ScanStops: when the rest of the scan, after appending
      the span s and standing right after it, stops as StopsAfter says, the
      whole scan does too. */
  lemma StopsRound(r: ScanResult, acc: seq<Span>, s: Span, acc': seq<Span>, ii: int, next: int,
                   c: int, n: int, t: int, t': int)
    requires acc' == acc + [s]
    requires next == (if s.start + s.length == n then 0 else s.start + s.length)
    requires t' == Dist(c, n, s.start) + s.length
    requires StopsAfter(r, acc', next, c, n, t')
    ensures StopsAfter(r, acc, ii, c, n, t)
  {
    assert acc'[..|acc|] == acc;
    assert r.spans[..|acc|] == r.spans[..|acc'|][..|acc|];
    if |r.spans| == |acc'| {
      assert r.spans == acc';
    }
  }

  /** Where the scan stops, seen from the cursor c: while every unit less
      than t from c is used and the scan stands t units past c, the scan
      stops as StopsAfter says, so it passes over no free unit. */
  lemma {:induction false} ScanStops(occ: seq<bool>, ii: nat, need: nat, acc: seq<Span>, c: int, t: int, n: int)
    requires n == |occ| && ii < n && 0 <= c < n && 0 <= t <= n && ii == Pos(c, n, t)
    requires need <= FreeCount(occ)
    requires forall k :: 0 <= k < n && Dist(c, n, k) < t ==> occ[k]
    ensures StopsAfter(Scan(occ, ii, need, acc), acc, ii, c, n, t)
    decreases need
  {
    var start := NextFree(occ, ii);
    if need > 0 && start < |occ| {
      var end := RunEnd(occ, start, start + need);
      RoundFacts(occ, ii, need, start, end);
      CyclicRound(occ, ii, need, c, t, n, start, end);
      var occ', next, need', acc' := Fill(occ, start, end, true), (if end == |occ| then 0 else end), need - (end - start), acc + [Span(start, end - start)];
      var t' := Dist(c, n, start) + (end - start);
      ScanStops(occ', next, need', acc', c, t', n);
      ScanUnfold(occ, ii, need, acc, start, end, occ', next, need', acc');
      StopsRound(Scan(occ', next, need', acc'), acc, Span(start, end - start), acc', ii, next, c, n, t, t');
    }
  }

  /** The next-fit promise of a scan from the cursor c that finds enough
      free units: with no spans it stays at c; otherwise it stops right
      after its last span, wrapping to unit 0 when that span reaches the end
      of the buffer, and every unit cyclically from c up to that point is
      used afterwards, so the scan skipped no free unit. */
  lemma ScanNextFit(occ: seq<bool>, c: nat, need: nat)
    requires c < |occ| && need <= FreeCount(occ)
    ensures var r := Scan(occ, c, need, []);
      |r.occ| == |occ| && (r.spans == [] ==> r.cursor == c)
    ensures var r := Scan(occ, c, need, []);
      r.spans != [] ==>
        var s := r.spans[|r.spans| - 1];
        r.cursor == (if s.start + s.length == |occ| then 0 else s.start + s.length) &&
        forall k :: 0 <= k < |occ| && Dist(c, |occ|, k) < Dist(c, |occ|, s.start) + s.length ==> r.occ[k]
  {
    ScanStops(occ, c, need, [], c, 0, |occ|);
  }

  /** What a successful allocation of `need` units promises, for a scan that
      starts with no spans and finds enough free units: every span holds at
      least one unit and lies inside the buffer, the lengths sum to `need`,
      no two spans overlap, a unit is used afterwards exactly when it was
      used before or a span covers it, every covered unit was free before,
      the free count drops by `need`, the spans come in cyclic order
      from the cursor ii within one pass of the buffer, and the scan stops
      right after its last span having skipped no free unit. */
  lemma ScanGrants(occ: seq<bool>, ii: nat, need: nat)
    requires ii < |occ| && need <= FreeCount(occ)
    ensures var r := Scan(occ, ii, need, []);
      |r.occ| == |occ| &&
      AllGranting(r.spans, |occ|) && SumLengths(r.spans) == need && PairwiseDisjoint(r.spans) &&
      (forall k :: 0 <= k < |occ| ==> r.occ[k] == (occ[k] || Covers(r.spans, k))) &&
      (forall k :: 0 <= k < |occ| && Covers(r.spans, k) ==> !occ[k]) &&
      FreeCount(r.occ) == FreeCount(occ) - need &&
      CyclicOrder(r.spans, ii, |occ|, |occ|) &&
      (r.spans == [] ==> r.cursor == ii) &&
      (r.spans != [] ==>
        var s := r.spans[|r.spans| - 1];
        r.cursor == (if s.start + s.length == |occ| then 0 else s.start + s.length) &&
        forall k :: 0 <= k < |occ| && Dist(ii, |occ|, k) < Dist(ii, |occ|, s.start) + s.length ==> r.occ[k])
  {
    var r := Scan(occ, ii, need, []);
    ScanShape(occ, ii, need, []);
    ScanGranting(occ, ii, need, []);
    ScanSum(occ, ii, need, []);
    ScanDisjoint(occ, ii, need, []);
    ScanFreeCount(occ, ii, need, []);
    ScanCyclicOrder(occ, ii, need);
    ScanNextFit(occ, ii, need);
    forall k | 0 <= k < |occ|
      ensures r.occ[k] == (occ[k] || Covers(r.spans, k))
      ensures Covers(r.spans, k) ==> !occ[k]
    {
      ScanOcc(occ, ii, need, [], k);
      ScanGrantsFree(occ, ii, need, [], k);
    }
  }
}
