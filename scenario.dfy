/** A worked allocation on a buffer of 50 units: with [10, 20) and [30, 40)
    in use and the search starting at unit 25, a request for 20 units is
    met in cyclic order by [25, 30), then [40, 50), then, wrapping around,
    [0, 5); ten units stay free and the next search starts at unit 5. */
module Scenario {
  import opened MemoryTypes
  import opened Occupancy
  import opened NextFit

  /** Fifty units of which exactly [10, 20) and [30, 40) are used. */
  predicate TwoBlocksMap(occ: seq<bool>)
  {
    |occ| == 50 && forall k :: 0 <= k < 50 ==> occ[k] == (10 <= k < 20 || 30 <= k < 40)
  }

  /** Marking [10, 20) and then [30, 40) used in a free buffer of 50 units
      gives that map, with 30 units free. */
  lemma TwoBlocksMarked()
    ensures var free := seq(50, _ => false);
      var occ := Fill(Fill(free, 10, 20, true), 30, 40, true);
      TwoBlocksMap(occ) && FreeCount(occ) == 30
  {
    var free := seq(50, _ => false);
    var half := Fill(free, 10, 20, true);
    forall k | 0 <= k < 50
      ensures Fill(half, 30, 40, true)[k] == (10 <= k < 20 || 30 <= k < 40)
    {
      FillAt(half, 30, 40, true, k);
      FillAt(free, 10, 20, true, k);
    }
    FreeCountFull(free);
    FillFreeCount(free, 10, 20);
    forall k | 30 <= k < 40
      ensures !half[k]
    {
      FillAt(free, 10, 20, true, k);
    }
    FillFreeCount(half, 30, 40);
  }

  /** Any map of that shape has 30 free units. */
  lemma TwoBlocksFree(occ: seq<bool>)
    requires TwoBlocksMap(occ)
    ensures FreeCount(occ) == 30
  {
    TwoBlocksMarked();
    assert occ == Fill(Fill(seq(50, _ => false), 10, 20, true), 30, 40, true);
  }

  /** First round: from unit 25 the run [25, 30) is free and ends at the
      used unit 30. */
  lemma FirstRound(occ: seq<bool>)
    requires TwoBlocksMap(occ)
    ensures NextFree(occ, 25) == 25 && RunEnd(occ, 25, 45) == 30
    ensures forall k :: 25 <= k < 30 ==> !occ[k]
  {
    FirstFreeFromAt(occ, 25, 25);
    RunEndAt(occ, 25, 45, 30);
  }

  /** Second round: from unit 30 the search passes the used [30, 40) and
      takes [40, 50) up to the end of the buffer. */
  lemma SecondRound(occ: seq<bool>)
    requires |occ| == 50 && forall k :: 30 <= k < 50 ==> occ[k] == (k < 40)
    ensures NextFree(occ, 30) == 40 && RunEnd(occ, 40, 55) == 50
    ensures forall k :: 40 <= k < 50 ==> !occ[k]
  {
    FirstFreeFromAt(occ, 30, 40);
    RunEndAt(occ, 40, 55, 50);
  }

  /** Third round, after wrapping to unit 0: [0, 5) meets the five units
      still needed. */
  lemma ThirdRound(occ: seq<bool>)
    requires |occ| == 50 && forall k :: 0 <= k < 10 ==> !occ[k]
    ensures NextFree(occ, 0) == 0 && RunEnd(occ, 0, 5) == 5
    ensures forall k :: 0 <= k < 5 ==> !occ[k]
  {
    FirstFreeFromAt(occ, 0, 0);
    RunEndAt(occ, 0, 5, 5);
  }

  /** The scan's first round from unit 25 takes [25, 30); afterwards units
      0 to 9 are still free, of units 30 to 49 only those below 40 are used,
      and 25 units are free. */
  lemma FirstStep(occ: seq<bool>, acc: seq<Span>)
    requires TwoBlocksMap(occ)
    ensures var occ1 := Fill(occ, 25, 30, true);
      Scan(occ, 25, 20, acc) == Scan(occ1, 30, 15, acc + [Span(25, 5)]) &&
      |occ1| == 50 && FreeCount(occ1) == 25 &&
      (forall k :: 0 <= k < 10 ==> !occ1[k]) &&
      (forall k :: 30 <= k < 50 ==> occ1[k] == (k < 40))
  {
    var occ1 := Fill(occ, 25, 30, true);
    TwoBlocksFree(occ);
    FirstRound(occ);
    FillFreeCount(occ, 25, 30);
    ScanUnfold(occ, 25, 20, acc, 25, 30, occ1, 30, 15, acc + [Span(25, 5)]);
    forall k | 0 <= k < 50
      ensures occ1[k] == (occ[k] || 25 <= k < 30)
    {
      FillAt(occ, 25, 30, true, k);
    }
  }

  /** Its second round from unit 30 takes [40, 50) and wraps to unit 0,
      leaving 15 units free and units 0 to 9 still free. */
  lemma SecondStep(occ: seq<bool>, acc: seq<Span>)
    requires |occ| == 50 && FreeCount(occ) == 25
    requires forall k :: 0 <= k < 10 ==> !occ[k]
    requires forall k :: 30 <= k < 50 ==> occ[k] == (k < 40)
    ensures var occ2 := Fill(occ, 40, 50, true);
      Scan(occ, 30, 15, acc) == Scan(occ2, 0, 5, acc + [Span(40, 10)]) &&
      |occ2| == 50 && FreeCount(occ2) == 15 &&
      (forall k :: 0 <= k < 10 ==> !occ2[k])
  {
    var occ2 := Fill(occ, 40, 50, true);
    SecondRound(occ);
    FillFreeCount(occ, 40, 50);
    ScanUnfold(occ, 30, 15, acc, 40, 50, occ2, 0, 5, acc + [Span(40, 10)]);
    forall k | 0 <= k < 10
      ensures !occ2[k]
    {
      FillAt(occ, 40, 50, true, k);
    }
  }

  /** Its third round takes [0, 5), which completes the request: the scan
      stops at unit 5 with ten units free, and unit 5 is free. */
  lemma ThirdStep(occ: seq<bool>, acc: seq<Span>)
    requires |occ| == 50 && FreeCount(occ) == 15
    requires forall k :: 0 <= k < 10 ==> !occ[k]
    ensures var occ3 := Fill(occ, 0, 5, true);
      Scan(occ, 0, 5, acc) == ScanResult(acc + [Span(0, 5)], occ3, 5) &&
      FreeCount(occ3) == 10 && NextFree(occ3, 5) == 5
  {
    var occ3 := Fill(occ, 0, 5, true);
    ThirdRound(occ);
    FillFreeCount(occ, 0, 5);
    ScanUnfold(occ, 0, 5, acc, 0, 5, occ3, 5, 0, acc + [Span(0, 5)]);
    FillAt(occ, 0, 5, true, 5);
    FirstFreeFromAt(occ3, 5, 5);
  }

  /** Proof helper: appending three spans one at a time to no spans lists
      them in order. */
  lemma ThreeSpans(a: Span, b: Span, c: Span)
    ensures [] + [a] + [b] + [c] == [a, b, c]
  {
  }

  /** The scan takes three runs in cyclic order from unit 25, stops at unit
      5 with ten units free, and unit 5 is where the next search begins. */
  lemma WraparoundScan(occ: seq<bool>)
    requires TwoBlocksMap(occ)
    ensures var r := Scan(occ, 25, 20, []);
      r.spans == [Span(25, 5), Span(40, 10), Span(0, 5)] &&
      r.cursor == 5 && FreeCount(r.occ) == 10 && NextFree(r.occ, 5) == 5
  {
    var a, b, c := Span(25, 5), Span(40, 10), Span(0, 5);
    FirstStep(occ, []);
    var occ1 := Fill(occ, 25, 30, true);
    SecondStep(occ1, [] + [a]);
    ThirdStep(Fill(occ1, 40, 50, true), [] + [a] + [b]);
    ThreeSpans(a, b, c);
  }
}
