/** Releasing a list of spans, as a function of the occupancy map, and what
    it guarantees; with the round trip from a scan back to the map it
    started from. */
module Release {
  import opened MemoryTypes
  import opened Occupancy
  import opened NextFit

  /** One span of a release: a span that passes the bounds test has its
      units marked free, any other span changes nothing. A span of zero or
      negative length that passes the test frees nothing. */
  function ReleaseSpan(occ: seq<bool>, s: Span): (r: seq<bool>)
    ensures |r| == |occ|
  {
    if ValidSpan(s, |occ|) then Fill(occ, s.start, s.start + s.length, false) else occ
  }

  /** The spans released one after the other, in list order. */
  function FreeSpans(occ: seq<bool>, spans: seq<Span>): (r: seq<bool>)
    ensures |r| == |occ|
    decreases |spans|
  {
    if spans == [] then occ
    else ReleaseSpan(FreeSpans(occ, spans[..|spans| - 1]), spans[|spans| - 1])
  }

  /** Some span of the list fails the bounds test. */
  predicate AnyInvalid(spans: seq<Span>, n: int)
  {
    exists i :: 0 <= i < |spans| && !ValidSpan(spans[i], n)
  }

  /** Releasing one more span releases it after the others. */
  lemma FreeSpansSnoc(occ: seq<bool>, spans: seq<Span>, s: Span)
    ensures FreeSpans(occ, spans + [s]) == ReleaseSpan(FreeSpans(occ, spans), s)
  {
    assert (spans + [s])[..|spans|] == spans;
  }

  /** A list with one more span has an invalid span exactly when the list
      had one or the new span is invalid. */
  lemma AnyInvalidSnoc(spans: seq<Span>, s: Span, n: int)
    ensures AnyInvalid(spans + [s], n) == (AnyInvalid(spans, n) || !ValidSpan(s, n))
  {
    var all := spans + [s];
    if AnyInvalid(all, n) && !ValidSpan(s, n) {
    } else if AnyInvalid(all, n) {
      var i :| 0 <= i < |all| && !ValidSpan(all[i], n);
      assert spans[i] == all[i];
    }
    if AnyInvalid(spans, n) {
      var i :| 0 <= i < |spans| && !ValidSpan(spans[i], n);
      assert all[i] == spans[i];
    }
    if !ValidSpan(s, n) {
      assert all[|spans|] == s;
    }
  }

  /** Unit k lies in a span of the list that passes the bounds test. */
  predicate CoveredValid(spans: seq<Span>, k: int, n: int)
  {
    exists i :: 0 <= i < |spans| && ValidSpan(spans[i], n) && InSpan(spans[i], k)
  }

  /** After a release a unit is used exactly when it was used before and no
      span that passes the bounds test covers it: the valid spans are freed
      even when others are rejected, and nothing else changes. */
  lemma {:induction false} FreeSpansAt(occ: seq<bool>, spans: seq<Span>, k: int)
    requires 0 <= k < |occ|
    ensures FreeSpans(occ, spans)[k] == (occ[k] && !CoveredValid(spans, k, |occ|))
    decreases |spans|
  {
    if spans != [] {
      var init, last := spans[..|spans| - 1], spans[|spans| - 1];
      FreeSpansAt(occ, init, k);
      FillAt(FreeSpans(occ, init), last.start, last.start + last.length, false, k);
      if CoveredValid(spans, k, |occ|) && !(ValidSpan(last, |occ|) && InSpan(last, k)) {
        var i :| 0 <= i < |spans| && ValidSpan(spans[i], |occ|) && InSpan(spans[i], k);
        assert init[i] == spans[i];
      }
      if CoveredValid(init, k, |occ|) {
        var i :| 0 <= i < |init| && ValidSpan(init[i], |occ|) && InSpan(init[i], k);
        assert spans[i] == init[i];
      }
    }
  }

  /** Releasing the same list twice is the same as releasing it once. */
  lemma FreeSpansIdempotent(occ: seq<bool>, spans: seq<Span>)
    ensures FreeSpans(FreeSpans(occ, spans), spans) == FreeSpans(occ, spans)
  {
    var once := FreeSpans(occ, spans);
    forall k | 0 <= k < |occ|
      ensures FreeSpans(once, spans)[k] == once[k]
    {
      FreeSpansAt(occ, spans, k);
      FreeSpansAt(once, spans, k);
    }
  }

  /** Releasing units that are already free changes nothing. */
  lemma FreeSpansOfFree(occ: seq<bool>, spans: seq<Span>)
    requires forall k :: 0 <= k < |occ| && CoveredValid(spans, k, |occ|) ==> !occ[k]
    ensures FreeSpans(occ, spans) == occ
  {
    forall k | 0 <= k < |occ|
      ensures FreeSpans(occ, spans)[k] == occ[k]
    {
      FreeSpansAt(occ, spans, k);
    }
  }

  /** A release never lowers the number of free units. */
  lemma FreeSpansCount(occ: seq<bool>, spans: seq<Span>)
    ensures FreeCount(occ) <= FreeCount(FreeSpans(occ, spans))
  {
    forall k | 0 <= k < |occ| && !occ[k]
      ensures !FreeSpans(occ, spans)[k]
    {
      FreeSpansAt(occ, spans, k);
    }
    FreeCountMonotone(occ, FreeSpans(occ, spans));
  }

  /** Releasing the spans a scan granted gives back the map the scan
      started from. */
  lemma ScanRoundTrip(occ: seq<bool>, ii: nat, need: nat)
    requires ii < |occ|
    ensures var r := Scan(occ, ii, need, []); FreeSpans(r.occ, r.spans) == occ
  {
    var r := Scan(occ, ii, need, []);
    ScanShape(occ, ii, need, []);
    ScanGranting(occ, ii, need, []);
    forall k | 0 <= k < |occ|
      ensures FreeSpans(r.occ, r.spans)[k] == occ[k]
    {
      FreeSpansAt(r.occ, r.spans, k);
      ScanOcc(occ, ii, need, [], k);
      ScanGrantsFree(occ, ii, need, [], k);
      CoversIff(r.spans, k);
    }
  }
}
