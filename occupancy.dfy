/** The abstract occupancy map: a sequence with one entry per unit of the
    buffer, true where the unit is used. These functions are the scan steps
    the allocator performs on it. */
module Occupancy {

  /** The number of free units. */
  function FreeCount(occ: seq<bool>): (c: nat)
    ensures c <= |occ|
  {
    if occ == [] then 0 else (if occ[0] then 0 else 1) + FreeCount(occ[1..])
  }

  /** Units in [lo, hi) set to v, all others kept. */
  function Fill(occ: seq<bool>, lo: int, hi: int, v: bool): (r: seq<bool>)
    ensures |r| == |occ|
    decreases hi - lo
  {
    if hi <= lo then occ
    else if 0 <= hi - 1 < |occ| then Fill(occ, lo, hi - 1, v)[hi - 1 := v]
    else Fill(occ, lo, hi - 1, v)
  }

  /** Unit k after the fill: v inside [lo, hi), as before outside it. */
  lemma {:induction false} FillAt(occ: seq<bool>, lo: int, hi: int, v: bool, k: int)
    requires 0 <= k < |occ|
    ensures Fill(occ, lo, hi, v)[k] == if lo <= k < hi then v else occ[k]
    decreases hi - lo
  {
    if lo < hi {
      FillAt(occ, lo, hi - 1, v, k);
    }
  }

  /** Setting one more unit at the top of a filled range extends the range. */
  lemma FillExtend(occ: seq<bool>, lo: int, hi: int, v: bool)
    requires lo <= hi < |occ| && 0 <= hi
    ensures Fill(occ, lo, hi, v)[hi := v] == Fill(occ, lo, hi + 1, v)
  {
  }

  /** An empty range changes nothing. */
  lemma FillEmpty(occ: seq<bool>, lo: int, hi: int, v: bool)
    requires hi <= lo
    ensures Fill(occ, lo, hi, v) == occ
  {
  }

  /** The first free unit in [i, |occ|), or |occ| when there is none. */
  function FirstFreeFrom(occ: seq<bool>, i: nat): (r: nat)
    requires i <= |occ|
    ensures i <= r <= |occ|
    ensures r < |occ| ==> !occ[r]
    decreases |occ| - i
  {
    if i == |occ| then i else if !occ[i] then i else FirstFreeFrom(occ, i + 1)
  }

  /** Every unit the search passes over is used. */
  lemma {:induction false} FirstFreeFromSkips(occ: seq<bool>, i: nat)
    requires i <= |occ|
    ensures forall k :: i <= k < FirstFreeFrom(occ, i) ==> occ[k]
    decreases |occ| - i
  {
    if i < |occ| && occ[i] {
      FirstFreeFromSkips(occ, i + 1);
    }
  }

  /** The search from i stops at r when the units in [i, r) are used and
      unit r is free. */
  lemma {:induction false} FirstFreeFromAt(occ: seq<bool>, i: nat, r: nat)
    requires i <= r < |occ| && !occ[r]
    requires forall k :: i <= k < r ==> occ[k]
    ensures FirstFreeFrom(occ, i) == r
    decreases r - i
  {
    if i < r {
      FirstFreeFromAt(occ, i + 1, r);
    }
  }

  /** The first free unit met when scanning from i upward and wrapping from
      the last unit to unit 0, or |occ| when every unit is used. */
  function NextFree(occ: seq<bool>, i: nat): (r: nat)
    requires i < |occ|
    ensures r <= |occ|
    ensures r < |occ| ==> !occ[r]
  {
    var j := FirstFreeFrom(occ, i);
    if j < |occ| then j else FirstFreeFrom(occ, 0)
  }

  /** The cyclic search finds a unit whenever one is free, and every unit it
      passes over is used: those in [i, r) when it found r at or after i,
      and otherwise those from i to the end and those before r. */
  lemma NextFreeSkips(occ: seq<bool>, i: nat)
    requires i < |occ| && FreeCount(occ) > 0
    ensures var r := NextFree(occ, i);
      r < |occ| &&
      (i <= r ==> forall k :: i <= k < r ==> occ[k]) &&
      (r < i ==> (forall k :: i <= k < |occ| ==> occ[k]) && (forall k :: 0 <= k < r ==> occ[k]))
  {
    FirstFreeFromSkips(occ, i);
    FirstFreeFromSkips(occ, 0);
    FreeCountZero(occ);
  }

  /** The end of the free run that begins at j: the first unit at or after j
      that is past the buffer, used, or at the limit. */
  function RunEnd(occ: seq<bool>, j: nat, limit: int): (e: nat)
    requires j <= |occ|
    ensures j <= e <= |occ|
    ensures j < e ==> e <= limit
    ensures j < |occ| && !occ[j] && j < limit ==> j < e
    ensures e == |occ| || occ[e] || limit <= e
    decreases |occ| - j
  {
    if j < |occ| && !occ[j] && j < limit then RunEnd(occ, j + 1, limit) else j
  }

  /** The run from j ends at e when the units in [j, e) are free and below
      the limit, and e is the end of the buffer, a used unit or the limit. */
  lemma {:induction false} RunEndAt(occ: seq<bool>, j: nat, limit: int, e: nat)
    requires j <= e <= |occ| && e <= limit
    requires forall k :: j <= k < e ==> !occ[k]
    requires e == |occ| || occ[e] || e == limit
    ensures RunEnd(occ, j, limit) == e
    decreases e - j
  {
    if j < e {
      RunEndAt(occ, j + 1, limit, e);
    }
  }

  /** The run goes on past a free unit below the limit. */
  lemma RunEndStep(occ: seq<bool>, j: nat, limit: int)
    requires j < |occ| && !occ[j] && j < limit
    ensures RunEnd(occ, j, limit) == RunEnd(occ, j + 1, limit)
  {
  }

  /** Every unit of the run is free. */
  lemma {:induction false} RunEndFree(occ: seq<bool>, j: nat, limit: int)
    requires j <= |occ|
    ensures forall k :: j <= k < RunEnd(occ, j, limit) ==> !occ[k]
    decreases |occ| - j
  {
    if j < |occ| && !occ[j] && j < limit {
      RunEndFree(occ, j + 1, limit);
    }
  }

  /** No unit is free exactly when every unit is used. */
  lemma {:induction false} FreeCountZero(occ: seq<bool>)
    ensures FreeCount(occ) == 0 <==> forall k :: 0 <= k < |occ| ==> occ[k]
  {
    if occ != [] {
      FreeCountZero(occ[1..]);
      if forall k :: 0 <= k < |occ[1..]| ==> occ[1..][k] {
        assert forall k :: 1 <= k < |occ| ==> occ[k] by {
          forall k | 1 <= k < |occ| ensures occ[k] {
            assert occ[k] == occ[1..][k - 1];
          }
        }
      }
    }
  }

  /** Every unit is free exactly when the count is the length. */
  lemma {:induction false} FreeCountFull(occ: seq<bool>)
    ensures FreeCount(occ) == |occ| <==> forall k :: 0 <= k < |occ| ==> !occ[k]
  {
    if occ != [] {
      FreeCountFull(occ[1..]);
      if forall k :: 0 <= k < |occ[1..]| ==> !occ[1..][k] {
        assert forall k :: 1 <= k < |occ| ==> !occ[k] by {
          forall k | 1 <= k < |occ| ensures !occ[k] {
            assert occ[k] == occ[1..][k - 1];
          }
        }
      }
    }
  }

  /** Writing one unit moves the free count by one exactly when the unit
      changes state. */
  lemma {:induction false} FreeCountUpdate(occ: seq<bool>, i: nat, v: bool)
    requires i < |occ|
    ensures FreeCount(occ[i := v]) == FreeCount(occ) + (if occ[i] == v then 0 else if v then -1 else 1)
  {
    if i == 0 {
      assert occ[i := v][1..] == occ[1..];
    } else {
      assert occ[i := v][1..] == occ[1..][i - 1 := v];
      FreeCountUpdate(occ[1..], i - 1, v);
    }
  }

  /** Occupying a run of free units lowers the free count by its length. */
  lemma {:induction false} FillFreeCount(occ: seq<bool>, lo: nat, hi: nat)
    requires lo <= hi <= |occ|
    requires forall k :: lo <= k < hi ==> !occ[k]
    ensures FreeCount(Fill(occ, lo, hi, true)) == FreeCount(occ) - (hi - lo)
    decreases hi - lo
  {
    if hi == lo {
      assert Fill(occ, lo, hi, true) == occ;
    } else {
      FillFreeCount(occ, lo, hi - 1);
      FillAt(occ, lo, hi - 1, true, hi - 1);
      FreeCountUpdate(Fill(occ, lo, hi - 1, true), hi - 1, true);
    }
  }

  /** Where every unit free in occ is free in occ', occ' has at least as many
      free units. */
  lemma {:induction false} FreeCountMonotone(occ: seq<bool>, occ': seq<bool>)
    requires |occ| == |occ'|
    requires forall k :: 0 <= k < |occ| && !occ[k] ==> !occ'[k]
    ensures FreeCount(occ) <= FreeCount(occ')
  {
    if occ != [] {
      assert forall k :: 0 <= k < |occ[1..]| && !occ[1..][k] ==> !occ'[1..][k] by {
        forall k | 0 <= k < |occ[1..]| && !occ[1..][k] ensures !occ'[1..][k] {
          assert occ[1..][k] == occ[k + 1];
        }
      }
      FreeCountMonotone(occ[1..], occ'[1..]);
    }
  }

  /** One step of the scan past a used unit keeps the target free unit. */
  lemma NextFreeStep(occ: seq<bool>, i: nat)
    requires i < |occ| && FreeCount(occ) > 0 && occ[i]
    ensures NextFree(occ, i) == NextFree(occ, if i + 1 == |occ| then 0 else i + 1)
  {
    NextFreeSkips(occ, i);
    NextFreeSkips(occ, if i + 1 == |occ| then 0 else i + 1);
    if i + 1 == |occ| {
      FreeCountZero(occ);
    }
  }
}
