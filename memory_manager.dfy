/** The allocator itself: a fixed buffer of `numBytes` units, a packed
    occupancy bitmap, a counter of free units and a cursor where the next
    search starts. */
module Manager {
  import opened MemoryTypes
  import opened Bitset
  import opened Occupancy
  import opened NextFit
  import opened Release

  class MemoryManager {
    /** The number of units in the buffer. */
    const numBytes: nat
    /** The counter of free units. */
    var availableBytes: int
    /** The cursor: where the next allocation starts searching. */
    var nextByteLocation: int
    /** The bitmap: bit i % 8 of byte i / 8 is 1 when unit i is used. */
    const availabilityBitset: array<bv8>
    /** The occupancy map the bitmap encodes, unit by unit. */
    ghost var used: seq<bool>

    /** The bitmap has numBytes / 8 + 1 bytes and encodes `used`, the counter
        equals the number of free units, and the cursor is a unit of the
        buffer (when it has any). */
    ghost predicate Valid()
      reads this, availabilityBitset
    {
      availabilityBitset.Length == numBytes / 8 + 1 &&
      |used| == numBytes && used == Unpack(availabilityBitset[..], numBytes) &&
      availableBytes == FreeCount(used) &&
      0 <= nextByteLocation && (numBytes > 0 ==> nextByteLocation < numBytes)
    }

    /** An all-free buffer of numBytes units with the cursor at unit 0. */
    constructor (numBytes: nat)
      ensures Valid() && fresh(availabilityBitset)
      ensures this.numBytes == numBytes && nextByteLocation == 0
      ensures availableBytes == numBytes && availabilityBitset.Length == numBytes / 8 + 1
      ensures forall i :: 0 <= i < numBytes ==> !used[i]
    {
      this.numBytes := numBytes;
      availableBytes := numBytes;
      nextByteLocation := 0;
      availabilityBitset := new bv8[numBytes / 8 + 1](_ => 0);
      new;
      used := Unpack(availabilityBitset[..], numBytes);
      UnpackZeros(availabilityBitset[..], numBytes);
      FreeCountFull(used);
    }

    /** Unit ii is free: its bit is 0. */
    function IsAvailable(ii: int): (r: bool)
      reads this, availabilityBitset
      requires Valid() && 0 <= ii < numBytes
      ensures r == !used[ii]
    {
      UnpackAt(availabilityBitset[..], numBytes, ii);
      !BitOf(availabilityBitset[ii / 8], ii % 8)
    }

    /** Set unit ii used (aa) or free (!aa). The counter moves by one exactly
        when the unit changes state, so it keeps counting the free units. */
    method MarkOccupied(ii: int, aa: bool)
      requires Valid() && 0 <= ii < numBytes
      modifies this, availabilityBitset
      ensures Valid()
      ensures used == old(used)[ii := aa]
      ensures availableBytes == old(availableBytes) + (if old(used)[ii] == aa then 0 else if aa then -1 else 1)
      ensures nextByteLocation == old(nextByteLocation)
    {
      UnitIndex(ii, numBytes);
      var index := ii / 8;
      var offset := ii % 8;
      var snapshot := availabilityBitset[index];
      if aa {
        availabilityBitset[index] := SetBit(availabilityBitset[index], offset, true);
        if snapshot != availabilityBitset[index] {
          availableBytes := availableBytes - 1;
        }
      } else {
        availabilityBitset[index] := SetBit(availabilityBitset[index], offset, false);
        if snapshot != availabilityBitset[index] {
          availableBytes := availableBytes + 1;
        }
      }
      assert availabilityBitset[..] == old(availabilityBitset[..])[index := SetBit(snapshot, offset, aa)];
      WriteBit(old(availabilityBitset[..]), availabilityBitset[..], numBytes, ii, aa, old(used));
      used := old(used)[ii := aa];
    }

    /** The run a round of Alloc takes is nonempty, lies in the buffer and
        is no longer than what is still needed. */
    static lemma RunBounds(occ: seq<bool>, ii: nat, need: int, start: int, len: int)
      requires ii < |occ| && 0 < need <= FreeCount(occ)
      requires start == NextFree(occ, ii) && start + len == RunEnd(occ, start, start + need)
      ensures 0 <= start && 0 < len <= need && start + len <= |occ|
    {
      RoundFacts(occ, ii, need, start, start + len);
    }

    /** One round of Alloc's loop is one round of the scan: after the run
        from the next free unit is marked used and appended, the position
        stays in the buffer, less is needed but no more than is free, and
        what remains of the scan from the new position gives the same result
        as before. */
    static lemma {:induction false} RoundStep(occ: seq<bool>, ii: int, count: int, size: int, acc: seq<Span>,
                                              start: int, end: int,
                                              occ': seq<bool>, ii': int, count': int, acc': seq<Span>)
      requires 0 <= ii < |occ| && 0 <= count < size && Granted(size) - count <= FreeCount(occ)
      requires start == NextFree(occ, ii)
      requires end == RunEnd(occ, start, start + (Granted(size) - count))
      requires acc' == acc + [Span(start, end - start)]
      requires occ' == Fill(occ, start, end, true)
      requires ii' == (if end == |occ| then 0 else end)
      requires Granted(size) - count' == Granted(size) - count - (end - start)
      ensures 0 <= ii' < |occ| && count < count' <= Granted(size)
      ensures Granted(size) - count' <= FreeCount(occ')
      ensures Scan(occ', ii', Granted(size) - count', acc') == Scan(occ, ii, Granted(size) - count, acc)
    {
      var need := Granted(size) - count;
      RoundFacts(occ, ii, need, start, end);
      ScanUnfold(occ, ii, need, acc, start, end, occ', ii', Granted(size) - count', acc');
    }

    /** Proof helper: a scan with nothing left to grant stops where it is. */
    static lemma ScanDone(occ: seq<bool>, ii: nat, need: int, acc: seq<Span>, goal: ScanResult)
      requires ii < |occ| && need == 0 && Scan(occ, ii, need, acc) == goal
      ensures goal.spans == acc && goal.occ == occ && goal.cursor == ii
    {
    }

    /** Proof helper: unit ii's byte and bit lie inside the bitmap. */
    static lemma UnitIndex(ii: int, n: nat)
      requires 0 <= ii < n
      ensures 0 <= ii / 8 < n / 8 + 1 && 0 <= ii % 8 < 8
    {
    }

    /** The bitmap after writing unit ii encodes the old map with unit ii
        changed, and the byte changed exactly when the unit did. */
    static lemma WriteBit(before: seq<bv8>, after: seq<bv8>, n: nat, ii: nat, aa: bool, occ: seq<bool>)
      requires n <= 8 * |before| && ii < n && occ == Unpack(before, n)
      requires after == before[ii / 8 := SetBit(before[ii / 8], ii % 8, aa)]
      ensures Unpack(after, n) == occ[ii := aa]
      ensures (after[ii / 8] != before[ii / 8]) == (occ[ii] != aa)
      ensures FreeCount(occ[ii := aa]) == FreeCount(occ) + (if occ[ii] == aa then 0 else if aa then -1 else 1)
    {
      UnpackAt(before, n, ii);
      UnpackSetBit(before, n, ii, aa);
      SetBitChanges(before[ii / 8], ii % 8, aa);
      FreeCountUpdate(occ, ii, aa);
    }

    /** Mark the units [start, start + count) used; nothing happens when count
        is zero or negative. */
    method MarkAllOccupied(start: int, count: int)
      requires Valid() && (count > 0 ==> 0 <= start && start + count <= numBytes)
      modifies this, availabilityBitset
      ensures Valid()
      ensures used == Fill(old(used), start, start + count, true)
      ensures nextByteLocation == old(nextByteLocation)
    {
      var ii := start;
      while ii < start + count
        invariant Valid() && nextByteLocation == old(nextByteLocation)
        invariant start <= ii && (count > 0 ==> ii <= start + count) && (count <= 0 ==> ii == start)
        invariant used == Fill(old(used), start, ii, true)
        decreases start + count - ii
      {
        FillExtend(old(used), start, ii, true);
        MarkOccupied(ii, true);
        ii := ii + 1;
      }
      if count <= 0 {
        FillEmpty(old(used), start, start + count, true);
        FillEmpty(old(used), start, ii, true);
      }
    }

    /** Mark the units [start, start + count) free; nothing happens when count
        is zero or negative. */
    method MarkAllUnoccupied(start: int, count: int)
      requires Valid() && (count > 0 ==> 0 <= start && start + count <= numBytes)
      modifies this, availabilityBitset
      ensures Valid()
      ensures used == Fill(old(used), start, start + count, false)
      ensures nextByteLocation == old(nextByteLocation)
    {
      var ii := start;
      while ii < start + count
        invariant Valid() && nextByteLocation == old(nextByteLocation)
        invariant start <= ii && (count > 0 ==> ii <= start + count) && (count <= 0 ==> ii == start)
        invariant used == Fill(old(used), start, ii, false)
        decreases start + count - ii
      {
        FillExtend(old(used), start, ii, false);
        MarkOccupied(ii, false);
        ii := ii + 1;
      }
      if count <= 0 {
        FillEmpty(old(used), start, start + count, false);
        FillEmpty(old(used), start, ii, false);
      }
    }

    /** The search loop of Alloc: from unit ii, step over used units, wrapping
        from the last unit to unit 0, until a free one. It stops at the first
        free unit in cyclic order, which exists while the counter is
        positive. */
    method SkipUsed(ii: int) returns (jj: int)
      requires Valid() && 0 <= ii < numBytes && availableBytes > 0
      ensures jj == NextFree(used, ii) && 0 <= jj < numBytes && !used[jj]
    {
      NextFreeSkips(used, ii);
      ghost var target := NextFree(used, ii);
      jj := ii;
      while !IsAvailable(jj)
        invariant 0 <= jj < numBytes && NextFree(used, jj) == target
        invariant target < numBytes && !used[target]
        decreases if jj <= target then target - jj else numBytes - jj + target
      {
        NextFreeStep(used, jj);
        jj := jj + 1;
        if jj == numBytes {
          jj := 0;
        }
      }
    }

    /** The run loop of Alloc: from the free unit ii, count free units
        upward, stopping at the end of the buffer, at a used unit, or when
        `count` reaches `size`. It ends where the free run from ii ends,
        capped at what the request still needs. */
    method TakeRun(ii: int, count: int, size: int) returns (jj: int, currentCount: int, countAfter: int)
      requires Valid() && 0 <= ii < numBytes && 0 <= count < size
      ensures ii + currentCount == RunEnd(used, ii, ii + (Granted(size) - count))
      ensures jj == ii + currentCount && countAfter == count + currentCount
    {
      jj := ii;
      currentCount := 0;
      countAfter := count;
      while jj < numBytes && IsAvailable(jj) && countAfter < size
        invariant ii <= jj <= numBytes && currentCount == jj - ii && countAfter == count + currentCount
        invariant RunEnd(used, jj, ii + (Granted(size) - count)) == RunEnd(used, ii, ii + (Granted(size) - count))
        decreases numBytes - jj
      {
        RunEndStep(used, jj, ii + (Granted(size) - count));
        jj := jj + 1;
        currentCount := currentCount + 1;
        countAfter := countAfter + 1;
      }
    }

    /** One round of Alloc's outer loop: find the next free unit from ii,
        take the free run there (up to what is still needed), mark it used
        and append it to the spans, and continue from its end, wrapping at
        the end of the buffer. */
    method TakeNextRun(ii: int, count: int, size: int, allocations: seq<Span>)
      returns (ii': int, count': int, allocations': seq<Span>, ghost runStart: int, ghost runEnd: int)
      requires Valid() && 0 <= ii < numBytes && 0 <= count < size
      requires Granted(size) - count <= availableBytes
      modifies this, availabilityBitset
      ensures Valid() && nextByteLocation == old(nextByteLocation)
      ensures runStart == NextFree(old(used), ii)
      ensures runEnd == RunEnd(old(used), runStart, runStart + (Granted(size) - count))
      ensures allocations' == allocations + [Span(runStart, runEnd - runStart)]
      ensures used == Fill(old(used), runStart, runEnd, true)
      ensures ii' == (if runEnd == |old(used)| then 0 else runEnd)
      ensures Granted(size) - count' == Granted(size) - count - (runEnd - runStart)
    {
      var start := SkipUsed(ii);
      var jj, currentCount;
      jj, currentCount, count' := TakeRun(start, count, size);
      RunBounds(used, ii, Granted(size) - count, start, currentCount);
      MarkAllOccupied(start, currentCount);
      allocations' := allocations + [Span(start, currentCount)];
      ii' := jj;
      runStart, runEnd := start, jj;
      if ii' == numBytes {
        ii' := 0;
      }
    }

    /** The same round seen as a round of the scan: what remains of the
        scan from the new position gives the same result as before. */
    method AllocRound(ii: int, count: int, size: int, allocations: seq<Span>)
      returns (ii': int, count': int, allocations': seq<Span>)
      requires Valid() && 0 <= ii < numBytes && 0 <= count < size
      requires Granted(size) - count <= availableBytes
      modifies this, availabilityBitset
      ensures Valid() && nextByteLocation == old(nextByteLocation)
      ensures 0 <= ii' < numBytes && count < count' <= Granted(size)
      ensures Granted(size) - count' <= availableBytes
      ensures Scan(used, ii', Granted(size) - count', allocations') == Scan(old(used), ii, Granted(size) - count, allocations)
    {
      ghost var occ := used;
      ghost var start, end;
      ii', count', allocations', start, end := TakeNextRun(ii, count, size, allocations);
      RoundStep(occ, ii, count, size, allocations, start, end, used, ii', count', allocations');
    }

    /** Grant `size` units by a next-fit scan from the cursor. With no free
        unit the answer is OutOfMemory, with fewer free units than `size` it
        is InsufficientMemory, and in both cases nothing changes. Otherwise
        the answer is Success with the spans of the scan, the map is the one
        the scan leaves, and while units remain free the cursor moves to the
        first free unit at or after where the scan stopped. */
    method Alloc(size: int) returns (blocks: MemoryBlocks)
      requires Valid()
      modifies this, availabilityBitset
      ensures Valid()
      ensures old(availableBytes) == 0 ==>
        blocks == StatusBlocks(OutOfMemory) && unchanged(this, availabilityBitset)
      ensures old(availableBytes) != 0 && size > old(availableBytes) ==>
        blocks == StatusBlocks(InsufficientMemory) && unchanged(this, availabilityBitset)
      ensures 0 < old(availableBytes) && size <= old(availableBytes) ==>
        old(nextByteLocation) < numBytes &&
        var r := Scan(old(used), old(nextByteLocation), Granted(size), []);
        blocks == MemoryBlocks(Success, r.spans) &&
        used == r.occ && r.cursor < numBytes &&
        nextByteLocation == (if FreeCount(used) > 0 then NextFree(used, r.cursor) else old(nextByteLocation))
    {
      if availableBytes == 0 {
        return StatusBlocks(OutOfMemory);
      }
      if size > availableBytes {
        return StatusBlocks(InsufficientMemory);
      }
      var allocations: seq<Span> := [];
      var count := 0;
      var ii := nextByteLocation;
      ghost var goal := Scan(used, ii, Granted(size), allocations);
      while count < size
        invariant Valid() && nextByteLocation == old(nextByteLocation)
        invariant 0 <= ii < numBytes && 0 <= count <= Granted(size)
        invariant Granted(size) - count <= availableBytes
        invariant Scan(used, ii, Granted(size) - count, allocations) == goal
        decreases Granted(size) - count
      {
        ii, count, allocations := AllocRound(ii, count, size, allocations);
      }
      ScanDone(used, ii, Granted(size) - count, allocations, goal);
      if availableBytes > 0 {
        ii := SkipUsed(ii);
        nextByteLocation := ii;
      }
      return MemoryBlocks(Success, allocations);
    }

    /** Release every span of `blocks`, in list order. A span whose start
        is outside [0, numBytes) or whose end is outside [0, numBytes] is
        skipped and reported: the answer is InvalidMemoryLocations exactly
        when some span is out of range, and the valid spans are freed all
        the same. When the buffer was full before the call, no span was out
        of range and the list is nonempty, the cursor moves to the start of
        the first span; otherwise it stays. */
    method Free(blocks: MemoryBlocks) returns (status: MemoryStatus)
      requires Valid()
      modifies this, availabilityBitset
      ensures Valid()
      ensures used == FreeSpans(old(used), blocks.allocations)
      ensures status == if AnyInvalid(blocks.allocations, numBytes) then InvalidMemoryLocations else Success
      ensures nextByteLocation ==
        if old(availableBytes) == 0 && !AnyInvalid(blocks.allocations, numBytes) && blocks.allocations != []
        then blocks.allocations[0].start else old(nextByteLocation)
    {
      var outOfMemory := availableBytes == 0;
      var foundBadLocations := false;
      var allocations := blocks.allocations;
      for i := 0 to |allocations|
        invariant Valid() && nextByteLocation == old(nextByteLocation)
        invariant used == FreeSpans(old(used), allocations[..i])
        invariant foundBadLocations == AnyInvalid(allocations[..i], numBytes)
      {
        assert allocations[..i + 1] == allocations[..i] + [allocations[i]];
        FreeSpansSnoc(old(used), allocations[..i], allocations[i]);
        AnyInvalidSnoc(allocations[..i], allocations[i], numBytes);
        var ll := allocations[i].start;
        var rr := ll + allocations[i].length;
        if ll < 0 || ll >= numBytes {
          foundBadLocations := true;
          continue;
        }
        if rr < 0 || rr > numBytes {
          foundBadLocations := true;
          continue;
        }
        MarkAllUnoccupied(ll, allocations[i].length);
      }
      assert allocations[..|allocations|] == allocations;
      if outOfMemory && !foundBadLocations && |allocations| > 0 {
        assert ValidSpan(allocations[0], numBytes);
        nextByteLocation := allocations[0].start;
      }
      if foundBadLocations {
        return InvalidMemoryLocations;
      }
      return Success;
    }

    /** The picture of the buffer: one character per unit, 'X' for a used
        unit and '-' for a free one. */
    method Output() returns (ss: string)
      requires Valid()
      ensures |ss| == numBytes
      ensures forall k :: 0 <= k < numBytes ==> ss[k] == if used[k] then 'X' else '-'
    {
      ss := "";
      for ii := 0 to numBytes
        invariant |ss| == ii
        invariant forall k :: 0 <= k < ii ==> ss[k] == if used[k] then 'X' else '-'
      {
        if IsAvailable(ii) {
          ss := ss + "-";
        } else {
          ss := ss + "X";
        }
      }
    }

    /** The counter, which is the number of free units. */
    function GetAvailableBytes(): (r: int)
      reads this, availabilityBitset
      requires Valid()
      ensures r == FreeCount(used) && 0 <= r <= numBytes
    {
      availableBytes
    }

    /** The cursor, a unit of the buffer when it has any. */
    function GetNextByteLocation(): (r: int)
      reads this, availabilityBitset
      requires Valid()
      ensures 0 <= r && (numBytes > 0 ==> r < numBytes)
    {
      nextByteLocation
    }

    /** A copy of the bitmap: numBytes / 8 + 1 bytes whose first numBytes
        bits are the occupancy map. */
    function GetAvailabilityBitset(): (r: seq<bv8>)
      reads this, availabilityBitset
      requires Valid()
      ensures |r| == numBytes / 8 + 1 && Unpack(r, numBytes) == used
    {
      availabilityBitset[..]
    }

    /** The number of units in the buffer. */
    function Size(): (r: nat)
      reads this, availabilityBitset
      requires Valid()
      ensures r == |used|
    {
      numBytes
    }

    /** Move the cursor to unit val; nothing else changes. */
    method SetNextByteLocation(val: int)
      requires Valid() && 0 <= val < numBytes
      modifies this
      ensures Valid() && nextByteLocation == val
      ensures used == old(used) && availableBytes == old(availableBytes)
    {
      nextByteLocation := val;
    }
  }
}
