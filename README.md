# MemoryManager — a verified model of a bitmap next-fit allocator

The modelled system is `MemoryManager`, a fixed-size allocator. It manages a buffer of
N units that the caller owns. It records occupancy in a packed bitmap, with one bit per
unit: 1 means used and 0 means free. It also keeps a counter of free units and a cursor
where the next search starts.

`Alloc(size)` fails in two cases, and changes nothing when it does:
- with `OUT_OF_MEMORY` when no unit is free;
- with `INSUFFICIENT_MEMORY` when fewer than `size` units are free.

Otherwise `Alloc` runs a next-fit scan that starts at the cursor and wraps around at the
end of the buffer. The scan strings free runs together until `size` units are granted.
It marks those units used and returns them as a list of (offset, length) spans. Finally
it moves the cursor to the next free unit.

`Free(blocks)` releases every span that lies inside the buffer and skips the rest. It
reports `INVALID_MEMORY_LOCATIONS` when any span was skipped. When the buffer was full,
no span was skipped and the list is nonempty, it moves the cursor to the first span.

The project has six modules:

- `MemoryTypes` (`memory_types.dfy`) holds the status enum, the `Span` pair and the
  `MemoryBlocks` result. A span's offset is an integer relative to the buffer; a
  negative offset stands for a pointer before it.
- `Bitset` (`bitset.dfy`) covers the byte-level bitmap. Unit i is bit i % 8 of byte
  i / 8. `Unpack` reads the bitmap as a sequence of booleans, one per unit.
- `Occupancy` (`occupancy.dfy`) defines the unit-level map (`seq<bool>`, true for used)
  and the steps the allocator performs on it:
  - the free count;
  - filling a range;
  - the cyclic search for a free unit (`NextFree`);
  - the end of a free run (`RunEnd`).
- `NextFit` (`next_fit.dfy`) defines `Scan`, the allocation loop written as a recursive
  function. It has the same rounds and the same wraparound as the nested loops, and it
  stops when nothing more is needed, as they do. It also stops when no unit is free,
  where the C++ search loop (`src/memory_manager.cpp:31-36`) would spin forever; `Alloc`
  never reaches that case, because it scans only when enough units are free. The
  module then proves what a scan grants.
- `Release` (`release.dfy`) defines `FreeSpans`, a release written as a function, and
  proves what it guarantees. It also proves the round trip: releasing what a scan
  granted gives back the map the scan started from.
- `Manager` (`memory_manager.dfy`) holds the class `MemoryManager` itself.
  - Its fields are the size, the counter, the cursor and the bitmap as an
    `array<bv8>`. A ghost field `used` holds the unit-level map.
  - `Valid()` is the class invariant: the bitmap encodes `used`, the counter equals
    `FreeCount(used)`, and the cursor is a unit of the buffer.
  - Each method keeps `Valid()` and states its new state.
  - `Alloc`'s loops are specified against `Scan`, and `Free`'s loop against
    `FreeSpans`.

`Scenario` (`scenario.dfy`) works through the wraparound example from the tests:
- units [10, 20) and [30, 40) are used and the cursor is at 25;
- a request for 20 units then receives [25, 30), [40, 50) and [0, 5), in that order;
- ten units stay free, and the next search starts at unit 5.

⌈N / 8⌉ bytes would suffice for the bitmap; the code allocates N / 8 + 1
(`src/memory_manager.cpp:11`), and the model follows the code. That is one byte more
whenever N is a multiple of 8: 48 units get 7 bytes, not 6. A buffer of 50 units has
7 bytes.

Some parts of the C++ are restructured:
- `markOccupied` writes the bit with `SetBit`, which ors in the mask or ands in its
  complement, just as the C++ does.
- `Alloc`'s inner loops become the methods `SkipUsed` (move to a free unit) and
  `TakeRun` (count a free run). `TakeNextRun` and `AllocRound` make up one round of the
  outer loop.
- The C++ guard `if (current_count > 0)` is always true, because a round always finds a
  run of at least one unit (`RunBounds`). The model therefore marks and appends the run
  without the test.

## Model

| member | source | states |
|---|---|---|
| MemoryTypes.MemoryStatus | src/memory_manager.h:42-48 | The five outcomes of an allocation or a release: Success, Unknown, InsufficientMemory, OutOfMemory, InvalidMemoryLocations. |
| MemoryTypes.Span | src/memory_manager.h:54-55 | One allocation entry: the offset of the first unit from the start of the buffer (negative for a location before it) and the number of contiguous units. |
| MemoryTypes.MemoryBlocks | src/memory_manager.h:50-55 | A result: a status and the list of allocation entries. |
| MemoryTypes.DefaultBlocks | src/memory_manager.h:57-59 | A default-constructed result has status Unknown and no allocations. |
| MemoryTypes.StatusBlocks | src/memory_manager.h:61-63 | A result built from a status alone carries that status and no allocations; Alloc's two failure results are of this form. |
| MemoryTypes.ValidSpan | src/memory_manager.cpp:76-85 | The bounds test of a release: a span passes when its start lies in [0, N) and its end in [0, N]. |
| Bitset.BitOf | src/memory_manager.cpp:106-107 | The mask test: bit k of a byte is set when the byte and-ed with 1 << k is nonzero. |
| Bitset.SetBit | src/memory_manager.cpp:116-125 | The byte write: or-ing in the mask to set the bit, and-ing with its complement to clear it. |
| Bitset.Unpack | src/memory_manager.h:112-113 | The bitmap read unit by unit: unit i is bit i % 8 of byte i / 8, and 1 means used. The result has one entry per unit. |
| Occupancy.FreeCount | src/memory_manager.cpp:9 | The number of free units, which the counter starts at and must always equal (markOccupied moves it at lines 121 and 127); it is at most the number of units. |
| Occupancy.Fill | src/memory_manager.cpp:132-142 | What the mark loops do to the map: the units in [lo, hi) set to used or free, all others kept; the map keeps its size. |
| Occupancy.NextFree | src/memory_manager.cpp:31-36 | The search loop's stopping point (the same loop recurs at lines 60-65): the first free unit from i upward, wrapping from the last unit to unit 0, or N when none is free. The unit found is free. |
| Occupancy.RunEnd | src/memory_manager.cpp:39-45 | The run loop's stopping point: the first unit at or after j that is past the buffer, used, or at the limit. It is at most the limit when the run is nonempty, and the run is nonempty when unit j is free and below the limit. |
| NextFit.Scan | src/memory_manager.cpp:27-56 | The allocation loop as a function: skip to the next free unit, take the free run there up to what is still needed, mark it used, append it, continue from its end (wrapping at N), and stop when nothing is needed. Its properties are the NextFit lemmas below. |
| Release.ReleaseSpan | src/memory_manager.cpp:76-87 | One span of a release: a span that passes the bounds test has its units marked free, and any other span changes nothing. |
| Release.FreeSpans | src/memory_manager.cpp:75-88 | The release loop as a function: the spans released one after the other, in list order. |
| Manager.MemoryManager.Valid | src/memory_manager.h:105-113 | The class invariant: the bitmap has N / 8 + 1 bytes and encodes the map, the counter equals the number of free units, and the cursor is a unit of the buffer when there is one. |
| Bitset.SetBitAt | src/memory_manager.cpp:113-125 | Setting (or-ing in the mask) or clearing (and-ing with its complement) bit k sets bit k to the requested value and keeps every other bit of the byte. |
| Bitset.SetBitChanges | src/memory_manager.cpp:117-128 | The byte differs from its snapshot exactly when the bit did not already hold the requested value; this is the test that decides whether the counter moves. |
| Bitset.UnpackAt | src/memory_manager.cpp:103-110 | Unit i of the map is bit i % 8 of byte i / 8. |
| Bitset.UnpackSetBit | src/memory_manager.cpp:113-125 | Rewriting bit i % 8 of byte i / 8 changes unit i of the map and no other unit. |
| Bitset.UnpackZeros | src/memory_manager.cpp:11-12 | A bitmap of zero bytes marks every unit free. |
| Occupancy.FillAt | src/memory_manager.cpp:132-142 | Filling [lo, hi) with v sets exactly the units in [lo, hi) to v and keeps every other unit. |
| Occupancy.FirstFreeFromSkips | src/memory_manager.cpp:31-36 | Every unit the upward search passes over is used. |
| Occupancy.FirstFreeFromAt | src/memory_manager.cpp:31-36 | The upward search from i stops at r when [i, r) are used and r is free. |
| Occupancy.NextFreeSkips | src/memory_manager.cpp:31-36 | While some unit is free, the cyclic search from i finds one. Every unit it passes is used: [i, r) when r is at or after i, and otherwise [i, N) and [0, r). |
| Occupancy.RunEndAt | src/memory_manager.cpp:39-45 | The run loop from j stops at e when [j, e) are free and below the limit, and e is the end of the buffer, a used unit or the limit. |
| Occupancy.RunEndFree | src/memory_manager.cpp:39-45 | Every unit of the run that the run loop counts is free (all units at once). |
| Occupancy.FreeCountZero | src/memory_manager.cpp:16-18 | The free count is zero exactly when every unit is used. |
| Occupancy.FreeCountFull | src/memory_manager.cpp:9 | The free count is N exactly when every unit is free. |
| Occupancy.FreeCountUpdate | src/memory_manager.cpp:113-130 | Writing one unit moves the free count by one exactly when the unit changes state: down when it becomes used, up when it becomes free. |
| Occupancy.FillFreeCount | src/memory_manager.cpp:47 | Marking a run of free units used lowers the free count by the run's length. |
| Occupancy.FreeCountMonotone | src/memory_manager.cpp:87 | A map in which every unit that was free stays free has at least as many free units. |
| NextFit.RoundFacts | src/memory_manager.cpp:29-47 | While units are needed and no more are needed than are free, the round's run starts at a free unit, is nonempty and no longer than needed, and lowers the free count by its length. This is why the loops terminate. |
| NextFit.ScanShape | src/memory_manager.cpp:51-55 | The scan leaves a map of the same size and stops at a unit of the buffer. |
| NextFit.ScanSum | src/memory_manager.cpp:29-56 | When enough units are free, the lengths of the spans the scan adds sum to exactly the units requested. |
| NextFit.ScanFreeCount | src/memory_manager.cpp:29-56 | When enough units are free, the scan lowers the free count by exactly the units requested. |
| NextFit.ScanGranting | src/memory_manager.cpp:41-48 | Every span the scan adds has a positive length and lies inside [0, N). |
| NextFit.ScanCoversAcc | src/memory_manager.cpp:48 | The scan only appends: units covered by the starting spans stay covered. |
| NextFit.ScanOcc | src/memory_manager.cpp:29-56 | After the scan a unit is used exactly when it was used before or a returned span covers it, so no other unit changes. |
| NextFit.ScanGrantsFree | src/memory_manager.cpp:39-47 | Every unit a new span covers was free before the scan. |
| NextFit.ScanDisjoint | src/memory_manager.cpp:29-56 | The spans the scan returns are pairwise disjoint. |
| NextFit.CyclicRound | src/memory_manager.cpp:29-55 | Seen from the cursor: when every unit nearer to the cursor than the scan's position is used, the round's run starts no nearer than that position and does not run past the cursor. Afterwards every unit nearer than the run's end is used, and the next position lies at the run's end (wrapping at N). |
| NextFit.ScanCyclic | src/memory_manager.cpp:27-56 | Under that invariant, the spans the scan returns stay in cyclic order from the cursor and end no more than one pass from it. |
| NextFit.ScanCyclicOrder | src/memory_manager.cpp:27-56 | When enough units are free, the spans of a scan from cursor c come in cyclic order from c. With d(x) = (x - c + N) % N, each span satisfies d(start) + length <= d(next start), and the last ends within N of c, so the scan passes the cursor at most once. |
| NextFit.ScanStops | src/memory_manager.cpp:29-56 | While every unit less than t from c is used and the scan stands t units past c, the scan only appends; with nothing appended it stays put; otherwise it stops right after its last span, wrapping at N, and every unit cyclically before that point is used afterwards. |
| NextFit.ScanNextFit | src/memory_manager.cpp:29-56 | When enough units are free, a scan from c that grants nothing stays at c; otherwise it stops right after its last span (at unit 0 when that span reaches N), and every unit from c cyclically up to that point is used afterwards, so no free unit was skipped. |
| NextFit.ScanGrants | src/memory_manager.cpp:29-56 | Every property of a successful allocation that the model proves: positive lengths inside [0, N) summing to the request, pairwise disjoint, covering only units free before, used afterwards exactly the old used units plus the covered ones, the free count down by the request, the spans in cyclic order from the cursor within one pass of the buffer, and the scan stopping right after the last span (wrapping at N) with every unit cyclically before that point used, so no free unit was skipped. |
| Release.FreeSpansSnoc | src/memory_manager.cpp:75-88 | Releasing a list with one more span releases that span after the others, in list order. |
| Release.AnyInvalidSnoc | src/memory_manager.cpp:78-85 | A list with one more span has an out-of-range span exactly when the list had one or the new span is out of range. |
| Release.FreeSpansAt | src/memory_manager.cpp:75-88 | After a release a unit is used exactly when it was used before and no in-range span covers it. In-range spans are freed even when others are rejected, and nothing else changes. |
| Release.FreeSpansIdempotent | src/memory_manager.cpp:72-101 | Releasing the same list twice leaves the same map as releasing it once. |
| Release.FreeSpansOfFree | src/memory_manager.cpp:87 | Releasing units that are already free changes nothing, so the counter stays the same. |
| Release.FreeSpansCount | src/memory_manager.cpp:87 | A release never lowers the number of free units. |
| Release.ScanRoundTrip | src/memory_manager.cpp:29-88 | Releasing the spans a scan granted restores the map the scan started from. |
| Manager.MemoryManager.constructor | src/memory_manager.cpp:6-13 | The new manager is valid with every unit free, the counter at N, the cursor at 0, and a bitmap of N / 8 + 1 bytes. |
| Manager.MemoryManager.IsAvailable | src/memory_manager.cpp:103-111 | The unit is available exactly when the map says it is free, read from bit ii % 8 of byte ii / 8. |
| Manager.MemoryManager.MarkOccupied | src/memory_manager.cpp:113-130 | Only unit ii changes, to the requested state. The counter moves by exactly one, and only when the unit flips, so re-marking changes nothing and the counter keeps counting the free units. |
| Manager.MemoryManager.WriteBit | src/memory_manager.cpp:113-130 | The bitmap after the byte write encodes the old map with only unit ii changed. The byte changed exactly when the unit did, and the free count moves accordingly. |
| Manager.MemoryManager.MarkAllOccupied | src/memory_manager.cpp:132-136 | The units [start, start + count) become used and every other unit, and the cursor, are unchanged. |
| Manager.MemoryManager.MarkAllUnoccupied | src/memory_manager.cpp:138-142 | The units [start, start + count) become free and every other unit, and the cursor, are unchanged. |
| Manager.MemoryManager.SkipUsed | src/memory_manager.cpp:31-36 | The search loop stops at the first free unit in cyclic order from ii, which exists while the counter is positive. |
| Manager.MemoryManager.TakeRun | src/memory_manager.cpp:39-45 | The run loop ends where the free run from ii ends, capped at the units still needed; the count grows by the run's length. |
| Manager.MemoryManager.RunBounds | src/memory_manager.cpp:41-49 | The run a round takes is nonempty, lies in the buffer and is no longer than what is still needed. |
| Manager.MemoryManager.TakeNextRun | src/memory_manager.cpp:29-55 | One round of the outer loop takes the run from the next free unit, marks it used and appends it. It continues from the run's end, or from unit 0 when the run reached the end of the buffer. |
| Manager.MemoryManager.RoundStep | src/memory_manager.cpp:29-56 | After one round the position stays in the buffer, the count grows but stays at most the request, the free units still cover what is needed, and the rest of the scan gives the same result. |
| Manager.MemoryManager.AllocRound | src/memory_manager.cpp:29-56 | One round of the loop is one round of the scan, and it keeps the loop's invariant. |
| Manager.MemoryManager.Alloc | src/memory_manager.cpp:15-70 | With no free unit: OutOfMemory, no spans, nothing changed. With fewer free units than size: InsufficientMemory, no spans, nothing changed. Otherwise: Success with the spans of the scan from the cursor, the map the scan leaves, and, while any unit is free, the cursor at the first free unit cyclically from where the scan stopped. |
| Manager.MemoryManager.Free | src/memory_manager.cpp:72-101 | The map becomes the release of the spans in order. The status is InvalidMemoryLocations exactly when some span's start is outside [0, N) or its end outside [0, N], and Success otherwise. The cursor moves to the first span's start exactly when the buffer was full, no span was out of range and the list is nonempty. |
| Manager.MemoryManager.Output | src/memory_manager.cpp:144-152 | The picture has one character per unit: 'X' for a used unit and '-' for a free one. |
| Manager.MemoryManager.GetAvailableBytes | src/memory_manager.h:99 | The counter is the number of free units, between 0 and N. |
| Manager.MemoryManager.GetNextByteLocation | src/memory_manager.h:100 | The cursor is a unit of the buffer when it has any. |
| Manager.MemoryManager.GetAvailabilityBitset | src/memory_manager.h:101 | The copy has N / 8 + 1 bytes and encodes the occupancy map. |
| Manager.MemoryManager.Size | src/memory_manager.h:103 | The size is the number of units in the map. |
| Manager.MemoryManager.SetNextByteLocation | src/memory_manager.h:102 | Only the cursor changes: it becomes val, and the map and counter stay the same. |
| Scenario.TwoBlocksMarked | src/memory_manager_tests.cpp:172-174 | Marking [10, 20) and then [30, 40) used in a free buffer of 50 units leaves exactly those units used and 30 free. |
| Scenario.FirstStep | src/memory_manager_tests.cpp:172-177 | From the cursor at 25, the first round takes [25, 30), and 25 units stay free. |
| Scenario.SecondStep | src/memory_manager_tests.cpp:172-177 | The second round passes the used [30, 40), takes [40, 50) and wraps to unit 0, and 15 units stay free. |
| Scenario.ThirdStep | src/memory_manager_tests.cpp:172-177 | The third round takes [0, 5), which completes the request. Ten units stay free and unit 5 is free. |
| Scenario.WraparoundScan | src/memory_manager_tests.cpp:172-192 | Allocating 20 units from unit 25 yields [25, 30), [40, 50), [0, 5) in that order. Ten units stay free, and the next search starts at unit 5. |

## Left out

- `Output` does not model the `std::cout` print. It returns the string the C++ builds
  and would print.
- The buffer pointer and `char*` arithmetic are not modelled. A span's start is the
  offset `pointer - buffer`, and the buffer's contents are never read or written.
- `src/main.cpp` (a console demo driver), the `TESTING_VISIBLE` visibility switch and
  the test fixture are not part of this model.
- Thread safety is not modelled: the class has no locking, and the model is sequential.
- `Manager.MemoryManager.constructor` takes a natural number of units. A negative
  `num_bytes` is not modelled.
- Integer width is not modelled. The model's integers are unbounded, so the 32-bit
  overflow of `ll + len` in `Free` and of `start + count` in the mark loops does not
  occur.
- `Manager.MemoryManager.IsAvailable`, `MarkOccupied`, `MarkAllOccupied` and
  `MarkAllUnoccupied` require their units to lie in [0, N), because the C++ does not
  check them. An index of 8 · (N / 8 + 1) or more, or one of -8 or less, reads or writes
  outside the bitmap. An index in [-7, -1] gives byte index 0 and a negative bit offset
  (C++ division truncates toward zero), so the mask is a shift by a negative count,
  which is undefined behaviour. An index in [N, 8 · (N / 8 + 1)) lands in a spare bit of the last
  byte. For N = 50, `markOccupied(50, true)` sets bit 2 of byte 6, and it decrements
  the counter for a unit that does not exist, so the counter no longer equals the
  number of free units.
- `Manager.MemoryManager.SetNextByteLocation` requires the new cursor to lie in
  [0, N). The C++ accepts any `int`. A cursor at exactly N is harmless while its spare
  bit is clear, as `Alloc` and `Free` leave it: the run is empty and the position wraps
  to 0. A cursor in [N + 1, 8 · (N / 8 + 1)) makes a later `Alloc` read a clear spare
  bit as free; its run loop takes nothing because the position is past N, and the
  position never changes, so the outer loop does not end. A cursor of 8 · (N / 8 + 1)
  or more reads outside the bitmap, and a negative one reads as a negative index does
  in `IsAvailable` above.
- `Manager.MemoryManager.Valid` keeps only "the cursor is a unit of the buffer". It does
  not keep "the cursor is at a free unit", because the C++ does not maintain that:
  freeing a zero-length first span on a full buffer moves the cursor onto a used unit.
- `Manager.MemoryManager.Alloc` states its success case by the scan's result. The
  properties of the returned spans are proved about that result in
  `NextFit.ScanGrants`, not repeated in `Alloc`'s own contract.
- `Manager.MemoryManager.GetNextByteLocation` states only the cursor's range, because
  its value is just the field.
- The bits of the bitmap's last byte beyond unit N are not constrained by `Valid`.
  `Alloc` and `Free` never set them. Only a direct `markOccupied` call, or a mark loop
  with an index in [N, 8 · (N / 8 + 1)), does, and the model excludes that case.
