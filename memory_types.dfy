/** The value types of the allocator's interface: the status codes, the spans
    it hands out and the result record that carries them. */
module MemoryTypes {

  /** The outcome of an allocation or a release. */
  datatype MemoryStatus =
    | Success
    | Unknown
    | InsufficientMemory
    | OutOfMemory
    | InvalidMemoryLocations

  /** One grant: `length` contiguous units beginning at offset `start` of the
      buffer. A negative start stands for a location before the buffer. */
  datatype Span = Span(start: int, length: int)

  /** The result of an allocation: a status and, on success, the spans in the
      order the scan found them. */
  datatype MemoryBlocks = MemoryBlocks(status: MemoryStatus, allocations: seq<Span>)

  /** The record a default-constructed result holds: status Unknown and no
      spans. */
  function DefaultBlocks(): (b: MemoryBlocks)
    ensures b.status == Unknown && b.allocations == []
  {
    MemoryBlocks(Unknown, [])
  }

  /** A result carrying only a status: the given status and no spans. */
  function StatusBlocks(s: MemoryStatus): (b: MemoryBlocks)
    ensures b.status == s && b.allocations == []
  {
    MemoryBlocks(s, [])
  }

  /** The bounds test a release applies: the start lies in [0, n) and the end
      in [0, n]. */
  predicate ValidSpan(s: Span, n: int)
  {
    0 <= s.start < n && 0 <= s.start + s.length <= n
  }

  /** A span of at least one unit lying wholly inside a buffer of n units. */
  predicate Granting(s: Span, n: int)
  {
    0 < s.length && 0 <= s.start && s.start + s.length <= n
  }

  predicate InSpan(s: Span, k: int)
  {
    s.start <= k < s.start + s.length
  }

  /** Unit k lies in some span of the list. */
  predicate Covers(spans: seq<Span>, k: int)
  {
    spans != [] && (Covers(spans[..|spans| - 1], k) || InSpan(spans[|spans| - 1], k))
  }

  predicate Disjoint(a: Span, b: Span)
  {
    a.start + a.length <= b.start || b.start + b.length <= a.start
  }

  function SumLengths(spans: seq<Span>): (sum: int)
  {
    if spans == [] then 0 else SumLengths(spans[..|spans| - 1]) + spans[|spans| - 1].length
  }

  /** `Covers` holds exactly when some listed span contains the unit. */
  lemma {:induction false} CoversIff(spans: seq<Span>, k: int)
    ensures Covers(spans, k) <==> exists i :: 0 <= i < |spans| && InSpan(spans[i], k)
  {
    if spans != [] {
      var init := spans[..|spans| - 1];
      CoversIff(init, k);
      if Covers(init, k) {
        var i :| 0 <= i < |init| && InSpan(init[i], k);
        assert InSpan(spans[i], k);
      }
      if exists i :: 0 <= i < |spans| && InSpan(spans[i], k) {
        var i :| 0 <= i < |spans| && InSpan(spans[i], k);
        if i < |init| {
          assert InSpan(init[i], k);
        }
      }
    }
  }

  lemma CoversSnoc(spans: seq<Span>, s: Span, k: int)
    ensures Covers(spans + [s], k) == (Covers(spans, k) || InSpan(s, k))
  {
    assert (spans + [s])[..|spans|] == spans;
  }

  lemma SumSnoc(spans: seq<Span>, s: Span)
    ensures SumLengths(spans + [s]) == SumLengths(spans) + s.length
  {
    assert (spans + [s])[..|spans|] == spans;
  }
}
