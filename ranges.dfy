/**
 * Conversions between Foundation's `NSRange` (a location and a length) and
 * Swift's half-open `Range<Int>` (`startIndex..<endIndex`).
 *
 * Swift's `Int` is a 64-bit signed integer here, and an arithmetic overflow
 * traps, as does forming a range whose end lies before its start; each such
 * trap is a precondition the caller must meet.
 */
module Ranges {

  const IntMin: int := -0x8000_0000_0000_0000
  const IntMax: int := 0x7FFF_FFFF_FFFF_FFFF

  /** True when `x` is representable as a Swift `Int`. */
  predicate Fits(x: int)
  {
    IntMin <= x <= IntMax
  }

  /** Swift's 64-bit `Int`. */
  type Int = x: int | Fits(x)

  datatype NSRange = NSRange(location: Int, length: Int)

  /**
   * `startIndex..<endIndex`. `Valid` is `Range`'s documented invariant, that
   * `endIndex` is reachable from `startIndex`; the `..<` operator traps
   * rather than form a range that breaks it.
   */
  datatype IntRange = IntRange(startIndex: Int, endIndex: Int) {
    predicate Valid()
    {
      startIndex <= endIndex
    }

    /** The indices the range covers. */
    predicate Contains(i: int)
    {
      startIndex <= i < endIndex
    }
  }

  /** `NSRange.range`: `location..<location+length`. */
  function RangeOf(n: NSRange): (r: IntRange)
    requires 0 <= n.length && Fits(n.location + n.length)
    ensures r.Valid()
    ensures r.startIndex == n.location && r.endIndex - r.startIndex == n.length
  {
    IntRange(n.location, n.location + n.length)
  }

  /** `NSRange(range:)`: the location is the start, the length is `endIndex - startIndex`. */
  function NSRangeOf(r: IntRange): (n: NSRange)
    requires r.Valid() && Fits(r.endIndex - r.startIndex)
    ensures 0 <= n.length
    ensures n.location == r.startIndex && n.location + n.length == r.endIndex
  {
    NSRange(r.startIndex, r.endIndex - r.startIndex)
  }

  /** Converting a range to an `NSRange` and back yields the range itself. */
  lemma RangeRoundTrip(r: IntRange)
    requires r.Valid() && Fits(r.endIndex - r.startIndex)
    ensures Fits(NSRangeOf(r).location + NSRangeOf(r).length)
    ensures RangeOf(NSRangeOf(r)) == r
  {
  }

  /** Converting an `NSRange` of non-negative length to a range and back yields it. */
  lemma NSRangeRoundTrip(n: NSRange)
    requires 0 <= n.length && Fits(n.location + n.length)
    ensures Fits(RangeOf(n).endIndex - RangeOf(n).startIndex)
    ensures NSRangeOf(RangeOf(n)) == n
  {
  }

  /** The range of an `NSRange` covers exactly the `length` indices from `location` on. */
  lemma RangeOfCovers(n: NSRange, i: int)
    requires 0 <= n.length && Fits(n.location + n.length)
    ensures RangeOf(n).Contains(i) <==> n.location <= i < n.location + n.length
  {
  }
}
