/**
  The positional interval test of the engine. A segment is a pair of station
  positions (start, end); `n` is the number of stations the positions must lie
  within.
 */
module Intervals {
  import opened Errors

  /** Reference definition: half-open intervals [s1, e1) and [s2, e2) share a leg. */
  predicate Overlap(s1: int, e1: int, s2: int, e2: int) {
    s1 < e2 && s2 < e1
  }

  /** A well-formed segment over `n` stations. */
  predicate Segment(n: int, s: int, e: int) {
    0 <= s < e < n
  }

  /**
    befContainAft over positions: does the "before" segment cover the start of
    the "after" segment? The range test meant for `aftStart` re-tests
    `befEnd`, so `aftStart` is never range-checked; a negative `aftStart` on
    an otherwise valid call gives `false`, not an exception.
   */
  function BefContainAft(n: int, befStart: int, befEnd: int, aftStart: int, aftEnd: int): (r: Result<bool>)
    ensures r.Ok? <==> Segment(n, befStart, befEnd) && 0 <= aftEnd < n && aftStart < aftEnd
    ensures r.Ok? ==> (r.value <==> befStart <= aftStart < befEnd)
    ensures r != Err(IllegalArgument(AftStart))
    ensures r.Err? ==> r.error.IllegalArgument?
    ensures !(0 <= befStart < n) ==> r == Err(IllegalArgument(BefStart))
    ensures 0 <= befStart < n && !(0 <= befEnd < n) ==> r == Err(IllegalArgument(BefEnd))
    ensures 0 <= befStart < n && 0 <= befEnd < n && !(0 <= aftEnd < n) ==> r == Err(IllegalArgument(AftEnd))
    ensures 0 <= befStart < n && 0 <= befEnd < n && 0 <= aftEnd < n && befEnd <= befStart ==>
              r == Err(IllegalArgument(BefInterval))
  {
    if befStart < 0 || befStart >= n then Err(IllegalArgument(BefStart))
    else if befEnd < 0 || befEnd >= n then Err(IllegalArgument(BefEnd))
    else if befEnd < 0 || befEnd >= n then Err(IllegalArgument(AftStart))
    else if aftEnd < 0 || aftEnd >= n then Err(IllegalArgument(AftEnd))
    else if befStart >= befEnd then Err(IllegalArgument(BefInterval))
    else if aftStart >= aftEnd then Err(IllegalArgument(AftInterval))
    else Ok(befStart <= aftStart && befEnd > aftStart)
  }

  /**
    The conflict test the sale applies to every stored segment: the containment
    test in both directions, with Java's short-circuit `||` (the second test
    runs only when the first returned false, and an exception from either ends
    the evaluation).
   */
  function EitherContains(n: int, s1: int, e1: int, s2: int, e2: int): (r: Result<bool>)
    ensures Segment(n, s1, e1) && Segment(n, s2, e2) ==> r == Ok(Overlap(s1, e1, s2, e2))
    ensures Segment(n, s2, e2) && 0 <= s1 < n && 0 <= e1 < n && e1 <= s1 ==>
              r == Err(IllegalArgument(BefInterval))
  {
    match BefContainAft(n, s1, e1, s2, e2)
    case Err(e) => Err(e)
    case Ok(true) => Ok(true)
    case Ok(false) => BefContainAft(n, s2, e2, s1, e1)
  }

  /** The bidirectional test does not depend on which segment is asked about first. */
  lemma EitherContainsSymmetric(n: int, s1: int, e1: int, s2: int, e2: int)
    requires Segment(n, s1, e1) && Segment(n, s2, e2)
    ensures EitherContains(n, s1, e1, s2, e2) == EitherContains(n, s2, e2, s1, e1)
  {
  }

  /** Every segment conflicts with itself. */
  lemma EitherContainsReflexive(n: int, s: int, e: int)
    requires Segment(n, s, e)
    ensures EitherContains(n, s, e, s, e) == Ok(true)
  {
  }

  /** Segments that only meet at a station (a -> b and b -> c) do not conflict. */
  lemma TouchingSegmentsDoNotConflict(n: int, a: int, b: int, c: int)
    requires Segment(n, a, b) && Segment(n, b, c)
    ensures EitherContains(n, a, b, b, c) == Ok(false)
    ensures EitherContains(n, b, c, a, b) == Ok(false)
  {
  }

  /** An unknown after-start (indexOf gave -1) slips past the range checks. */
  lemma UnknownAftStartIsFalse(n: int, befStart: int, befEnd: int, aftEnd: int)
    requires Segment(n, befStart, befEnd)
    requires 0 <= aftEnd < n
    ensures BefContainAft(n, befStart, befEnd, -1, aftEnd) == Ok(false)
  {
  }
}
