/**
 * The two descending searches of the allocation engine: the walk-in
 * duration search (findOptimalSpontaneousAllocation) and the extension
 * ceiling (findMaximumExtension). Both read the session table only.
 */
module Allocation {
  import opened Sessions
  import opened Availability

  /** SpotAllocation */
  datatype SpotAllocation = SpotAllocation(spotId: int, allocatedHours: int, hasEightHourWindow: bool)

  /**
   * `hours` is the longest walk-in duration between 2 and 8 hours from
   * `start` for which some spot is free, and `spot` is the lowest such spot.
   */
  ghost predicate LongestFreeStay(sessions: Store, start: int, spot: int, hours: int) {
    MINIMUM_SPONTANEOUS_HOURS <= hours <= PREFERRED_WINDOW_HOURS &&
    spot == FindFreeSpot(sessions, start, start + hours * HOUR) &&
    spot != -1 &&
    forall h :: hours < h <= PREFERRED_WINDOW_HOURS ==>
      FindFreeSpot(sessions, start, start + h * HOUR) == -1
  }

  /**
   * findOptimalSpontaneousAllocation: try 8, 7, ..., 2 hours from `start`
   * and take the first duration for which the finder returns a spot.
   */
  method FindOptimalSpontaneousAllocation(sessions: Store, start: int) returns (alloc: Option<SpotAllocation>)
    ensures alloc.Some? ==>
      LongestFreeStay(sessions, start, alloc.value.spotId, alloc.value.allocatedHours) &&
      (alloc.value.hasEightHourWindow <==> alloc.value.allocatedHours == PREFERRED_WINDOW_HOURS)
    ensures alloc.None? <==>
      forall h :: MINIMUM_SPONTANEOUS_HOURS <= h <= PREFERRED_WINDOW_HOURS ==>
        FindFreeSpot(sessions, start, start + h * HOUR) == -1
  {
    var hours := PREFERRED_WINDOW_HOURS;
    while hours >= MINIMUM_SPONTANEOUS_HOURS
      invariant MINIMUM_SPONTANEOUS_HOURS - 1 <= hours <= PREFERRED_WINDOW_HOURS
      invariant forall h :: hours < h <= PREFERRED_WINDOW_HOURS ==>
        FindFreeSpot(sessions, start, start + h * HOUR) == -1
    {
      var spotId := FindFreeSpot(sessions, start, start + hours * HOUR);
      if spotId != -1 {
        return Some(SpotAllocation(spotId, hours, hours >= PREFERRED_WINDOW_HOURS));
      }
      hours := hours - 1;
    }
    return None;
  }

  /**
   * A walk-in gets every duration up to the one it was given: the search
   * skips a longer duration only because no spot is free for it.
   */
  lemma AllocationIsLongestFree(sessions: Store, start: int, hours: int)
    requires MINIMUM_SPONTANEOUS_HOURS <= hours <= PREFERRED_WINDOW_HOURS
    requires FindFreeSpot(sessions, start, start + hours * HOUR) != -1
    ensures forall h :: MINIMUM_SPONTANEOUS_HOURS <= h <= hours ==>
      FindFreeSpot(sessions, start, start + h * HOUR) != -1
  {
    forall h | MINIMUM_SPONTANEOUS_HOURS <= h <= hours
      ensures FindFreeSpot(sessions, start, start + h * HOUR) != -1
    {
      ShorterStayFits(sessions, start, hours, h);
    }
  }

  lemma ShorterStayFits(sessions: Store, start: int, hours: int, h: int)
    requires h <= hours && FindFreeSpot(sessions, start, start + hours * HOUR) != -1
    ensures FindFreeSpot(sessions, start, start + h * HOUR) != -1
  {
    FreeSpotForShorterWindow(sessions, start, start + hours * HOUR, start + h * HOUR);
  }

  // ---------------------------------------------------------------------
  // Extension ceiling

  /**
   * The row condition of the extension query: a live row on the spot with
   * Estimated_start_time < testEnd AND Estimated_end_time > currentEnd.
   */
  predicate BlocksExtension(s: Session, spotId: int, currentEnd: int, testEnd: int) {
    s.spot == spotId && Live(s) && s.estimatedStart < testEnd && s.estimatedEnd > currentEnd
  }

  /** COUNT(*) = 0 for an extension of `hours` hours. */
  predicate ExtensionFits(sessions: Store, spotId: int, currentEnd: int, hours: int) {
    forall id :: id in sessions ==> !BlocksExtension(sessions[id], spotId, currentEnd, currentEnd + hours * HOUR)
  }

  /**
   * findMaximumExtension: the largest h in 4, 3, 2, 1 for which no live
   * row on the spot blocks [currentEnd, currentEnd + h hours), or 0.
   */
  method FindMaximumExtension(sessions: Store, spotId: int, currentEnd: int) returns (hours: int)
    ensures 0 <= hours <= MAXIMUM_EXTENSION_HOURS
    ensures hours > 0 ==> ExtensionFits(sessions, spotId, currentEnd, hours)
    ensures forall h :: hours < h <= MAXIMUM_EXTENSION_HOURS ==> !ExtensionFits(sessions, spotId, currentEnd, h)
  {
    hours := MAXIMUM_EXTENSION_HOURS;
    while hours >= 1
      invariant 0 <= hours <= MAXIMUM_EXTENSION_HOURS
      invariant forall h :: hours < h <= MAXIMUM_EXTENSION_HOURS ==> !ExtensionFits(sessions, spotId, currentEnd, h)
    {
      var blocking := set id | id in sessions && BlocksExtension(sessions[id], spotId, currentEnd, currentEnd + hours * HOUR);
      if |blocking| == 0 {
        assert forall id :: id in sessions ==> id !in blocking;
        return hours;
      }
      ghost var blocker :| blocker in blocking;
      hours := hours - 1;
    }
    hours := 0;
  }

  /** The row being extended never blocks itself: its own end is `currentEnd`. */
  lemma OwnSessionNeverBlocks(s: Session, currentEnd: int, testEnd: int)
    requires s.estimatedEnd == currentEnd
    ensures !BlocksExtension(s, s.spot, currentEnd, testEnd)
  {
  }

  /** An extension that fits also fits when shortened. */
  lemma ShorterExtensionFits(sessions: Store, spotId: int, currentEnd: int, hours: int, shorter: int)
    requires shorter <= hours
    requires ExtensionFits(sessions, spotId, currentEnd, hours)
    ensures ExtensionFits(sessions, spotId, currentEnd, shorter)
  {
    forall id | id in sessions
      ensures !BlocksExtension(sessions[id], spotId, currentEnd, currentEnd + shorter * HOUR)
    {
      assert !BlocksExtension(sessions[id], spotId, currentEnd, currentEnd + hours * HOUR);
    }
  }

  /**
   * The extension query is the overlap test of the availability queries,
   * restricted to one spot: a row blocks exactly when it is a live row on
   * the spot overlapping [currentEnd, testEnd).
   */
  lemma BlocksExtensionIsOverlap(s: Session, spotId: int, currentEnd: int, testEnd: int)
    ensures BlocksExtension(s, spotId, currentEnd, testEnd) <==>
      s.spot == spotId && Conflicts(s, currentEnd, testEnd)
  {
  }
}
