/**
 * The availability resolver: how many spots a planned window leaves free
 * (countAvailableSpotsForTimeWindow and its duplicate
 * countAvailableSpotsForWindow), the 40% rule (hasValidAvailabilityForWindow,
 * hasValidFourHourWindow) and the lowest conflict-free spot
 * (findAvailableSpotForTimeWindow and its duplicate findOptimalSpotForTimeWindow).
 */
module Availability {
  import opened Sessions

  /** The rows the COUNT(*) of the availability query counts. */
  function ConflictIds(sessions: Store, start: int, end: int): set<nat> {
    set id | id in sessions && Conflicts(sessions[id], start, end)
  }

  function ConflictCount(sessions: Store, start: int, end: int): nat {
    |ConflictIds(sessions, start, end)|
  }

  /** Math.max(0, TOTAL_PARKING_SPOTS - conflicts) */
  function AvailableSpots(sessions: Store, start: int, end: int): (r: int)
    ensures 0 <= r <= N
    ensures r == 0 <==> ConflictCount(sessions, start, end) >= N
    ensures r > 0 ==> r + ConflictCount(sessions, start, end) == N
  {
    var available := N - ConflictCount(sessions, start, end);
    if available < 0 then 0 else available
  }

  /** The 40% rule: availableSpots >= TOTAL_PARKING_SPOTS * RESERVATION_THRESHOLD. */
  predicate MeetsFortyPercent(sessions: Store, start: int, end: int)
    ensures MeetsFortyPercent(sessions, start, end) <==> ConflictCount(sessions, start, end) <= N - RESERVE
  {
    AvailableSpots(sessions, start, end) >= RESERVE
  }

  /** The sub-select of the spot finder: spots held by a conflicting row. */
  function ConflictingSpots(sessions: Store, start: int, end: int): set<int> {
    set id | id in sessions && Conflicts(sessions[id], start, end) :: sessions[id].spot
  }

  /** ParkingSpot_ID NOT IN (the sub-select) */
  predicate SpotIsFree(sessions: Store, spotId: int, start: int, end: int) {
    spotId !in ConflictingSpots(sessions, start, end)
  }

  /**
   * The lowest spot id in [from, N] that is free for the window, or -1
   * (ORDER BY ParkingSpot_ID LIMIT 1).
   */
  function FirstFreeFrom(sessions: Store, start: int, end: int, from: int): (spot: int)
    requires 1 <= from
    ensures spot == -1 || from <= spot <= N
    ensures spot != -1 ==> SpotIsFree(sessions, spot, start, end)
    ensures forall k :: from <= k <= N && (spot == -1 || k < spot) ==> !SpotIsFree(sessions, k, start, end)
    decreases N + 1 - from
  {
    if from > N then -1
    else if SpotIsFree(sessions, from, start, end) then from
    else FirstFreeFrom(sessions, start, end, from + 1)
  }

  /** findAvailableSpotForTimeWindow: the lowest conflict-free spot id, or -1. */
  function FindFreeSpot(sessions: Store, start: int, end: int): (spot: int)
    ensures spot == -1 || 1 <= spot <= N
    ensures spot != -1 ==> SpotIsFree(sessions, spot, start, end)
    ensures forall k :: 1 <= k <= N && (spot == -1 || k < spot) ==> !SpotIsFree(sessions, k, start, end)
  {
    FirstFreeFrom(sessions, start, end, 1)
  }

  /** A spot is free for a window exactly when no live row on it overlaps the window. */
  lemma SpotIsFreeMeans(sessions: Store, spotId: int, start: int, end: int)
    ensures SpotIsFree(sessions, spotId, start, end) <==>
      forall id :: id in sessions && sessions[id].spot == spotId ==> !Conflicts(sessions[id], start, end)
  {
    if !SpotIsFree(sessions, spotId, start, end) {
      var id :| id in sessions && Conflicts(sessions[id], start, end) && sessions[id].spot == spotId;
    }
  }

  // ---------------------------------------------------------------------
  // The aggregate count and the per-spot search agree in one direction:
  // fewer than N conflicting rows always leave a spot free.

  /** Each row holds one spot, so a set of rows covers at most as many spots. */
  lemma {:induction false} SpotsOfRowsBound(sessions: Store, ids: set<nat>)
    requires ids <= sessions.Keys
    ensures |set id | id in ids :: sessions[id].spot| <= |ids|
    decreases ids
  {
    if ids != {} {
      var x :| x in ids;
      var rest := ids - {x};
      SpotsOfRowsBound(sessions, rest);
      assert (set id | id in ids :: sessions[id].spot)
        == (set id | id in rest :: sessions[id].spot) + {sessions[x].spot};
    }
  }

  /** The spot ids {1, ..., n} of a pool of n spots. */
  function Pool(n: nat): (pool: set<int>)
    ensures |pool| == n
    ensures forall k :: k in pool <==> 1 <= k <= n
  {
    if n == 0 then {} else Pool(n - 1) + {n}
  }

  lemma {:induction false} SubsetSize<T>(a: set<T>, b: set<T>)
    requires a <= b
    ensures |a| <= |b|
    decreases a
  {
    if a != {} {
      var x :| x in a;
      SubsetSize(a - {x}, b - {x});
    }
  }

  /**
   * If fewer than N rows conflict with the window, the finder returns a
   * spot; equivalently, when it returns -1 no spot is available at all.
   */
  lemma FreeSpotBelowCapacity(sessions: Store, start: int, end: int)
    ensures ConflictCount(sessions, start, end) < N ==> FindFreeSpot(sessions, start, end) != -1
    ensures FindFreeSpot(sessions, start, end) == -1 ==> AvailableSpots(sessions, start, end) == 0
  {
    var ids := ConflictIds(sessions, start, end);
    var taken := ConflictingSpots(sessions, start, end);
    assert taken == set id | id in ids :: sessions[id].spot;
    SpotsOfRowsBound(sessions, ids);
    if FindFreeSpot(sessions, start, end) == -1 {
      var pool := Pool(N);
      forall k | k in pool ensures k in taken {
        assert !SpotIsFree(sessions, k, start, end);
      }
      SubsetSize(pool, taken);
    }
  }

  /**
   * A window that passes the 40% rule always has a conflict-free spot, so
   * after the capacity check of makeReservation the finder cannot fail.
   */
  lemma FortyPercentGuaranteesSpot(sessions: Store, start: int, end: int)
    requires MeetsFortyPercent(sessions, start, end)
    ensures FindFreeSpot(sessions, start, end) != -1
  {
    FreeSpotBelowCapacity(sessions, start, end);
  }

  /**
   * A spot free for a window stays free for any shorter window with the
   * same start, so the lowest free spot can only get lower.
   */
  lemma FreeSpotForShorterWindow(sessions: Store, start: int, end: int, shorterEnd: int)
    requires shorterEnd <= end
    requires FindFreeSpot(sessions, start, end) != -1
    ensures FindFreeSpot(sessions, start, shorterEnd) != -1
    ensures FindFreeSpot(sessions, start, shorterEnd) <= FindFreeSpot(sessions, start, end)
  {
    var k := FindFreeSpot(sessions, start, end);
    SpotIsFreeMeans(sessions, k, start, end);
    SpotIsFreeMeans(sessions, k, start, shorterEnd);
  }
}
