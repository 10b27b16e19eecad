/**
 * ParkingController: the reservation and allocation engine over the
 * ParkingInfo table (`sessions`), the ParkingSpot occupancy flags (`spots`)
 * and the e-mail service (`outbox`, the notices sent, in order).
 *
 * Every operation is one atomic step; `now` is the caller's clock reading
 * in minutes. Users are looked up in a fixed directory (UserName to
 * User_ID); `withEmail` and `withName` are the users whose Email and Name
 * columns are set, which decides whether a notice goes out.
 */
module Controller {
  import opened Sessions
  import opened Availability
  import opened Allocation
  import opened Invariants

  // ---------------------------------------------------------------------
  // Reads of the spot ledger used by the legacy entry path

  /** getAvailableParkingSpots: COUNT(*) of spots with isOccupied = false. */
  function FreeCount(flags: seq<bool>): (r: nat)
    ensures r <= |flags|
    ensures r == 0 <==> forall k :: 0 <= k < |flags| ==> flags[k]
  {
    if flags == [] then 0
    else FreeCount(flags[..|flags| - 1]) + (if flags[|flags| - 1] then 0 else 1)
  }

  /**
   * getAvailableParkingSpotID: an unoccupied spot id, or -1. The query has
   * no ORDER BY; the model takes the lowest id.
   */
  function FirstUnoccupied(flags: seq<bool>): (spot: int)
    ensures spot == -1 || 1 <= spot <= |flags|
    ensures spot != -1 ==> !flags[spot - 1]
    ensures forall k :: 0 <= k < |flags| && (spot == -1 || k < spot - 1) ==> flags[k]
  {
    if flags == [] then -1
    else if !flags[0] then 1
    else
      var rest := FirstUnoccupied(flags[1..]);
      if rest == -1 then -1 else rest + 1
  }

  /** The rows the two entry paths and makeReservation insert. */
  function WalkInRow(spot: int, user: nat, now: int, hours: int): Session {
    Session(spot, user, now, now, now + hours * HOUR, Some(now), None, false, false, false, Active)
  }

  function PreorderRow(spot: int, user: nat, now: int, start: int): Session {
    Session(spot, user, now, start, start + STANDARD_BOOKING_HOURS * HOUR, None, None, true, false, false, Preorder)
  }

  predicate IsActiveIn(sessions: Store, id: nat) {
    id in sessions && sessions[id].status == Active
  }

  predicate IsPreorderIn(sessions: Store, id: nat) {
    id in sessions && sessions[id].status == Preorder
  }

  // ---------------------------------------------------------------------
  // Outcomes (the strings the controller returns)

  datatype ReservationResult =
    | ReservationConfirmed(code: nat, spot: int)
    | NotEnoughCapacity
    | TooSoon
    | TooFarAhead
    | UserNotFound
    | NoSpotForWindow

  datatype WalkInResult =
    | Parked(code: nat, spot: int, hours: int, eightHourWindow: bool)
    | NoWindowAvailable
    | WalkInInvalidUser

  datatype EntryResult =
    | Entered(code: nat, spot: int)
    | EntryInvalidUser
    | NoSpotsAvailable
    | NoSpotFound

  /** How an arrival compares with the planned start. */
  datatype Arrival = Early(minutes: nat) | OnTime | LateWithinGrace(minutes: nat)

  datatype ActivationResult =
    | Welcome(spot: int, arrival: Arrival)
    | CancelledForLateness
    | ReservationNotFound

  datatype ExtensionResult =
    | ExtensionGranted(newEnd: int)
    | HoursOutOfRange
    | SessionNotActive
    | AlreadyExtended
    | NotInLastHour
    | SessionExpired
    | LimitedByReservations(maxHours: int)

  datatype ExitResult = ExitedOnTime | ExitedLate | ExitNotActive

  datatype CancellationResult =
    | ReservationCancelled
    | CannotCancelActive
    | AlreadyCompleted
    | AlreadyCancelled
    | InvalidStatusForCancellation
    | CancellationFailed

  /** The signed lateness an arrival message reports. */
  function SignedMinutes(a: Arrival): int {
    match a
    case Early(m) => -(m as int)
    case OnTime => 0
    case LateWithinGrace(m) => m
  }

  /** The welcome message of activateReservation, by minutes since the planned start. */
  function ArrivalOf(minutesSinceStart: int): (a: Arrival)
    ensures SignedMinutes(a) == minutesSinceStart
    ensures a.Early? <==> minutesSinceStart < 0
    ensures a.OnTime? <==> minutesSinceStart == 0
    ensures a.LateWithinGrace? ==> a.minutes > 0
  {
    if minutesSinceStart < 0 then Early(-minutesSinceStart)
    else if minutesSinceStart == 0 then OnTime
    else LateWithinGrace(minutesSinceStart)
  }

  class ParkingController {
    var sessions: Store
    /** The next ParkingInfo_ID AUTO_INCREMENT hands out. */
    var nextId: nat
    /** isOccupied of spot k is spots[k - 1]. */
    const spots: array<bool>
    const directory: map<string, nat>
    const withEmail: set<nat>
    const withName: set<nat>
    var outbox: seq<Notice>

    ghost predicate Valid()
      reads this
    {
      spots.Length == N &&
      (forall id :: id in sessions ==> id < nextId) &&
      WellFormed(sessions) &&
      UsersKnown(sessions, directory.Values)
    }

    /** Users with both an e-mail address and a name on file. */
    function Contacts(): set<nat>
      reads this
    {
      withEmail * withName
    }

    /** A controller over an empty table and a freshly initialised car park. */
    constructor (directory: map<string, nat>, withEmail: set<nat>, withName: set<nat>)
      ensures Valid() && fresh(spots)
      ensures sessions == map[] && nextId == 1 && outbox == []
      ensures this.directory == directory && this.withEmail == withEmail && this.withName == withName
      ensures forall k :: 0 <= k < N ==> !spots[k]
    {
      sessions := map[];
      nextId := 1;
      outbox := [];
      this.directory := directory;
      this.withEmail := withEmail;
      this.withName := withName;
      spots := new bool[N](_ => false);
    }

    /** updateParkingSpotStatus; an id outside the pool matches no row. */
    method UpdateParkingSpotStatus(spotId: int, occupied: bool)
      requires Valid()
      modifies spots
      ensures spots[..] == WithOccupancy(old(spots[..]), spotId, occupied)
    {
      if 1 <= spotId <= spots.Length {
        spots[spotId - 1] := occupied;
      }
    }

    /** Append a row under the next AUTO_INCREMENT id. */
    method Insert(row: Session) returns (code: nat)
      requires Valid()
      requires row.estimatedStart < row.estimatedEnd && 1 <= row.spot <= N
      requires row.user in directory.Values
      modifies this`sessions, this`nextId
      ensures Valid()
      ensures code == old(nextId) && code !in old(sessions)
      ensures sessions == old(sessions)[code := row] && nextId == old(nextId) + 1
      ensures Evolves(old(sessions), sessions)
    {
      code := nextId;
      sessions := sessions[code := row];
      nextId := nextId + 1;
    }

    /**
     * makeReservation: a 4-hour preorder from `start`. Rejections come in
     * this order: the 40% rule for the window, less than 24 hours ahead,
     * more than 7 days ahead, unknown user; the finder then always has a
     * spot (FortyPercentGuaranteesSpot).
     */
    method MakeReservation(userName: string, start: int, now: int) returns (r: ReservationResult)
      requires Valid()
      modifies this`sessions, this`nextId, this`outbox
      ensures Valid()
      ensures r.NotEnoughCapacity? <==> !MeetsFortyPercent(old(sessions), start, start + STANDARD_BOOKING_HOURS * HOUR)
      ensures r.TooSoon? <==>
        MeetsFortyPercent(old(sessions), start, start + STANDARD_BOOKING_HOURS * HOUR) && start < now + DAY
      ensures r.TooFarAhead? <==>
        MeetsFortyPercent(old(sessions), start, start + STANDARD_BOOKING_HOURS * HOUR) &&
        now + DAY <= start && start > now + 7 * DAY
      ensures r.UserNotFound? <==>
        MeetsFortyPercent(old(sessions), start, start + STANDARD_BOOKING_HOURS * HOUR) &&
        now + DAY <= start <= now + 7 * DAY && userName !in directory
      ensures !r.NoSpotForWindow?
      ensures r.ReservationConfirmed? ==>
        userName in directory &&
        r.code == old(nextId) && nextId == old(nextId) + 1 &&
        r.spot == FindFreeSpot(old(sessions), start, start + STANDARD_BOOKING_HOURS * HOUR) &&
        sessions == old(sessions)[r.code := PreorderRow(r.spot, directory[userName], now, start)] &&
        outbox == old(outbox) +
          (if directory[userName] in withEmail then [Notice(ReservationConfirmedNotice, r.code)] else [])
      ensures !r.ReservationConfirmed? ==>
        sessions == old(sessions) && nextId == old(nextId) && outbox == old(outbox)
      ensures Evolves(old(sessions), sessions)
      ensures NoDoubleBooking(old(sessions)) ==> NoDoubleBooking(sessions)
    {
      var end := start + STANDARD_BOOKING_HOURS * HOUR;
      if !MeetsFortyPercent(sessions, start, end) {
        return NotEnoughCapacity;
      }
      if start < now + DAY {
        return TooSoon;
      }
      if start > now + 7 * DAY {
        return TooFarAhead;
      }
      if userName !in directory {
        return UserNotFound;
      }
      var user := directory[userName];
      FortyPercentGuaranteesSpot(sessions, start, end);
      var spotId := FindFreeSpot(sessions, start, end);
      if spotId == -1 {
        return NoSpotForWindow;
      }
      var row := PreorderRow(spotId, user, now, start);
      assert NoDoubleBooking(sessions) ==> NoDoubleBooking(sessions[nextId := row]) by {
        if NoDoubleBooking(sessions) {
          InsertOnFreeSpotKeepsNoDoubleBooking(sessions, nextId, row);
        }
      }
      var code := Insert(row);
      if user in withEmail {
        outbox := outbox + [Notice(ReservationConfirmedNotice, code)];
      }
      return ReservationConfirmed(code, spotId);
    }

    /**
     * enterSpontaneousParking: park now for the longest of 8, 7, ..., 2
     * hours that some spot can hold, on the lowest such spot.
     */
    method EnterSpontaneousParking(userName: string, now: int) returns (r: WalkInResult)
      requires Valid()
      modifies this`sessions, this`nextId, spots
      ensures Valid()
      ensures r.NoWindowAvailable? <==>
        forall h :: MINIMUM_SPONTANEOUS_HOURS <= h <= PREFERRED_WINDOW_HOURS ==>
          FindFreeSpot(old(sessions), now, now + h * HOUR) == -1
      ensures r.WalkInInvalidUser? <==> !r.NoWindowAvailable? && userName !in directory
      ensures r.Parked? ==>
        userName in directory &&
        LongestFreeStay(old(sessions), now, r.spot, r.hours) &&
        (r.eightHourWindow <==> r.hours == PREFERRED_WINDOW_HOURS) &&
        r.code == old(nextId) && nextId == old(nextId) + 1 &&
        sessions == old(sessions)[r.code := WalkInRow(r.spot, directory[userName], now, r.hours)] &&
        spots[..] == WithOccupancy(old(spots[..]), r.spot, true)
      ensures !r.Parked? ==> sessions == old(sessions) && nextId == old(nextId) && spots[..] == old(spots[..])
      ensures Evolves(old(sessions), sessions)
      ensures NoDoubleBooking(old(sessions)) ==> NoDoubleBooking(sessions)
    {
      var allocation := FindOptimalSpontaneousAllocation(sessions, now);
      if allocation.None? {
        return NoWindowAvailable;
      }
      if userName !in directory {
        return WalkInInvalidUser;
      }
      var a := allocation.value;
      var row := WalkInRow(a.spotId, directory[userName], now, a.allocatedHours);
      assert row.estimatedStart < row.estimatedEnd && 1 <= row.spot <= N;
      assert SpotIsFree(sessions, row.spot, row.estimatedStart, row.estimatedEnd);
      assert NoDoubleBooking(sessions) ==> NoDoubleBooking(sessions[nextId := row]) by {
        if NoDoubleBooking(sessions) {
          InsertOnFreeSpotKeepsNoDoubleBooking(sessions, nextId, row);
        }
      }
      var code := Insert(row);
      UpdateParkingSpotStatus(a.spotId, true);
      return Parked(code, a.spotId, a.allocatedHours, a.hasEightHourWindow);
    }

    /**
     * enterParking (legacy): park now for 4 hours on the first spot whose
     * occupancy flag is clear. The flags do not see preorders, so this path
     * can overlap a reservation (LegacyEntryIgnoresReservations).
     */
    method EnterParking(userName: string, now: int) returns (r: EntryResult)
      requires Valid()
      modifies this`sessions, this`nextId, spots
      ensures Valid()
      ensures r.EntryInvalidUser? <==> userName !in directory
      ensures r.NoSpotsAvailable? <==> userName in directory && FreeCount(old(spots[..])) == 0
      ensures !r.NoSpotFound?
      ensures r.Entered? ==>
        r.spot == FirstUnoccupied(old(spots[..])) && r.spot != -1 &&
        r.code == old(nextId) && nextId == old(nextId) + 1 &&
        sessions == old(sessions)[r.code := WalkInRow(r.spot, directory[userName], now, STANDARD_BOOKING_HOURS)] &&
        spots[..] == WithOccupancy(old(spots[..]), r.spot, true)
      ensures !r.Entered? ==> sessions == old(sessions) && nextId == old(nextId) && spots[..] == old(spots[..])
      ensures Evolves(old(sessions), sessions)
    {
      if userName !in directory {
        return EntryInvalidUser;
      }
      if FreeCount(spots[..]) <= 0 {
        return NoSpotsAvailable;
      }
      var spotId := FirstUnoccupied(spots[..]);
      if spotId == -1 {
        return NoSpotFound;
      }
      var code := Insert(WalkInRow(spotId, directory[userName], now, STANDARD_BOOKING_HOURS));
      UpdateParkingSpotStatus(spotId, true);
      return Entered(code, spotId);
    }

    /**
     * cancelReservationInternal: only a preorder can be cancelled; each
     * other status, and a missing row, has its own refusal and changes
     * nothing. A cancellation clears the spot's occupancy flag.
     */
    method CancelReservationInternal(code: nat) returns (r: CancellationResult)
      requires Valid()
      modifies this`sessions, this`outbox, spots
      ensures Valid() && nextId == old(nextId)
      ensures r.InvalidStatusForCancellation? <==> code !in old(sessions)
      ensures code in old(sessions) ==>
        (r.CannotCancelActive? <==> old(sessions)[code].status == Active) &&
        (r.AlreadyCompleted? <==> old(sessions)[code].status == Finished) &&
        (r.AlreadyCancelled? <==> old(sessions)[code].status == Cancelled) &&
        (r.ReservationCancelled? <==> old(sessions)[code].status == Preorder)
      ensures r.ReservationCancelled? ==>
        code in old(sessions) &&
        sessions == old(sessions)[code := Withdrawn(old(sessions)[code])] &&
        spots[..] == WithOccupancy(old(spots[..]), old(sessions)[code].spot, false) &&
        outbox == old(outbox) +
          (if old(sessions)[code].user in Contacts() then [Notice(ReservationCancelledNotice, code)] else [])
      ensures !r.ReservationCancelled? ==>
        sessions == old(sessions) && outbox == old(outbox) && spots[..] == old(spots[..])
      ensures Evolves(old(sessions), sessions)
      ensures NoDoubleBooking(old(sessions)) ==> NoDoubleBooking(sessions)
    {
      if code !in sessions {
        return InvalidStatusForCancellation;
      }
      var row := sessions[code];
      if row.status != Preorder {
        if row.status == Active {
          return CannotCancelActive;
        } else if row.status == Finished {
          return AlreadyCompleted;
        } else if row.status == Cancelled {
          return AlreadyCancelled;
        }
        return InvalidStatusForCancellation;
      }
      // UPDATE ... WHERE ParkingInfo_ID = ? AND statusEnum = 'preorder'
      if !(code in sessions && sessions[code].status == Preorder) {
        return CancellationFailed;
      }
      assert NoDoubleBooking(sessions) ==> NoDoubleBooking(sessions[code := Withdrawn(row)]) by {
        if NoDoubleBooking(sessions) {
          InPlaceUpdateKeepsNoDoubleBooking(sessions, code, Withdrawn(row));
        }
      }
      sessions := sessions[code := Withdrawn(row)];
      UpdateParkingSpotStatus(row.spot, false);
      if row.user in Contacts() {
        outbox := outbox + [Notice(ReservationCancelledNotice, code)];
      }
      return ReservationCancelled;
    }

    /**
     * activateReservation: a preorder more than 15 minutes past its start
     * is cancelled instead; otherwise it becomes active now and its spot is
     * marked occupied.
     */
    method ActivateReservation(code: nat, now: int) returns (r: ActivationResult)
      requires Valid()
      modifies this`sessions, this`outbox, spots
      ensures Valid() && nextId == old(nextId)
      ensures r.ReservationNotFound? <==> !IsPreorderIn(old(sessions), code)
      ensures r.CancelledForLateness? <==>
        IsPreorderIn(old(sessions), code) && TooLateToActivate(old(sessions)[code], now)
      ensures r.CancelledForLateness? ==>
        sessions == old(sessions)[code := Withdrawn(old(sessions)[code])] &&
        spots[..] == WithOccupancy(old(spots[..]), old(sessions)[code].spot, false) &&
        outbox == old(outbox) +
          (if old(sessions)[code].user in Contacts() then [Notice(ReservationCancelledNotice, code)] else [])
      ensures r.Welcome? ==>
        IsPreorderIn(old(sessions), code) &&
        r.spot == old(sessions)[code].spot &&
        r.arrival == ArrivalOf(now - old(sessions)[code].estimatedStart) &&
        sessions == old(sessions)[code := Activated(old(sessions)[code], now)] &&
        spots[..] == WithOccupancy(old(spots[..]), r.spot, true) &&
        outbox == old(outbox)
      ensures r.ReservationNotFound? ==>
        sessions == old(sessions) && outbox == old(outbox) && spots[..] == old(spots[..])
      ensures Evolves(old(sessions), sessions)
      ensures NoDoubleBooking(old(sessions)) ==> NoDoubleBooking(sessions)
    {
      if !(code in sessions && sessions[code].status == Preorder) {
        return ReservationNotFound;
      }
      var row := sessions[code];
      var minutesSinceStart := now - row.estimatedStart;
      if minutesSinceStart > LATE_THRESHOLD_MINUTES {
        var _ := CancelReservationInternal(code);
        return CancelledForLateness;
      }
      assert NoDoubleBooking(sessions) ==> NoDoubleBooking(sessions[code := Activated(row, now)]) by {
        if NoDoubleBooking(sessions) {
          InPlaceUpdateKeepsNoDoubleBooking(sessions, code, Activated(row, now));
        }
      }
      sessions := sessions[code := Activated(row, now)];
      UpdateParkingSpotStatus(row.spot, true);
      return Welcome(row.spot, ArrivalOf(minutesSinceStart));
    }

    /**
     * extendParkingTime: once per session, by 1 to 4 hours, only in the
     * last hour before the planned end and not after it, and only as far as
     * the spot's next booking allows.
     */
    method ExtendParkingTime(code: nat, hours: int, now: int) returns (r: ExtensionResult)
      requires Valid()
      modifies this`sessions, this`outbox
      ensures Valid() && nextId == old(nextId)
      ensures r.HoursOutOfRange? <==> hours < 1 || hours > MAXIMUM_EXTENSION_HOURS
      ensures r.SessionNotActive? <==> 1 <= hours <= MAXIMUM_EXTENSION_HOURS && !IsActiveIn(old(sessions), code)
      ensures 1 <= hours <= MAXIMUM_EXTENSION_HOURS && IsActiveIn(old(sessions), code) ==>
        var s := old(sessions)[code];
        (r.AlreadyExtended? <==> s.isExtended) &&
        (r.NotInLastHour? <==> !s.isExtended && s.estimatedEnd - now > HOUR) &&
        (r.SessionExpired? <==> !s.isExtended && s.estimatedEnd - now <= HOUR && now > s.estimatedEnd) &&
        (r.LimitedByReservations? <==>
          !s.isExtended && s.estimatedEnd - HOUR <= now <= s.estimatedEnd &&
          !ExtensionFits(old(sessions), s.spot, s.estimatedEnd, hours)) &&
        (r.ExtensionGranted? <==>
          !s.isExtended && s.estimatedEnd - HOUR <= now <= s.estimatedEnd &&
          ExtensionFits(old(sessions), s.spot, s.estimatedEnd, hours))
      ensures r.LimitedByReservations? ==>
        var s := old(sessions)[code];
        0 <= r.maxHours < hours &&
        (r.maxHours > 0 ==> ExtensionFits(old(sessions), s.spot, s.estimatedEnd, r.maxHours)) &&
        forall h :: r.maxHours < h <= MAXIMUM_EXTENSION_HOURS ==> !ExtensionFits(old(sessions), s.spot, s.estimatedEnd, h)
      ensures r.ExtensionGranted? ==>
        var s := old(sessions)[code];
        r.newEnd == s.estimatedEnd + hours * HOUR &&
        sessions == old(sessions)[code := Extended(s, hours)] &&
        outbox == old(outbox) +
          (if s.user in Contacts() then [Notice(ExtensionConfirmedNotice, code)] else [])
      ensures !r.ExtensionGranted? ==> sessions == old(sessions) && outbox == old(outbox)
      ensures Evolves(old(sessions), sessions)
      ensures NoDoubleBooking(old(sessions)) ==> NoDoubleBooking(sessions)
    {
      if hours < 1 || hours > MAXIMUM_EXTENSION_HOURS {
        return HoursOutOfRange;
      }
      if !(code in sessions && sessions[code].status == Active) {
        return SessionNotActive;
      }
      var row := sessions[code];
      if row.isExtended {
        return AlreadyExtended;
      }
      var minutesRemaining := row.estimatedEnd - now;
      if minutesRemaining > HOUR {
        return NotInLastHour;
      }
      if now > row.estimatedEnd {
        return SessionExpired;
      }
      var maxExtensionHours := FindMaximumExtension(sessions, row.spot, row.estimatedEnd);
      if maxExtensionHours < hours {
        return LimitedByReservations(maxExtensionHours);
      }
      ShorterExtensionFits(sessions, row.spot, row.estimatedEnd, maxExtensionHours, hours);
      assert NoDoubleBooking(sessions) ==> NoDoubleBooking(sessions[code := Extended(row, hours)]) by {
        if NoDoubleBooking(sessions) {
          ExtensionKeepsNoDoubleBooking(sessions, code, hours);
        }
      }
      sessions := sessions[code := Extended(row, hours)];
      if row.user in Contacts() {
        outbox := outbox + [Notice(ExtensionConfirmedNotice, code)];
      }
      return ExtensionGranted(row.estimatedEnd + hours * HOUR);
    }

    /**
     * exitParking: an active session ends now, is late exactly when now is
     * past its planned end, and frees its spot; a late exit sends a notice.
     */
    method ExitParking(code: nat, now: int) returns (r: ExitResult)
      requires Valid()
      modifies this`sessions, this`outbox, spots
      ensures Valid() && nextId == old(nextId)
      ensures r.ExitNotActive? <==> !IsActiveIn(old(sessions), code)
      ensures !r.ExitNotActive? ==>
        var s := old(sessions)[code];
        (r.ExitedLate? <==> now > s.estimatedEnd) &&
        sessions == old(sessions)[code := Exited(s, now)] &&
        sessions[code].status == Finished && sessions[code].actualEnd == Some(now) &&
        spots[..] == WithOccupancy(old(spots[..]), s.spot, false) &&
        outbox == old(outbox) + (if r.ExitedLate? then [Notice(LateExitNotice, code)] else [])
      ensures r.ExitNotActive? ==>
        sessions == old(sessions) && outbox == old(outbox) && spots[..] == old(spots[..])
      ensures Evolves(old(sessions), sessions)
      ensures NoDoubleBooking(old(sessions)) ==> NoDoubleBooking(sessions)
    {
      if !(code in sessions && sessions[code].status == Active) {
        return ExitNotActive;
      }
      var row := sessions[code];
      var isLate := now > row.estimatedEnd;
      assert NoDoubleBooking(sessions) ==> NoDoubleBooking(sessions[code := Exited(row, now)]) by {
        if NoDoubleBooking(sessions) {
          InPlaceUpdateKeepsNoDoubleBooking(sessions, code, Exited(row, now));
        }
      }
      sessions := sessions[code := Exited(row, now)];
      UpdateParkingSpotStatus(row.spot, false);
      if isLate {
        outbox := outbox + [Notice(LateExitNotice, code)];
        return ExitedLate;
      }
      return ExitedOnTime;
    }
  }

  // ---------------------------------------------------------------------
  // What the occupancy flags do not say

  /**
   * The legacy entry path picks its spot from the occupancy flags, which a
   * preorder never sets: if the first clear flag belongs to a spot reserved
   * for a window that overlaps the next four hours, the new session and the
   * reservation are double-booked.
   */
  lemma LegacyEntryIgnoresReservations(sessions: Store, flags: seq<bool>, reserved: nat, code: nat, user: nat, now: int)
    requires IsPreorderIn(sessions, reserved) && code !in sessions
    requires FirstUnoccupied(flags) == sessions[reserved].spot
    requires Overlaps(sessions[reserved], now, now + STANDARD_BOOKING_HOURS * HOUR)
    ensures !NoDoubleBooking(sessions[code := WalkInRow(FirstUnoccupied(flags), user, now, STANDARD_BOOKING_HOURS)])
  {
    var after := sessions[code := WalkInRow(FirstUnoccupied(flags), user, now, STANDARD_BOOKING_HOURS)];
    assert after[reserved] == sessions[reserved];
    assert Live(after[code]) && Live(after[reserved]) && after[code].spot == after[reserved].spot;
    assert Overlaps(after[reserved], after[code].estimatedStart, after[code].estimatedEnd);
  }

  /**
   * Cancelling or forfeiting a preorder clears its spot's flag even when a
   * different, active session is parked on that spot, so "flag set iff an
   * active session holds the spot" is not an invariant.
   */
  lemma ReleaseCanClearOccupiedSpot(sessions: Store, flags: seq<bool>, parked: nat, cancelled: nat)
    requires IsActiveIn(sessions, parked) && IsPreorderIn(sessions, cancelled)
    requires sessions[parked].spot == sessions[cancelled].spot
    requires 1 <= sessions[parked].spot <= |flags| && flags[sessions[parked].spot - 1]
    ensures !WithOccupancy(flags, sessions[cancelled].spot, false)[sessions[parked].spot - 1]
    ensures IsActiveIn(sessions[cancelled := Withdrawn(sessions[cancelled])], parked)
  {
  }
}
