/**
 * The two tables of the parking server as values: the ParkingInfo rows
 * (sessions) and the ParkingSpot occupancy flags (the spot ledger).
 * Time is measured in whole minutes.
 */
module Sessions {

  /** TOTAL_PARKING_SPOTS: spot ids run from 1 to N. */
  const N: nat := 100
  const HOUR: int := 60
  const DAY: int := 24 * HOUR
  /** Minimum number of free spots the 40% rule keeps: 100 * 0.4. */
  const RESERVE: nat := 40
  const STANDARD_BOOKING_HOURS: int := 4
  const MINIMUM_SPONTANEOUS_HOURS: int := 2
  const PREFERRED_WINDOW_HOURS: int := 8
  const MAXIMUM_EXTENSION_HOURS: int := 4
  const TIME_SLOT_MINUTES: int := 15
  /** Grace period after the estimated start of a reservation. */
  const LATE_THRESHOLD_MINUTES: int := 15

  datatype Option<T> = None | Some(value: T)

  /** statusEnum */
  datatype Status = Preorder | Active | Finished | Cancelled

  /** One ParkingInfo row; the yes/no columns are booleans. */
  datatype Session = Session(
    spot: int,
    user: nat,
    placedAt: int,
    estimatedStart: int,
    estimatedEnd: int,
    actualStart: Option<int>,
    actualEnd: Option<int>,
    isOrdered: bool,
    isLate: bool,
    isExtended: bool,
    status: Status)

  /** The ParkingInfo table, keyed by ParkingInfo_ID. */
  type Store = map<nat, Session>

  /** A session that still holds its spot: statusEnum IN ('preorder', 'active'). */
  predicate Live(s: Session) {
    s.status == Preorder || s.status == Active
  }

  /** The overlap test of the SQL queries: NOT (end <= start' OR start >= end'). */
  predicate Overlaps(s: Session, start: int, end: int) {
    !(s.estimatedEnd <= start || s.estimatedStart >= end)
  }

  predicate Conflicts(s: Session, start: int, end: int) {
    Live(s) && Overlaps(s, start, end)
  }

  /** The only status changes a single operation may make. */
  predicate Step(before: Status, after: Status) {
    before == after ||
    (before == Preorder && after == Active) ||
    (before == Preorder && after == Cancelled) ||
    (before == Active && after == Finished)
  }

  /**
   * `after` comes from `before` by one operation: no row is deleted, no
   * row changes its spot or user, and every status change is a Step.
   */
  ghost predicate Evolves(before: Store, after: Store) {
    before.Keys <= after.Keys &&
    forall id :: id in before ==>
      after[id].spot == before[id].spot &&
      after[id].user == before[id].user &&
      Step(before[id].status, after[id].status)
  }

  /** Every row has a non-empty planned window and a spot of the pool. */
  ghost predicate WellFormed(sessions: Store) {
    forall id :: id in sessions ==>
      sessions[id].estimatedStart < sessions[id].estimatedEnd &&
      1 <= sessions[id].spot <= N
  }

  /**
   * Every row's user is on file: the JOIN with `users` in the lookups of
   * the controller and the reconcilers finds each row.
   */
  ghost predicate UsersKnown(sessions: Store, users: set<nat>) {
    forall id :: id in sessions ==> sessions[id].user in users
  }

  /** No two live rows on one spot have overlapping planned windows. */
  ghost predicate NoDoubleBooking(sessions: Store) {
    forall a, b ::
      (a in sessions && b in sessions && a != b &&
       Live(sessions[a]) && Live(sessions[b]) && sessions[a].spot == sessions[b].spot) ==>
      !Overlaps(sessions[b], sessions[a].estimatedStart, sessions[a].estimatedEnd)
  }

  /**
   * The grace test of activateReservation: more than 15 minutes past the
   * planned start (TIMESTAMPDIFF(MINUTE, start, NOW()) > 15).
   */
  predicate TooLateToActivate(s: Session, now: int) {
    now - s.estimatedStart > LATE_THRESHOLD_MINUTES
  }

  // ---------------------------------------------------------------------
  // Row updates performed by the engine and the reconcilers

  /** activateReservation: Actual_start_time = now, statusEnum = 'active', IsLate = 'no'. */
  function Activated(s: Session, now: int): Session {
    s.(actualStart := Some(now), status := Active, isLate := false)
  }

  /** exitParking: Actual_end_time = now, IsLate = (now > end), statusEnum = 'finished'. */
  function Exited(s: Session, now: int): Session {
    s.(actualEnd := Some(now), isLate := now > s.estimatedEnd, status := Finished)
  }

  /** extendParkingTime: Estimated_end_time += hours, IsExtended = 'yes'. */
  function Extended(s: Session, hours: int): Session {
    s.(estimatedEnd := s.estimatedEnd + hours * HOUR, isExtended := true)
  }

  /** cancelReservationInternal: statusEnum = 'cancelled'. */
  function Withdrawn(s: Session): Session {
    s.(status := Cancelled)
  }

  /** cancelLateReservation: statusEnum = 'cancelled', IsLate = 'yes'. */
  function Forfeited(s: Session): Session {
    s.(status := Cancelled, isLate := true)
  }

  /** markAsLateAndNotify: IsLate = 'yes'. */
  function FlaggedLate(s: Session): Session {
    s.(isLate := true)
  }

  // ---------------------------------------------------------------------
  // The spot ledger

  /**
   * updateParkingSpotStatus on the flag sequence: spot k is at index k - 1;
   * an id outside the pool matches no row and changes nothing.
   */
  function WithOccupancy(flags: seq<bool>, spotId: int, occupied: bool): (r: seq<bool>)
    ensures |r| == |flags|
    ensures forall k :: 0 <= k < |flags| ==> r[k] == (if k == spotId - 1 then occupied else flags[k])
  {
    if 1 <= spotId <= |flags| then flags[spotId - 1 := occupied] else flags
  }

  // ---------------------------------------------------------------------
  // Outgoing notifications (EmailService calls), in the order they are made

  datatype NoticeKind =
    | ReservationConfirmedNotice
    | ReservationCancelledNotice
    | ExtensionConfirmedNotice
    | LatePickupNotice
    | LateExitNotice

  /** One call into the e-mail service, about the session with this id. */
  datatype Notice = Notice(kind: NoticeKind, session: nat)

  ghost predicate Distinct<T>(xs: seq<T>) {
    forall i, j :: 0 <= i < j < |xs| ==> xs[i] != xs[j]
  }

  lemma DistinctAppend<T>(xs: seq<T>, x: T)
    requires Distinct(xs) && x !in xs
    ensures Distinct(xs + [x])
  {
  }

  /**
   * The notices a loop over `ids` sends: one of `kind` per session whose
   * user has contact details on file (the `email != null && name != null`
   * guard), in loop order.
   */
  function NoticesFor(kind: NoticeKind, ids: seq<nat>, sessions: Store, contacts: set<nat>): (r: seq<Notice>)
    ensures |r| <= |ids|
    ensures forall n :: n in r ==>
      n.kind == kind && n.session in ids && n.session in sessions && sessions[n.session].user in contacts
    ensures forall x :: x in ids && x in sessions && sessions[x].user in contacts ==> Notice(kind, x) in r
    ensures Distinct(ids) ==> Distinct(r)
  {
    if ids == [] then []
    else
      var last := ids[|ids| - 1];
      var init := ids[..|ids| - 1];
      assert forall x :: x in ids ==> x in init || x == last;
      var prefix := NoticesFor(kind, init, sessions, contacts);
      assert Distinct(ids) ==> last !in init;
      prefix + (if last in sessions && sessions[last].user in contacts then [Notice(kind, last)] else [])
  }

  /** Sending one more notice at the end of the loop. */
  lemma NoticesForAppend(kind: NoticeKind, ids: seq<nat>, x: nat, sessions: Store, contacts: set<nat>)
    ensures NoticesFor(kind, ids + [x], sessions, contacts) ==
      NoticesFor(kind, ids, sessions, contacts) +
      (if x in sessions && sessions[x].user in contacts then [Notice(kind, x)] else [])
  {
    assert (ids + [x])[..|ids|] == ids;
  }

  /** Queueing the notice for one more row extends the outbox as NoticesFor does. */
  lemma NoticesStep(kind: NoticeKind, base: seq<Notice>, sent: seq<Notice>, outbox: seq<Notice>,
                    ids: seq<nat>, x: nat, sessions: Store, contacts: set<nat>)
    requires sent == base + NoticesFor(kind, ids, sessions, contacts)
    requires x in sessions
    requires outbox == sent + (if sessions[x].user in contacts then [Notice(kind, x)] else [])
    ensures outbox == base + NoticesFor(kind, ids + [x], sessions, contacts)
  {
    NoticesForAppend(kind, ids, x, sessions, contacts);
  }
}
