/**
 * What one tick of each background reconciler selects and what the table
 * looks like after it: the overstay reconciler (LatePickupMonitorService)
 * flags overdue active sessions, the expiry reconciler
 * (SimpleAutoCancellationService) forfeits preorders past their grace period.
 */
module Reconcile {
  import opened Sessions

  // ---------------------------------------------------------------------
  // Overstay reconciler

  /** The WHERE clause of the overdue scan. */
  predicate IsOverdue(s: Session, now: int) {
    s.status == Active && s.estimatedEnd < now && !s.isLate
  }

  /** The rows the overdue scan returns at `now`. */
  function OverdueSessions(sessions: Store, now: int): (r: set<nat>)
    ensures r <= sessions.Keys
    ensures forall id :: id in r <==> id in sessions && IsOverdue(sessions[id], now)
  {
    set id | id in sessions && IsOverdue(sessions[id], now)
  }

  /** The table with the rows of `ids` flagged late. */
  function FlagAll(sessions: Store, ids: set<nat>): (r: Store)
    ensures r.Keys == sessions.Keys
  {
    map id | id in sessions :: if id in ids then FlaggedLate(sessions[id]) else sessions[id]
  }

  /** Flagging one more row, as one iteration of the tick does. */
  lemma FlagOneMore(sessions: Store, ids: set<nat>, id: nat)
    requires id in sessions
    ensures FlagAll(sessions, ids)[id := FlaggedLate(sessions[id])] == FlagAll(sessions, ids + {id})
  {
  }

  /**
   * The table after an overstay tick at `now`: every selected row has been
   * flagged late, and nothing else has changed.
   */
  function AfterLateTick(sessions: Store, now: int): (r: Store)
    ensures r.Keys == sessions.Keys
    ensures forall id :: id in r ==> r[id].(isLate := sessions[id].isLate) == sessions[id]
    ensures forall id :: id in r ==> (r[id].isLate <==> sessions[id].isLate || IsOverdue(sessions[id], now))
  {
    FlagAll(sessions, OverdueSessions(sessions, now))
  }

  /**
   * A flagged session is never selected again, at the same time or later,
   * and a second tick at the same time changes nothing.
   */
  lemma LateTickIsIdempotent(sessions: Store, now: int, later: int)
    ensures forall id :: id in OverdueSessions(sessions, now) ==> id !in OverdueSessions(AfterLateTick(sessions, now), later)
    ensures OverdueSessions(AfterLateTick(sessions, now), now) == {}
    ensures AfterLateTick(AfterLateTick(sessions, now), now) == AfterLateTick(sessions, now)
  {
    var after := AfterLateTick(sessions, now);
    forall id | id in after ensures !IsOverdue(after[id], now) {
      if IsOverdue(sessions[id], now) {
        assert after[id].isLate;
      } else {
        assert after[id] == sessions[id];
      }
    }
    assert OverdueSessions(after, now) == {};
    var twice := AfterLateTick(after, now);
    assert twice.Keys == after.Keys;
    forall id | id in twice ensures twice[id] == after[id] {
      assert !IsOverdue(after[id], now);
    }
  }

  /** Flagging touches neither status nor window, so bookings stay disjoint. */
  lemma LateTickKeepsNoDoubleBooking(sessions: Store, now: int)
    requires NoDoubleBooking(sessions)
    ensures NoDoubleBooking(AfterLateTick(sessions, now))
    ensures Evolves(sessions, AfterLateTick(sessions, now))
  {
    var after := AfterLateTick(sessions, now);
    forall a, b |
      a in after && b in after && a != b &&
      Live(after[a]) && Live(after[b]) && after[a].spot == after[b].spot
      ensures !Overlaps(after[b], after[a].estimatedStart, after[a].estimatedEnd)
    {
      assert after[a].(isLate := sessions[a].isLate) == sessions[a];
      assert after[b].(isLate := sessions[b].isLate) == sessions[b];
    }
    forall id | id in sessions ensures after[id].status == sessions[id].status {
      assert after[id].(isLate := sessions[id].isLate) == sessions[id];
    }
  }

  /** ORDER BY Estimated_end_time ASC, ties in any order. */
  ghost predicate SortedByEnd(ids: seq<nat>, sessions: Store) {
    forall i, j :: 0 <= i < j < |ids| && ids[i] in sessions && ids[j] in sessions ==>
      sessions[ids[i]].estimatedEnd <= sessions[ids[j]].estimatedEnd
  }

  /** A row whose end comes no earlier than any visited one may follow them. */
  lemma SortedByEndAppend(ids: seq<nat>, x: nat, sessions: Store)
    requires SortedByEnd(ids, sessions) && x in sessions
    requires forall i :: 0 <= i < |ids| && ids[i] in sessions ==> sessions[ids[i]].estimatedEnd <= sessions[x].estimatedEnd
    ensures SortedByEnd(ids + [x], sessions)
  {
  }

  /** Every non-empty set of rows has one whose end comes first. */
  lemma {:induction false} EarliestEndExists(sessions: Store, pending: set<nat>)
    requires pending != {} && pending <= sessions.Keys
    ensures exists id :: id in pending && forall o :: o in pending ==> sessions[id].estimatedEnd <= sessions[o].estimatedEnd
    decreases pending
  {
    var x :| x in pending;
    var rest := pending - {x};
    if rest == {} {
      assert pending == {x};
      assert forall o :: o in pending ==> sessions[x].estimatedEnd <= sessions[o].estimatedEnd;
    } else {
      EarliestEndExists(sessions, rest);
      var y :| y in rest && forall o :: o in rest ==> sessions[y].estimatedEnd <= sessions[o].estimatedEnd;
      if sessions[x].estimatedEnd <= sessions[y].estimatedEnd {
        assert forall o :: o in pending ==> sessions[x].estimatedEnd <= sessions[o].estimatedEnd;
      } else {
        assert forall o :: o in pending ==> sessions[y].estimatedEnd <= sessions[o].estimatedEnd;
      }
    }
  }

  /** The next row of a result set in ORDER BY Estimated_end_time ASC. */
  method EarliestEnd(sessions: Store, pending: set<nat>) returns (id: nat)
    requires pending != {} && pending <= sessions.Keys
    ensures id in pending
    ensures forall o :: o in pending ==> sessions[id].estimatedEnd <= sessions[o].estimatedEnd
  {
    EarliestEndExists(sessions, pending);
    id :| id in pending && forall o :: o in pending ==> sessions[id].estimatedEnd <= sessions[o].estimatedEnd;
  }

  // ---------------------------------------------------------------------
  // Expiry reconciler

  /**
   * The WHERE clause of the expiry scan: a preorder whose planned start has
   * passed by at least LATE_THRESHOLD_MINUTES.
   */
  predicate IsExpiredPreorder(s: Session, now: int) {
    s.status == Preorder && s.estimatedStart < now && now - s.estimatedStart >= LATE_THRESHOLD_MINUTES
  }

  /** The rows the expiry scan returns at `now`. */
  function ExpiredPreorders(sessions: Store, now: int): (r: set<nat>)
    ensures r <= sessions.Keys
    ensures forall id :: id in r <==> id in sessions && IsExpiredPreorder(sessions[id], now)
  {
    set id | id in sessions && IsExpiredPreorder(sessions[id], now)
  }

  /**
   * The table after an expiry tick at `now`: every selected preorder is
   * cancelled and flagged late; active, finished and cancelled rows, and
   * preorders still within their grace period, are untouched.
   */
  function AfterCancellationTick(sessions: Store, now: int): (r: Store)
    ensures r.Keys == sessions.Keys
    ensures forall id :: id in r && !IsExpiredPreorder(sessions[id], now) ==> r[id] == sessions[id]
    ensures forall id :: id in r && sessions[id].status != Preorder ==> r[id] == sessions[id]
    ensures forall id :: id in r && IsExpiredPreorder(sessions[id], now) ==>
      r[id].status == Cancelled && r[id].isLate &&
      r[id].(status := Preorder, isLate := sessions[id].isLate) == sessions[id]
  {
    ForfeitAll(sessions, ExpiredPreorders(sessions, now))
  }

  /** The table with the rows of `ids` forfeited. */
  function ForfeitAll(sessions: Store, ids: set<nat>): (r: Store)
    ensures r.Keys == sessions.Keys
  {
    map id | id in sessions :: if id in ids then Forfeited(sessions[id]) else sessions[id]
  }

  /** Forfeiting one more row, as one iteration of the tick does. */
  lemma ForfeitOneMore(sessions: Store, ids: set<nat>, id: nat)
    requires id in sessions
    ensures ForfeitAll(sessions, ids)[id := Forfeited(sessions[id])] == ForfeitAll(sessions, ids + {id})
  {
  }

  /** The spots of the given rows. */
  function SpotsOf(sessions: Store, ids: set<nat>): set<int> {
    set id | id in ids && id in sessions :: sessions[id].spot
  }

  lemma SpotsOfOneMore(sessions: Store, ids: set<nat>, id: nat)
    requires id in sessions
    ensures SpotsOf(sessions, ids + {id}) == SpotsOf(sessions, ids) + {sessions[id].spot}
  {
  }

  /**
   * The spot flags after `isOccupied = FALSE` has been written for each
   * spot of `released`.
   */
  function Released(flags: seq<bool>, released: set<int>): (r: seq<bool>)
    ensures |r| == |flags|
    ensures forall k :: 0 <= k < |flags| ==> (r[k] <==> flags[k] && k + 1 !in released)
  {
    seq(|flags|, k requires 0 <= k < |flags| => flags[k] && k + 1 !in released)
  }

  /** Releasing one more spot, as one iteration of the tick does. */
  lemma ReleaseOneMore(flags: seq<bool>, released: set<int>, spot: int)
    requires 1 <= spot <= |flags|
    ensures WithOccupancy(Released(flags, released), spot, false) == Released(flags, released + {spot})
  {
  }

  /**
   * A forfeited reservation is never forfeited again, at the same time or
   * later, and a second tick at the same time changes nothing.
   */
  lemma CancellationTickIsIdempotent(sessions: Store, now: int, later: int)
    ensures forall id :: id in ExpiredPreorders(sessions, now) ==> id !in ExpiredPreorders(AfterCancellationTick(sessions, now), later)
    ensures ExpiredPreorders(AfterCancellationTick(sessions, now), now) == {}
    ensures AfterCancellationTick(AfterCancellationTick(sessions, now), now) == AfterCancellationTick(sessions, now)
  {
    var after := AfterCancellationTick(sessions, now);
    forall id | id in after ensures !IsExpiredPreorder(after[id], now) {
      if IsExpiredPreorder(sessions[id], now) {
        assert after[id].status == Cancelled;
      } else {
        assert after[id] == sessions[id];
      }
    }
    assert ExpiredPreorders(after, now) == {};
    var twice := AfterCancellationTick(after, now);
    forall id | id in twice ensures twice[id] == after[id] {
      assert !IsExpiredPreorder(after[id], now);
    }
  }

  /** Forfeiting only ends bookings, so they stay disjoint. */
  lemma CancellationTickKeepsNoDoubleBooking(sessions: Store, now: int)
    requires NoDoubleBooking(sessions)
    ensures NoDoubleBooking(AfterCancellationTick(sessions, now))
    ensures Evolves(sessions, AfterCancellationTick(sessions, now))
  {
    var after := AfterCancellationTick(sessions, now);
    forall a, b |
      a in after && b in after && a != b &&
      Live(after[a]) && Live(after[b]) && after[a].spot == after[b].spot
      ensures !Overlaps(after[b], after[a].estimatedStart, after[a].estimatedEnd)
    {
      assert after[a] == sessions[a] && after[b] == sessions[b];
    }
  }

  // ---------------------------------------------------------------------
  // The two grace tests

  /**
   * The grace tests disagree at exactly 15 minutes: the reconciler forfeits
   * a preorder that activateReservation would still let in.
   */
  lemma GraceBoundaryDiffers(s: Session, now: int)
    requires s.status == Preorder && now - s.estimatedStart == LATE_THRESHOLD_MINUTES
    ensures IsExpiredPreorder(s, now)
    ensures !TooLateToActivate(s, now)
  {
  }

  /**
   * Everywhere else they agree: a preorder activation turns away is one the
   * reconciler forfeits, and a preorder the reconciler spares is one
   * activation lets in.
   */
  lemma GraceTestsAgreeOffBoundary(s: Session, now: int)
    requires s.status == Preorder && now - s.estimatedStart != LATE_THRESHOLD_MINUTES
    ensures IsExpiredPreorder(s, now) <==> TooLateToActivate(s, now)
  {
  }
}
