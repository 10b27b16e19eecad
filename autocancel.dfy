/**
 * SimpleAutoCancellationService: the expiry reconciler. Each tick scans for
 * preorders whose planned start passed at least LATE_THRESHOLD_MINUTES ago,
 * cancels each one with a guarded update, frees its spot and, for a user
 * with contact details, sends a cancellation notice.
 */
module AutoCancel {
  import opened Sessions
  import opened Reconcile
  import opened Controller

  /**
   * Progress of a tick through its result set (which has no ORDER BY):
   * `visited` lists the rows handled so far, once each, and `done` is the
   * same rows as a set.
   */
  ghost predicate CancelProgress(scan: Store, selected: set<nat>, pending: set<nat>, done: set<nat>, visited: seq<nat>) {
    selected <= scan.Keys && pending <= selected && done == selected - pending &&
    (forall id :: id in visited <==> id in done) &&
    Distinct(visited)
  }

  lemma CancelProgressFacts(scan: Store, now: int, selected: set<nat>, pending: set<nat>, done: set<nat>, visited: seq<nat>, id: nat)
    requires CancelProgress(scan, selected, pending, done, visited) && id in pending
    requires selected == ExpiredPreorders(scan, now)
    ensures id in scan && id !in done && id !in visited
    ensures ForfeitAll(scan, done)[id] == scan[id] && scan[id].status == Preorder
  {
  }

  /** Handling one more pending row keeps the progress description. */
  lemma CancelProgressStep(scan: Store, selected: set<nat>, pending: set<nat>, done: set<nat>, visited: seq<nat>, id: nat)
    requires CancelProgress(scan, selected, pending, done, visited) && id in pending
    ensures CancelProgress(scan, selected, pending - {id}, done + {id}, visited + [id])
  {
    DistinctAppend(visited, id);
  }

  /** Once nothing is pending, every selected row has been handled. */
  lemma CancelProgressDone(scan: Store, selected: set<nat>, pending: set<nat>, done: set<nat>, visited: seq<nat>)
    requires CancelProgress(scan, selected, pending, done, visited) && pending == {}
    ensures done == selected && |done| == |visited|
    ensures Distinct(visited)
    ensures forall id :: id in visited <==> id in selected
  {
    DistinctCardinality(visited, done);
  }

  /** A list without repeats has as many entries as the set of its entries. */
  lemma {:induction false} DistinctCardinality(xs: seq<nat>, elems: set<nat>)
    requires Distinct(xs) && forall x :: x in xs <==> x in elems
    ensures |elems| == |xs|
    decreases |xs|
  {
    if xs != [] {
      var last := xs[|xs| - 1];
      var init := xs[..|xs| - 1];
      assert Distinct(init);
      assert last !in init;
      assert forall x :: x in init <==> x in elems - {last} by {
        assert xs == init + [last];
      }
      DistinctCardinality(init, elems - {last});
    }
  }

  class SimpleAutoCancellationService {
    const parking: ParkingController
    var isRunning: bool
    /** The periodic check is scheduled on the executor. */
    var ticking: bool
    /** scheduler.shutdown() has been called: the executor accepts no new task. */
    var schedulerShut: bool

    ghost predicate Valid()
      reads this, parking
    {
      parking.Valid() && (ticking ==> isRunning && !schedulerShut)
    }

    constructor (parking: ParkingController)
      requires parking.Valid()
      ensures Valid()
      ensures this.parking == parking && !isRunning && !ticking && !schedulerShut
    {
      this.parking := parking;
      isRunning := false;
      ticking := false;
      schedulerShut := false;
    }

    /**
     * startService: a no-op while running. Otherwise the flag is set first;
     * on an executor that has been shut down the scheduling call is
     * rejected (RejectedExecutionException) and the flag stays set.
     */
    method StartService() returns (rejected: bool)
      requires Valid()
      modifies this`isRunning, this`ticking
      ensures Valid()
      ensures old(isRunning) ==> isRunning && ticking == old(ticking) && !rejected
      ensures !old(isRunning) ==> isRunning && (rejected <==> schedulerShut) && (ticking <==> !schedulerShut)
    {
      rejected := false;
      if isRunning {
        return;
      }
      isRunning := true;
      if schedulerShut {
        rejected := true;
        return;
      }
      ticking := true;
    }

    /** stopService: a no-op while stopped; otherwise clears the flag and shuts the executor down. */
    method StopService()
      requires Valid()
      modifies this`isRunning, this`ticking, this`schedulerShut
      ensures Valid()
      ensures !old(isRunning) ==> !isRunning && ticking == old(ticking) && schedulerShut == old(schedulerShut)
      ensures old(isRunning) ==> !isRunning && !ticking && schedulerShut
    {
      if !isRunning {
        return;
      }
      isRunning := false;
      schedulerShut := true;
      ticking := false;
    }

    /**
     * cancelLateReservation: in one transaction, cancel the row and flag it
     * late only if it is still a preorder, then free `spotId`. When no row
     * was updated the transaction is rolled back and nothing changes.
     */
    method CancelLateReservation(id: nat, spotId: int) returns (ok: bool)
      requires parking.Valid()
      modifies parking`sessions, parking.spots
      ensures parking.Valid()
      ensures ok <==> id in old(parking.sessions) && old(parking.sessions)[id].status == Preorder
      ensures !ok ==> parking.sessions == old(parking.sessions) && parking.spots[..] == old(parking.spots[..])
      ensures ok ==>
        parking.sessions == old(parking.sessions)[id := Forfeited(old(parking.sessions)[id])] &&
        parking.spots[..] == WithOccupancy(old(parking.spots[..]), spotId, false)
    {
      if !(id in parking.sessions && parking.sessions[id].status == Preorder) {
        return false;
      }
      var s := parking.sessions[id];
      parking.sessions := parking.sessions[id := Forfeited(s)];
      parking.UpdateParkingSpotStatus(spotId, false);
      return true;
    }

    /**
     * checkAndCancelLatePreorders: one tick at `now`. Every expired preorder
     * is cancelled, in the order the scan returns them (`visited`); its spot
     * is freed and its user notified. The count is of successful
     * cancellations.
     */
    method CheckAndCancelLatePreorders(now: int) returns (cancelledCount: nat, ghost visited: seq<nat>)
      requires parking.Valid()
      modifies parking`sessions, parking`outbox, parking.spots
      ensures parking.Valid()
      ensures parking.sessions == AfterCancellationTick(old(parking.sessions), now)
      ensures parking.spots[..] ==
        Released(old(parking.spots[..]), SpotsOf(old(parking.sessions), ExpiredPreorders(old(parking.sessions), now)))
      ensures Distinct(visited)
      ensures forall id :: id in visited <==> id in ExpiredPreorders(old(parking.sessions), now)
      ensures parking.outbox == old(parking.outbox) +
        NoticesFor(ReservationCancelledNotice, visited, old(parking.sessions), parking.Contacts())
      ensures cancelledCount == |ExpiredPreorders(old(parking.sessions), now)|
    {
      // The result set: the rows as they were when the scan ran.
      var scan := parking.sessions;
      ghost var flags := parking.spots[..];
      var pending := ExpiredPreorders(scan, now);
      ghost var selected := pending;
      ghost var done: set<nat> := {};
      cancelledCount := 0;
      visited := [];
      assert CancelProgress(scan, selected, pending, done, visited);
      while pending != {}
        invariant parking.Valid()
        invariant selected == ExpiredPreorders(scan, now)
        invariant CancelProgress(scan, selected, pending, done, visited)
        invariant parking.sessions == ForfeitAll(scan, done)
        invariant parking.spots[..] == Released(flags, SpotsOf(scan, done))
        invariant parking.outbox == old(parking.outbox) + NoticesFor(ReservationCancelledNotice, visited, scan, parking.Contacts())
        invariant cancelledCount == |visited|
        decreases pending
      {
        var id :| id in pending;
        assert id in scan && id !in done && id !in visited &&
               parking.sessions[id] == scan[id] && scan[id].status == Preorder by {
          CancelProgressFacts(scan, now, selected, pending, done, visited, id);
        }
        var spotId := scan[id].spot;
        ghost var sent := parking.outbox;
        ghost var released := parking.spots[..];
        var ok := CancelLateReservation(id, spotId);
        if ok {
          cancelledCount := cancelledCount + 1;
          if scan[id].user in parking.Contacts() {
            parking.outbox := parking.outbox + [Notice(ReservationCancelledNotice, id)];
          }
        }
        NoticesStep(ReservationCancelledNotice, old(parking.outbox), sent, parking.outbox, visited, id, scan, parking.Contacts());
        ForfeitOneMore(scan, done, id);
        assert parking.spots[..] == Released(flags, SpotsOf(scan, done + {id})) by {
          ReleaseOneMore(flags, SpotsOf(scan, done), spotId);
          SpotsOfOneMore(scan, done, id);
        }
        CancelProgressStep(scan, selected, pending, done, visited, id);
        visited := visited + [id];
        done := done + {id};
        pending := pending - {id};
      }
      CancelProgressDone(scan, selected, pending, done, visited);
    }
  }
}
