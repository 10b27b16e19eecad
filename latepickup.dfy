/**
 * LatePickupMonitorService: the overstay reconciler. Each tick scans for
 * active sessions past their planned end that are not yet flagged, flags
 * each one with a guarded update and sends a late-pickup notice.
 */
module LatePickup {
  import opened Sessions
  import opened Reconcile
  import opened Controller

  /** The selected rows whose markAsLateAndNotify call reports success. */
  ghost function Delivered(sessions: Store, ids: set<nat>, contacts: set<nat>, mailFails: set<nat>): set<nat> {
    set id | id in ids && id in sessions && !(sessions[id].user in contacts && id in mailFails)
  }

  lemma DeliveredOneMore(sessions: Store, ids: set<nat>, contacts: set<nat>, mailFails: set<nat>, id: nat)
    requires id in sessions && id !in ids
    ensures |Delivered(sessions, ids + {id}, contacts, mailFails)| ==
      |Delivered(sessions, ids, contacts, mailFails)| +
      (if sessions[id].user in contacts && id in mailFails then 0 else 1)
  {
    if sessions[id].user in contacts && id in mailFails {
      assert Delivered(sessions, ids + {id}, contacts, mailFails) == Delivered(sessions, ids, contacts, mailFails);
    } else {
      assert Delivered(sessions, ids + {id}, contacts, mailFails) == Delivered(sessions, ids, contacts, mailFails) + {id};
    }
  }

  /**
   * Progress of a tick through its result set: `visited` lists the rows
   * handled so far, once each and earliest planned end first, `done` is the
   * same rows as a set, and every row still `pending` ends no earlier.
   */
  ghost predicate ScanProgress(scan: Store, selected: set<nat>, pending: set<nat>, done: set<nat>, visited: seq<nat>) {
    selected <= scan.Keys && pending <= selected && done == selected - pending &&
    (forall id :: id in visited <==> id in done) &&
    Distinct(visited) && SortedByEnd(visited, scan) &&
    forall i, o :: 0 <= i < |visited| && visited[i] in scan && o in pending ==> scan[visited[i]].estimatedEnd <= scan[o].estimatedEnd
  }

  /**
   * The state of a tick at `now` part-way through: the rows handled so far
   * are flagged, their notices are queued after `base`, and `count` is the
   * number of successful markAsLateAndNotify calls.
   */
  ghost predicate TickState(scan: Store, now: int, contacts: set<nat>, mailFails: set<nat>,
                            pending: set<nat>, done: set<nat>, visited: seq<nat>,
                            sessions: Store, base: seq<Notice>, outbox: seq<Notice>, count: int) {
    ScanProgress(scan, OverdueSessions(scan, now), pending, done, visited) &&
    sessions == FlagAll(scan, done) &&
    outbox == base + NoticesFor(LatePickupNotice, visited, scan, contacts) &&
    count == |Delivered(scan, done, contacts, mailFails)|
  }

  lemma TickStart(scan: Store, now: int, contacts: set<nat>, mailFails: set<nat>, base: seq<Notice>)
    ensures TickState(scan, now, contacts, mailFails, OverdueSessions(scan, now), {}, [], scan, base, base, 0)
  {
    assert FlagAll(scan, {}) == scan;
    assert Delivered(scan, {}, contacts, mailFails) == {};
  }

  /** A pending row is still as the scan saw it, and still passes the update's guard. */
  lemma TickPending(scan: Store, now: int, contacts: set<nat>, mailFails: set<nat>,
                    pending: set<nat>, done: set<nat>, visited: seq<nat>,
                    sessions: Store, base: seq<Notice>, outbox: seq<Notice>, count: int, id: nat)
    requires TickState(scan, now, contacts, mailFails, pending, done, visited, sessions, base, outbox, count)
    requires id in pending
    ensures id in scan && id in sessions && sessions[id] == scan[id]
    ensures scan[id].status == Active && !scan[id].isLate
  {
  }

  /** Handling the earliest pending row keeps the tick state. */
  lemma TickStep(scan: Store, now: int, contacts: set<nat>, mailFails: set<nat>,
                 pending: set<nat>, done: set<nat>, visited: seq<nat>,
                 sessions: Store, base: seq<Notice>, outbox: seq<Notice>, count: int, id: nat,
                 sessions': Store, outbox': seq<Notice>, notified: bool)
    requires TickState(scan, now, contacts, mailFails, pending, done, visited, sessions, base, outbox, count)
    requires id in pending
    requires forall o :: o in pending ==> scan[id].estimatedEnd <= scan[o].estimatedEnd
    requires id in scan && sessions' == sessions[id := FlaggedLate(scan[id])]
    requires outbox' == outbox + (if scan[id].user in contacts then [Notice(LatePickupNotice, id)] else [])
    requires notified <==> !(scan[id].user in contacts && id in mailFails)
    ensures TickState(scan, now, contacts, mailFails, pending - {id}, done + {id}, visited + [id],
                      sessions', base, outbox', count + (if notified then 1 else 0))
  {
    ScanProgressStep(scan, OverdueSessions(scan, now), pending, done, visited, id);
    FlagOneMore(scan, done, id);
    DeliveredOneMore(scan, done, contacts, mailFails, id);
    NoticesStep(LatePickupNotice, base, outbox, outbox', visited, id, scan, contacts);
  }

  /** Handling the earliest pending row keeps the progress description. */
  lemma ScanProgressStep(scan: Store, selected: set<nat>, pending: set<nat>, done: set<nat>, visited: seq<nat>, id: nat)
    requires ScanProgress(scan, selected, pending, done, visited) && id in pending
    requires forall o :: o in pending ==> scan[id].estimatedEnd <= scan[o].estimatedEnd
    ensures ScanProgress(scan, selected, pending - {id}, done + {id}, visited + [id])
    ensures id !in done
  {
    DistinctAppend(visited, id);
    SortedByEndAppend(visited, id, scan);
  }

  /** Once nothing is pending, the tick has done all it promises. */
  lemma TickDone(scan: Store, now: int, contacts: set<nat>, mailFails: set<nat>,
                 done: set<nat>, visited: seq<nat>,
                 sessions: Store, base: seq<Notice>, outbox: seq<Notice>, count: int)
    requires TickState(scan, now, contacts, mailFails, {}, done, visited, sessions, base, outbox, count)
    ensures sessions == AfterLateTick(scan, now)
    ensures Distinct(visited) && SortedByEnd(visited, scan)
    ensures forall id :: id in visited <==> id in OverdueSessions(scan, now)
    ensures outbox == base + NoticesFor(LatePickupNotice, visited, scan, contacts)
    ensures count == |Delivered(scan, OverdueSessions(scan, now), contacts, mailFails)|
  {
    assert done == OverdueSessions(scan, now);
  }

  class LatePickupMonitorService {
    const parking: ParkingController
    var isRunning: bool
    /** The periodic check is scheduled on the executor. */
    var ticking: bool
    /** scheduler.shutdown() has been called: the executor accepts no new task. */
    var schedulerShut: bool

    ghost predicate Valid()
      reads this, parking
    {
      parking.Valid() && (ticking ==> isRunning && !schedulerShut)
    }

    constructor (parking: ParkingController)
      requires parking.Valid()
      ensures Valid()
      ensures this.parking == parking && !isRunning && !ticking && !schedulerShut
    {
      this.parking := parking;
      isRunning := false;
      ticking := false;
      schedulerShut := false;
    }

    /**
     * startService: a no-op while running. Otherwise the flag is set first;
     * on an executor that has been shut down the scheduling call is
     * rejected (RejectedExecutionException) and the flag stays set.
     */
    method StartService() returns (rejected: bool)
      requires Valid()
      modifies this`isRunning, this`ticking
      ensures Valid()
      ensures old(isRunning) ==> isRunning && ticking == old(ticking) && !rejected
      ensures !old(isRunning) ==> isRunning && (rejected <==> schedulerShut) && (ticking <==> !schedulerShut)
    {
      rejected := false;
      if isRunning {
        return;
      }
      isRunning := true;
      if schedulerShut {
        rejected := true;
        return;
      }
      ticking := true;
    }

    /** stopService: a no-op while stopped; otherwise clears the flag and shuts the executor down. */
    method StopService()
      requires Valid()
      modifies this`isRunning, this`ticking, this`schedulerShut
      ensures Valid()
      ensures !old(isRunning) ==> !isRunning && ticking == old(ticking) && schedulerShut == old(schedulerShut)
      ensures old(isRunning) ==> !isRunning && !ticking && schedulerShut
    {
      if !isRunning {
        return;
      }
      isRunning := false;
      schedulerShut := true;
      ticking := false;
    }

    /**
     * markAsLateAndNotify: flag the session late only if it is still active
     * and not yet flagged. The flag is committed before the notice is
     * attempted; the result is false when no row was updated or when the
     * notice to a user with contact details fails (`mailFails`).
     */
    method MarkAsLateAndNotify(id: nat, mailFails: set<nat>) returns (notified: bool)
      requires parking.Valid()
      modifies parking`sessions, parking`outbox
      ensures parking.Valid()
      ensures !(id in old(parking.sessions) && old(parking.sessions)[id].status == Active && !old(parking.sessions)[id].isLate) ==>
        !notified && parking.sessions == old(parking.sessions) && parking.outbox == old(parking.outbox)
      ensures id in old(parking.sessions) && old(parking.sessions)[id].status == Active && !old(parking.sessions)[id].isLate ==>
        var s := old(parking.sessions)[id];
        parking.sessions == old(parking.sessions)[id := FlaggedLate(s)] &&
        parking.outbox == old(parking.outbox) +
          (if s.user in parking.Contacts() then [Notice(LatePickupNotice, id)] else []) &&
        (notified <==> !(s.user in parking.Contacts() && id in mailFails))
    {
      if !(id in parking.sessions && parking.sessions[id].status == Active && !parking.sessions[id].isLate) {
        return false;
      }
      var s := parking.sessions[id];
      parking.sessions := parking.sessions[id := FlaggedLate(s)];
      if s.user in parking.Contacts() {
        parking.outbox := parking.outbox + [Notice(LatePickupNotice, id)];
        return id !in mailFails;
      }
      return true;
    }

    /**
     * checkForOverdueParkingSessions: one tick at `now`. The scan selects
     * the overdue rows, earliest planned end first (`visited`), and each is
     * flagged and notified in that order.
     */
    method CheckForOverdueParkingSessions(now: int, mailFails: set<nat>) returns (notifiedCount: nat, ghost visited: seq<nat>)
      requires parking.Valid()
      modifies parking`sessions, parking`outbox
      ensures parking.Valid()
      ensures parking.sessions == AfterLateTick(old(parking.sessions), now)
      ensures Distinct(visited)
      ensures forall id :: id in visited <==> id in OverdueSessions(old(parking.sessions), now)
      ensures SortedByEnd(visited, old(parking.sessions))
      ensures parking.outbox == old(parking.outbox) +
        NoticesFor(LatePickupNotice, visited, old(parking.sessions), parking.Contacts())
      ensures notifiedCount ==
        |Delivered(old(parking.sessions), OverdueSessions(old(parking.sessions), now), parking.Contacts(), mailFails)|
    {
      // The result set: the rows as they were when the scan ran.
      var scan := parking.sessions;
      ghost var contacts := parking.Contacts();
      var pending := OverdueSessions(scan, now);
      ghost var done: set<nat> := {};
      notifiedCount := 0;
      visited := [];
      TickStart(scan, now, contacts, mailFails, parking.outbox);
      while pending != {}
        invariant parking.Valid() && parking.Contacts() == contacts
        invariant TickState(scan, now, contacts, mailFails, pending, done, visited,
                            parking.sessions, old(parking.outbox), parking.outbox, notifiedCount)
        decreases pending
      {
        assert pending <= scan.Keys;
        var id := EarliestEnd(scan, pending);
        TickPending(scan, now, contacts, mailFails, pending, done, visited,
                    parking.sessions, old(parking.outbox), parking.outbox, notifiedCount, id);
        ghost var sessions := parking.sessions;
        ghost var sent := parking.outbox;
        ghost var count := notifiedCount;
        var ok := MarkAsLateAndNotify(id, mailFails);
        if ok {
          notifiedCount := notifiedCount + 1;
        }
        TickStep(scan, now, contacts, mailFails, pending, done, visited, sessions, old(parking.outbox), sent, count, id,
                 parking.sessions, parking.outbox, ok);
        visited := visited + [id];
        done := done + {id};
        pending := pending - {id};
      }
      TickDone(scan, now, contacts, mailFails, done, visited, parking.sessions, old(parking.outbox), parking.outbox, notifiedCount);
    }
  }
}
