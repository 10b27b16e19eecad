# BPark parking engine — a Dafny model

This project models the core of the BPark server: the rules by which the
`ParkingController` hands out, activates, extends, ends and cancels parking
sessions, and the two background reconcilers that run beside it. Those are
`LatePickupMonitorService`, which flags overstays, and
`SimpleAutoCancellationService`, which forfeits reservations whose holder did
not arrive.

The `ParkingInfo` table is a map from parking code (the AUTO_INCREMENT key)
to a `Session` record. The record holds:

- the spot;
- the user;
- the order, planned start and planned end times;
- the actual start and end times;
- the ordered, late and extended flags;
- the status (`preorder`, `active`, `finished`, `cancelled`).

The `ParkingSpot.isOccupied` column is an `array<bool>` of 100 flags, where spot id
`k` sits at index `k - 1`. Time is a whole number of minutes. The current time
is a parameter of every operation that reads the clock. E-mails that the
controller sends become `Notice`s appended to an outbox.

Modules:

- `Sessions`: constants, the row record, the status life cycle (`Evolves`),
  the "no double booking" invariant, the row rewrites each operation performs,
  and the notice list a batch of rows produces.
- `Availability`: the availability resolver. It counts rows that conflict with a
  planned window, applies the 40% rule (at least 40 of 100 spots left), and
  finds the lowest conflict-free spot. A window that passes the 40% rule always
  has a free spot (`FortyPercentGuaranteesSpot`).
- `Allocation`: the walk-in duration search (8 hours down to 2) and the
  extension ceiling search (4 hours down to 1).
- `TimeSlots`: 15-minute alignment and the nine-slot availability table shown
  around a preferred time.
- `Roles`: `UserRole` and its database spelling.
- `Invariants`: how inserting a row on a free spot, rewriting a row in place and
  extending a row keep bookings disjoint.
- `Controller`: the `ParkingController` class and its operations.
- `Reconcile`: what one reconciler tick selects and what the table looks like
  after it. It also shows the two grace tests disagreeing at exactly 15 minutes.
- `LatePickup` and `AutoCancel`: the two reconciler classes. Their ticks are
  loops over the scan's result set, proved to produce the table state `Reconcile`
  describes.

## Model

| member | source | states |
|---|---|---|
| Roles.FromDbValue | src/controllers/ParkingController.java:40-63 | a role is returned only for its own spelling ("sub", "emp", "mng"); any other string gives none |
| Roles.DbValue | src/controllers/ParkingController.java:40-53 | the database spelling of each role: "sub", "emp", "mng" |
| Roles.FirstWithDbValue | src/controllers/ParkingController.java:55-62 | the scan over `values()` returns a role of the list with that spelling, or none when no role has it |
| Roles.DbValueRoundTrip | src/controllers/ParkingController.java:40-63 | every role reads back from its own database spelling |
| Availability.AvailableSpots | src/controllers/ParkingController.java:102-133 | the free count lies in 0..100, is 0 exactly when at least 100 rows conflict, and otherwise plus the conflict count equals 100 |
| Availability.MeetsFortyPercent | src/controllers/ParkingController.java:134-149 | the 40% rule holds exactly when at most 60 rows conflict with the window |
| Availability.FirstFreeFrom | src/controllers/ParkingController.java:156-192 | the result is -1 or a spot id in range that no conflicting row holds, and every lower spot id is held by a conflicting row |
| Availability.FindFreeSpot | src/controllers/ParkingController.java:156-192 | the lowest conflict-free spot id (ORDER BY ParkingSpot_ID LIMIT 1), or -1 when every spot is held |
| Availability.SpotIsFreeMeans | src/controllers/ParkingController.java:156-192 | a spot is free for a window exactly when no live row on it overlaps the window |
| Availability.SpotsOfRowsBound | src/controllers/ParkingController.java:156-192 | conflicting rows cover at most as many spots as there are rows |
| Availability.Pool | src/controllers/ParkingController.java:1348-1371 | the spot ids 1..n of a pool of n spots |
| Availability.FreeSpotBelowCapacity | src/controllers/ParkingController.java:102-192 | fewer than 100 conflicting rows leave a free spot; when the finder returns -1 the count reports no spot |
| Availability.FortyPercentGuaranteesSpot | src/controllers/ParkingController.java:200-279 | after the capacity check of makeReservation passes, the spot finder cannot fail |
| Availability.FreeSpotForShorterWindow | src/controllers/ParkingController.java:1468-1486 | a spot free for a window is free for a shorter one with the same start, so the lowest free spot only gets lower |
| Allocation.FindOptimalSpontaneousAllocation | src/controllers/ParkingController.java:1468-1486 | an allocation is the longest duration in 8..2 hours with a free spot, on the lowest such spot, with the 8-hour flag exactly when 8 hours fit; none exactly when no duration in 2..8 has a spot |
| Allocation.AllocationIsLongestFree | src/controllers/ParkingController.java:1468-1486 | a walk-in given h hours could have had every shorter duration down to 2 hours |
| Allocation.FindMaximumExtension | src/controllers/ParkingController.java:1491-1520 | the result lies in 0..4; a positive result is an extension no live row on the spot blocks, and every longer extension up to 4 hours is blocked |
| Allocation.BlocksExtension | src/controllers/ParkingController.java:1497-1503 | the row test of the extension query: a preorder or active row on the spot that starts before the tested end and ends after the current end |
| Allocation.ExtensionFits | src/controllers/ParkingController.java:1497-1510 | the extension query counts no row, so an extension of that many hours fits |
| Allocation.OwnSessionNeverBlocks | src/controllers/ParkingController.java:1491-1520 | the session being extended never counts against its own extension |
| Allocation.ShorterExtensionFits | src/controllers/ParkingController.java:1491-1520 | an extension that fits also fits when shortened |
| Allocation.BlocksExtensionIsOverlap | src/controllers/ParkingController.java:1491-1520 | the extension query's row test is the overlap of a live row on the spot with the added interval |
| TimeSlots.AlignToTimeSlot | src/controllers/ParkingController.java:1378-1382 | the result is a multiple of 15 minutes, at most 14 minutes before the input, in the same hour |
| TimeSlots.AlignIsIdempotent | src/controllers/ParkingController.java:1378-1382 | aligning an aligned time leaves it unchanged |
| TimeSlots.GetAvailableTimeSlots | src/controllers/ParkingController.java:536-568 | nine slots, 15 minutes apart, from the aligned time one hour before the preferred time until the slot holding one hour after it; each slot reports the free count and the 40% rule for its 4-hour window and is offered exactly when the rule holds |
| Invariants.OverlapIsSymmetric | src/controllers/ParkingController.java:102-192 | the overlap test is symmetric in the two windows |
| Invariants.InsertOnFreeSpotKeepsNoDoubleBooking | src/controllers/ParkingController.java:200-279 | a new row on a spot free for its own window keeps live bookings on one spot disjoint |
| Invariants.InPlaceUpdateKeepsNoDoubleBooking | src/controllers/ParkingController.java:1193-1336 | rewriting a row without moving its spot or window, and without reviving it, keeps bookings disjoint |
| Invariants.ExtensionKeepsNoDoubleBooking | src/controllers/ParkingController.java:936-1021 | an extension the extension query allows keeps bookings disjoint |
| Controller.FreeCount | src/controllers/ParkingController.java:507-521 | the number of unoccupied spot flags; zero exactly when every spot is flagged occupied |
| Controller.FirstUnoccupied | src/controllers/ParkingController.java:1566-1579 | -1, or a spot whose flag is clear and below which every flag is set |
| Controller.ArrivalOf | src/controllers/ParkingController.java:1237-1244 | the welcome message carries the signed minutes since the planned start: early exactly when negative, on time exactly at zero, late otherwise |
| Controller.ParkingController.constructor | src/controllers/ParkingController.java:1348-1371 | 100 spots, all unoccupied; no sessions; the next code is 1 |
| Controller.ParkingController.UpdateParkingSpotStatus | src/controllers/ParkingController.java:1581-1594 | writes one spot's flag and leaves the rest; an id out of range changes nothing |
| Controller.ParkingController.Insert | src/controllers/ParkingController.java:236-250 | the row is stored under the next AUTO_INCREMENT code, which was unused |
| Controller.ParkingController.MakeReservation | src/controllers/ParkingController.java:200-279 | checks run in order: capacity (40% rule for the 4-hour window), then at least 24 hours ahead, then at most 7 days ahead, then the user exists. Success inserts a preorder on the lowest free spot and queues a confirmation for a user with an e-mail address. The "no spot" branch is unreachable, every failure leaves the table unchanged, and bookings stay disjoint |
| Controller.ParkingController.EnterSpontaneousParking | src/controllers/ParkingController.java:660-711 | refused exactly when no 2..8-hour stay has a spot. The user check comes after the search. Success inserts an active row for the longest free stay, on the lowest free spot, and marks the spot occupied. Bookings stay disjoint |
| Controller.ParkingController.EnterParking | src/controllers/ParkingController.java:718-771 | invalid user exactly when unknown; "no spots" exactly when every occupancy flag is set. Otherwise a 4-hour active row goes on the first unoccupied spot, and the spot is marked occupied |
| Controller.ParkingController.CancelReservationInternal | src/controllers/ParkingController.java:1270-1336 | one outcome per status of the code: missing, active, finished, already cancelled, or a preorder that is cancelled. Cancelling frees the spot flag and queues a notice for a user with contact details. Every other outcome changes nothing |
| Controller.ParkingController.ActivateReservation | src/controllers/ParkingController.java:1193-1258 | not found exactly when the code is not a preorder; cancelled exactly when more than 15 minutes late, through the cancellation path. Otherwise the row becomes active from now, the spot is marked occupied, and the arrival message carries the signed lateness |
| Controller.ParkingController.ExtendParkingTime | src/controllers/ParkingController.java:936-1021 | checks run in order: 1..4 hours, active, not yet extended, within the last hour, not expired, no live row blocking. Each outcome holds exactly when its condition does. A refusal reports the largest extension that fits; a grant moves the end and queues a confirmation. Bookings stay disjoint |
| Controller.ParkingController.ExitParking | src/controllers/ParkingController.java:875-931 | refused exactly when the code is not active. Otherwise the row is finished with the actual end now and the spot flag is cleared. The exit is late exactly when now is past the planned end, and a late exit queues a late notice |
| Controller.LegacyEntryIgnoresReservations | src/controllers/ParkingController.java:718-771 | the legacy entry can put a walk-in on a spot reserved for an overlapping window, breaking disjointness |
| Controller.ReleaseCanClearOccupiedSpot | src/controllers/ParkingController.java:1270-1336 | cancelling a preorder clears the flag of a spot an active session still holds |
| Reconcile.OverdueSessions | src/controllers/LatePickupMonitorService.java:74-93 | exactly the active, unflagged rows whose planned end has passed |
| Reconcile.AfterLateTick | src/controllers/LatePickupMonitorService.java:74-209 | after a tick every selected row is flagged late and nothing else in any row changes |
| Reconcile.LateTickIsIdempotent | src/controllers/LatePickupMonitorService.java:74-209 | a flagged row is never selected again, now or later, and a second tick at the same time changes nothing |
| Reconcile.LateTickKeepsNoDoubleBooking | src/controllers/LatePickupMonitorService.java:148-209 | flagging keeps bookings disjoint and every status unchanged |
| Reconcile.EarliestEnd | src/controllers/LatePickupMonitorService.java:92 | the next row of the result set ends no later than any other remaining row |
| Reconcile.ExpiredPreorders | src/controllers/SimpleAutoCancellationService.java:76-93 | exactly the preorders whose planned start passed at least 15 minutes ago |
| Reconcile.AfterCancellationTick | src/controllers/SimpleAutoCancellationService.java:76-196 | every expired preorder becomes cancelled and flagged late; every other row is unchanged |
| Reconcile.Released | src/controllers/SimpleAutoCancellationService.java:166-176 | a spot flag stays set exactly when it was set and its spot was not released |
| Reconcile.CancellationTickIsIdempotent | src/controllers/SimpleAutoCancellationService.java:76-196 | a forfeited row is never selected again, and a second tick at the same time changes nothing |
| Reconcile.CancellationTickKeepsNoDoubleBooking | src/controllers/SimpleAutoCancellationService.java:142-196 | forfeiting keeps bookings disjoint and follows the status life cycle |
| Reconcile.GraceBoundaryDiffers | src/controllers/SimpleAutoCancellationService.java:90-92 | a preorder exactly 15 minutes late is forfeited by the reconciler, although activation would still let it in |
| Reconcile.GraceTestsAgreeOffBoundary | src/controllers/ParkingController.java:1209-1214 | away from exactly 15 minutes, activation refuses exactly the preorders the reconciler forfeits |
| LatePickup.LatePickupMonitorService.StartService | src/controllers/LatePickupMonitorService.java:36-58 | a no-op while running. Otherwise it sets the flag and schedules the check, unless the executor was shut down; then scheduling is rejected and the flag stays set |
| LatePickup.LatePickupMonitorService.StopService | src/controllers/LatePickupMonitorService.java:60-68 | a no-op while stopped; otherwise clears the flag and shuts the executor down |
| LatePickup.LatePickupMonitorService.MarkAsLateAndNotify | src/controllers/LatePickupMonitorService.java:148-209 | a row still active and unflagged is flagged, and then a user with contact details is sent a notice. The result is false exactly when no row was updated or that notice failed. Otherwise nothing changes |
| LatePickup.LatePickupMonitorService.constructor | src/controllers/LatePickupMonitorService.java:27-30 | a service over the given controller, stopped, with a live executor that has nothing scheduled |
| LatePickup.LatePickupMonitorService.CheckForOverdueParkingSessions | src/controllers/LatePickupMonitorService.java:74-143 | the table after the tick is the flagged one (`AfterLateTick`). The rows are handled once each in ORDER BY planned end. Notices go out in that order to users with contact details. The count is the selected rows whose notice did not fail |
| LatePickup.DeliveredOneMore | src/controllers/LatePickupMonitorService.java:110-124 | one more handled row adds one to the count unless its notice failed |
| AutoCancel.SimpleAutoCancellationService.StartService | src/controllers/SimpleAutoCancellationService.java:39-57 | as the overstay reconciler's start |
| AutoCancel.SimpleAutoCancellationService.StopService | src/controllers/SimpleAutoCancellationService.java:62-70 | as the overstay reconciler's stop |
| AutoCancel.SimpleAutoCancellationService.constructor | src/controllers/SimpleAutoCancellationService.java:30-33 | a service over the given controller, stopped, with a live executor that has nothing scheduled |
| AutoCancel.SimpleAutoCancellationService.CancelLateReservation | src/controllers/SimpleAutoCancellationService.java:142-196 | succeeds exactly when the row is still a preorder; it then forfeits the row and clears the given spot's flag. Otherwise nothing changes |
| AutoCancel.SimpleAutoCancellationService.CheckAndCancelLatePreorders | src/controllers/SimpleAutoCancellationService.java:76-136 | the table after the tick is `AfterCancellationTick`, and the spot of every expired preorder is released. Each expired preorder is handled once, with a notice to a user with contact details. The count equals the number of expired preorders |
| AutoCancel.DistinctCardinality | src/controllers/SimpleAutoCancellationService.java:99-124 | a result set handled once per row has as many entries as rows selected |
| Sessions.WithOccupancy | src/controllers/ParkingController.java:1581-1594 | the flags after one `isOccupied` write: only that spot's flag changes, and an id out of range changes nothing |
| Sessions.NoticesFor | src/controllers/SimpleAutoCancellationService.java:111-117 | the notices for a batch of rows: one per row whose user has contact details, in row order, never more than the rows, and without repeats when the rows have none |

## Left out

- Database access is not modelled: JDBC connections, SQL text, auto-commit and rollback, and the `SQLException` fallback messages. Each query becomes a function over the map.
- The scheduled executors, threads and any interleaving of a reconciler tick with a controller call are not modelled; every operation runs alone. The missing status guards in `exitParking` and the update of `activateReservation` matter only under such interleaving.
- Start and stop of the reconcilers from the controller and `shutdown()` are not modelled separately. `shutdown()` is the state change of `stopService()` followed by waiting for the executor, which has no counterpart here.
- String parsing of dates (`parseDateTime`) and of parking codes is left out; operations take minutes and codes directly.
- Seconds and nanoseconds are left out: alignment works on whole minutes.
- `getSystemStatus`, `canMakeReservation`, registration, login, user lookup and update, lost-code mail, parking history, the active-parkings list, `generateUniqueUsername` and the client application are outside the modelled core.
- The users table is a read-only directory from user name to user id plus the sets of users with an e-mail address and with a name on file. Users are never deleted, and `ParkingController.Valid` keeps every row's user on file (`UsersKnown`). So the JOINs with `users` in `cancelReservationInternal`, `extendParkingTime` and both reconciler scans always find the row, and the branches those lookups take for a row without a user are not modelled.
- `getAvailableParkingSpotID` has no ORDER BY. The model takes the lowest unoccupied spot, one of the answers the database may give.
- The public `cancelReservation` wrapper ignores its user name and `enterParkingWithReservation` is `activateReservation`; only the internal operations are modelled.
- Logging, `getCurrentMinute` and `getCurrentTimestamp` only print and are left out.
- E-mail delivery is a notice in an outbox. Only the overstay reconciler reads the outcome of a send, as the `mailFails` parameter.
- Controller.ParkingController.EnterParking: does not promise that bookings stay disjoint, because the legacy entry ignores reservations (`LegacyEntryIgnoresReservations`).
