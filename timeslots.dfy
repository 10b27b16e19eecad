/**
 * The 15-minute slot helpers of the controller: alignToTimeSlot and
 * getAvailableTimeSlots.
 */
module TimeSlots {
  import opened Sessions
  import opened Availability

  /**
   * alignToTimeSlot: round the minute-of-hour down to a multiple of 15,
   * leaving the hour alone. Times are whole minutes, so zeroing the
   * seconds and nanoseconds has nothing left to do.
   */
  function AlignToTimeSlot(t: int): (r: int)
    ensures r % TIME_SLOT_MINUTES == 0
    ensures r <= t < r + TIME_SLOT_MINUTES
    ensures r / HOUR == t / HOUR
  {
    var minutes := t % HOUR;
    var alignedMinutes := (minutes / TIME_SLOT_MINUTES) * TIME_SLOT_MINUTES;
    t - minutes + alignedMinutes
  }

  /** Aligning an aligned time changes nothing. */
  lemma AlignIsIdempotent(t: int)
    ensures AlignToTimeSlot(AlignToTimeSlot(t)) == AlignToTimeSlot(t)
  {
  }

  /** TimeSlot */
  datatype TimeSlot = TimeSlot(startTime: int, isAvailable: bool, availableSpots: int, meetsFortyPercentRule: bool)

  /**
   * What getAvailableTimeSlots reports for a slot starting at `t`: the
   * spots left free by a standard 4-hour booking from `t`, and whether
   * that booking passes the 40% rule.
   */
  ghost predicate DescribesSlot(slot: TimeSlot, sessions: Store, t: int) {
    var end := t + STANDARD_BOOKING_HOURS * HOUR;
    slot.startTime == t &&
    slot.availableSpots == AvailableSpots(sessions, t, end) &&
    slot.meetsFortyPercentRule == MeetsFortyPercent(sessions, t, end) &&
    slot.isAvailable == slot.meetsFortyPercentRule
  }

  /**
   * getAvailableTimeSlots: every 15-minute slot from the aligned time one
   * hour before `preferred` up to one hour after it, nine slots in all.
   */
  method GetAvailableTimeSlots(sessions: Store, preferred: int) returns (slots: seq<TimeSlot>)
    ensures |slots| == 9
    ensures AlignToTimeSlot(preferred - HOUR) == slots[0].startTime
    ensures slots[|slots| - 1].startTime <= preferred + HOUR < slots[|slots| - 1].startTime + TIME_SLOT_MINUTES
    ensures forall i :: 0 <= i < |slots| ==>
      slots[i].startTime % TIME_SLOT_MINUTES == 0 &&
      DescribesSlot(slots[i], sessions, slots[0].startTime + i * TIME_SLOT_MINUTES)
  {
    var startRange := preferred - HOUR;
    var endRange := preferred + HOUR;
    startRange := AlignToTimeSlot(startRange);

    slots := [];
    var current := startRange;
    while current <= endRange
      invariant current == startRange + |slots| * TIME_SLOT_MINUTES
      invariant current <= endRange + TIME_SLOT_MINUTES
      invariant forall i :: 0 <= i < |slots| ==>
        DescribesSlot(slots[i], sessions, startRange + i * TIME_SLOT_MINUTES)
      decreases endRange - current
    {
      var bookingEnd := current + STANDARD_BOOKING_HOURS * HOUR;
      var hasValidWindow := MeetsFortyPercent(sessions, current, bookingEnd);
      var availableSpots := AvailableSpots(sessions, current, bookingEnd);
      var meetsFortyPercent := availableSpots >= RESERVE;
      slots := slots + [TimeSlot(current, hasValidWindow && meetsFortyPercent, availableSpots, meetsFortyPercent)];
      current := current + TIME_SLOT_MINUTES;
    }
  }
}
