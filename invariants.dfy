/**
 * What each kind of row write does to the "no double booking" invariant:
 * inserting a row on a spot the finder reported free, rewriting a row
 * without widening its window or reviving it, and pushing a row's end
 * forward by an extension the extension query allowed.
 */
module Invariants {
  import opened Sessions
  import opened Availability
  import opened Allocation

  /** The overlap test is symmetric in the two windows. */
  lemma OverlapIsSymmetric(a: Session, b: Session)
    ensures Overlaps(a, b.estimatedStart, b.estimatedEnd) <==> Overlaps(b, a.estimatedStart, a.estimatedEnd)
  {
  }

  /**
   * A new row whose spot is conflict-free for its own window keeps the
   * table free of double bookings.
   */
  lemma InsertOnFreeSpotKeepsNoDoubleBooking(sessions: Store, id: nat, s: Session)
    requires id !in sessions
    requires NoDoubleBooking(sessions)
    requires SpotIsFree(sessions, s.spot, s.estimatedStart, s.estimatedEnd)
    ensures NoDoubleBooking(sessions[id := s])
  {
    SpotIsFreeMeans(sessions, s.spot, s.estimatedStart, s.estimatedEnd);
    var after := sessions[id := s];
    forall a, b |
      a in after && b in after && a != b &&
      Live(after[a]) && Live(after[b]) && after[a].spot == after[b].spot
      ensures !Overlaps(after[b], after[a].estimatedStart, after[a].estimatedEnd)
    {
      if a == id {
        assert !Conflicts(sessions[b], s.estimatedStart, s.estimatedEnd);
      } else if b == id {
        assert !Conflicts(sessions[a], s.estimatedStart, s.estimatedEnd);
        OverlapIsSymmetric(sessions[a], s);
      }
    }
  }

  /**
   * Rewriting a row in place keeps the invariant when the spot and the
   * planned window stay, and the row does not come back to life.
   */
  lemma InPlaceUpdateKeepsNoDoubleBooking(sessions: Store, id: nat, s: Session)
    requires id in sessions
    requires NoDoubleBooking(sessions)
    requires s.spot == sessions[id].spot
    requires s.estimatedStart == sessions[id].estimatedStart && s.estimatedEnd == sessions[id].estimatedEnd
    requires Live(s) ==> Live(sessions[id])
    ensures NoDoubleBooking(sessions[id := s])
  {
    var after := sessions[id := s];
    forall a, b |
      a in after && b in after && a != b &&
      Live(after[a]) && Live(after[b]) && after[a].spot == after[b].spot
      ensures !Overlaps(after[b], after[a].estimatedStart, after[a].estimatedEnd)
    {
      assert Live(sessions[a]) && Live(sessions[b]);
    }
  }

  /**
   * Extending a row by `hours` keeps the invariant when no live row on its
   * spot blocks the extension (the COUNT(*) = 0 test of findMaximumExtension).
   */
  lemma ExtensionKeepsNoDoubleBooking(sessions: Store, id: nat, hours: int)
    requires id in sessions
    requires NoDoubleBooking(sessions) && WellFormed(sessions)
    requires 0 <= hours
    requires ExtensionFits(sessions, sessions[id].spot, sessions[id].estimatedEnd, hours)
    ensures NoDoubleBooking(sessions[id := Extended(sessions[id], hours)])
  {
    var s := sessions[id];
    var t := Extended(s, hours);
    var after := sessions[id := t];
    forall a, b |
      a in after && b in after && a != b &&
      Live(after[a]) && Live(after[b]) && after[a].spot == after[b].spot
      ensures !Overlaps(after[b], after[a].estimatedStart, after[a].estimatedEnd)
    {
      if a == id || b == id {
        var other := if a == id then b else a;
        var o := sessions[other];
        assert !Overlaps(o, s.estimatedStart, s.estimatedEnd) by {
          if a == id {
            assert !Overlaps(sessions[b], sessions[a].estimatedStart, sessions[a].estimatedEnd);
          } else {
            assert !Overlaps(sessions[a], sessions[b].estimatedStart, sessions[b].estimatedEnd);
            OverlapIsSymmetric(sessions[a], s);
          }
        }
        assert !BlocksExtension(o, s.spot, s.estimatedEnd, s.estimatedEnd + hours * HOUR);
        assert !Overlaps(o, t.estimatedStart, t.estimatedEnd);
        OverlapIsSymmetric(o, t);
      }
    }
  }
}
