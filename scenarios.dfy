/**
 * Request sequences against one event table, checked from the handlers'
 * contracts alone. Concurrent requests are taken one at a time, in the order
 * the database's atomic updates serialise them.
 */
module Scenarios {
  import opened EventModel
  import opened EventController

  function Fields(capacity: int): EventFields {
    EventFields("Meetup", "Talks", 100, "Hall", capacity)
  }

  /** Two joins race for the last seat: the first wins, the second is refused. */
  method LastSeat() {
    var t := new EventTable();
    var r := t.CreateEvent("owner", Fields(1), None);
    var r1 := t.JoinEvent(0, "u1");
    var r2 := t.JoinEvent(0, "u2");
    assert r1.status == StatusOk && r2 == JoinRefusedReply;
    assert t.events[0].attendees == ["u1"];
  }

  /** Joining twice is refused the second time. */
  method JoinTwice() {
    var t := new EventTable();
    var r := t.CreateEvent("owner", Fields(5), None);
    var r1 := t.JoinEvent(0, "u");
    assert t.events[0].attendees == ["u"];
    var r2 := t.JoinEvent(0, "u");
    assert r1.status == StatusOk && r2 == JoinRefusedReply;
    assert t.events[0].attendees == ["u"];
  }

  /** A full event takes a new attendee once someone has left. */
  method SeatFreedByLeave(t: EventTable)
    requires t.Valid() && 0 in t.events
    requires t.events[0].capacity == 2 && t.events[0].attendees == ["u1", "u2"]
    modifies t
  {
    var r := t.JoinEvent(0, "u3");
    assert r == JoinRefusedReply;
    PullAbsent(["u2"], "u1");
    assert Pull(["u1", "u2"], "u1") == ["u2"] by {
      assert ["u1", "u2"][1..] == ["u2"];
    }
    r := t.LeaveEvent(0, "u1");
    assert t.events[0].attendees == ["u2"];
    r := t.JoinEvent(0, "u3");
    assert r.status == StatusOk && t.events[0].attendees == ["u2", "u3"];
  }

  /**
   * Only the owner deletes; afterwards a join is answered 400, like any
   * other join whose filter matches nothing, and leave still reports success.
   */
  method DeleteThenJoin() {
    var t := new EventTable();
    var r := t.CreateEvent("owner", Fields(3), None);
    r := t.DeleteEvent(0, "stranger");
    assert r == ForbiddenReply && 0 in t.events;
    r := t.DeleteEvent(0, "owner");
    assert r == DeletedReply && t.events == map[];
    r := t.JoinEvent(0, "u");
    assert r == JoinRefusedReply;
    r := t.LeaveEvent(0, "u");
    assert r == LeftReply && t.events == map[];
  }

  /** The owner can update `attendees` and `capacity` into a state the join rules never produce. */
  method OwnerOverfillsEvent() {
    var t := new EventTable();
    var r := t.CreateEvent("owner", Fields(1), None);
    r := t.UpdateEvent(0, "owner", EmptyPatch.(attendees := Some(["a", "a", "b"])));
    assert r.status == StatusOk;
    assert t.events[0].attendees == ["a", "a", "b"] && t.events[0].capacity == 1;
    r := t.UpdateEvent(0, "stranger", EmptyPatch.(title := Some("Mine")));
    assert r == ForbiddenReply && t.events[0].title == "Meetup";
  }
}
