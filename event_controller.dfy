/**
 * The event controller: six request handlers over one shared event
 * collection, modelled as a class holding a map from identifier to event.
 *
 * Each handler returns the HTTP status and JSON body it would send. Every
 * handler but `GetEvents` is reached only with an authenticated `userId`,
 * which the handlers trust. Database failures and malformed identifiers
 * (answered with 500) are not modelled.
 */
module EventController {
  import opened EventModel
  import opened EventListing

  const StatusOk := 200
  const StatusCreated := 201
  const StatusBadRequest := 400
  const StatusForbidden := 403
  const StatusNotFound := 404

  datatype Body =
    | EventJson(event: Event)
    | Message(text: string)
    | JoinedJson(text: string, event: Event)

  datatype Response = Response(status: int, body: Body)

  const NotFoundReply := Response(StatusNotFound, Message("Event not found"))
  const ForbiddenReply := Response(StatusForbidden, Message("Not authorized"))
  const JoinRefusedReply := Response(StatusBadRequest, Message("Event is full or already joined"))
  const LeftReply := Response(StatusOk, Message("Left event successfully"))
  const DeletedReply := Response(StatusOk, Message("Event deleted"))

  /**
   * The filter of the join's single conditional update: the user is not yet
   * an attendee and the attendee count is below capacity.
   */
  function JoinFilter(e: Event, u: UserId): (ok: bool)
    ensures ok <==> multiset(e.attendees)[u] == 0 && |Joined(e, u).attendees| <= e.capacity
  {
    u !in e.attendees && |e.attendees| < e.capacity
  }

  /** The join's `$push`: the user goes at the end and nothing else changes. */
  function Joined(e: Event, u: UserId): (r: Event)
    ensures r == e.(attendees := r.attendees)
    ensures |r.attendees| == |e.attendees| + 1
    ensures r.attendees[..|e.attendees|] == e.attendees && r.attendees[|e.attendees|] == u
    ensures multiset(r.attendees) == multiset(e.attendees) + multiset{u}
  {
    e.(attendees := e.attendees + [u])
  }

  /** The leave's `$pull`: the user is gone, every other attendee keeps their count. */
  function Left(e: Event, u: UserId): (r: Event)
    ensures r == e.(attendees := r.attendees)
    ensures u !in r.attendees
    ensures forall x :: x != u ==> multiset(r.attendees)[x] == multiset(e.attendees)[x]
  {
    e.(attendees := Pull(e.attendees, u))
  }

  /** The document a create request stores. */
  function NewEvent(id: EventId, owner: UserId, f: EventFields, file: Option<string>): (r: Event)
    ensures r.id == id && r.createdBy == owner && r.attendees == [] && r.imageUrl == file
    ensures r.title == f.title && r.description == f.description && r.location == f.location
    ensures r.capacity == f.capacity && r.dateTime == f.dateTime
    ensures f.capacity >= 0 ==> WellFormed(r)
  {
    Event(id, f.title, f.description, f.dateTime, f.location, f.capacity, owner, [], file)
  }

  /** A successful join keeps the attendance invariants and adds exactly one attendee. */
  lemma JoinKeepsWellFormed(e: Event, u: UserId)
    requires WellFormed(e) && JoinFilter(e, u)
    ensures WellFormed(Joined(e, u))
    ensures |Joined(e, u).attendees| == |e.attendees| + 1
    ensures multiset(Joined(e, u).attendees) == multiset(e.attendees) + multiset{u}
  {
  }

  /** A leave keeps the attendance invariants. */
  lemma LeaveKeepsWellFormed(e: Event, u: UserId)
    requires WellFormed(e)
    ensures WellFormed(Left(e, u))
  {
    PullNoDuplicates(e.attendees, u);
  }

  /** A successful join followed by a leave of the same user restores the event exactly. */
  lemma JoinThenLeave(e: Event, u: UserId)
    requires JoinFilter(e, u)
    ensures Left(Joined(e, u), u) == e
  {
    PullAppended(e.attendees, u);
    PullAbsent(e.attendees, u);
  }

  /** Leaving is idempotent, and leaving without having joined changes nothing. */
  lemma LeaveIdempotent(e: Event, u: UserId)
    ensures Left(Left(e, u), u) == Left(e, u)
    ensures u !in e.attendees ==> Left(e, u) == e
  {
    PullIdempotent(e.attendees, u);
    if u !in e.attendees {
      PullAbsent(e.attendees, u);
    }
  }

  class EventTable {
    var events: map<EventId, Event>
    var nextId: EventId

    /** Identifiers are handed out from `nextId` and every event is filed under its own. */
    ghost predicate Valid()
      reads this
    {
      KeyedById(events) && forall id :: id in events ==> id < nextId
    }

    /** The attendance invariants hold for every stored event. */
    ghost predicate Consistent()
      reads this
    {
      forall id :: id in events ==> WellFormed(events[id])
    }

    constructor ()
      ensures Valid() && Consistent()
      ensures events == map[] && nextId == 0
    {
      events := map[];
      nextId := 0;
    }

    /**
     * createEvent: stores a new event owned by the requester, with no
     * attendees and no image unless a file was uploaded.
     */
    method CreateEvent(userId: UserId, fields: EventFields, file: Option<string>) returns (resp: Response)
      requires Valid()
      modifies this
      ensures Valid()
      ensures old(nextId) !in old(events) && nextId == old(nextId) + 1
      ensures events == old(events)[old(nextId) := NewEvent(old(nextId), userId, fields, file)]
      ensures resp == Response(StatusCreated, EventJson(events[old(nextId)]))
      ensures events[old(nextId)].createdBy == userId && events[old(nextId)].attendees == []
      ensures file.None? ==> events[old(nextId)].imageUrl.None?
      ensures old(Consistent()) && fields.capacity >= 0 ==> Consistent()
    {
      var e := NewEvent(nextId, userId, fields, file);
      events := events[nextId := e];
      nextId := nextId + 1;
      resp := Response(StatusCreated, EventJson(e));
    }

    /**
     * getEvents: every stored event exactly once and nothing else, in
     * ascending `dateTime` order.
     */
    function GetEvents(): (r: seq<Event>)
      reads this
      requires Valid()
      ensures SortedByDate(r)
      ensures forall e :: e in r ==> e.id in events && events[e.id] == e
      ensures forall id :: id in events ==> multiset(r)[events[id]] == 1
    {
      var natural := NaturalOrder(events, nextId);
      IncreasingOccursOnce(natural);
      var sorted := SortByDate(natural);
      assert forall e :: e in sorted ==> e in natural by {
        forall e | e in sorted ensures e in natural {
          assert e in multiset(sorted);
        }
      }
      sorted
    }

    /**
     * updateEvent: 404 when absent, 403 when the requester is not the owner,
     * otherwise the body's fields overwrite the stored ones.
     */
    method UpdateEvent(id: EventId, userId: UserId, body: Patch) returns (resp: Response)
      requires Valid()
      modifies this`events
      ensures Valid()
      ensures id !in old(events) ==> events == old(events) && resp == NotFoundReply
      ensures id in old(events) && old(events)[id].createdBy != userId ==>
                events == old(events) && resp == ForbiddenReply
      ensures id in old(events) && old(events)[id].createdBy == userId ==>
                events == old(events)[id := ApplyPatch(old(events)[id], body)] &&
                resp == Response(StatusOk, EventJson(events[id]))
      ensures old(Consistent()) && body.attendees.None? &&
              (id in old(events) && body.capacity.Some? ==> |old(events)[id].attendees| <= body.capacity.value)
              ==> Consistent()
    {
      if id !in events {
        return NotFoundReply;
      }
      var e := events[id];
      if e.createdBy != userId {
        return ForbiddenReply;
      }
      if Consistent() && body.attendees.None? && (body.capacity.Some? ==> |e.attendees| <= body.capacity.value) {
        PatchKeepsWellFormed(e, body);
      }
      var updated := ApplyPatch(e, body);
      events := events[id := updated];
      resp := Response(StatusOk, EventJson(updated));
    }

    /**
     * deleteEvent: 404 when absent, 403 when the requester is not the owner,
     * otherwise removes exactly that event.
     */
    method DeleteEvent(id: EventId, userId: UserId) returns (resp: Response)
      requires Valid()
      modifies this`events
      ensures Valid()
      ensures id !in old(events) ==> events == old(events) && resp == NotFoundReply
      ensures id in old(events) && old(events)[id].createdBy != userId ==>
                events == old(events) && resp == ForbiddenReply
      ensures id in old(events) && old(events)[id].createdBy == userId ==>
                events == old(events) - {id} && resp == DeletedReply
      ensures old(Consistent()) ==> Consistent()
    {
      if id !in events {
        return NotFoundReply;
      }
      if events[id].createdBy != userId {
        return ForbiddenReply;
      }
      events := events - {id};
      resp := DeletedReply;
    }

    /**
     * joinEvent: one atomic conditional update. When the event exists and
     * passes the filter, the user is appended; otherwise, a missing event
     * included, the answer is 400 and nothing changes.
     */
    method JoinEvent(id: EventId, userId: UserId) returns (resp: Response)
      requires Valid()
      modifies this`events
      ensures Valid()
      ensures id in old(events) && JoinFilter(old(events)[id], userId) ==>
                events == old(events)[id := Joined(old(events)[id], userId)] &&
                resp == Response(StatusOk, JoinedJson("Successfully joined event", events[id]))
      ensures !(id in old(events) && JoinFilter(old(events)[id], userId)) ==>
                events == old(events) && resp == JoinRefusedReply
      ensures old(Consistent()) ==> Consistent()
    {
      if id in events && JoinFilter(events[id], userId) {
        if Consistent() {
          JoinKeepsWellFormed(events[id], userId);
        }
        var updated := Joined(events[id], userId);
        events := events[id := updated];
        resp := Response(StatusOk, JoinedJson("Successfully joined event", updated));
      } else {
        resp := JoinRefusedReply;
      }
    }

    /**
     * leaveEvent: pulls every occurrence of the user from the event's
     * attendees when the event exists, and reports success in every case.
     */
    method LeaveEvent(id: EventId, userId: UserId) returns (resp: Response)
      requires Valid()
      modifies this`events
      ensures Valid()
      ensures resp == LeftReply
      ensures id in old(events) ==> events == old(events)[id := Left(old(events)[id], userId)]
      ensures id in old(events) ==> userId !in events[id].attendees
      ensures id !in old(events) || userId !in old(events)[id].attendees ==> events == old(events)
      ensures old(Consistent()) ==> Consistent()
    {
      if id in events {
        var e := events[id];
        if Consistent() {
          LeaveKeepsWellFormed(e, userId);
        }
        if userId !in e.attendees {
          LeaveIdempotent(e, userId);
        }
        events := events[id := Left(e, userId)];
      }
      resp := LeftReply;
    }
  }
}
