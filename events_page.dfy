/**
 * The action row of one event card on the events page: which of Join, Leave,
 * "Event Full" and Delete it shows, from the logged-in user (if any) and the
 * event as the listing delivered it.
 */
module EventsPage {
  import opened EventModel
  import EventController

  /**
   * An event as the page receives it: its attendees, its capacity, and the
   * identifier of its owner's user record (absent when the listing found no
   * such user).
   */
  datatype CardEvent = CardEvent(attendees: seq<UserId>, capacity: int, owner: Option<UserId>)

  datatype Actions = Actions(join: bool, leave: bool, full: bool, delete: bool)

  const NoActions := Actions(false, false, false, false)

  /** A user is logged in and their id occurs somewhere in the attendee list. */
  predicate IsJoined(user: Option<UserId>, ev: CardEvent) {
    user.Some? && user.value in ev.attendees
  }

  /** No seat is left: the attendee count has reached the capacity. */
  function IsFull(ev: CardEvent): (b: bool)
    ensures b <==> ev.capacity - |ev.attendees| <= 0
    ensures !b ==> |ev.attendees| + 1 <= ev.capacity
  {
    |ev.attendees| >= ev.capacity
  }

  /** A user is logged in and the owner record's id is theirs. */
  predicate IsOwner(user: Option<UserId>, ev: CardEvent) {
    user.Some? && ev.owner.Some? && ev.owner.value == user.value
  }

  /** The buttons and label the card shows. */
  function CardActions(user: Option<UserId>, ev: CardEvent): (a: Actions)
    ensures user.None? ==> a == NoActions
    ensures a.join <==> user.Some? && user.value !in ev.attendees && |ev.attendees| < ev.capacity
    ensures a.leave <==> user.Some? && user.value in ev.attendees
    ensures a.full <==> user.Some? && user.value !in ev.attendees && |ev.attendees| >= ev.capacity
    ensures a.delete <==> user.Some? && ev.owner == user
    ensures !(a.join && a.leave) && !(a.join && a.full) && !(a.leave && a.full)
  {
    if user.None? then NoActions
    else
      var joined := IsJoined(user, ev);
      var full := IsFull(ev);
      Actions(!joined && !full, joined, full && !joined, IsOwner(user, ev))
  }

  /** A logged-in user sees exactly one of Join, Leave and "Event Full". */
  lemma ExactlyOneAttendanceAction(u: UserId, ev: CardEvent)
    ensures var a := CardActions(Some(u), ev);
            (a.join || a.leave || a.full) &&
            !(a.join && a.leave) && !(a.join && a.full) && !(a.leave && a.full)
  {
  }

  /** A joined user still sees Leave when the event is full. */
  lemma JoinedSeesLeaveWhenFull(u: UserId, ev: CardEvent)
    requires u in ev.attendees && |ev.attendees| >= ev.capacity
    ensures CardActions(Some(u), ev).leave && !CardActions(Some(u), ev).full
  {
  }

  /**
   * How a stored event reaches the page; `ownerFound` says whether the owner's
   * user record exists. The page's view agrees with the stored document: it
   * sees exactly the stored attendees as joined, calls the event full exactly
   * when the server's capacity check would refuse a newcomer, and sees as
   * owner nobody but the stored owner (and the stored owner whenever the
   * owner's record was found).
   */
  function Card(e: Event, ownerFound: bool): (c: CardEvent)
    ensures forall u :: IsJoined(Some(u), c) <==> u in e.attendees
    ensures forall u :: u !in e.attendees ==> (IsFull(c) <==> !EventController.JoinFilter(e, u))
    ensures forall u :: IsOwner(Some(u), c) ==> e.createdBy == u
    ensures ownerFound ==> forall u :: IsOwner(Some(u), c) <==> e.createdBy == u
    ensures !ownerFound ==> forall u :: !IsOwner(Some(u), c)
  {
    CardEvent(e.attendees, e.capacity, if ownerFound then Some(e.createdBy) else None)
  }

  /**
   * The page offers Join exactly when the server's join filter would accept
   * that user for that event, and Delete only to the user the server's
   * ownership check would let through.
   */
  lemma ClientAgreesWithServer(e: Event, u: UserId, ownerFound: bool)
    ensures CardActions(Some(u), Card(e, ownerFound)).join <==> EventController.JoinFilter(e, u)
    ensures CardActions(Some(u), Card(e, ownerFound)).delete ==> e.createdBy == u
    ensures ownerFound ==> (CardActions(Some(u), Card(e, ownerFound)).delete <==> e.createdBy == u)
  {
  }
}
