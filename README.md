# Event platform: event table, attendance and card actions

This project models the core of a small event-management web application
(mini-event-platform) in Dafny and proves properties of that model.

- **The server's event controller** (`server/controllers/eventController.js`). Six request
  handlers work on one shared event collection. The model is a class
  `EventTable` that holds a map from event identifier to event record. Each handler is a
  method that changes the map and returns the HTTP status and JSON body it would send:
  - `CreateEvent` stores a new event owned by the requester.
  - `GetEvents` lists every event by ascending `dateTime`.
  - `UpdateEvent` and `DeleteEvent` return 404 or 403 before they touch anything.
  - `JoinEvent` is one atomic conditional update: append the user if they are not an
    attendee yet and the event is below capacity. Otherwise it returns 400.
  - `LeaveEvent` pulls the user and always reports success.
- **The events page's action row** (`client/src/pages/Events.jsx`). Pure functions decide
  which of Join, Leave, "Event Full" and Delete a card shows. A lemma proves that the page
  offers Join exactly when the server's join filter would accept the request.

Files:

| file | module | contents |
|---|---|---|
| `event_model.dfy` | `EventModel` | event record, update body, the attendance invariants, `$pull` (`Pull`), field overwrite (`ApplyPatch`) and their lemmas |
| `event_listing.dfy` | `EventListing` | the collection's natural order and the sort by `dateTime` |
| `event_controller.dfy` | `EventController` | status codes, responses, the join filter, the `EventTable` class and its handlers |
| `events_page.dfy` | `EventsPage` | the card predicates `IsJoined`/`IsFull`/`IsOwner` and the action selection |
| `scenarios.dfy` | `Scenarios` | request sequences checked against the handlers' contracts alone |

Modelling choices:

- Event identifiers are natural numbers. The table hands them out in increasing order from
  `nextId`, standing in for the database's object ids. Reading the whole collection promises
  no order. The model chooses to read it in ascending identifier order, which is creation
  order; the listing's contract does not depend on that choice.
- `dateTime` is an integer key. `imageUrl` is an optional opaque string. `capacity` is an
  unbounded integer. The code does not check it, and the model assumes it is whole.
- The Event schema file is not part of this model. The model assumes that a new event
  starts with an empty `attendees` list and that the schema adds no validators.
- The page's logged-in `user.id` (client/src/pages/Events.jsx lines 114 and 117) and the
  server's `req.userId` (server/controllers/eventController.js line 77) are taken to be the
  same identifier. The login response and the client's authentication context that carry it
  from one to the other are not part of this model. `ClientAgreesWithServer` rests on this.
- `WellFormed(e)` is the pair of attendance invariants: no duplicate attendee, and
  `|attendees| <= capacity`. `Consistent()` says every stored event is well formed.
  - Create, join, leave and delete preserve `Consistent()`. Create needs a non-negative capacity.
  - Update preserves it when the body leaves `attendees` alone and does not lower
    `capacity` below the attendee count.

In these places the model follows the code:

- A join on an event that does not exist is answered 400 ("Event is full or already
  joined"), never 404. The filter simply matches nothing.
- A leave on a missing event, or by a user who never joined, is answered 200 and changes
  nothing.
- Update applies the request body verbatim. An owner can change `capacity`, `attendees` and
  `createdBy`, so neither the capacity invariant nor the immutability of the owner holds
  across update (`PatchCanBreakCapacity`, `PatchCanChangeOwner`,
  `Scenarios.OwnerOverfillsEvent`).
- Create does not check that `capacity` is at least 1 or that the text fields are non-empty.

## Model

| member | source | states |
|---|---|---|
| `EventModel.Pull` | server/controllers/eventController.js:113-115 | `$pull` keeps exactly the elements different from the user and removes every occurrence: the length drops by the user's multiplicity, and the multiset of elements is the input's with the user's count set to zero |
| `EventModel.ApplyPatch` | server/controllers/eventController.js:45-49 | the update overwrites only the fields the body supplies: it never changes the identifier, an empty body changes nothing, the owner changes only when the body names one, and the attendee list and capacity only when the body names one of them |
| `EventModel.PullAbsent` | server/controllers/eventController.js:113-117 | pulling a user who is not in the list leaves it exactly as it was |
| `EventModel.PullAppended` | server/controllers/eventController.js:113-115 | pulling a user from a list with that user appended gives the same result as pulling from the list alone |
| `EventModel.PullNoDuplicates` | server/controllers/eventController.js:113-115 | pulling keeps a duplicate-free attendee list duplicate-free |
| `EventModel.PullConcat` | server/controllers/eventController.js:113-115 | pulling from a concatenation is the concatenation of the two pulls, so the remaining attendees keep their relative order |
| `EventModel.PullIdempotent` | server/controllers/eventController.js:113-117 | pulling the same user twice is the same as pulling once |
| `EventModel.PatchIdempotent` | server/controllers/eventController.js:45-49 | applying the same update body twice is the same as applying it once |
| `EventModel.PatchKeepsWellFormed` | server/controllers/eventController.js:45-49 | an update keeps the attendance invariants when it leaves `attendees` alone and does not lower `capacity` below the attendee count |
| `EventModel.PatchCanBreakCapacity` | server/controllers/eventController.js:45-49 | some owner update turns a well-formed event into one with more attendees than capacity |
| `EventModel.PatchCanChangeOwner` | server/controllers/eventController.js:45-49 | some owner update changes `createdBy` |
| `EventListing.NaturalOrder` | server/controllers/eventController.js:25 | reading the collection yields every stored event and nothing that is not stored, in strictly ascending identifier order, which is the read order this model chooses because the database promises none |
| `EventListing.IncreasingOccursOnce` | server/controllers/eventController.js:25 | in a read of the collection, whose identifiers strictly increase, every event occurs exactly once |
| `EventListing.InsertByDate` | server/controllers/eventController.js:27 | inserting into a list sorted by `dateTime` keeps it sorted and adds exactly that event |
| `EventListing.SortByDate` | server/controllers/eventController.js:27 | the sort by `dateTime` returns a list sorted ascending that is a permutation of its input |
| `EventController.JoinFilter` | server/controllers/eventController.js:81-85 | the join's filter accepts exactly when the user does not occur in the attendee list and the list with the user pushed still fits within capacity |
| `EventController.Joined` | server/controllers/eventController.js:87 | the `$push` changes only `attendees`: it keeps the old list as a prefix, puts the user at the end, grows it by one and adds one occurrence of the user |
| `EventController.Left` | server/controllers/eventController.js:113-115 | the `$pull` changes only `attendees`: afterwards the user does not occur, and every other attendee occurs as often as before |
| `EventController.NewEvent` | server/controllers/eventController.js:6-14 | the created document takes the body's fields, the requester as `createdBy`, the uploaded file's path or no image, and an empty attendee list; with a non-negative capacity it satisfies the attendance invariants |
| `EventController.JoinKeepsWellFormed` | server/controllers/eventController.js:80-89 | a join that passes the filter adds exactly that user, grows the list by one and keeps both attendance invariants |
| `EventController.LeaveKeepsWellFormed` | server/controllers/eventController.js:113-115 | a leave keeps both attendance invariants |
| `EventController.JoinThenLeave` | server/controllers/eventController.js:80-115 | a successful join followed by a leave by the same user restores the event, and its attendee sequence, exactly |
| `EventController.LeaveIdempotent` | server/controllers/eventController.js:113-117 | leaving twice is leaving once, and leaving without having joined changes nothing |
| `EventController.EventTable.CreateEvent` | server/controllers/eventController.js:4-16 | answers 201 with the new event and stores it under a fresh identifier, with the requester as `createdBy`, no attendees, and no image when no file was uploaded. No other event changes. The attendance invariants are kept when capacity is non-negative |
| `EventController.EventTable.GetEvents` | server/controllers/eventController.js:23-29 | the listing is sorted ascending by `dateTime`, holds every stored event exactly once and holds nothing that is not stored |
| `EventController.EventTable.UpdateEvent` | server/controllers/eventController.js:36-51 | returns 404 when the event is absent and 403 when the requester is not `createdBy`, and leaves the table unchanged in both cases. Otherwise it overwrites exactly the supplied fields of that one event and answers 200 with it |
| `EventController.EventTable.DeleteEvent` | server/controllers/eventController.js:58-68 | returns 404 when the event is absent and 403 when the requester is not `createdBy`, and leaves the table unchanged in both cases. Otherwise it removes exactly that event, leaves every other event unchanged and answers 200 |
| `EventController.EventTable.JoinEvent` | server/controllers/eventController.js:75-101 | if the event exists, the user is not an attendee and the attendee count is below capacity, it appends exactly that user to that event only and answers 200 with the event. Otherwise, a missing event included, it answers 400 and changes nothing. The attendance invariants are kept |
| `EventController.EventTable.LeaveEvent` | server/controllers/eventController.js:108-117 | always answers 200. On an existing event it removes every occurrence of the user and touches no other event. On a missing event or a non-attendee nothing changes. The attendance invariants are kept |
| `EventsPage.IsFull` | client/src/pages/Events.jsx:115 | true exactly when no seat is left (capacity minus attendee count is at most zero); when false, one more attendee still fits |
| `EventsPage.Card` | server/controllers/eventController.js:26 | the page's predicates (`IsJoined`, `IsFull`, `IsOwner`, client/src/pages/Events.jsx lines 114-117) agree with the stored event: a user counts as joined exactly when stored as an attendee; for a non-attendee the event counts as full exactly when the server's join filter refuses them; only the stored owner counts as owner, always when the owner's record was found and never otherwise |
| `EventsPage.CardActions` | client/src/pages/Events.jsx:114-184 | nothing is shown to a logged-out user. Join is shown iff a user is logged in, is not an attendee and the event is below capacity. Leave is shown iff the user is an attendee. "Event Full" is shown iff the user has not joined and the event is full. Delete is shown iff the owner's id equals the user's. No two of Join, Leave and "Event Full" appear together |
| `EventsPage.ExactlyOneAttendanceAction` | client/src/pages/Events.jsx:153-175 | a logged-in user sees exactly one of Join, Leave and "Event Full" |
| `EventsPage.JoinedSeesLeaveWhenFull` | client/src/pages/Events.jsx:162-175 | an attendee of a full event sees Leave and not "Event Full" |
| `EventsPage.ClientAgreesWithServer` | client/src/pages/Events.jsx:114-117 | the card offers Join exactly when the server's join filter (server/controllers/eventController.js lines 83-84) accepts that user for that event. Delete is offered only to the owner, and always to the owner when the owner's record was found |

## Left out

- Concurrency. The database's conditional update is taken as one atomic step, and concurrent requests are modelled one after another in the order the database serialises them. The window between the read and the write in update and delete is not modelled.
- The 500 answers. These cover database failures, identifiers that fail to cast, and values the schema rejects.
- Populating `createdBy` with the owner's name and email on listing. The user collection is not part of this model, so `GetEvents` returns the stored `createdBy` identifier. The page's view of an event takes "owner record found" as a parameter.
- File upload. `imageUrl` is the uploaded file's path or nothing, passed in as an optional string.
- Date parsing. `dateTime` is an integer.
- Fractional capacities. The code stores `capacity` as any number and never checks that it is whole; the model takes it as an integer. For a fractional capacity c the join filter lets the attendee count reach the next integer above c, so the count would then exceed c.
- EventController.EventTable.JoinEvent: the kept bound `|attendees| <= capacity` holds for whole capacities only; for a fractional capacity c the source bounds the count by the ceiling of c.
- EventController.JoinKeepsWellFormed: stated for whole capacities; with a fractional capacity c a successful join can leave the count at the ceiling of c, above c.
- EventListing.SortByDate: whether events with equal `dateTime` keep a particular order is not stated, because the database does not promise one.
- Missing or mistyped create fields. The create body's fields are modelled as present and well typed. With no validators, a create body without `capacity` is stored with no capacity and still answered 201 (server/controllers/eventController.js line 11). Every later join of that event is then answered 400, because the size comparison at line 84 never holds against a missing field. The page evaluates `attendees.length >= undefined` as false (client/src/pages/Events.jsx line 115), so it offers Join to every logged-in non-attendee. For such an event the page and the server disagree, and `ClientAgreesWithServer` does not describe it.
- Null update values. Update values are modelled as well typed and non-null, except `imageUrl`, which may be cleared. The code runs no validators on the update (server/controllers/eventController.js lines 45-49), so an owner can store null. A null `capacity` makes every later join answer 400, because the size comparison at line 84 never holds against null. A null `createdBy` makes every later update and delete answer 500, because the owner check at lines 42 and 64 calls `toString` on it, which throws.
- Update bodies with keys outside the event's fields, update operators, or an `_id`. An update body is modelled as an optional value per event field.
- The page's data fetching, React state, confirmation dialog and alerts (client/src/pages/Events.jsx lines 6-63), and all markup.
- The routing tables, authentication middleware, server bootstrap, and the create and register forms. The only thing taken from them is that every handler except the listing receives an authenticated user id.
