/**
 * The Event document of the event platform and the pure operations the
 * controller applies to it: the `$pull` of one attendee, and the verbatim
 * field overwrite that an owner's update performs.
 *
 * The Event schema itself is not part of this model; the record below holds
 * exactly the fields the controller writes. New events are assumed to start
 * with no attendees.
 */
module EventModel {

  datatype Option<T> = None | Some(value: T)

  /** A user identifier, as the authentication layer hands it to the handlers. */
  type UserId = string

  /** An event identifier; identifiers are handed out in increasing order. */
  type EventId = nat

  datatype Event = Event(
    id: EventId,
    title: string,
    description: string,
    dateTime: int,
    location: string,
    capacity: int,
    createdBy: UserId,
    attendees: seq<UserId>,
    imageUrl: Option<string>)

  /** The fields of a create request's body. */
  datatype EventFields = EventFields(
    title: string,
    description: string,
    dateTime: int,
    location: string,
    capacity: int)

  /**
   * The body of an update request: every field that may be present in it.
   * Nothing restricts which of them an owner supplies.
   */
  datatype Patch = Patch(
    title: Option<string>,
    description: Option<string>,
    dateTime: Option<int>,
    location: Option<string>,
    capacity: Option<int>,
    createdBy: Option<UserId>,
    attendees: Option<seq<UserId>>,
    imageUrl: Option<Option<string>>)

  predicate NoDuplicates(s: seq<UserId>) {
    forall i, j :: 0 <= i < j < |s| ==> s[i] != s[j]
  }

  /** The attendance invariants: no attendee twice, never more attendees than capacity. */
  predicate WellFormed(e: Event) {
    NoDuplicates(e.attendees) && |e.attendees| <= e.capacity
  }

  /** `$pull`: removes every element equal to `u`, keeping the others in order (see `PullConcat`). */
  function Pull(s: seq<UserId>, u: UserId): (r: seq<UserId>)
    ensures forall x :: x in r <==> x in s && x != u
    ensures |r| == |s| - multiset(s)[u]
    ensures multiset(r) == multiset(s)[u := 0]
  {
    if s == [] then []
    else
      assert s == [s[0]] + s[1..];
      if s[0] == u then Pull(s[1..], u) else [s[0]] + Pull(s[1..], u)
  }

  /** Pulling a user who is not in the list changes nothing. */
  lemma {:induction false} PullAbsent(s: seq<UserId>, u: UserId)
    requires u !in s
    ensures Pull(s, u) == s
  {
    if s != [] {
      PullAbsent(s[1..], u);
    }
  }

  /** Pulling a user removes the copy that was appended last, with all others. */
  lemma {:induction false} PullAppended(s: seq<UserId>, u: UserId)
    ensures Pull(s + [u], u) == Pull(s, u)
  {
    if s == [] {
      assert [u][1..] == [];
    } else {
      assert (s + [u])[1..] == s[1..] + [u];
      PullAppended(s[1..], u);
    }
  }

  /** Pulling keeps a duplicate-free list duplicate-free. */
  lemma {:induction false} PullNoDuplicates(s: seq<UserId>, u: UserId)
    requires NoDuplicates(s)
    ensures NoDuplicates(Pull(s, u))
  {
    if s != [] {
      assert NoDuplicates(s[1..]) by {
        forall i, j | 0 <= i < j < |s[1..]| ensures s[1..][i] != s[1..][j] {
          assert s[1..][i] == s[i + 1] && s[1..][j] == s[j + 1];
        }
      }
      PullNoDuplicates(s[1..], u);
      if s[0] != u {
        assert s[0] !in s[1..];
        var r := [s[0]] + Pull(s[1..], u);
        forall i, j | 0 <= i < j < |r| ensures r[i] != r[j] {
          if i == 0 {
            assert r[j] in Pull(s[1..], u);
          } else {
            assert r[i] == Pull(s[1..], u)[i - 1] && r[j] == Pull(s[1..], u)[j - 1];
          }
        }
      }
    }
  }

  /** Pulling distributes over concatenation, so the surviving elements keep their order. */
  lemma {:induction false} PullConcat(s: seq<UserId>, t: seq<UserId>, u: UserId)
    ensures Pull(s + t, u) == Pull(s, u) + Pull(t, u)
  {
    if s == [] {
      assert s + t == t;
    } else {
      assert (s + t)[1..] == s[1..] + t;
      PullConcat(s[1..], t, u);
    }
  }

  /** Pulling twice is pulling once. */
  lemma PullIdempotent(s: seq<UserId>, u: UserId)
    ensures Pull(Pull(s, u), u) == Pull(s, u)
  {
  }

  /**
   * The update overwrites exactly the fields present in the patch. The
   * identifier is never written, an empty body changes nothing, the owner
   * changes only when the body names one, and the attendance state only when
   * the body names `attendees` or `capacity`.
   */
  function ApplyPatch(e: Event, p: Patch): (r: Event)
    ensures r.id == e.id
    ensures p == EmptyPatch ==> r == e
    ensures p.createdBy.None? ==> r.createdBy == e.createdBy
    ensures p.attendees.None? && p.capacity.None? ==>
              r.attendees == e.attendees && r.capacity == e.capacity
  {
    Event(
      e.id,
      if p.title.Some? then p.title.value else e.title,
      if p.description.Some? then p.description.value else e.description,
      if p.dateTime.Some? then p.dateTime.value else e.dateTime,
      if p.location.Some? then p.location.value else e.location,
      if p.capacity.Some? then p.capacity.value else e.capacity,
      if p.createdBy.Some? then p.createdBy.value else e.createdBy,
      if p.attendees.Some? then p.attendees.value else e.attendees,
      if p.imageUrl.Some? then p.imageUrl.value else e.imageUrl)
  }

  const EmptyPatch := Patch(None, None, None, None, None, None, None, None)

  /** An update is idempotent: applying the same body again changes nothing more. */
  lemma PatchIdempotent(e: Event, p: Patch)
    ensures ApplyPatch(ApplyPatch(e, p), p) == ApplyPatch(e, p)
  {
  }

  /**
   * The attendance invariants survive an update when the body leaves
   * `attendees` alone and does not lower `capacity` below the attendee count.
   */
  lemma PatchKeepsWellFormed(e: Event, p: Patch)
    requires WellFormed(e)
    requires p.attendees.None?
    requires p.capacity.Some? ==> |e.attendees| <= p.capacity.value
    ensures WellFormed(ApplyPatch(e, p))
  {
  }

  /** Without that restriction an owner's update can break the capacity invariant. */
  lemma PatchCanBreakCapacity()
    ensures exists e: Event, p: Patch :: WellFormed(e) && |ApplyPatch(e, p).attendees| > ApplyPatch(e, p).capacity
  {
    var e := Event(0, "t", "d", 0, "l", 1, "owner", ["guest"], None);
    var p := EmptyPatch.(capacity := Some(0));
    assert NoDuplicates(e.attendees);
    assert WellFormed(e) && |ApplyPatch(e, p).attendees| > ApplyPatch(e, p).capacity;
  }

  /** ... and it can hand the event to another owner. */
  lemma PatchCanChangeOwner()
    ensures exists e: Event, p: Patch :: ApplyPatch(e, p).createdBy != e.createdBy
  {
    var e := Event(0, "t", "d", 0, "l", 1, "owner", [], None);
    var p := EmptyPatch.(createdBy := Some("other"));
    assert ApplyPatch(e, p).createdBy != e.createdBy;
  }
}
