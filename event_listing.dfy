/**
 * The event listing: every stored event, ordered by `dateTime`, soonest first.
 *
 * The database promises no order for a read of the whole collection; the
 * model chooses ascending identifier (creation order) and then sorts by
 * insertion on `dateTime`. Events with the same `dateTime` may come out in any
 * order; the listing's contract promises nothing about them.
 */
module EventListing {
  import opened EventModel

  /** Every stored event is filed under its own identifier. */
  predicate KeyedById(m: map<EventId, Event>) {
    forall id :: id in m ==> m[id].id == id
  }

  predicate SortedByDate(s: seq<Event>) {
    forall i, j :: 0 <= i < j < |s| ==> s[i].dateTime <= s[j].dateTime
  }

  predicate IdsIncreasing(s: seq<Event>) {
    forall i, j :: 0 <= i < j < |s| ==> s[i].id < s[j].id
  }

  /** An event whose identifier is above every identifier in the list may go at its end. */
  lemma AppendLaterId(s: seq<Event>, x: Event)
    requires IdsIncreasing(s)
    requires forall y :: y in s ==> y.id < x.id
    ensures IdsIncreasing(s + [x])
  {
    var r := s + [x];
    forall i, j | 0 <= i < j < |r| ensures r[i].id < r[j].id {
      assert r[i] == s[i];
      if j < |s| {
        assert r[j] == s[j];
      }
    }
  }

  /** The stored events with an identifier below `n`, in the read order the model chooses: ascending identifier. */
  function NaturalOrder(m: map<EventId, Event>, n: nat): (r: seq<Event>)
    requires KeyedById(m)
    ensures forall e :: e in r ==> e.id in m && e.id < n && m[e.id] == e
    ensures forall id :: id in m && id < n ==> m[id] in r
    ensures IdsIncreasing(r)
  {
    if n == 0 then []
    else
      var prefix := NaturalOrder(m, n - 1);
      if n - 1 in m then
        AppendLaterId(prefix, m[n - 1]);
        prefix + [m[n - 1]]
      else prefix
  }

  /** In a list with strictly increasing identifiers every event occurs exactly once. */
  lemma {:induction false} IncreasingOccursOnce(s: seq<Event>)
    requires IdsIncreasing(s)
    ensures forall e :: e in s ==> multiset(s)[e] == 1
  {
    if s != [] {
      var t := s[1..];
      assert s == [s[0]] + t;
      assert IdsIncreasing(t) by {
        forall i, j | 0 <= i < j < |t| ensures t[i].id < t[j].id {
          assert t[i] == s[i + 1] && t[j] == s[j + 1];
        }
      }
      IncreasingOccursOnce(t);
      assert s[0] !in t by {
        forall k | 0 <= k < |t| ensures t[k] != s[0] {
          assert t[k] == s[k + 1];
        }
      }
    }
  }

  /** An event no later than anything in a sorted list may go in front of it. */
  lemma PrependSorted(x: Event, s: seq<Event>)
    requires SortedByDate(s)
    requires forall y :: y in s ==> x.dateTime <= y.dateTime
    ensures SortedByDate([x] + s)
  {
    var r := [x] + s;
    forall i, j | 0 <= i < j < |r| ensures r[i].dateTime <= r[j].dateTime {
      if i == 0 {
        assert r[j] == s[j - 1];
      } else {
        assert r[i] == s[i - 1] && r[j] == s[j - 1];
      }
    }
  }

  /** The first event of a sorted list is no later than any of its events. */
  lemma SortedHeadFirst(s: seq<Event>)
    requires SortedByDate(s)
    ensures forall y :: y in s ==> s[0].dateTime <= y.dateTime
  {
    forall y | y in s ensures s[0].dateTime <= y.dateTime {
      var k :| 0 <= k < |s| && s[k] == y;
    }
  }

  /** Inserts `e` into a list sorted by date, keeping it sorted. */
  function InsertByDate(e: Event, s: seq<Event>): (r: seq<Event>)
    requires SortedByDate(s)
    ensures SortedByDate(r)
    ensures forall x :: x in r ==> x == e || x in s
    ensures multiset(r) == multiset(s) + multiset{e}
  {
    if s == [] || e.dateTime <= s[0].dateTime then
      SortedHeadFirst(s);
      PrependSorted(e, s);
      [e] + s
    else
      assert s == [s[0]] + s[1..];
      var rest := InsertByDate(e, s[1..]);
      SortedHeadFirst(s);
      PrependSorted(s[0], rest);
      [s[0]] + rest
  }

  /** Sorts by `dateTime`, ascending; the result is a permutation of the input. */
  function SortByDate(s: seq<Event>): (r: seq<Event>)
    ensures SortedByDate(r)
    ensures multiset(r) == multiset(s)
  {
    if s == [] then []
    else
      assert s == [s[0]] + s[1..];
      InsertByDate(s[0], SortByDate(s[1..]))
  }
}
