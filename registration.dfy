/** The registration toggle of the Events screen: it flips the viewer's
    reservation of every event carrying the given id and moves the attendance
    count by one. It performs no capacity check and reports no error; the
    capacity rule belongs to the registration button (module EventView). */
module Registration {
  import opened EventData

  /** One event after a toggle: the reservation flag is negated, the count
      moves by one in the matching direction, and nothing else changes. */
  function Flip(e: Event): (r: Event)
    ensures !e.isRegistered ==> r.isRegistered && r.registered == e.registered + 1
    ensures e.isRegistered ==> !r.isRegistered && r.registered == e.registered - 1
    ensures SameListing(r, e)
  {
    e.(isRegistered := !e.isRegistered,
       registered := if e.isRegistered then e.registered - 1 else e.registered + 1)
  }

  /** Flipping twice gives back the event. */
  lemma FlipTwice(e: Event)
    ensures Flip(Flip(e)) == e
  {
  }

  /** The new event list after a click on the button of the event with `id`:
      same length and order, every event with that id flipped, every other
      event passed through. */
  function Toggle(events: seq<Event>, id: int): (r: seq<Event>)
    ensures |r| == |events|
    ensures forall i :: 0 <= i < |events| && events[i].id != id ==> r[i] == events[i]
    ensures forall i :: 0 <= i < |events| && events[i].id == id ==> r[i] == Flip(events[i])
  {
    if events == [] then []
    else [if events[0].id == id then Flip(events[0]) else events[0]] + Toggle(events[1..], id)
  }

  /** The toggle never changes an id, a category or a capacity. */
  lemma ToggleKeepsListing(events: seq<Event>, id: int, i: int)
    requires 0 <= i < |events|
    ensures Toggle(events, id)[i].id == events[i].id
    ensures Toggle(events, id)[i].category == events[i].category
    ensures Toggle(events, id)[i].capacity == events[i].capacity
  {
  }

  /** An id that no event carries leaves the list as it is. */
  lemma {:induction false} ToggleUnknownId(events: seq<Event>, id: int)
    requires forall e :: e in events ==> e.id != id
    ensures Toggle(events, id) == events
  {
    if events != [] {
      ToggleUnknownId(events[1..], id);
    }
  }

  /** Toggling the same id twice restores the original list. */
  lemma {:induction false} ToggleTwice(events: seq<Event>, id: int)
    ensures Toggle(Toggle(events, id), id) == events
  {
    if events != [] {
      ToggleTwice(events[1..], id);
      FlipTwice(events[0]);
    }
  }

  /** Toggling two ids commutes: the order of two clicks does not matter. */
  lemma {:induction false} ToggleCommutes(events: seq<Event>, a: int, b: int)
    ensures Toggle(Toggle(events, a), b) == Toggle(Toggle(events, b), a)
  {
    if events != [] {
      ToggleCommutes(events[1..], a, b);
    }
  }

  /** Toggling keeps the invariant's id part: the ids stay pairwise distinct. */
  lemma ToggleKeepsUniqueIds(events: seq<Event>, id: int)
    requires UniqueIds(events)
    ensures UniqueIds(Toggle(events, id))
  {
  }
}
