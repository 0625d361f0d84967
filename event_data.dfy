/** The Event record of the Events screen, its closed category enumeration,
    the well-formedness invariant of an event list, and the list the screen
    is seeded with. */
module EventData {

  /** The five categories an event may carry. */
  datatype Category = Social | Educational | Fitness | Entertainment | Volunteer

  /** The string the screen stores for a category (and compares filters with). */
  function CategoryName(c: Category): (s: string)
    ensures s != "all"
  {
    match c
    case Social => "social"
    case Educational => "educational"
    case Fitness => "fitness"
    case Entertainment => "entertainment"
    case Volunteer => "volunteer"
  }

  /** Distinct categories are stored as distinct strings, so comparing the
      strings is the same as comparing the categories. */
  lemma CategoryNameInjective(c: Category, d: Category)
    ensures CategoryName(c) == CategoryName(d) <==> c == d
  {
  }

  /** One community event. JavaScript numbers are modelled as unbounded
      integers; date and time are opaque display strings. */
  datatype Event = Event(
    id: int,
    title: string,
    description: string,
    date: string,
    time: string,
    location: string,
    category: Category,
    capacity: int,
    registered: int,
    isRegistered: bool)

  /** `b` is the same listing as `a`: they may differ only in the attendance
      count and the viewer's reservation. */
  predicate SameListing(a: Event, b: Event) {
    a.(registered := b.registered, isRegistered := b.isRegistered) == b
  }

  /** Attendance bounds of one event: the count lies within the capacity and,
      when the viewer holds a reservation, the count includes it. */
  predicate WithinCapacity(e: Event) {
    0 <= e.registered <= e.capacity && (e.isRegistered ==> e.registered >= 1)
  }

  /** No two events of the list share an id. */
  predicate UniqueIds(events: seq<Event>) {
    forall i, j :: 0 <= i < j < |events| ==> events[i].id != events[j].id
  }

  /** The invariant an event list keeps while it is changed only through
      enabled registration buttons. */
  predicate ValidEvents(events: seq<Event>) {
    UniqueIds(events) && forall i :: 0 <= i < |events| ==> WithinCapacity(events[i])
  }

  /** The events the screen starts with, one function per event. The
      free-text descriptions, which no operation reads, are left empty. */
  function SeedEvents(): (events: seq<Event>)
    ensures |events| == 5
    ensures forall i :: 0 <= i < |events| ==> events[i].id == i + 1
    ensures events[1].isRegistered && forall i :: 0 <= i < |events| && i != 1 ==> !events[i].isRegistered
  {
    [MeetingSeed(), FitnessSeed(), WorkshopSeed(), MovieSeed(), FoodBankSeed()]
  }

  function MeetingSeed(): Event {
    Event(1, "Monthly Community Meeting", "",
      "2024-01-25", "2:00 PM - 4:00 PM", "Clubhouse Main Hall", Social, 100, 45, false)
  }

  function FitnessSeed(): Event {
    Event(2, "Senior Fitness Class", "",
      "2024-01-26", "10:00 AM - 11:00 AM", "Fitness Center", Fitness, 20, 18, true)
  }

  function WorkshopSeed(): Event {
    Event(3, "Computer Basics Workshop", "",
      "2024-01-28", "1:00 PM - 3:00 PM", "Computer Lab", Educational, 15, 12, false)
  }

  function MovieSeed(): Event {
    Event(4, "Movie Night: Classic Films", "",
      "2024-01-30", "7:00 PM - 9:00 PM", "Recreation Center", Entertainment, 80, 67, false)
  }

  function FoodBankSeed(): Event {
    Event(5, "Volunteer Opportunity: Food Bank", "",
      "2024-02-02", "9:00 AM - 12:00 PM", "Community Center", Volunteer, 25, 8, false)
  }

  /** The seed list satisfies the invariant, so every state reached from it
      through enabled buttons does too. */
  lemma SeedValid()
    ensures ValidEvents(SeedEvents())
  {
    var s := SeedEvents();
    forall i | 0 <= i < |s| ensures WithinCapacity(s[i]) {
    }
  }
}
