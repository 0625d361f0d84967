/** The Events screen as a state machine: its state is the event list and the
    active filter; the viewer either picks a filter or presses the
    registration button of a rendered card. A disabled button does nothing,
    so the capacity rule is enforced by the button, not by the toggle. */
module Screen {
  import opened EventData
  import opened Registration
  import opened EventView

  datatype Option<T> = None | Some(value: T)

  datatype State = State(events: seq<Event>, filter: Filter)

  /** What the viewer can do: press a filter button, or press the
      registration button of the card at position `card` among those shown. */
  datatype Action = SelectFilter(f: Filter) | PressRegister(card: int)

  /** The screen when it first appears: the seed list under 'all'. */
  function Initial(): (s: State)
    ensures s.filter == All && |s.events| == 5
    ensures ValidEvents(s.events)
  {
    SeedValid();
    State(SeedEvents(), All)
  }

  /** The event a press on card `card` refers to, when that card is rendered
      and its button is enabled. */
  function Target(s: State, card: int): (t: Option<Event>)
    ensures t.Some? <==> 0 <= card < |Visible(s.events, s.filter)|
                         && !ButtonFor(Visible(s.events, s.filter)[card]).disabled
    ensures t.Some? ==> t.value == Visible(s.events, s.filter)[card]
    ensures t.Some? ==> t.value in s.events && Shows(s.filter, t.value)
  {
    var shown := Visible(s.events, s.filter);
    if 0 <= card < |shown| && !ButtonFor(shown[card]).disabled then Some(shown[card])
    else None
  }

  /** One user action. */
  function Step(s: State, a: Action): (r: State)
    ensures |r.events| == |s.events|
    ensures a.SelectFilter? ==> r.events == s.events && r.filter == a.f
    ensures a.PressRegister? ==> r.filter == s.filter
    ensures a.PressRegister? && Target(s, a.card).None? ==> r == s
    ensures a.PressRegister? && Target(s, a.card).Some? ==>
      r.events == Toggle(s.events, Target(s, a.card).value.id)
    ensures forall i :: 0 <= i < |s.events| ==> SameListing(r.events[i], s.events[i])
  {
    match a
    case SelectFilter(f) => s.(filter := f)
    case PressRegister(card) =>
      match Target(s, card)
      case None => s
      case Some(e) => s.(events := Toggle(s.events, e.id))
  }

  /** A sequence of user actions, applied in order. */
  function Run(s: State, actions: seq<Action>): (r: State)
    ensures |r.events| == |s.events|
    ensures forall i :: 0 <= i < |s.events| ==> SameListing(r.events[i], s.events[i])
    decreases |actions|
  {
    if actions == [] then s else Run(Step(s, actions[0]), actions[1..])
  }

  /** Pressing the button of a card whose event is full and not registered
      changes nothing: the button is disabled, so no toggle is issued and no
      error is reported. */
  lemma FullCardPressIsNoOp(s: State, card: int)
    requires 0 <= card < |Visible(s.events, s.filter)|
    requires var e := Visible(s.events, s.filter)[card]; e.registered >= e.capacity && !e.isRegistered
    ensures Step(s, PressRegister(card)) == s
  {
  }

  /** The seeded movie night filled to 80 of 80: its card reads 'Event Full'
      and pressing it leaves the screen as it was. */
  lemma FullMovieNightScenario()
    ensures var s := State(Initial().events[3 := MovieSeed().(registered := 80)], All);
      ButtonFor(s.events[3]).caption == FullLabel && Step(s, PressRegister(3)) == s
  {
  }

  /** A toggle issued through an enabled button keeps the event within its
      capacity: a viewer registers only below capacity, and unregisters only
      a reservation the count includes. */
  lemma EnabledFlipWithinCapacity(e: Event)
    requires WithinCapacity(e) && !ButtonFor(e).disabled
    ensures WithinCapacity(Flip(e))
  {
  }

  /** Pressing an enabled button keeps every event within its capacity and
      the ids distinct. */
  lemma StepPreservesValid(s: State, a: Action)
    requires ValidEvents(s.events)
    ensures ValidEvents(Step(s, a).events)
  {
    if a.PressRegister? && Target(s, a.card).Some? {
      var e := Target(s, a.card).value;
      var events := s.events;
      var r := Toggle(events, e.id);
      var j :| 0 <= j < |events| && events[j] == e;
      forall i | 0 <= i < |r|
        ensures WithinCapacity(r[i])
      {
        if events[i].id == e.id {
          assert i == j;
          EnabledFlipWithinCapacity(e);
        }
      }
      ToggleKeepsUniqueIds(events, e.id);
    }
  }

  /** The invariant holds after any sequence of actions. */
  lemma {:induction false} RunPreservesValid(s: State, actions: seq<Action>)
    requires ValidEvents(s.events)
    ensures ValidEvents(Run(s, actions).events)
    decreases |actions|
  {
    if actions != [] {
      StepPreservesValid(s, actions[0]);
      RunPreservesValid(Step(s, actions[0]), actions[1..]);
    }
  }

  /** Every state the screen can reach from its seed keeps each event within
      its capacity. */
  lemma ReachableWithinCapacity(actions: seq<Action>, i: int)
    requires 0 <= i < |Run(Initial(), actions).events|
    ensures 0 <= Run(Initial(), actions).events[i].registered <= Run(Initial(), actions).events[i].capacity
  {
    SeedValid();
    RunPreservesValid(Initial(), actions);
  }

  /** The cards after a press are the cards before it, with the pressed
      event toggled: toggling never moves an event in or out of a filter. */
  lemma {:induction false} ToggleCommutesWithFilter(events: seq<Event>, c: Category, id: int)
    ensures FilterByCategory(Toggle(events, id), c) == Toggle(FilterByCategory(events, c), id)
  {
    if events != [] {
      ToggleCommutesWithFilter(events[1..], c, id);
      assert Toggle(events, id)[1..] == Toggle(events[1..], id);
    }
  }

  /** After a press the cards shown are the cards shown before, in the same
      order, with the pressed event toggled. */
  lemma PressKeepsCards(s: State, card: int)
    requires Target(s, card).Some?
    ensures Visible(Step(s, PressRegister(card)).events, s.filter)
         == Toggle(Visible(s.events, s.filter), Target(s, card).value.id)
  {
    if s.filter.Only? {
      ToggleCommutesWithFilter(s.events, s.filter.category, Target(s, card).value.id);
    }
  }

  /** With distinct ids, a press on an enabled button flips the pressed event
      and leaves every other event as it was. */
  lemma PressFlipsOnlyPressed(s: State, card: int, j: int)
    requires UniqueIds(s.events)
    requires Target(s, card).Some? && 0 <= j < |s.events|
    ensures var r := Step(s, PressRegister(card)).events;
      if s.events[j] == Target(s, card).value then r[j] == Flip(s.events[j]) else r[j] == s.events[j]
  {
    var e := Target(s, card).value;
    var k :| 0 <= k < |s.events| && s.events[k] == e;
    assert s.events[j].id == e.id ==> j == k;
  }

  /** The seeded fitness class (id 2, 18 of 20, viewer registered): a press
      unregisters the viewer (17), a second press registers again (18). */
  lemma SeedFitnessScenario()
    ensures Step(Initial(), PressRegister(1)).events[1].registered == 17
    ensures !Step(Initial(), PressRegister(1)).events[1].isRegistered
    ensures Run(Initial(), [PressRegister(1), PressRegister(1)]) == Initial()
  {
    var s := Initial();
    assert Visible(s.events, All)[1] == FitnessSeed();
    assert Target(s, 1) == Some(FitnessSeed());
    var s1 := Step(s, PressRegister(1));
    assert s1.events == Toggle(SeedEvents(), 2);
    assert Target(s1, 1) == Some(Flip(FitnessSeed()));
    ToggleTwice(SeedEvents(), 2);
    assert Run(s, [PressRegister(1), PressRegister(1)]) == Step(s1, PressRegister(1));
  }

  /** The seeded movie night (id 4, 67 of 80) is open: its button reads
      'Register Now' and a press brings the count to 68. */
  lemma SeedMovieScenario()
    ensures ButtonFor(MovieSeed()).caption == OpenLabel
    ensures Step(Initial(), PressRegister(3)).events[3].registered == 68
  {
    assert Target(Initial(), 3) == Some(MovieSeed());
  }

  /** Under the fitness filter only the fitness class is shown. */
  lemma SeedFitnessFilter()
    ensures Visible(SeedEvents(), Only(Fitness)) == [FitnessSeed()]
  {
  }

  /** Without the button's guard the toggle can overfill an event: the
      toggle on its own admits a viewer to a full event. */
  lemma UnguardedToggleOverfills()
    ensures var full := Event(4, "", "", "", "", "", Entertainment, 80, 80, false);
      WithinCapacity(full) && ButtonFor(full).disabled &&
      !WithinCapacity(Toggle([full], 4)[0])
  {
  }

  /** The guard rests on distinct ids: the toggle flips every event carrying
      the pressed id, including a full one whose own button is disabled. */
  lemma SharedIdDefeatsGuard()
    ensures var open := Event(7, "", "", "", "", "", Social, 10, 3, false);
      var full := Event(7, "", "", "", "", "", Social, 10, 10, false);
      var s := State([open, full], All);
      (forall e :: e in s.events ==> WithinCapacity(e)) &&
      !WithinCapacity(Step(s, PressRegister(0)).events[1])
  {
  }
}
