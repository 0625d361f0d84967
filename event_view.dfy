/** The read-only projection the Events screen renders from its state: the
    filtered list, each event's category label and colour, the registration
    button's label, variant and enabled state, and the empty-state block. */
module EventView {
  import opened EventData

  /** The active filter: the sentinel 'all' or one category. */
  datatype Filter = All | Only(category: Category)

  /** The string value the screen keeps for a filter. */
  function FilterValue(f: Filter): (s: string)
    ensures f.All? <==> s == "all"
  {
    match f
    case All => "all"
    case Only(c) => CategoryName(c)
  }

  /** Whether the filter lets an event through. The screen compares the
      filter's string with the event's category string; on the closed
      enumeration that is the same as comparing categories. */
  predicate Shows(f: Filter, e: Event)
    ensures Shows(f, e) <==> FilterValue(f) == "all" || FilterValue(f) == CategoryName(e.category)
  {
    if f.All? then true
    else CategoryNameInjective(f.category, e.category); e.category == f.category
  }

  /** `s` is obtained from `t` by deleting elements, keeping the order. */
  predicate IsSubsequence(s: seq<Event>, t: seq<Event>)
    decreases |t|
  {
    s == [] ||
    (t != [] &&
      ((s[0] == t[0] && IsSubsequence(s[1..], t[1..])) || IsSubsequence(s, t[1..])))
  }

  /** The events of one category, in their original order. */
  function FilterByCategory(events: seq<Event>, c: Category): (r: seq<Event>)
    ensures |r| <= |events|
    ensures forall e :: e in r <==> e in events && e.category == c
  {
    if events == [] then []
    else if events[0].category == c then [events[0]] + FilterByCategory(events[1..], c)
    else FilterByCategory(events[1..], c)
  }

  /** The list of cards rendered under a filter. */
  function Visible(events: seq<Event>, f: Filter): (r: seq<Event>)
    ensures f.All? ==> r == events
    ensures |r| <= |events|
    ensures forall e :: e in r <==> e in events && Shows(f, e)
  {
    match f
    case All => events
    case Only(c) => FilterByCategory(events, c)
  }

  /** The category filter keeps the original relative order. */
  lemma {:induction false} FilterIsSubsequence(events: seq<Event>, c: Category)
    ensures IsSubsequence(FilterByCategory(events, c), events)
  {
    if events != [] {
      FilterIsSubsequence(events[1..], c);
      var r := FilterByCategory(events, c);
      if events[0].category == c {
        assert r[0] == events[0] && r[1..] == FilterByCategory(events[1..], c);
      }
    }
  }

  /** The category filter drops no matching event: each one occurs as often
      in the result as in the input, and events of other categories not at all. */
  lemma {:induction false} FilterCounts(events: seq<Event>, c: Category, e: Event)
    ensures multiset(FilterByCategory(events, c))[e]
         == if e.category == c then multiset(events)[e] else 0
  {
    if events != [] {
      FilterCounts(events[1..], c, e);
      assert events == [events[0]] + events[1..];
    }
  }

  /** Filtering twice by the same category changes nothing more. */
  lemma {:induction false} FilterIdempotent(events: seq<Event>, c: Category)
    ensures FilterByCategory(FilterByCategory(events, c), c) == FilterByCategory(events, c)
  {
    if events != [] {
      FilterIdempotent(events[1..], c);
    }
  }

  /** The visible list is an order-preserving subsequence of the events. */
  lemma VisibleIsSubsequence(events: seq<Event>, f: Filter)
    ensures IsSubsequence(Visible(events, f), events)
  {
    match f
    case All => SubsequenceReflexive(events);
    case Only(c) => FilterIsSubsequence(events, c);
  }

  lemma {:induction false} SubsequenceReflexive(s: seq<Event>)
    ensures IsSubsequence(s, s)
  {
    if s != [] {
      SubsequenceReflexive(s[1..]);
    }
  }

  /** The empty-state block is rendered when no card is: exactly when no
      event passes the filter, which under 'all' means there are no events. */
  predicate ShowsEmptyState(events: seq<Event>, f: Filter)
    ensures ShowsEmptyState(events, f) <==> forall e :: e in events ==> !Shows(f, e)
    ensures f.All? ==> (ShowsEmptyState(events, f) <==> events == [])
  {
    var r := Visible(events, f);
    assert r != [] ==> r[0] in r;
    |r| == 0
  }

  /** Opaque colour tokens of the theme. */
  datatype ColorToken = Primary | Info | Success | Secondary | Warning

  /** Badge colour for a category string; unknown strings get the primary colour. */
  function CategoryColor(category: string): (color: ColorToken)
    ensures (forall c :: category != CategoryName(c)) ==> color == Primary
  {
    if category == "social" then assert category == CategoryName(Social);
      Primary
    else if category == "educational" then assert category == CategoryName(Educational);
      Info
    else if category == "fitness" then assert category == CategoryName(Fitness);
      Success
    else if category == "entertainment" then assert category == CategoryName(Entertainment);
      Secondary
    else if category == "volunteer" then assert category == CategoryName(Volunteer);
      Warning
    else Primary
  }

  /** Badge label for a category string; unknown strings read 'Other'. */
  function CategoryLabel(category: string): (text: string)
    ensures text == "Other" <==> forall c :: category != CategoryName(c)
  {
    if category == "social" then assert category == CategoryName(Social);
      "Social"
    else if category == "educational" then assert category == CategoryName(Educational);
      "Educational"
    else if category == "fitness" then assert category == CategoryName(Fitness);
      "Fitness"
    else if category == "entertainment" then assert category == CategoryName(Entertainment);
      "Entertainment"
    else if category == "volunteer" then assert category == CategoryName(Volunteer);
      "Volunteer"
    else "Other"
  }

  /** Every category gets its own label and its own colour token. */
  lemma CategoryBadgesDistinct(c: Category, d: Category)
    requires c != d
    ensures CategoryLabel(CategoryName(c)) != CategoryLabel(CategoryName(d))
    ensures CategoryColor(CategoryName(c)) != CategoryColor(CategoryName(d))
  {
  }

  /** The filter buttons, in the order the screen shows them: value and label. */
  function FilterButtons(): (buttons: seq<(Filter, string)>)
    ensures |buttons| == 6 && buttons[0] == (All, "All Events")
    ensures forall i, j :: 0 <= i < j < |buttons| ==> buttons[i].0 != buttons[j].0
    ensures forall i :: 0 <= i < |buttons| && buttons[i].0.Only? ==>
      buttons[i].1 == CategoryLabel(CategoryName(buttons[i].0.category))
  {
    [ (All, "All Events"),
      (Only(Social), "Social"),
      (Only(Educational), "Educational"),
      (Only(Fitness), "Fitness"),
      (Only(Entertainment), "Entertainment"),
      (Only(Volunteer), "Volunteer") ]
  }

  /** Every filter has a button (exactly one, by FilterButtons' contract). */
  lemma FilterButtonsComplete(f: Filter)
    ensures exists i :: 0 <= i < |FilterButtons()| && FilterButtons()[i].0 == f
  {
    var b := FilterButtons();
    match f
    case All => assert b[0].0 == f;
    case Only(Social) => assert b[1].0 == f;
    case Only(Educational) => assert b[2].0 == f;
    case Only(Fitness) => assert b[3].0 == f;
    case Only(Entertainment) => assert b[4].0 == f;
    case Only(Volunteer) => assert b[5].0 == f;
  }

  /** Style of the registration button. */
  datatype ButtonVariant = SuccessButton | PrimaryButton

  /** The registration button as rendered for one event. */
  datatype RegisterButton = RegisterButton(caption: string, variant: ButtonVariant, disabled: bool)

  const RegisteredLabel: string := "\U{2713} Registered"
  const FullLabel: string := "Event Full"
  const OpenLabel: string := "Register Now"

  /** The button of an event's card: disabled only when the event is full and
      the viewer holds no reservation. */
  function ButtonFor(e: Event): (b: RegisterButton)
    ensures b.disabled <==> e.registered >= e.capacity && !e.isRegistered
    ensures b.variant == SuccessButton <==> e.isRegistered
    ensures e.isRegistered ==> b.caption == RegisteredLabel
    ensures !e.isRegistered && e.registered >= e.capacity ==> b.caption == FullLabel
    ensures !e.isRegistered && e.registered < e.capacity ==> b.caption == OpenLabel
  {
    RegisterButton(
      if e.isRegistered then RegisteredLabel
      else if e.registered >= e.capacity then FullLabel
      else OpenLabel,
      if e.isRegistered then SuccessButton else PrimaryButton,
      e.registered >= e.capacity && !e.isRegistered)
  }

  /** The button is disabled exactly when it reads 'Event Full', and a viewer
      who holds a reservation can always press it to give the seat back. */
  lemma DisabledIffFull(e: Event)
    ensures ButtonFor(e).disabled <==> ButtonFor(e).caption == FullLabel
    ensures e.isRegistered ==> !ButtonFor(e).disabled
  {
  }
}
