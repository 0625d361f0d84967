# Village Connect — Events screen, modelled in Dafny

The Events screen of the Village Connect community app lists community events.
The viewer can narrow the list to one category and register or unregister
for an event. This project models the logic inside that screen
(`villages-connect/src/screens/Events.tsx`) as pure Dafny functions on
sequences of events, and proves properties about them:

- `event_data.dfy` (module `EventData`): the `Event` record, its closed
  `Category` enumeration and the string the screen stores for each category.
  It also holds the invariant `ValidEvents` (every count lies within
  `0..capacity`, a held reservation is counted, ids are distinct) and the five
  events the screen is seeded with.
- `registration.dfy` (module `Registration`): `handleRegistration` as
  `Toggle(events, id)`. It flips every event carrying the id, moves its count
  by one, and passes every other event through. The toggle has no capacity
  check and no error result, exactly as in the code.
- `event_view.dfy` (module `EventView`): the read-only projection. It covers
  the category filter (`Visible`), the badge label and colour lookups, the
  filter buttons, the registration button's caption, variant and disabled
  flag, and the empty-state condition.
- `screen.dfy` (module `Screen`): the screen's state `(events, filter)` and
  the viewer's two actions. A press on a rendered card's registration button
  calls the toggle only when that button is enabled. The capacity rule
  therefore lives in the button, and the main theorem is that every state
  reachable from the seed keeps `0 <= registered <= capacity`.

The code has no error results. An id that no event carries leaves the list
unchanged (`ToggleUnknownId`). A full event is protected only by its disabled
button: the toggle on its own would take it past its capacity
(`UnguardedToggleOverfills`), and a press on that button changes nothing
(`FullCardPressIsNoOp`).

## Model

| member | source | states |
|---|---|---|
| `EventData.CategoryName` | villages-connect/src/screens/Events.tsx:13 | no category is stored as the filter sentinel 'all' |
| `EventData.SeedEvents` | villages-connect/src/screens/Events.tsx:24-85 | five events with ids 1 to 5 in order; only the second (the fitness class) holds the viewer's reservation |
| `EventData.SeedValid` | villages-connect/src/screens/Events.tsx:24-85 | the seed list has distinct ids, and every seeded count lies within its capacity and counts a held reservation |
| `Registration.Flip` | villages-connect/src/screens/Events.tsx:97-103 | an unregistered event becomes registered with one more attendee; a registered one becomes unregistered with one fewer; no other field changes |
| `Registration.FlipTwice` | villages-connect/src/screens/Events.tsx:99-102 | flipping an event twice restores it |
| `Registration.Toggle` | villages-connect/src/screens/Events.tsx:93-107 | same length and order; each event with the id is flipped; every other event is passed through unchanged |
| `Registration.ToggleKeepsListing` | villages-connect/src/screens/Events.tsx:96-104 | a toggle never changes an event's id, category or capacity |
| `Registration.ToggleUnknownId` | villages-connect/src/screens/Events.tsx:94-105 | an id no event carries yields the identical list (no error) |
| `Registration.ToggleTwice` | villages-connect/src/screens/Events.tsx:99-103 | toggling the same id twice restores the original list |
| `Registration.ToggleCommutes` | villages-connect/src/screens/Events.tsx:94-105 | two toggles give the same list in either order |
| `Registration.ToggleKeepsUniqueIds` | villages-connect/src/screens/Events.tsx:95-104 | distinct ids stay distinct after a toggle |
| `EventView.FilterValue` | villages-connect/src/screens/Events.tsx:181-188 | a filter's stored string is 'all' exactly for the all-events filter |
| `EventView.Shows` | villages-connect/src/screens/Events.tsx:88-90 | the filter lets an event through exactly when the filter string is 'all' or equals the event's category string |
| `EventView.FilterByCategory` | villages-connect/src/screens/Events.tsx:90 | the result is no longer than the input and holds exactly the input's events of that category |
| `EventView.Visible` | villages-connect/src/screens/Events.tsx:88-90 | 'all' shows the list unchanged; any filter shows exactly the events it lets through, no more of them than there are events |
| `EventView.FilterIsSubsequence` | villages-connect/src/screens/Events.tsx:90 | the category filter's result is a subsequence of the input in original relative order |
| `EventView.FilterCounts` | villages-connect/src/screens/Events.tsx:90 | each event of the category occurs in the result as often as in the input; events of other categories do not occur |
| `EventView.FilterIdempotent` | villages-connect/src/screens/Events.tsx:90 | filtering an already filtered list by the same category changes nothing |
| `EventView.VisibleIsSubsequence` | villages-connect/src/screens/Events.tsx:88-90 | the visible list, under any filter, is an order-preserving subsequence of the events |
| `EventView.ShowsEmptyState` | villages-connect/src/screens/Events.tsx:326 | the empty state shows exactly when no event passes the filter; under 'all' exactly when there are no events |
| `EventView.CategoryColor` | villages-connect/src/screens/Events.tsx:110-119 | any string that names no category gets the primary colour |
| `EventView.CategoryLabel` | villages-connect/src/screens/Events.tsx:122-131 | the label is 'Other' exactly when the string names no category, so every category has a proper label |
| `EventView.CategoryBadgesDistinct` | villages-connect/src/screens/Events.tsx:110-131 | two different categories get different labels and different colour tokens |
| `EventView.FilterButtons` | villages-connect/src/screens/Events.tsx:181-188 | the first button is 'All Events'; no filter has two buttons; a category button's text equals that category's badge label |
| `EventView.FilterButtonsComplete` | villages-connect/src/screens/Events.tsx:181-188 | every filter has a button |
| `EventView.ButtonFor` | villages-connect/src/screens/Events.tsx:307-318 | disabled exactly when full and not registered; success variant exactly when registered; caption '✓ Registered', 'Event Full' or 'Register Now' by the three cases |
| `EventView.DisabledIffFull` | villages-connect/src/screens/Events.tsx:311-318 | the button is disabled exactly when it reads 'Event Full', and a registered viewer can always press it |
| `Screen.Target` | villages-connect/src/screens/Events.tsx:307-311 | a press on card `card` reaches exactly the event on that card, and does so exactly when that card is rendered and its button is enabled |
| `Screen.Initial` | villages-connect/src/screens/Events.tsx:21-24 | the screen opens under 'all' with the five seeded events, which satisfy the invariant |
| `Screen.Step` | villages-connect/src/screens/Events.tsx:310-311 | a filter press changes only the filter; a register press keeps the filter, toggles the pressed card's id when its button is enabled and, on a missing card or a disabled button, changes nothing; no action changes any event's listing fields |
| `Screen.Run` | villages-connect/src/screens/Events.tsx:93-107 | any sequence of actions keeps the list's length and every event's id, texts, category and capacity |
| `Screen.FullCardPressIsNoOp` | villages-connect/src/screens/Events.tsx:311 | pressing the card of a full event the viewer has not registered for leaves the state unchanged |
| `Screen.FullMovieNightScenario` | villages-connect/src/screens/Events.tsx:61-72 | with the movie night at 80 of 80, its card reads 'Event Full' and a press changes nothing |
| `Screen.EnabledFlipWithinCapacity` | villages-connect/src/screens/Events.tsx:311 | a toggle through an enabled button keeps an event within its capacity and keeps a held reservation counted |
| `Screen.StepPreservesValid` | villages-connect/src/screens/Events.tsx:307-311 | every action preserves the invariant: counts within capacity, reservations counted, ids distinct |
| `Screen.RunPreservesValid` | villages-connect/src/screens/Events.tsx:93-107 | any sequence of actions preserves the invariant |
| `Screen.ReachableWithinCapacity` | villages-connect/src/screens/Events.tsx:24-85 | in every state reachable from the seed, each event has `0 <= registered <= capacity` |
| `Screen.ToggleCommutesWithFilter` | villages-connect/src/screens/Events.tsx:88-107 | filtering the toggled list equals toggling the filtered list |
| `Screen.PressKeepsCards` | villages-connect/src/screens/Events.tsx:209-311 | after a press the same cards are shown in the same order, with the pressed event toggled |
| `Screen.PressFlipsOnlyPressed` | villages-connect/src/screens/Events.tsx:96-104 | with distinct ids a press flips the pressed event and no other |
| `Screen.SeedFitnessScenario` | villages-connect/src/screens/Events.tsx:37-48 | pressing the fitness class's button gives 17 attendees and no reservation; pressing again restores the seed |
| `Screen.SeedMovieScenario` | villages-connect/src/screens/Events.tsx:61-72 | the movie night (67 of 80) reads 'Register Now' and a press brings it to 68 |
| `Screen.SeedFitnessFilter` | villages-connect/src/screens/Events.tsx:88-90 | under the fitness filter the seed shows only the fitness class |
| `Screen.UnguardedToggleOverfills` | villages-connect/src/screens/Events.tsx:96-103 | the toggle alone takes a full, unregistered event past its capacity, and that event's button is disabled |
| `Screen.SharedIdDefeatsGuard` | villages-connect/src/screens/Events.tsx:96 | two events sharing an id: pressing the open one also flips the full one past capacity, so the invariant needs distinct ids |

## Left out

- The JSX layout, inline styles, the `Navigation` component and the look of the `Button` component (lines 133-350): presentation only. Only the values these read from the logic are modelled.
- The `Button` component (imported from `../components`) is not part of this model. `Step`, `StepPreservesValid`, `RunPreservesValid` and `ReachableWithinCapacity` assume that it calls `onClick` only while `disabled` is false (lines 310-311). If the component fired `onClick` on a disabled button, a full event could be overfilled (`UnguardedToggleOverfills`).
- Date display through `toLocaleDateString` (lines 280-285): locale behaviour of the JavaScript runtime. `date` and `time` are opaque strings.
- The concrete values of `theme.colors.*`: the theme module is not part of this model. Colours are the opaque tokens `Primary`, `Info`, `Success`, `Secondary` and `Warning`, so two tokens may in fact share a value.
- React's `useState` and re-rendering: the state is the plain value `State(events, filter)` and each user action is the function `Step`.
- The filter state is a string in the code. It is modelled as `All | Only(category)`, the six values its buttons can set (lines 181-193). `EventView.Shows` ties the two views together.
- Event ids, capacities and counts are JavaScript numbers (doubles). They are modelled as unbounded integers; precision loss beyond 2^53 is not modelled.
- EventData.SeedEvents: the five seeded descriptions (lines 28, 40, 52, 64, 76) are left as empty strings. No operation reads them, and spelled out as character sequences they make every proof about the seed exceed the verifier's resource budget. All other seeded fields are as in the code.
- The Android Gradle build script (`villages_connect_new/android_backup/app/build.gradle.kts`): build configuration with no behaviour.
