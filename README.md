# Calendar demo: event-list controller

This project models the event-list controller of the React calendar demo
(`big-calendar-demo/src/App.js`). The `App` component holds seven pieces of
state:

- the event list `myEvents`;
- `modalIsOpen`;
- `selectedDate`;
- the three form strings `eventTitle`, `startTime` and `endTime`;
- `currentEvent`, the event being edited.

Its handlers move that state between "modal closed" and "composing a draft".
They change the list in three ways: append, replace by reference and remove
by reference.

The project has two modules:

- `EventList` (`event_list.dfy`) holds the three list transformations as pure
  sequence functions, together with lemmas about them. The lemmas cover order
  and multiplicity, when an operation leaves the list unchanged, and
  add-then-delete and edit-then-delete round trips.
- `CalendarApp` (`calendar_app.dfy`) holds `CalendarEvent`, a class with
  constant fields, and `App`, a class with one field per state variable.
  `App` has one method per handler, a method for the "Add Event" button, and
  one method for each of the modal's three inputs.
  - Reference equality on `CalendarEvent` objects models JavaScript's `===`
    and `!==`.
  - The event built on submit is a `new` object, so it differs from every
    stored event.

`App.Valid()` is the object invariant:

- while the modal is closed, no event is bound and all three form strings
  are empty;
- every stored event has a non-empty title.

The constructor establishes `Valid()` and every method preserves it. A second
predicate, `EditsStoredEvent()`, says that the bound event is one the list
holds. A click on a stored event establishes it, and every other method
preserves it.

Because of the invariant, submit and delete need no precondition about the
modal. While the modal is closed the form is blank and no event is bound, so
both are no-ops. Only the three input handlers require the modal to be open,
because those inputs exist only inside it.

date-fns `format`, date-fns `addHours` and `new Date(text)` are foreign
calls. They are the constant function fields `formatDate`, `addHours` and
`parseDate`, given to the constructor. The seed event's start and end come
from two separate wall-clock readings (`new Date()` twice), so they are two
constructor parameters. A `Date` is reduced to its time value, and the model
never computes with it.

Other versions of this demo check `end > start`, trim titles, add colours,
persist the list and give events identifiers. This file does none of that, and
neither does the model. Events are identified by object reference. The seed
event's start and end are usually equal, but nothing checks that they are.

## Model

| member | source | states |
|---|---|---|
| `EventList.Append` | big-calendar-demo/src/App.js:80 | the new list is the old list, unchanged as a prefix, followed by exactly one new element; the multiset gains that element once |
| `EventList.ReplaceAll` | big-calendar-demo/src/App.js:74-76 | the length is kept; each position holding the edited event now holds the new one, and every other position is unchanged |
| `EventList.RemoveAll` | big-calendar-demo/src/App.js:89 | the target no longer occurs; every other element keeps its multiplicity; the length shrinks by the target's number of occurrences; nothing new appears |
| `EventList.RemoveAllConcat` | big-calendar-demo/src/App.js:89 | filtering distributes over concatenation, so the kept elements stay in their original order |
| `EventList.RemoveAllUnchanged` | big-calendar-demo/src/App.js:89 | filtering returns the list unchanged if and only if the target does not occur in it |
| `EventList.RemoveAllAfterAppend` | big-calendar-demo/src/App.js:78-91 | deleting an event that was just appended, and occurred nowhere before, gives back the list from before the append |
| `EventList.ReplaceAllUnchanged` | big-calendar-demo/src/App.js:74-76 | the map changes the list if and only if the target occurs and differs from its replacement |
| `EventList.ReplaceAllMultiset` | big-calendar-demo/src/App.js:74-76 | with a distinct replacement, all occurrences of the target move to the replacement; no other element's count changes |
| `EventList.RemoveAllAfterReplaceAll` | big-calendar-demo/src/App.js:72-91 | if the replacement occurred nowhere before, deleting it after the edit gives the same list as deleting the original |
| `CalendarApp.CalendarEvent.constructor` | big-calendar-demo/src/App.js:66-70 | the new event carries exactly the given title, start and end |
| `CalendarApp.App.constructor` | big-calendar-demo/src/App.js:19-34 | the initial state is one fresh seed event titled "Meeting" whose start and end are the two given clock readings; the modal is closed, the form strings are empty, no date is selected and no event is bound; the invariant holds |
| `CalendarApp.App.HandleSelectSlot` | big-calendar-demo/src/App.js:37-43 | the modal opens and no event is bound; the selected date is the slot's start; startTime is the formatted start and endTime the formatted start plus one hour; the list and the title are untouched (so the title is empty when the modal was closed) |
| `CalendarApp.App.HandleSelectEvent` | big-calendar-demo/src/App.js:46-52 | the clicked event is bound; its title and formatted start and end fill the form; the modal opens; the list and selected date are untouched; the bound event is stored exactly when the clicked one is |
| `CalendarApp.App.CloseModal` | big-calendar-demo/src/App.js:55-61 | the modal closes, all three form strings become empty and no event is bound; the list and selected date are untouched |
| `CalendarApp.App.OpenAddEventModal` | big-calendar-demo/src/App.js:99 | the modal opens and nothing else changes |
| `CalendarApp.App.SetEventTitle` | big-calendar-demo/src/App.js:154 | only eventTitle changes, to the typed value; this requires the modal to be open |
| `CalendarApp.App.SetStartTime` | big-calendar-demo/src/App.js:167 | only startTime changes, to the entered value; this requires the modal to be open |
| `CalendarApp.App.SetEndTime` | big-calendar-demo/src/App.js:181 | only endTime changes, to the entered value; this requires the modal to be open |
| `CalendarApp.App.HandleAddOrUpdateEvent` | big-calendar-demo/src/App.js:64-84 | if any form string is empty, nothing at all changes; otherwise a fresh event with the form's title and parsed times is appended when no event is bound, or replaces every occurrence of the bound event (length kept, the bound event gone, the new event present when the bound event was stored); then the closed state follows |
| `CalendarApp.App.HandleDeleteEvent` | big-calendar-demo/src/App.js:87-93 | with no bound event, nothing changes; otherwise the list is the old one with every reference to the bound event filtered out, and the closed state follows; the list strictly shrinks when the bound event was stored |
| `CalendarApp.AddThenDeleteRestoresList` | big-calendar-demo/src/App.js:37-93 | a slot click, a filled form and a submit, then a click on the new event and Delete, leave the list exactly as it was, with the modal closed |
| `CalendarApp.UpdateThenDeleteDropsOriginal` | big-calendar-demo/src/App.js:46-93 | editing a stored event and then deleting the edited copy leaves what deleting the original would have left |

## Left out

- JSX rendering, inline styles, the calendar grid widget, the modal widget and the `dateFnsLocalizer` set-up (lines 8-17 and 95-230) are UI and foreign components. The model keeps only the state changes their callbacks cause. The modal's `onRequestClose` and the Cancel button both call `closeModal`, so both are `App.CloseModal`.
- date-fns `format` and `addHours`, and JavaScript `Date` parsing, are opaque function fields. Their internals, and any round trip between formatting and parsing, are not modelled.
- An Invalid Date is not modelled, and neither is date-fns `format` throwing on one. `Date` is always a plain time value.
- The two wall-clock `new Date()` readings of the seed event are constructor parameters. The clock itself is not modelled.
- In the source the seed list is a module-level constant shared by every mount of the component. The model allocates the seed event in the constructor.
- React's asynchronous, batched `setState` scheduling is not modelled. Each handler reads only the state from before the call, so applying its writes in order gives the same result.
- The Delete button is rendered only while an event is bound. The model keeps the handler's own null check instead (`App.HandleDeleteEvent`).
- The grid and the "Add Event" button are behind the modal's overlay while the modal is open. The model nevertheless lets their handlers run in any state, which only makes the model more general.
- `selectedDate` is written by `handleSelectSlot` and read nowhere. The model keeps it as a field.
- `App.HandleAddOrUpdateEvent` returns a ghost out-parameter naming the event it built. The JavaScript handler returns nothing; the ghost value exists only so that callers can reason about the event.
