/**
  The event-list controller of the calendar demo's `App` component: seven
  pieces of component state and the handlers that move them between
  "modal closed" and "composing a draft in the modal".

  Each handler reads the state as it was before the handler ran and writes
  new values; none reads a value it wrote earlier in the same call, so
  applying the writes in order gives what React's batched updates give.
 */
module CalendarApp {
  import opened EventList

  datatype Option<T> = None | Some(value: T)

  /** A JavaScript `Date`, reduced to its time value. Nothing here computes
      with it: formatting, adding hours and parsing are foreign calls. */
  datatype Date = Date(timeValue: int)

  /** The date-fns pattern used for every form field; it is the layout
      a `datetime-local` input reads and writes. */
  const DateTimeLocalFormat: string := "yyyy-MM-dd'T'HH:mm"

  /** One calendar event. The controller never changes an event after
      building it (an edit builds a new object), so the fields are constant. */
  class CalendarEvent {
    const title: string
    const start: Date
    const end: Date

    constructor (title: string, start: Date, end: Date)
      ensures this.title == title && this.start == start && this.end == end
    {
      this.title := title;
      this.start := start;
      this.end := end;
    }
  }

  class App {
    /** date-fns `format(date, pattern)`. */
    const formatDate: (Date, string) -> string
    /** date-fns `addHours(date, hours)`. */
    const addHours: (Date, int) -> Date
    /** `new Date(text)`. */
    const parseDate: string -> Date

    var myEvents: seq<CalendarEvent>
    var modalIsOpen: bool
    var selectedDate: Option<Date>
    var eventTitle: string
    var startTime: string
    var endTime: string
    var currentEvent: CalendarEvent?

    /** While the modal is closed no draft is in progress. */
    ghost predicate ClosedFormIsBlank()
      reads this
    {
      !modalIsOpen ==> currentEvent == null && eventTitle == "" && startTime == "" && endTime == ""
    }

    /** Only non-empty titles ever reach the list. */
    ghost predicate StoredTitlesNonEmpty()
      reads this
    {
      forall e :: e in myEvents ==> e.title != ""
    }

    ghost predicate Valid()
      reads this
    {
      ClosedFormIsBlank() && StoredTitlesNonEmpty()
    }

    /** The event being edited, if any, is one the list holds. */
    ghost predicate EditsStoredEvent()
      reads this
    {
      currentEvent != null ==> currentEvent in myEvents
    }

    /** The state right after the modal has been closed, as `closeModal` leaves it. */
    ghost predicate IsClosed()
      reads this
    {
      !modalIsOpen && eventTitle == "" && startTime == "" && endTime == "" && currentEvent == null
    }

    /** The initial state: one seed event whose start and end are two readings
        of the clock, the modal closed, an empty form and no selected date. */
    constructor (startNow: Date, endNow: Date, formatDate: (Date, string) -> string,
                 addHours: (Date, int) -> Date, parseDate: string -> Date)
      ensures Valid() && EditsStoredEvent() && IsClosed()
      ensures |myEvents| == 1 && fresh(myEvents[0])
      ensures myEvents[0].title == "Meeting" && myEvents[0].start == startNow && myEvents[0].end == endNow
      ensures selectedDate == None
      ensures this.formatDate == formatDate && this.addHours == addHours && this.parseDate == parseDate
    {
      this.formatDate := formatDate;
      this.addHours := addHours;
      this.parseDate := parseDate;
      var seed := new CalendarEvent("Meeting", startNow, endNow);
      myEvents := [seed];
      modalIsOpen := false;
      selectedDate := None;
      eventTitle := "";
      startTime := "";
      endTime := "";
      currentEvent := null;
    }

    /** A click on an empty slot: a fresh draft from `start` to one hour later. */
    method HandleSelectSlot(start: Date)
      requires Valid()
      modifies this
      ensures Valid() && EditsStoredEvent()
      ensures modalIsOpen && currentEvent == null && selectedDate == Some(start)
      ensures startTime == formatDate(start, DateTimeLocalFormat)
      ensures endTime == formatDate(addHours(start, 1), DateTimeLocalFormat)
      ensures myEvents == old(myEvents) && eventTitle == old(eventTitle)
      ensures !old(modalIsOpen) ==> eventTitle == ""
    {
      selectedDate := Some(start);
      startTime := formatDate(start, DateTimeLocalFormat);
      endTime := formatDate(addHours(start, 1), DateTimeLocalFormat);
      currentEvent := null;
      modalIsOpen := true;
    }

    /** A click on an event: the form is filled from it and bound to it. */
    method HandleSelectEvent(event: CalendarEvent)
      requires Valid()
      modifies this
      ensures Valid()
      ensures EditsStoredEvent() <==> event in myEvents
      ensures modalIsOpen && currentEvent == event && eventTitle == event.title
      ensures startTime == formatDate(event.start, DateTimeLocalFormat)
      ensures endTime == formatDate(event.end, DateTimeLocalFormat)
      ensures myEvents == old(myEvents) && selectedDate == old(selectedDate)
    {
      currentEvent := event;
      eventTitle := event.title;
      startTime := formatDate(event.start, DateTimeLocalFormat);
      endTime := formatDate(event.end, DateTimeLocalFormat);
      modalIsOpen := true;
    }

    /** Cancel, a click on the overlay, and the end of every submit or delete. */
    method CloseModal()
      requires Valid()
      modifies this
      ensures Valid() && EditsStoredEvent() && IsClosed()
      ensures myEvents == old(myEvents) && selectedDate == old(selectedDate)
    {
      modalIsOpen := false;
      eventTitle := "";
      startTime := "";
      endTime := "";
      currentEvent := null;
    }

    /** The "Add Event" button above the calendar: it only opens the modal. */
    method OpenAddEventModal()
      requires Valid()
      modifies this
      ensures Valid()
      ensures old(EditsStoredEvent()) ==> EditsStoredEvent()
      ensures modalIsOpen
      ensures myEvents == old(myEvents) && selectedDate == old(selectedDate)
      ensures eventTitle == old(eventTitle) && startTime == old(startTime) && endTime == old(endTime)
      ensures currentEvent == old(currentEvent)
    {
      modalIsOpen := true;
    }

    /** Typing in the title input, which exists only inside the modal. */
    method SetEventTitle(value: string)
      requires Valid() && modalIsOpen
      modifies this
      ensures Valid()
      ensures old(EditsStoredEvent()) ==> EditsStoredEvent()
      ensures eventTitle == value
      ensures modalIsOpen && myEvents == old(myEvents) && selectedDate == old(selectedDate)
      ensures startTime == old(startTime) && endTime == old(endTime) && currentEvent == old(currentEvent)
    {
      eventTitle := value;
    }

    /** Editing the start-time input, which exists only inside the modal. */
    method SetStartTime(value: string)
      requires Valid() && modalIsOpen
      modifies this
      ensures Valid()
      ensures old(EditsStoredEvent()) ==> EditsStoredEvent()
      ensures startTime == value
      ensures modalIsOpen && myEvents == old(myEvents) && selectedDate == old(selectedDate)
      ensures eventTitle == old(eventTitle) && endTime == old(endTime) && currentEvent == old(currentEvent)
    {
      startTime := value;
    }

    /** Editing the end-time input, which exists only inside the modal. */
    method SetEndTime(value: string)
      requires Valid() && modalIsOpen
      modifies this
      ensures Valid()
      ensures old(EditsStoredEvent()) ==> EditsStoredEvent()
      ensures endTime == value
      ensures modalIsOpen && myEvents == old(myEvents) && selectedDate == old(selectedDate)
      ensures eventTitle == old(eventTitle) && startTime == old(startTime) && currentEvent == old(currentEvent)
    {
      endTime := value;
    }

    /** Submit. With any of the three fields empty nothing happens; otherwise
        a new event is built from the form, appended (no bound event) or put
        in place of every occurrence of the bound event, and the modal closes.
        `added` names the new event for the caller's reasoning. */
    method HandleAddOrUpdateEvent() returns (ghost added: CalendarEvent?)
      requires Valid()
      modifies this
      ensures Valid()
      ensures old(EditsStoredEvent()) ==> EditsStoredEvent()
      ensures old(eventTitle == "" || startTime == "" || endTime == "") ==>
                added == null && unchanged(this)
      ensures old(eventTitle != "" && startTime != "" && endTime != "") ==>
                && added != null && fresh(added)
                && added.title == old(eventTitle)
                && added.start == parseDate(old(startTime))
                && added.end == parseDate(old(endTime))
                && myEvents == (if old(currentEvent) == null then Append<CalendarEvent>(old(myEvents), added)
                                else ReplaceAll<CalendarEvent>(old(myEvents), old(currentEvent), added))
                && IsClosed() && selectedDate == old(selectedDate)
      ensures old(eventTitle != "" && startTime != "" && endTime != "" && currentEvent != null) ==>
                && |myEvents| == |old(myEvents)|
                && old(currentEvent) !in myEvents
                && (old(currentEvent) in old(myEvents) ==> added in myEvents)
    {
      added := null;
      if eventTitle != "" && startTime != "" && endTime != "" {
        var newEvent := new CalendarEvent(eventTitle, parseDate(startTime), parseDate(endTime));
        added := newEvent;
        if currentEvent != null {
          myEvents := ReplaceAll<CalendarEvent>(myEvents, currentEvent, newEvent);
        } else {
          myEvents := Append<CalendarEvent>(myEvents, newEvent);
        }
        CloseModal();
      }
    }

    /** Delete, offered only while an event is bound: every occurrence of the
        bound event leaves the list, the rest keep their order, the modal closes. */
    method HandleDeleteEvent()
      requires Valid()
      modifies this
      ensures Valid()
      ensures old(EditsStoredEvent()) ==> EditsStoredEvent()
      ensures old(currentEvent) == null ==> unchanged(this)
      ensures old(currentEvent) != null ==>
                && myEvents == RemoveAll<CalendarEvent>(old(myEvents), old(currentEvent))
                && IsClosed() && selectedDate == old(selectedDate)
      ensures old(currentEvent) != null && old(EditsStoredEvent()) ==> |myEvents| < |old(myEvents)|
    {
      if currentEvent != null {
        myEvents := RemoveAll<CalendarEvent>(myEvents, currentEvent);
        CloseModal();
      }
    }
  }

  /** A slot click, a completed form and a submit, then a click on the new
      event and Delete: the list is back to what it was. */
  method AddThenDeleteRestoresList(app: App, start: Date, title: string, startText: string, endText: string)
    requires app.Valid() && title != "" && startText != "" && endText != ""
    modifies app
    ensures app.Valid() && app.IsClosed()
    ensures app.myEvents == old(app.myEvents)
  {
    ghost var before := app.myEvents;
    app.HandleSelectSlot(start);
    app.SetEventTitle(title);
    app.SetStartTime(startText);
    app.SetEndTime(endText);
    ghost var added := app.HandleAddOrUpdateEvent();
    var last := app.myEvents[|app.myEvents| - 1];
    app.HandleSelectEvent(last);
    app.HandleDeleteEvent();
    RemoveAllAfterAppend<CalendarEvent>(before, added);
  }

  /** A click on the stored event at position `k`, a completed form and a
      submit, then a click on the edited event and Delete: the list is what
      deleting the original event would have left. */
  method UpdateThenDeleteDropsOriginal(app: App, k: nat, title: string, startText: string, endText: string)
    requires app.Valid() && k < |app.myEvents|
    requires title != "" && startText != "" && endText != ""
    modifies app
    ensures app.Valid() && app.IsClosed()
    ensures app.myEvents == RemoveAll<CalendarEvent>(old(app.myEvents), old(app.myEvents[k]))
  {
    ghost var before := app.myEvents;
    var original := app.myEvents[k];
    app.HandleSelectEvent(original);
    app.SetEventTitle(title);
    app.SetStartTime(startText);
    app.SetEndTime(endText);
    ghost var edited := app.HandleAddOrUpdateEvent();
    var stored := app.myEvents[k];
    app.HandleSelectEvent(stored);
    app.HandleDeleteEvent();
    RemoveAllAfterReplaceAll<CalendarEvent>(before, original, edited);
  }
}
