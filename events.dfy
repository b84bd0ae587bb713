/** The scheduler's event records and the form they are edited through. */
module Events {

  /** The modal form: every field of an event but its id. */
  datatype EventForm = EventForm(
    title: string, date: string, startTime: string, endTime: string,
    description: string, color: string)

  /**
   * A stored event.  `date` is a "YYYY-MM-DD" string and the times are
   * 24-hour "HH:MM" strings, compared as strings.
   */
  datatype Event = Event(
    id: string, title: string, date: string, startTime: string, endTime: string,
    description: string, color: string)

  /** `{...eventForm, id}`. */
  function WithId(form: EventForm, id: string): (e: Event)
    ensures e.id == id && FormOf(e) == form
  {
    Event(id, form.title, form.date, form.startTime, form.endTime, form.description, form.color)
  }

  /** The fields of an event the form edits. */
  function FormOf(e: Event): EventForm {
    EventForm(e.title, e.date, e.startTime, e.endTime, e.description, e.color)
  }
}
