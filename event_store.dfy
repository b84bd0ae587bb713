/**
 * The event collection editor: `saveEvent` validates the modal form and then
 * either appends a new event or replaces the one being edited, and
 * `deleteEvent` removes events by id.  The component's state cells (the
 * events, the anchor date and the view) are the fields of `ScheduleBuilder`.
 */
module EventStore {
  import opened Wrappers
  import opened Strings
  import opened Seqs
  import opened Calendar
  import opened TimeSlots
  import opened Events
  import opened Navigation

  datatype ValidationError =
    | MissingRequiredField   // a title, date, start time or end time is empty
    | EndNotAfterStart       // the start time is not before the end time

  /** The outcome of a save: the form is refused, or the collection becomes `events`. */
  datatype SaveResult =
    | Rejected(error: ValidationError)
    | Saved(events: seq<Event>, event: Event)

  /** Whether a string is empty, which is what JavaScript's `!s` tests of a string. */
  predicate Blank(s: string) {
    s == ""
  }

  /** The two checks `saveEvent` makes before touching the collection, in their order. */
  function Validate(form: EventForm): (r: Option<ValidationError>)
    ensures r == Some(MissingRequiredField) <==>
      form.title == "" || form.date == "" || form.startTime == "" || form.endTime == ""
    ensures r == None <==>
      form.title != "" && form.date != "" && form.startTime != "" && form.endTime != ""
      && StrLess(form.startTime, form.endTime)
  {
    if Blank(form.title) || Blank(form.date) || Blank(form.startTime) || Blank(form.endTime) then
      Some(MissingRequiredField)
    else if !StrLess(form.startTime, form.endTime) then
      Some(EndNotAfterStart)
    else
      None
  }

  /** The id of the event being edited, when it counts as one: `null` and "" both mean create. */
  function EditTarget(editing: Option<string>): Option<string> {
    if editing.Some? && editing.value != "" then editing else None
  }

  function IdIsNot(id: string): Event -> bool {
    (e: Event) => e.id != id
  }

  /** The ids present in a collection. */
  function IdSet(s: seq<Event>): set<string> {
    set e | e in s :: e.id
  }

  /** No two positions hold events with the same id. */
  predicate UniqueIds(s: seq<Event>) {
    forall i, j :: 0 <= i < |s| && 0 <= j < |s| && s[i].id == s[j].id ==> i == j
  }

  /** `events.map(event => event.id === id ? e : event)`. */
  function ReplaceById(s: seq<Event>, id: string, e: Event): (r: seq<Event>)
    ensures |r| == |s|
    ensures forall i :: 0 <= i < |s| ==> r[i] == if s[i].id == id then e else s[i]
  {
    if s == [] then [] else [if s[0].id == id then e else s[0]] + ReplaceById(s[1..], id, e)
  }

  /** `events.filter(event => event.id !== id)`. */
  function RemoveById(s: seq<Event>, id: string): (r: seq<Event>)
    ensures id !in IdSet(r)
    ensures forall x :: x in r <==> x in s && x.id != id
  {
    Filter(s, IdIsNot(id))
  }

  /**
   * What `saveEvent` does to the collection `events` given the form, the
   * id under edit and the id `Date.now()` would supply.
   */
  function ApplySave(events: seq<Event>, form: EventForm, editing: Option<string>, freshId: string): (r: SaveResult)
    ensures r.Rejected? <==> Validate(form).Some?
    ensures r.Rejected? ==> r.error == Validate(form).value
    ensures r.Saved? ==> FormOf(r.event) == form
    ensures r.Saved? && EditTarget(editing).None? ==>
      r.event.id == freshId && r.events == events + [r.event]
    ensures r.Saved? && EditTarget(editing).Some? ==>
      r.event.id == EditTarget(editing).value && |r.events| == |events|
      && r.events == ReplaceById(events, r.event.id, r.event)
  {
    match Validate(form)
    case Some(err) => Rejected(err)
    case None =>
      match EditTarget(editing)
      case Some(id) =>
        var e := WithId(form, id);
        Saved(ReplaceById(events, id, e), e)
      case None =>
        var e := WithId(form, freshId);
        Saved(events + [e], e)
  }

  // ---------------------------------------------------------------------
  // Properties of the updates

  /** With "HH:MM" times, the order check is the clock order of the two times. */
  lemma ValidateUsesClockOrder(form: EventForm, h1: nat, m1: nat, h2: nat, m2: nat)
    requires h1 < 24 && m1 < 60 && h2 < 24 && m2 < 60
    requires form.title != "" && form.date != ""
    requires form.startTime == Hhmm(h1, m1) && form.endTime == Hhmm(h2, m2)
    ensures Validate(form) == None <==> 60 * h1 + m1 < 60 * h2 + m2
    ensures Validate(form) == Some(EndNotAfterStart) <==> 60 * h2 + m2 <= 60 * h1 + m1
  {
    TimeOrderIsMinuteOrder(h1, m1, h2, m2);
    assert |form.startTime| == 5 by {
      Pad2Facts(h1);
      Pad2Facts(m1);
    }
    assert |form.endTime| == 5 by {
      Pad2Facts(h2);
      Pad2Facts(m2);
    }
  }

  /** The events not under edit are the same, in the same order, after a replacement. */
  lemma {:induction false} ReplaceKeepsOthers(s: seq<Event>, id: string, e: Event)
    requires e.id == id
    ensures RemoveById(ReplaceById(s, id, e), id) == RemoveById(s, id)
  {
    if s != [] {
      ReplaceKeepsOthers(s[1..], id, e);
      var head := if s[0].id == id then e else s[0];
      assert ReplaceById(s, id, e) == [head] + ReplaceById(s[1..], id, e);
      assert s == [s[0]] + s[1..];
      FilterConcat([head], ReplaceById(s[1..], id, e), IdIsNot(id));
      FilterConcat([s[0]], s[1..], IdIsNot(id));
    }
  }

  /** A replacement that keeps the id keeps every position's id. */
  lemma ReplaceKeepsIds(s: seq<Event>, id: string, e: Event)
    requires e.id == id
    ensures forall i :: 0 <= i < |s| ==> ReplaceById(s, id, e)[i].id == s[i].id
    ensures UniqueIds(s) ==> UniqueIds(ReplaceById(s, id, e))
    ensures IdSet(ReplaceById(s, id, e)) == IdSet(s)
  {
    var r := ReplaceById(s, id, e);
    forall x | x in IdSet(r) ensures x in IdSet(s) {
      var i :| 0 <= i < |r| && r[i].id == x;
      assert s[i] in s;
    }
    forall x | x in IdSet(s) ensures x in IdSet(r) {
      var i :| 0 <= i < |s| && s[i].id == x;
      assert r[i] in r;
    }
  }

  /** Editing an id that is not in the collection leaves it as it was. */
  lemma ReplaceAbsentIsNoop(s: seq<Event>, id: string, e: Event)
    requires id !in IdSet(s)
    ensures ReplaceById(s, id, e) == s
  {
    var r := ReplaceById(s, id, e);
    forall i | 0 <= i < |s| ensures r[i] == s[i] {
      assert s[i] in s;
    }
  }

  /** In a collection with distinct ids, editing a present id changes exactly the one event that has it. */
  lemma ReplaceChangesOne(s: seq<Event>, k: nat, e: Event)
    requires UniqueIds(s) && k < |s| && e.id == s[k].id
    ensures ReplaceById(s, s[k].id, e) == s[k := e]
  {
  }

  /** Deleting keeps exactly the events with other ids, each as often and in the order they were. */
  lemma RemoveKeepsOrder(a: seq<Event>, b: seq<Event>, id: string)
    ensures RemoveById(a + b, id) == RemoveById(a, id) + RemoveById(b, id)
    ensures forall x :: multiset(RemoveById(a, id))[x] == if x.id == id then 0 else multiset(a)[x]
  {
    FilterConcat(a, b, IdIsNot(id));
    FilterMultiset(a, IdIsNot(id));
  }

  /** Deleting an id that is not present changes nothing. */
  lemma RemoveAbsentIsNoop(s: seq<Event>, id: string)
    requires id !in IdSet(s)
    ensures RemoveById(s, id) == s
  {
    forall x | x in s ensures IdIsNot(id)(x) {
      assert x.id in IdSet(s);
    }
    FilterAll(s, IdIsNot(id));
  }

  /** Deleting an event that was just created with a fresh id restores the collection. */
  lemma CreateThenDeleteRestores(events: seq<Event>, form: EventForm, editing: Option<string>, freshId: string)
    requires Validate(form).None? && EditTarget(editing).None?
    requires freshId !in IdSet(events)
    ensures ApplySave(events, form, editing, freshId).Saved?
    ensures RemoveById(ApplySave(events, form, editing, freshId).events, freshId) == events
  {
    var e := WithId(form, freshId);
    FilterConcat(events, [e], IdIsNot(freshId));
    RemoveAbsentIsNoop(events, freshId);
    assert Filter([e], IdIsNot(freshId)) == [];
  }

  /** Each save and delete keeps ids distinct, provided a created event's id is fresh. */
  lemma SaveKeepsIdsUnique(events: seq<Event>, form: EventForm, editing: Option<string>, freshId: string)
    requires UniqueIds(events)
    requires EditTarget(editing).None? ==> freshId !in IdSet(events)
    ensures var r := ApplySave(events, form, editing, freshId);
      r.Saved? ==> UniqueIds(r.events)
  {
    var r := ApplySave(events, form, editing, freshId);
    if r.Saved? {
      if EditTarget(editing).Some? {
        ReplaceKeepsIds(events, EditTarget(editing).value, r.event);
      } else {
        forall i | 0 <= i < |events| ensures events[i].id != freshId {
          assert events[i] in events;
        }
      }
    }
  }

  lemma RemoveKeepsIdsUnique(s: seq<Event>, id: string)
    requires UniqueIds(s)
    ensures UniqueIds(RemoveById(s, id))
  {
    FilterUnique(s, IdIsNot(id));
  }

  /** Filtering a collection with distinct ids keeps them distinct. */
  lemma {:induction false} FilterUnique(s: seq<Event>, p: Event -> bool)
    requires UniqueIds(s)
    ensures UniqueIds(Filter(s, p))
  {
    if s != [] {
      var t := Filter(s[1..], p);
      assert Filter(s, p) == (if p(s[0]) then [s[0]] else []) + t;
      TailUnique(s);
      FilterUnique(s[1..], p);
      if p(s[0]) {
        forall x | x in t ensures x.id != s[0].id {
          var j :| 0 <= j < |s| - 1 && s[1..][j] == x;
          assert s[j + 1] == x;
        }
        ConsUnique(s[0], t);
      }
    }
  }

  lemma TailUnique(s: seq<Event>)
    requires UniqueIds(s) && s != []
    ensures UniqueIds(s[1..])
  {
    forall i, j | 0 <= i < |s| - 1 && 0 <= j < |s| - 1 && s[1..][i].id == s[1..][j].id ensures i == j {
      assert s[i + 1].id == s[j + 1].id;
    }
  }

  lemma ConsUnique(x: Event, t: seq<Event>)
    requires UniqueIds(t) && forall y :: y in t ==> y.id != x.id
    ensures UniqueIds([x] + t)
  {
    var r := [x] + t;
    forall i, j | 0 <= i < |r| && 0 <= j < |r| && r[i].id == r[j].id ensures i == j {
      if i > 0 { assert r[i] == t[i - 1]; assert t[i - 1] in t; }
      if j > 0 { assert r[j] == t[j - 1]; assert t[j - 1] in t; }
    }
  }

  // ---------------------------------------------------------------------
  // The component's state

  class ScheduleBuilder {
    var events: seq<Event>
    var currentDate: Date
    var view: View

    /** The state on mount: the stored events, today's date and the week view. */
    constructor(saved: seq<Event>, today: Date)
      ensures events == saved && currentDate == today && view == Week
    {
      events := saved;
      currentDate := today;
      view := Week;
    }

    method SetView(v: View)
      modifies this`view
      ensures view == v
    {
      view := v;
    }

    /**
     * `saveEvent()`: a refused form leaves the collection unchanged;
     * otherwise the collection becomes the one `ApplySave` describes.
     */
    method SaveEvent(form: EventForm, editing: Option<string>, freshId: string) returns (outcome: SaveResult)
      modifies this`events
      ensures outcome == ApplySave(old(events), form, editing, freshId)
      ensures outcome.Rejected? ==> events == old(events)
      ensures outcome.Saved? ==> events == outcome.events
    {
      if Blank(form.title) || Blank(form.date) || Blank(form.startTime) || Blank(form.endTime) {
        return Rejected(MissingRequiredField);
      }
      if !StrLess(form.startTime, form.endTime) {
        return Rejected(EndNotAfterStart);
      }
      var id := if editing.Some? && editing.value != "" then editing.value else freshId;
      var eventData := WithId(form, id);
      if editing.Some? && editing.value != "" {
        events := ReplaceById(events, id, eventData);
      } else {
        events := events + [eventData];
      }
      outcome := Saved(events, eventData);
    }

    /** `deleteEvent(eventId)`. */
    method DeleteEvent(eventId: string)
      modifies this`events
      ensures events == RemoveById(old(events), eventId)
    {
      events := RemoveById(events, eventId);
    }

    /** `navigate(direction)`: one step of the current view. */
    method Navigate(direction: int)
      modifies this`currentDate
      ensures currentDate == NavigateDate(old(currentDate), view, direction)
    {
      currentDate := NavigateDate(currentDate, view, direction);
    }
  }
}
