/** The events screen: the add/edit form and what a submission turns into,
    the per-event status classification against the registration minimum,
    the badge and alert derived from it, and the displayed price. */
module EventManagement {
  import opened Domain
  import MainApp

  // ---------------------------------------------------------------------
  // The form

  /** The form's fields; an empty date field is `None`. */
  datatype EventForm = EventForm(
    title: string,
    description: string,
    date: Option<int>,
    location: string,
    price: int,
    maxParticipants: Option<int>)

  const EmptyForm := EventForm("", "", None, "", 0, None)

  /** The form filled from an existing event, as editing opens it. */
  function FormOf(e: Event): (f: EventForm)
    ensures f.date == Some(e.start)
    ensures f.title == e.title && f.description == e.description && f.location == e.location
    ensures f.price == e.price && f.maxParticipants == e.maxParticipants
  {
    EventForm(e.title, e.description, Some(e.start), e.location, e.price, e.maxParticipants)
  }

  /** What a submission sends: nothing without a title, a date and a
      location; otherwise the form's fields with no registrations, no
      attendance and the upcoming status. */
  function SubmittedDraft(f: EventForm): (r: Option<EventDraft>)
    ensures r.None? <==> f.title == "" || f.date.None? || f.location == ""
    ensures r.Some? ==> r.value.registrations == [] && r.value.attendance == map[] && r.value.status == Upcoming
    ensures r.Some? ==> r.value.title == f.title && r.value.description == f.description
                        && Some(r.value.start) == f.date && r.value.location == f.location
                        && r.value.price == f.price && r.value.maxParticipants == f.maxParticipants
  {
    if f.title == "" || f.date.None? || f.location == "" then None
    else Some(EventDraft(f.title, f.description, f.date.value, f.location, f.price, f.maxParticipants,
                         [], map[], Upcoming))
  }

  /** Saving an event from the edit form, even unchanged, empties its
      registrations and attendance and sets it back to upcoming, while its
      descriptive fields stay as they were. */
  lemma ResubmitResetsRegistrations(es: seq<Event>, e: Event)
    requires e.title != "" && e.location != ""
    ensures SubmittedDraft(FormOf(e)).Some?
    ensures var r := MainApp.ReplaceEvent(es, e.id, SubmittedDraft(FormOf(e)).value);
            forall i :: 0 <= i < |r| && r[i].id == e.id ==>
              r[i].registrations == [] && r[i].attendance == map[] && r[i].status == Upcoming
              && r[i].title == e.title && r[i].start == e.start && r[i].location == e.location
              && r[i].price == e.price && r[i].maxParticipants == e.maxParticipants
  {
  }

  /** Opening an event for editing and submitting the form unchanged sends
      the event back with its registrations, attendance and status reset,
      and is refused exactly when the event lacks a title or a location. */
  lemma EditThenSubmit(e: Event)
    ensures SubmittedDraft(FormOf(e)).None? <==> e.title == "" || e.location == ""
    ensures SubmittedDraft(FormOf(e)).Some? ==>
              SubmittedDraft(FormOf(e)).value
              == DraftOf(e).(registrations := [], attendance := map[], status := Upcoming)
  {
  }

  datatype SubmitAction = Refused | Added(draft: EventDraft) | Updated(id: string, draft: EventDraft)

  /** What submitting the form does: refused when the draft is missing a
      required field, otherwise an update of the event being edited or a new
      event. */
  function SubmitDecision(editing: Option<Event>, f: EventForm): (a: SubmitAction)
    ensures a.Refused? <==> SubmittedDraft(f).None?
    ensures a.Updated? <==> !a.Refused? && editing.Some?
    ensures a.Updated? ==> a.id == editing.value.id && Some(a.draft) == SubmittedDraft(f)
    ensures a.Added? ==> Some(a.draft) == SubmittedDraft(f)
  {
    match SubmittedDraft(f)
    case None => Refused
    case Some(d) => if editing.Some? then Updated(editing.value.id, d) else Added(d)
  }

  // ---------------------------------------------------------------------
  // Status against the registration minimum

  datatype StatusLevel = MinimumMet | Urgent | NeedsAttention | Normal

  datatype StatusInfo = StatusInfo(confirmedCount: nat, isMinimumMet: bool, daysUntil: int, level: StatusLevel)

  /** `getEventStatusInfo`: the registration count against the minimum and
      the day count against the urgent and attention windows, stated here in
      milliseconds before the start. */
  function EventStatusInfo(e: Event, now: int): (info: StatusInfo)
    ensures info.confirmedCount == |e.registrations|
    ensures info.isMinimumMet <==> |e.registrations| >= MinimumRegistrations
    ensures info.daysUntil == DaysUntil(e.start, now)
    ensures info.level == MinimumMet <==> info.isMinimumMet
    ensures info.level == Urgent <==> !info.isMinimumMet && e.start - now <= UrgentDays * DayMs
    ensures info.level == NeedsAttention <==>
              !info.isMinimumMet && UrgentDays * DayMs < e.start - now <= AttentionDays * DayMs
    ensures info.level == Normal <==> !info.isMinimumMet && e.start - now > AttentionDays * DayMs
  {
    DaysUntilAtMost(e.start, now, UrgentDays);
    DaysUntilAtMost(e.start, now, AttentionDays);
    var count := |e.registrations|;
    var met := count >= MinimumRegistrations;
    var days := DaysUntil(e.start, now);
    StatusInfo(count, met, days,
      if met then MinimumMet
      else if days <= UrgentDays then Urgent
      else if days <= AttentionDays then NeedsAttention
      else Normal)
  }

  /** The warning box under an event card. */
  predicate ShowsAlert(e: Event, now: int)
  {
    var info := EventStatusInfo(e, now);
    e.status == Upcoming && !info.isMinimumMet && info.daysUntil <= AttentionDays && info.daysUntil > 0
  }

  /** An event card shows the warning exactly when the dashboard counts the
      event as needing attention. */
  lemma AlertIffNeedsAttention(e: Event, now: int)
    ensures ShowsAlert(e, now) <==> MainApp.NeedsAttention(e, now)
  {
  }

  /** A warning is urgent exactly when the start is at most seven days away. */
  lemma UrgentAlertWithinAWeek(e: Event, now: int)
    requires ShowsAlert(e, now)
    ensures EventStatusInfo(e, now).level == Urgent <==> e.start - now <= UrgentDays * DayMs
    ensures now < e.start
  {
    DaysUntilAtMost(e.start, now, 0);
  }

  datatype BadgeLabel = Approved | UnderReview | Regular

  datatype BadgeVariant = Default | Destructive | Secondary | Outline

  /** The registration badge, shown on upcoming events only. */
  function Badge(e: Event, now: int): (b: Option<BadgeLabel>)
    ensures b.None? <==> e.status != Upcoming
    ensures b == Some(Approved) <==> e.status == Upcoming && |e.registrations| >= MinimumRegistrations
    ensures b == Some(UnderReview) <==> ShowsAlert(e, now)
  {
    var info := EventStatusInfo(e, now);
    if e.status != Upcoming then None
    else if info.isMinimumMet then Some(Approved)
    else if info.daysUntil <= AttentionDays && info.daysUntil > 0 then Some(UnderReview)
    else Some(Regular)
  }

  /** The badge's colour follows the status level. */
  function BadgeColour(e: Event, now: int): (v: BadgeVariant)
    ensures v == Default <==> |e.registrations| >= MinimumRegistrations
    ensures v == Destructive <==> EventStatusInfo(e, now).level == Urgent
    ensures v == Secondary <==> EventStatusInfo(e, now).level == NeedsAttention
    ensures v == Outline <==> EventStatusInfo(e, now).level == Normal
  {
    var info := EventStatusInfo(e, now);
    if info.isMinimumMet then Default
    else if info.level == Urgent then Destructive
    else if info.level == NeedsAttention then Secondary
    else Outline
  }

  /** An upcoming event under the minimum whose start has passed is classed
      urgent and coloured red, yet it shows no warning and its badge reads
      as regular. */
  lemma PastEventUrgentWithoutAlert(e: Event, now: int)
    requires e.status == Upcoming && |e.registrations| < MinimumRegistrations && e.start <= now
    ensures EventStatusInfo(e, now).level == Urgent
    ensures BadgeColour(e, now) == Destructive
    ensures !ShowsAlert(e, now)
    ensures Badge(e, now) == Some(Regular)
  {
    DaysUntilAtMost(e.start, now, 0);
  }

  datatype PriceDisplay = Free | Priced(amount: int)

  /** `formatPrice`: a positive price is shown as an amount, anything else as free. */
  function FormatPrice(price: int): (p: PriceDisplay)
    ensures p.Free? <==> price <= 0
    ensures p.Priced? ==> p.amount == price
  {
    if price > 0 then Priced(price) else Free
  }

  // ---------------------------------------------------------------------
  // The events screen

  class EventEditor {
    var editing: Option<Event>
    var form: EventForm

    constructor()
      ensures editing == None && form == EmptyForm
    {
      editing, form := None, EmptyForm;
    }

    method ResetForm()
      modifies this
      ensures editing == None && form == EmptyForm
    {
      form := EmptyForm;
      editing := None;
    }

    method Edit(e: Event)
      modifies this
      ensures editing == Some(e) && form == FormOf(e)
    {
      editing := Some(e);
      form := FormOf(e);
    }

    /** `handleSubmit`; `newId` is the id a new event receives. */
    method Submit(session: MainApp.AdminSession, newId: string) returns (a: SubmitAction)
      modifies this, session`events
      ensures a == SubmitDecision(old(editing), old(form))
      ensures a.Refused? ==> editing == old(editing) && form == old(form) && session.events == old(session.events)
      ensures a.Updated? ==> session.events == MainApp.ReplaceEvent(old(session.events), a.id, a.draft)
      ensures a.Added? ==> session.events == old(session.events) + [a.draft.WithId(newId)]
      ensures !a.Refused? ==> editing == None && form == EmptyForm
      ensures session.students == old(session.students) && session.statuses == old(session.statuses)
    {
      var draft := SubmittedDraft(form);
      if draft.None? {
        return Refused;
      }
      if editing.Some? {
        a := Updated(editing.value.id, draft.value);
        session.UpdateEvent(editing.value.id, draft.value);
      } else {
        a := Added(draft.value);
        session.AddEvent(newId, draft.value);
      }
      ResetForm();
    }

    /** `handleDelete`: the event is removed only when the user confirms. */
    method Delete(session: MainApp.AdminSession, e: Event, confirmed: bool)
      modifies session`events, session`statuses
      ensures session.events == if confirmed then MainApp.RemoveEvent(old(session.events), e.id) else old(session.events)
      ensures session.statuses ==
                if confirmed then MainApp.StatusesAfterEventDeletion(old(session.events), old(session.statuses), e.id)
                else old(session.statuses)
      ensures session.students == old(session.students)
    {
      if confirmed {
        session.DeleteEvent(e.id);
      }
    }

    /** The invitation button: enabled on upcoming events only, it selects
        the event for the registrations tab. */
    method OpenInvitations(session: MainApp.AdminSession, e: Event) returns (shown: bool)
      modifies session`selectedEventId
      ensures shown <==> e.status == Upcoming
      ensures session.selectedEventId == if shown then e.id else old(session.selectedEventId)
    {
      shown := e.status == Upcoming;
      if shown {
        session.SelectEvent(e.id);
      }
    }
  }
}
