/** The registrations screen of one event: the status shown per student,
    the overview counts and warnings, the invitation selection and its
    guards, and the confirm and cancel buttons. */
module RegistrationManagement {
  import opened Domain
  import MainApp
  import EventManagement

  // ---------------------------------------------------------------------
  // Statuses

  /** `getRegistrationStatus`: the student's first entry, or a pending
      status without a response time when there is none. */
  function RegistrationStatusOf(sts: seq<RegistrationStatus>, sid: string): (r: RegistrationStatus)
    ensures r.studentId == sid
    ensures (forall i :: 0 <= i < |sts| ==> sts[i].studentId != sid) ==> r == RegistrationStatus(sid, Pending, None)
    ensures (exists i :: 0 <= i < |sts| && sts[i].studentId == sid) ==> r in sts
    ensures (exists i :: 0 <= i < |sts| && sts[i].studentId == sid) ==>
              exists i :: 0 <= i < |sts| && sts[i] == r && forall j :: 0 <= j < i ==> sts[j].studentId != sid
  {
    match MainApp.FindStatus(sts, sid)
    case Some(s) => s
    case None => RegistrationStatus(sid, Pending, None)
  }

  /** After an invitation an invited student shows as pending with no
      response time, even if they had confirmed or cancelled before; other
      students show what they showed before. */
  lemma InvitedShowPending(sts: seq<RegistrationStatus>, ids: seq<string>, sid: string)
    ensures sid in ids ==>
              RegistrationStatusOf(MainApp.InviteStatuses(sts, ids), sid) == RegistrationStatus(sid, Pending, None)
    ensures sid !in ids ==>
              RegistrationStatusOf(MainApp.InviteStatuses(sts, ids), sid) == RegistrationStatusOf(sts, sid)
  {
    MainApp.InviteThenFind(sts, ids, sid);
  }

  /** The number of entries in state `st`, over the whole list. */
  function CountStatus(sts: seq<RegistrationStatus>, st: RegState): (n: nat)
    ensures n <= |sts|
    ensures n == 0 <==> forall i :: 0 <= i < |sts| ==> sts[i].status != st
  {
    if sts == [] then 0
    else CountStatus(sts[..|sts| - 1], st) + (if sts[|sts| - 1].status == st then 1 else 0)
  }

  /** The three counters of the overview add up to the length of the list. */
  lemma {:induction false} CountsPartition(sts: seq<RegistrationStatus>)
    ensures CountStatus(sts, Confirmed) + CountStatus(sts, Pending) + CountStatus(sts, Cancelled) == |sts|
  {
    if sts != [] {
      CountsPartition(sts[..|sts| - 1]);
    }
  }

  // ---------------------------------------------------------------------
  // Overview

  datatype Overview = Overview(
    confirmed: nat,
    pending: nat,
    cancelled: nat,
    canSendInvitations: bool,
    daysUntil: int,
    isMinimumMet: bool,
    isUrgent: bool,
    needsAttention: bool,
    lateCancelWarning: bool)

  /** The figures above the student list. The counts are taken over the
      whole status list, which is not kept per event; the warnings are stated
      here in milliseconds before the start. */
  function RegistrationOverview(e: Event, sts: seq<RegistrationStatus>, now: int): (o: Overview)
    ensures o.confirmed + o.pending + o.cancelled == |sts|
    ensures o.confirmed == CountStatus(sts, Confirmed)
    ensures o.pending == CountStatus(sts, Pending) && o.cancelled == CountStatus(sts, Cancelled)
    ensures o.daysUntil == DaysUntil(e.start, now)
    ensures o.canSendInvitations <==> e.status == Upcoming
    ensures o.isMinimumMet <==> CountStatus(sts, Confirmed) >= MinimumRegistrations
    ensures o.needsAttention <==> !o.isMinimumMet && now < e.start && e.start - now <= AttentionDays * DayMs
    ensures o.isUrgent <==> !o.isMinimumMet && now < e.start && e.start - now <= UrgentDays * DayMs
    ensures o.isUrgent ==> o.needsAttention
    ensures o.lateCancelWarning <==> now < e.start && e.start - now <= DayMs
  {
    CountsPartition(sts);
    DaysUntilAtMost(e.start, now, 0);
    DaysUntilAtMost(e.start, now, 1);
    DaysUntilAtMost(e.start, now, UrgentDays);
    DaysUntilAtMost(e.start, now, AttentionDays);
    var confirmed := CountStatus(sts, Confirmed);
    var days := DaysUntil(e.start, now);
    var met := confirmed >= MinimumRegistrations;
    Overview(confirmed, CountStatus(sts, Pending), CountStatus(sts, Cancelled),
             e.status == Upcoming, days, met,
             days <= UrgentDays && !met && days > 0,
             days <= AttentionDays && !met && days > 0,
             days < 2 && days > 0)
  }

  /** The late-cancellation warning, meant for the last two days, appears
      only in the last twenty-four hours: a day and a half before the start
      it is not shown. */
  lemma LateCancelWarningLastDayOnly(e: Event, sts: seq<RegistrationStatus>, now: int)
    requires DayMs < e.start - now < 2 * DayMs
    ensures !RegistrationOverview(e, sts, now).lateCancelWarning
  {
  }

  /** The events screen measures the minimum by the event's registrations,
      this screen by the confirmed entries of the whole status list, so the
      two can disagree about the same event. */
  lemma MinimumViewsDisagree(e: Event, sts: seq<RegistrationStatus>, now: int)
    requires |e.registrations| >= MinimumRegistrations
    requires forall i :: 0 <= i < |sts| ==> sts[i].status != Confirmed
    ensures EventManagement.EventStatusInfo(e, now).isMinimumMet
    ensures !RegistrationOverview(e, sts, now).isMinimumMet
  {
  }

  // ---------------------------------------------------------------------
  // Confirm and cancel buttons

  datatype Response = Confirm | Cancel

  function StateOf(r: Response): RegState
  {
    match r
    case Confirm => Confirmed
    case Cancel => Cancelled
  }

  /** A button is shown on upcoming events and enabled unless the student's
      shown status is already the one it sets. */
  predicate ButtonEnabled(e: Event, sts: seq<RegistrationStatus>, sid: string, r: Response)
  {
    e.status == Upcoming && RegistrationStatusOf(sts, sid).status != StateOf(r)
  }

  /** A cancelled student can be confirmed again from this screen; the
      confirmation shows, but the student is not put back into the event's
      registrations. */
  lemma ConfirmAfterCancel(es: seq<Event>, sts: seq<RegistrationStatus>, e: Event, sid: string, t1: int, t2: int)
    requires e.status == Upcoming
    ensures var sts1 := MainApp.UpsertStatus(sts, sid, Cancelled, t1);
            ButtonEnabled(e, sts1, sid, Confirm)
            && RegistrationStatusOf(MainApp.UpsertStatus(sts1, sid, Confirmed, t2), sid)
               == RegistrationStatus(sid, Confirmed, Some(t2))
    ensures var es1 := MainApp.DropFromEvent(es, e.id, sid);
            forall i :: 0 <= i < |es1| && es1[i].id == e.id ==> sid !in es1[i].registrations
  {
    var sts1 := MainApp.UpsertStatus(sts, sid, Cancelled, t1);
    MainApp.UpsertThenFind(sts, sid, Cancelled, t1, sid);
    MainApp.UpsertThenFind(sts1, sid, Confirmed, t2, sid);
    CancelLeavesEvent(es, e.id, sid);
  }

  /** After a cancellation the student is in no registration list of the event. */
  lemma CancelLeavesEvent(es: seq<Event>, eventId: string, sid: string)
    ensures var es1 := MainApp.DropFromEvent(es, eventId, sid);
            forall i :: 0 <= i < |es1| && es1[i].id == eventId ==> sid !in es1[i].registrations
  {
    var es1 := MainApp.DropFromEvent(es, eventId, sid);
    forall i | 0 <= i < |es1| && es1[i].id == eventId
      ensures sid !in es1[i].registrations
    {
      MainApp.RemoveIdMembers(es[i].registrations, sid);
    }
  }

  // ---------------------------------------------------------------------
  // The panel

  datatype InviteOutcome = NothingSelected | BlankMessage | Sent(count: nat)

  /** The guards of `handleSendInvitations`, in their order. */
  function InviteDecision(selected: seq<string>, message: string): (o: InviteOutcome)
    ensures o == NothingSelected <==> selected == []
    ensures o == BlankMessage <==> selected != [] && IsBlank(message)
    ensures o.Sent? ==> o.count == |selected|
  {
    if selected == [] then NothingSelected
    else if IsBlank(message) then BlankMessage
    else Sent(|selected|)
  }

  /** The ids of the students, in order. */
  function Ids(students: seq<Student>): (r: seq<string>)
    ensures |r| == |students|
    ensures forall i :: 0 <= i < |students| ==> r[i] == students[i].id
  {
    if students == [] then [] else [students[0].id] + Ids(students[1..])
  }

  class InvitationPanel {
    var selected: seq<string>
    var message: string

    constructor()
      ensures selected == [] && message == ""
    {
      selected, message := [], "";
    }

    /** The select-all checkbox. */
    method SelectAll(students: seq<Student>, checked: bool)
      modifies this`selected
      ensures selected == if checked then Ids(students) else []
    {
      selected := if checked then Ids(students) else [];
    }

    /** One student's checkbox: checking appends the id, unchecking removes
        every occurrence of it. */
    method SetSelected(sid: string, checked: bool)
      modifies this`selected
      ensures selected == if checked then old(selected) + [sid] else MainApp.RemoveId(old(selected), sid)
    {
      if checked {
        selected := selected + [sid];
      } else {
        selected := MainApp.RemoveId(selected, sid);
      }
    }

    /** Opening the dialog fills in the default invitation text. */
    method OpenDialog(defaultMessage: string)
      modifies this`message
      ensures message == defaultMessage
    {
      message := defaultMessage;
    }

    /** `handleSendInvitations`: refused without a selection or with a blank
        message; otherwise the selection is invited and the panel cleared. */
    method Send(session: MainApp.AdminSession, e: Event) returns (o: InviteOutcome)
      modifies this, session`events, session`statuses
      ensures o == InviteDecision(old(selected), old(message))
      ensures !o.Sent? ==> selected == old(selected) && message == old(message)
                           && session.events == old(session.events) && session.statuses == old(session.statuses)
      ensures o.Sent? ==> session.events == MainApp.AddInvitees(old(session.events), e.id, old(selected))
                          && session.statuses == MainApp.InviteStatuses(old(session.statuses), old(selected))
                          && selected == [] && message == ""
      ensures session.students == old(session.students)
    {
      if selected == [] {
        return NothingSelected;
      }
      if IsBlank(message) {
        return BlankMessage;
      }
      o := Sent(|selected|);
      session.SendInvitations(e.id, selected);
      selected := [];
      message := "";
    }

    /** A click on an enabled confirm or cancel button. */
    method Respond(session: MainApp.AdminSession, e: Event, sid: string, r: Response, now: int)
      returns (done: bool)
      modifies session`events, session`statuses
      ensures done <==> ButtonEnabled(e, old(session.statuses), sid, r)
      ensures session.statuses == if done then MainApp.UpsertStatus(old(session.statuses), sid, StateOf(r), now)
                                  else old(session.statuses)
      ensures session.events == if done && r == Cancel then MainApp.DropFromEvent(old(session.events), e.id, sid)
                                else old(session.events)
      ensures session.students == old(session.students)
    {
      done := ButtonEnabled(e, session.statuses, sid, r);
      if done {
        session.UpdateRegistration(e.id, sid, StateOf(r), now);
      }
    }
  }
}
