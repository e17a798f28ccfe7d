/** The student portal: login, registering for and cancelling a trip, the
    per-event view a student sees, and the notification list. The portal
    keeps its own registration list, which is not tied to the student that
    is logged in, and it never changes the events' own registrations. */
module StudentApp {
  import opened Domain
  import MainApp

  /** A registration as the portal keeps it: by event only. */
  datatype StudentRegistration = StudentRegistration(
    eventId: string,
    status: RegState,
    registrationDate: int,
    responseDate: Option<int>)

  datatype NoticeKind = Info | Warning | Success | Error

  datatype Notification = Notification(
    id: string,
    title: string,
    message: string,
    kind: NoticeKind,
    date: int,
    read: bool)

  /** Cancellation is free only while the start is more than two days away. */
  const CancelWindowMs: int := 2 * DayMs

  // ---------------------------------------------------------------------
  // Registrations

  /** `getStudentRegistration`: the first registration for the event. */
  function FindRegistration(rs: seq<StudentRegistration>, eventId: string): (r: Option<StudentRegistration>)
    ensures r.None? <==> forall i :: 0 <= i < |rs| ==> rs[i].eventId != eventId
    ensures r.Some? ==> exists i :: 0 <= i < |rs| && rs[i] == r.value && r.value.eventId == eventId
                          && forall j :: 0 <= j < i ==> rs[j].eventId != eventId
  {
    if rs == [] then None
    else if rs[0].eventId == eventId then Some(rs[0])
    else
      var r := FindRegistration(rs[1..], eventId);
      if r.Some? then
        var i :| 0 <= i < |rs[1..]| && rs[1..][i] == r.value && r.value.eventId == eventId
                 && forall j :: 0 <= j < i ==> rs[1..][j].eventId != eventId;
        assert rs[i + 1] == r.value;
        r
      else r
  }

  /** An entry appended after an earlier one for the same event is never
      the one looked up: re-registering after a cancellation leaves the
      student shown as cancelled. */
  lemma {:induction false} AppendedEntryShadowed(rs: seq<StudentRegistration>, r: StudentRegistration)
    requires FindRegistration(rs, r.eventId).Some?
    ensures FindRegistration(rs + [r], r.eventId) == FindRegistration(rs, r.eventId)
  {
    assert (rs + [r])[0] == rs[0];
    if rs[0].eventId != r.eventId {
      assert (rs + [r])[1..] == rs[1..] + [r];
      AppendedEntryShadowed(rs[1..], r);
    }
  }

  /** `maxParticipants && registrations.length >= maxParticipants`: an unset
      or zero capacity never fills. */
  predicate IsFull(e: Event)
  {
    e.maxParticipants.Some? && e.maxParticipants.value != 0 && |e.registrations| >= e.maxParticipants.value
  }

  /** The handler's cancellation test: strictly before two days ahead of the start. */
  predicate CancelAllowed(e: Event, now: int)
  {
    now < e.start - CancelWindowMs
  }

  /** Every registration for the event marked cancelled at `now`. */
  function CancelEntries(rs: seq<StudentRegistration>, eventId: string, now: int): (r: seq<StudentRegistration>)
    ensures |r| == |rs|
    ensures forall i :: 0 <= i < |rs| ==>
              r[i] == if rs[i].eventId == eventId then rs[i].(status := Cancelled, responseDate := Some(now)) else rs[i]
  {
    if rs == [] then []
    else [if rs[0].eventId == eventId then rs[0].(status := Cancelled, responseDate := Some(now)) else rs[0]]
         + CancelEntries(rs[1..], eventId, now)
  }

  /** After a cancellation the event's registration shows as cancelled. */
  lemma CancelThenFind(rs: seq<StudentRegistration>, eventId: string, now: int)
    requires FindRegistration(rs, eventId).Some?
    ensures var r := FindRegistration(CancelEntries(rs, eventId, now), eventId);
            r.Some? && r.value.status == Cancelled && r.value.responseDate == Some(now)
  {
    var i :| 0 <= i < |rs| && rs[i].eventId == eventId;
    assert CancelEntries(rs, eventId, now)[i].eventId == eventId;
  }

  // ---------------------------------------------------------------------
  // The per-event view

  datatype StudentView = StudentView(
    registration: Option<StudentRegistration>,
    daysUntil: int,
    canCancel: bool,
    isRegistered: bool,
    isFull: bool)

  /** `getEventStatusForStudent`: nothing without a logged-in student;
      otherwise the first registration for the event, the day count, the
      cancel button's test, whether the registration stands, and fullness. */
  function EventStatusForStudent(current: Option<Student>, rs: seq<StudentRegistration>, e: Event, now: int)
    : (v: Option<StudentView>)
    ensures v.None? <==> current.None?
    ensures v.Some? ==> v.value.registration == FindRegistration(rs, e.id)
    ensures v.Some? ==> v.value.daysUntil == DaysUntil(e.start, now)
    ensures v.Some? ==> (v.value.canCancel <==> e.start - now > DayMs)
    ensures v.Some? ==> (v.value.isRegistered <==>
                          FindRegistration(rs, e.id).Some? && FindRegistration(rs, e.id).value.status != Cancelled)
    ensures v.Some? ==> (v.value.isFull <==> IsFull(e))
  {
    DaysUntilAtMost(e.start, now, 1);
    if current.None? then None
    else
      var reg := FindRegistration(rs, e.id);
      var days := DaysUntil(e.start, now);
      Some(StudentView(reg, days, days >= 2, reg.Some? && reg.value.status != Cancelled, IsFull(e)))
  }

  /** Whenever the handler would let a cancellation through, the button is enabled. */
  lemma CancelAllowedEnablesButton(current: Student, rs: seq<StudentRegistration>, e: Event, now: int)
    requires CancelAllowed(e, now)
    ensures EventStatusForStudent(Some(current), rs, e, now).value.canCancel
  {
  }

  /** Between one and two days before the start the cancel button is
      enabled, yet the handler refuses the cancellation. */
  lemma ButtonEnabledButCancelRefused(current: Student, rs: seq<StudentRegistration>, e: Event, now: int)
    requires DayMs < e.start - now <= CancelWindowMs
    ensures EventStatusForStudent(Some(current), rs, e, now).value.canCancel
    ensures !CancelAllowed(e, now)
  {
  }

  /** Exactly two days before the start is already too late. */
  lemma CancelBoundaryIsStrict(e: Event)
    ensures !CancelAllowed(e, e.start - CancelWindowMs)
    ensures CancelAllowed(e, e.start - CancelWindowMs - 1)
  {
  }

  /** The late-cancellation notice of an event card: a non-zero day count
      under two while registered. */
  predicate LateNoticeShown(v: StudentView)
  {
    v.daysUntil != 0 && v.daysUntil < 2 && v.isRegistered
  }

  /** The notice shows in the last day before the start, not on the day
      count of zero, and again on every card whose start passed a day or
      more ago. */
  lemma LateNoticeWindows(current: Student, rs: seq<StudentRegistration>, e: Event, now: int)
    requires FindRegistration(rs, e.id).Some? && FindRegistration(rs, e.id).value.status != Cancelled
    ensures var v := EventStatusForStudent(Some(current), rs, e, now).value;
            LateNoticeShown(v) <==> (0 < e.start - now <= DayMs || e.start - now <= -DayMs)
  {
    DaysUntilAtMost(e.start, now, 1);
    DaysUntilAtMost(e.start, now, 0);
    DaysUntilAtMost(e.start, now, -1);
  }

  // ---------------------------------------------------------------------
  // Counters

  /** `unreadNotifications`. */
  function UnreadCount(ns: seq<Notification>): (n: nat)
    ensures n <= |ns|
    ensures n == 0 <==> forall i :: 0 <= i < |ns| ==> ns[i].read
  {
    if ns == [] then 0 else (if ns[0].read then 0 else 1) + UnreadCount(ns[1..])
  }

  /** The unread notifications carrying id `id`. */
  function UnreadWithId(ns: seq<Notification>, id: string): nat
  {
    if ns == [] then 0 else (if !ns[0].read && ns[0].id == id then 1 else 0) + UnreadWithId(ns[1..], id)
  }

  /** `markNotificationAsRead`: every notification with the id marked read. */
  function MarkRead(ns: seq<Notification>, id: string): (r: seq<Notification>)
    ensures |r| == |ns|
    ensures forall i {:trigger r[i]} :: 0 <= i < |ns| ==> r[i] == if ns[i].id == id then ns[i].(read := true) else ns[i]
  {
    if ns == [] then [] else [if ns[0].id == id then ns[0].(read := true) else ns[0]] + MarkRead(ns[1..], id)
  }

  lemma MarkReadIdempotent(ns: seq<Notification>, id: string)
    ensures MarkRead(MarkRead(ns, id), id) == MarkRead(ns, id)
  {
  }

  /** Marking read lowers the unread counter by exactly the unread
      notifications with that id. */
  lemma {:induction false} MarkReadLowersUnread(ns: seq<Notification>, id: string)
    ensures UnreadCount(MarkRead(ns, id)) + UnreadWithId(ns, id) == UnreadCount(ns)
  {
    if ns != [] {
      assert MarkRead(ns, id)[1..] == MarkRead(ns[1..], id);
      MarkReadLowersUnread(ns[1..], id);
    }
  }

  /** An upcoming event counts as one of "my trips" when its registration
      stands. */
  predicate MyUpcomingTrip(rs: seq<StudentRegistration>, e: Event)
  {
    e.status == Upcoming && FindRegistration(rs, e.id).Some? && FindRegistration(rs, e.id).value.status != Cancelled
  }

  /** `myUpcomingTrips`: the number of such events, never more than the
      upcoming events. */
  function MyUpcomingTrips(es: seq<Event>, rs: seq<StudentRegistration>): (n: nat)
    ensures n <= |MainApp.UpcomingEvents(es)|
    ensures n == 0 <==> forall i :: 0 <= i < |es| ==> !MyUpcomingTrip(rs, es[i])
  {
    if es == [] then 0
    else
      var rest := MyUpcomingTrips(es[1..], rs);
      assert es[0] in es;
      (if MyUpcomingTrip(rs, es[0]) then 1 else 0) + rest
  }

  /** The trip counter adds up over pieces of the event list, and a single
      event counts one exactly when it is one of my upcoming trips. */
  lemma {:induction false} MyUpcomingTripsAdds(a: seq<Event>, b: seq<Event>, e: Event, rs: seq<StudentRegistration>)
    ensures MyUpcomingTrips(a + b, rs) == MyUpcomingTrips(a, rs) + MyUpcomingTrips(b, rs)
    ensures MyUpcomingTrips([e], rs) == if MyUpcomingTrip(rs, e) then 1 else 0
  {
    if a == [] {
      assert a + b == b;
    } else {
      var h := if MyUpcomingTrip(rs, a[0]) then 1 else 0;
      calc {
        MyUpcomingTrips(a + b, rs);
        { assert (a + b)[1..] == a[1..] + b && (a + b)[0] == a[0]; }
        h + MyUpcomingTrips(a[1..] + b, rs);
        { MyUpcomingTripsAdds(a[1..], b, e, rs); }
        h + MyUpcomingTrips(a[1..], rs) + MyUpcomingTrips(b, rs);
      }
    }
  }

  // ---------------------------------------------------------------------
  // The portal

  datatype Action = Register | Cancel

  datatype Outcome = NotLoggedIn | UnknownEvent | Full | Registered | NotRegistered | TooLate | CancelledOk

  /** The branches of `handleEventRegistration`, in their order. */
  function RegistrationDecision(current: Option<Student>, es: seq<Event>, rs: seq<StudentRegistration>,
                                eventId: string, action: Action, now: int): (o: Outcome)
    ensures o == NotLoggedIn <==> (current.None?)
    ensures o == UnknownEvent <==> (current.Some? && MainApp.FindEvent(es, eventId).None?)
    ensures o == Full <==> (current.Some? && action == Register
                          && MainApp.FindEvent(es, eventId).Some? && IsFull(MainApp.FindEvent(es, eventId).value))
    ensures o == Registered <==> (current.Some? && action == Register
                                && MainApp.FindEvent(es, eventId).Some? && !IsFull(MainApp.FindEvent(es, eventId).value))
    ensures o == NotRegistered <==> (current.Some? && action == Cancel
                                   && MainApp.FindEvent(es, eventId).Some? && FindRegistration(rs, eventId).None?)
    ensures o == TooLate <==> (current.Some? && action == Cancel
                             && MainApp.FindEvent(es, eventId).Some? && FindRegistration(rs, eventId).Some?
                             && !CancelAllowed(MainApp.FindEvent(es, eventId).value, now))
    ensures o == CancelledOk <==> (current.Some? && action == Cancel
                                 && MainApp.FindEvent(es, eventId).Some? && FindRegistration(rs, eventId).Some?
                                 && CancelAllowed(MainApp.FindEvent(es, eventId).value, now))
  {
    var found := MainApp.FindEvent(es, eventId);
    if current.None? then NotLoggedIn
    else if found.None? then UnknownEvent
    else if action == Register then (if IsFull(found.value) then Full else Registered)
    else assert action.Cancel?; if FindRegistration(rs, eventId).None? then NotRegistered
    else if !CancelAllowed(found.value, now) then TooLate
    else CancelledOk
  }

  /** The notification that a registration adds: unread, of the information
      kind, dated now, with a message that `wording` builds from the trip's
      title (the interface's own text is a localised sentence naming it). */
  function RegisteredNotice(id: string, e: Event, now: int, wording: string -> string): (n: Notification)
    ensures n.id == id && n.kind == Info && n.date == now && !n.read
    ensures n.title == "Trip registration" && n.message == wording(e.title)
  {
    Notification(id, "Trip registration", wording(e.title), Info, now, false)
  }

  class StudentPortal {
    const students: seq<Student>
    const events: seq<Event>
    var current: Option<Student>
    var registrations: seq<StudentRegistration>
    var notifications: seq<Notification>

    constructor(students0: seq<Student>, events0: seq<Event>, rs0: seq<StudentRegistration>, ns0: seq<Notification>)
      ensures students == students0 && events == events0
      ensures current == None && registrations == rs0 && notifications == ns0
    {
      students, events := students0, events0;
      current, registrations, notifications := None, rs0, ns0;
    }

    /** `handleStudentLogin`: succeeds only for an id on the student list. */
    method Login(sid: string) returns (ok: bool)
      modifies this`current
      ensures ok <==> FindStudent(students, sid).Some?
      ensures current == if ok then FindStudent(students, sid) else old(current)
      ensures ok ==> current.value.id == sid
    {
      var found := FindStudent(students, sid);
      ok := found.Some?;
      if ok {
        current := found;
      }
    }

    /** Switching user. */
    method Logout()
      modifies this`current
      ensures current == None
    {
      current := None;
    }

    /** `handleEventRegistration`; `notificationId` is the id a new
        notification receives and `wording` builds its message. */
    method EventRegistration(eventId: string, action: Action, now: int, notificationId: string,
                             wording: string -> string)
      returns (o: Outcome)
      modifies this`registrations, this`notifications
      ensures o == RegistrationDecision(current, events, old(registrations), eventId, action, now)
      ensures o == Registered ==>
                registrations == old(registrations) + [StudentRegistration(eventId, Pending, now, None)]
                && notifications == [RegisteredNotice(notificationId, MainApp.FindEvent(events, eventId).value, now, wording)]
                                    + old(notifications)
      ensures o == CancelledOk ==>
                registrations == CancelEntries(old(registrations), eventId, now) && notifications == old(notifications)
      ensures o != Registered && o != CancelledOk ==>
                registrations == old(registrations) && notifications == old(notifications)
    {
      if current.None? {
        return NotLoggedIn;
      }
      var found := MainApp.FindEvent(events, eventId);
      if found.None? {
        return UnknownEvent;
      }
      var e := found.value;
      if action == Register {
        if IsFull(e) {
          return Full;
        }
        registrations := registrations + [StudentRegistration(eventId, Pending, now, None)];
        notifications := [RegisteredNotice(notificationId, e, now, wording)] + notifications;
        o := Registered;
      } else {
        if FindRegistration(registrations, eventId).None? {
          return NotRegistered;
        }
        if now >= e.start - CancelWindowMs {
          return TooLate;
        }
        registrations := CancelEntries(registrations, eventId, now);
        o := CancelledOk;
      }
    }

    /** `markNotificationAsRead`. */
    method MarkNotificationRead(id: string)
      modifies this`notifications
      ensures notifications == MarkRead(old(notifications), id)
    {
      notifications := MarkRead(notifications, id);
    }
  }
}
