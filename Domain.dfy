/** Entities shared by the administrator and student screens of the trip
    dashboard, the fixed policy constants, and the two small helpers every
    screen repeats: the day count until an event and the blank-message test. */
module Domain {

  datatype Option<T> = None | Some(value: T)

  /** A student; a negative balance is a debt owed to the school, a positive
      one a credit owed to the student. */
  datatype Student = Student(id: string, name: string, email: string, phone: string, balance: int)

  /** A student without its identity: what the student form submits and what
      a spreadsheet row becomes. */
  datatype StudentFields = StudentFields(name: string, email: string, phone: string, balance: int)
  {
    function WithId(id: string): (s: Student)
      ensures s.id == id && FieldsOf(s) == this
    {
      Student(id, name, email, phone, balance)
    }
  }

  function FieldsOf(s: Student): StudentFields
  {
    StudentFields(s.name, s.email, s.phone, s.balance)
  }

  /** The first student whose id is `id`, as `Array.prototype.find` gives it. */
  function FindStudent(ss: seq<Student>, id: string): (r: Option<Student>)
    ensures r.None? <==> forall i :: 0 <= i < |ss| ==> ss[i].id != id
    ensures r.Some? ==> r.value in ss && r.value.id == id
    ensures r.Some? ==> exists i :: 0 <= i < |ss| && ss[i] == r.value
                          && forall j :: 0 <= j < i ==> ss[j].id != id
  {
    if ss == [] then None
    else if ss[0].id == id then Some(ss[0])
    else FindStudent(ss[1..], id)
  }

  datatype EventStatus = Upcoming | Ongoing | Completed

  /** A trip. `start` is the start instant in milliseconds; a capacity of
      `None` stands for an unset maximum. */
  datatype Event = Event(
    id: string,
    title: string,
    description: string,
    start: int,
    location: string,
    price: int,
    maxParticipants: Option<int>,
    registrations: seq<string>,
    attendance: map<string, bool>,
    status: EventStatus)

  /** An event without its identity: what the event form submits. */
  datatype EventDraft = EventDraft(
    title: string,
    description: string,
    start: int,
    location: string,
    price: int,
    maxParticipants: Option<int>,
    registrations: seq<string>,
    attendance: map<string, bool>,
    status: EventStatus)
  {
    function WithId(id: string): (e: Event)
      ensures e.id == id && DraftOf(e) == this
    {
      Event(id, title, description, start, location, price, maxParticipants,
            registrations, attendance, status)
    }
  }

  function DraftOf(e: Event): EventDraft
  {
    EventDraft(e.title, e.description, e.start, e.location, e.price, e.maxParticipants,
               e.registrations, e.attendance, e.status)
  }

  datatype RegState = Pending | Confirmed | Cancelled

  /** The administrator's registration status list entry; it names a student
      only, not an event. */
  datatype RegistrationStatus = RegistrationStatus(studentId: string, status: RegState, responseDate: Option<int>)

  /** Milliseconds in one day. */
  const DayMs: int := 1000 * 60 * 60 * 24

  /** Registrations an event needs before it is confirmed. */
  const MinimumRegistrations: int := 15

  /** Events this many days away or fewer need attention. */
  const AttentionDays: int := 14

  /** Events this many days away or fewer are urgent. */
  const UrgentDays: int := 7

  /** The whole number of days until `start`, rounded up. */
  function DaysUntil(start: int, now: int): (days: int)
    ensures (days - 1) * DayMs < start - now <= days * DayMs
  {
    -((now - start) / DayMs)
  }

  /** Comparing the day count against a whole number of days is comparing
      the remaining time against that many days' worth of milliseconds. */
  lemma DaysUntilAtMost(start: int, now: int, k: int)
    ensures DaysUntil(start, now) <= k <==> start - now <= k * DayMs
  {
    var d := DaysUntil(start, now);
    if d <= k {
      assert d * DayMs <= k * DayMs;
    } else {
      assert (d - 1) * DayMs >= k * DayMs;
    }
  }

  /** Whitespace as String.prototype.trim of ECMAScript removes it. */
  predicate IsWhitespace(c: char)
  {
    c == ' ' || c == '\t' || c == '\n' || c == '\r' || c == '\U{000B}' || c == '\U{000C}'
    || c == '\U{00A0}' || c == '\U{1680}' || ('\U{2000}' <= c <= '\U{200A}')
    || c == '\U{2028}' || c == '\U{2029}' || c == '\U{202F}' || c == '\U{205F}'
    || c == '\U{3000}' || c == '\U{FEFF}'
  }

  function TrimStart(s: string): (r: string)
    ensures |r| <= |s| && r == s[|s| - |r|..]
    ensures r == [] || !IsWhitespace(r[0])
    ensures forall i :: 0 <= i < |s| - |r| ==> IsWhitespace(s[i])
  {
    if s != [] && IsWhitespace(s[0]) then TrimStart(s[1..]) else s
  }

  function TrimEnd(s: string): (r: string)
    ensures |r| <= |s| && r == s[..|r|]
    ensures r == [] || !IsWhitespace(r[|r| - 1])
    ensures forall i :: |r| <= i < |s| ==> IsWhitespace(s[i])
  {
    if s != [] && IsWhitespace(s[|s| - 1]) then TrimEnd(s[..|s| - 1]) else s
  }

  function Trim(s: string): string
  {
    TrimEnd(TrimStart(s))
  }

  /** A message is blank when trimming leaves nothing. */
  predicate IsBlank(s: string)
  {
    Trim(s) == ""
  }

  lemma BlankIffAllWhitespace(s: string)
    ensures IsBlank(s) <==> forall i :: 0 <= i < |s| ==> IsWhitespace(s[i])
  {
  }
}
