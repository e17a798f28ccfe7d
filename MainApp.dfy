/** The administrator session: the student, event and registration-status
    lists, the handlers that replace them, and the dashboard figures derived
    from them. Each handler is a method of `AdminSession` specified by a pure
    function on the old lists; the lemmas state what those functions promise. */
module MainApp {
  import opened Domain

  // ---------------------------------------------------------------------
  // Students

  /** The list with every student whose id is `id` given the submitted fields. */
  function ReplaceStudent(ss: seq<Student>, id: string, f: StudentFields): (r: seq<Student>)
    ensures |r| == |ss|
    ensures forall i {:trigger r[i]} :: 0 <= i < |ss| ==>
              r[i] == if ss[i].id == id then f.WithId(ss[i].id) else ss[i]
  {
    if ss == [] then []
    else [if ss[0].id == id then f.WithId(ss[0].id) else ss[0]] + ReplaceStudent(ss[1..], id, f)
  }

  /** The students whose id is not `id`, in their original order. */
  function RemoveStudent(ss: seq<Student>, id: string): (r: seq<Student>)
    ensures |r| <= |ss|
  {
    if ss == [] then []
    else if ss[0].id == id then RemoveStudent(ss[1..], id)
    else [ss[0]] + RemoveStudent(ss[1..], id)
  }

  /** A student remains exactly when it was listed and has another id. */
  lemma {:induction false} RemoveStudentMembers(ss: seq<Student>, id: string)
    ensures forall s :: s in RemoveStudent(ss, id) <==> s in ss && s.id != id
  {
    if ss != [] {
      RemoveStudentMembers(ss[1..], id);
      assert ss == [ss[0]] + ss[1..];
    }
  }

  /** Deleting an id no student has leaves the list as it was. */
  lemma {:induction false} RemoveAbsentStudent(ss: seq<Student>, id: string)
    requires forall i :: 0 <= i < |ss| ==> ss[i].id != id
    ensures RemoveStudent(ss, id) == ss
  {
    if ss != [] {
      RemoveAbsentStudent(ss[1..], id);
    }
  }

  /** Removal works list piece by list piece, so the kept students stay in their order. */
  lemma {:induction false} RemoveStudentConcat(a: seq<Student>, b: seq<Student>, id: string)
    ensures RemoveStudent(a + b, id) == RemoveStudent(a, id) + RemoveStudent(b, id)
  {
    if a == [] {
      assert a + b == b;
    } else {
      var y, t := a[0], a[1..];
      assert a + b == [y] + (t + b);
      RemoveStudentConcat(t, b, id);
      if y.id == id {
        assert RemoveStudent(a + b, id) == RemoveStudent(t + b, id);
      } else {
        assert RemoveStudent(a + b, id) == [y] + RemoveStudent(t + b, id);
        assert [y] + (RemoveStudent(t, id) + RemoveStudent(b, id)) == ([y] + RemoveStudent(t, id)) + RemoveStudent(b, id);
      }
    }
  }

  /** The ids other than `x`, in their original order. */
  function RemoveId(xs: seq<string>, x: string): (r: seq<string>)
    ensures |r| <= |xs|
  {
    if xs == [] then []
    else if xs[0] == x then RemoveId(xs[1..], x)
    else [xs[0]] + RemoveId(xs[1..], x)
  }

  /** Removing an id that is not listed leaves the list as it was. */
  lemma {:induction false} RemoveAbsentId(xs: seq<string>, x: string)
    requires x !in xs
    ensures RemoveId(xs, x) == xs
  {
    if xs != [] {
      assert xs[0] != x && x !in xs[1..];
      RemoveAbsentId(xs[1..], x);
    }
  }

  /** An id remains exactly when it was listed and is not `x`. */
  lemma {:induction false} RemoveIdMembers(xs: seq<string>, x: string)
    ensures forall y :: y in RemoveId(xs, x) <==> y in xs && y != x
  {
    if xs != [] {
      RemoveIdMembers(xs[1..], x);
      assert xs == [xs[0]] + xs[1..];
    }
  }

  /** Removal works piece by piece, so the kept ids stay in their order. */
  lemma {:induction false} RemoveIdConcat(a: seq<string>, b: seq<string>, x: string)
    ensures RemoveId(a + b, x) == RemoveId(a, x) + RemoveId(b, x)
  {
    if a == [] {
      assert a + b == b;
    } else {
      var y, t := a[0], a[1..];
      assert a + b == [y] + (t + b);
      RemoveIdConcat(t, b, x);
      if y == x {
        assert RemoveId(a + b, x) == RemoveId(t + b, x);
      } else {
        assert RemoveId(a + b, x) == [y] + RemoveId(t + b, x);
        assert [y] + (RemoveId(t, x) + RemoveId(b, x)) == ([y] + RemoveId(t, x)) + RemoveId(b, x);
      }
    }
  }

  /** Every event with student `id` taken out of its registrations. */
  function StripRegistrant(es: seq<Event>, id: string): (r: seq<Event>)
    ensures |r| == |es|
    ensures forall i {:trigger r[i]} :: 0 <= i < |es| ==>
              r[i] == es[i].(registrations := RemoveId(es[i].registrations, id))
  {
    if es == [] then []
    else [es[0].(registrations := RemoveId(es[0].registrations, id))] + StripRegistrant(es[1..], id)
  }

  /** Balance `amount` added to every student whose id is `id`. */
  function Charge(ss: seq<Student>, id: string, amount: int): (r: seq<Student>)
    ensures |r| == |ss|
    ensures forall i {:trigger r[i]} :: 0 <= i < |ss| ==>
              r[i] == if ss[i].id == id then ss[i].(balance := ss[i].balance + amount) else ss[i]
  {
    if ss == [] then []
    else [if ss[0].id == id then ss[0].(balance := ss[0].balance + amount) else ss[0]]
         + Charge(ss[1..], id, amount)
  }

  /** Charging is not guarded against repetition: the same charge applied
      twice moves the balance by twice the amount. */
  lemma {:induction false} ChargeTwice(ss: seq<Student>, id: string, amount: int)
    ensures Charge(Charge(ss, id, amount), id, amount) == Charge(ss, id, 2 * amount)
  {
    if ss != [] {
      ChargeTwice(ss[1..], id, amount);
      assert Charge(ss, id, amount)[1..] == Charge(ss[1..], id, amount);
    }
  }

  // ---------------------------------------------------------------------
  // Events

  /** Every event whose id is `id` given the submitted draft, keeping its id. */
  function ReplaceEvent(es: seq<Event>, id: string, d: EventDraft): (r: seq<Event>)
    ensures |r| == |es|
    ensures forall i {:trigger r[i]} :: 0 <= i < |es| ==> r[i] == if es[i].id == id then d.WithId(es[i].id) else es[i]
  {
    if es == [] then []
    else [if es[0].id == id then d.WithId(es[0].id) else es[0]] + ReplaceEvent(es[1..], id, d)
  }

  /** The events whose id is not `id`, in their original order. */
  function RemoveEvent(es: seq<Event>, id: string): (r: seq<Event>)
    ensures |r| <= |es|
  {
    if es == [] then []
    else if es[0].id == id then RemoveEvent(es[1..], id)
    else [es[0]] + RemoveEvent(es[1..], id)
  }

  /** An event remains exactly when it was listed and has another id. */
  lemma {:induction false} RemoveEventMembers(es: seq<Event>, id: string)
    ensures forall e :: e in RemoveEvent(es, id) <==> e in es && e.id != id
  {
    if es != [] {
      RemoveEventMembers(es[1..], id);
      assert es == [es[0]] + es[1..];
    }
  }

  /** Removal works piece by piece, so the kept events stay in their order. */
  lemma {:induction false} RemoveEventConcat(a: seq<Event>, b: seq<Event>, id: string)
    ensures RemoveEvent(a + b, id) == RemoveEvent(a, id) + RemoveEvent(b, id)
  {
    if a == [] {
      assert a + b == b;
    } else {
      var y, t := a[0], a[1..];
      assert a + b == [y] + (t + b);
      RemoveEventConcat(t, b, id);
      if y.id == id {
        assert RemoveEvent(a + b, id) == RemoveEvent(t + b, id);
      } else {
        assert RemoveEvent(a + b, id) == [y] + RemoveEvent(t + b, id);
        assert [y] + (RemoveEvent(t, id) + RemoveEvent(b, id)) == ([y] + RemoveEvent(t, id)) + RemoveEvent(b, id);
      }
    }
  }

  /** The first event whose id is `id`, if any. */
  function FindEvent(es: seq<Event>, id: string): (r: Option<Event>)
    ensures r.None? <==> forall i :: 0 <= i < |es| ==> es[i].id != id
    ensures r.Some? ==> r.value in es && r.value.id == id
    ensures r.Some? ==> exists i :: 0 <= i < |es| && es[i] == r.value
                          && forall j :: 0 <= j < i ==> es[j].id != id
  {
    if es == [] then None
    else if es[0].id == id then Some(es[0])
    else FindEvent(es[1..], id)
  }

  /** The statuses whose student is not in `ids`, in their original order. */
  function DropStatusesOf(sts: seq<RegistrationStatus>, ids: seq<string>): (r: seq<RegistrationStatus>)
    ensures |r| <= |sts|
  {
    if sts == [] then []
    else if sts[0].studentId in ids then DropStatusesOf(sts[1..], ids)
    else [sts[0]] + DropStatusesOf(sts[1..], ids)
  }

  /** A status remains exactly when it was listed and its student is not among `ids`. */
  lemma {:induction false} DropStatusesOfMembers(sts: seq<RegistrationStatus>, ids: seq<string>)
    ensures forall s :: s in DropStatusesOf(sts, ids) <==> s in sts && s.studentId !in ids
  {
    if sts != [] {
      DropStatusesOfMembers(sts[1..], ids);
      assert sts == [sts[0]] + sts[1..];
    }
  }

  /** Dropping works piece by piece, so the kept statuses stay in their order. */
  lemma {:induction false} DropStatusesOfConcat(a: seq<RegistrationStatus>, b: seq<RegistrationStatus>, ids: seq<string>)
    ensures DropStatusesOf(a + b, ids) == DropStatusesOf(a, ids) + DropStatusesOf(b, ids)
  {
    if a == [] {
      assert a + b == b;
    } else {
      var y, t := a[0], a[1..];
      assert a + b == [y] + (t + b);
      DropStatusesOfConcat(t, b, ids);
      if y.studentId in ids {
        assert DropStatusesOf(a + b, ids) == DropStatusesOf(t + b, ids);
      } else {
        assert DropStatusesOf(a + b, ids) == [y] + DropStatusesOf(t + b, ids);
        assert [y] + (DropStatusesOf(t, ids) + DropStatusesOf(b, ids)) == ([y] + DropStatusesOf(t, ids)) + DropStatusesOf(b, ids);
      }
    }
  }

  /** Statuses after deleting event `id`: those of the students registered
      for the first event with that id are dropped; nothing is dropped when
      no event has it. */
  function StatusesAfterEventDeletion(es: seq<Event>, sts: seq<RegistrationStatus>, id: string)
    : (r: seq<RegistrationStatus>)
    ensures FindEvent(es, id).None? ==> r == sts
    ensures FindEvent(es, id).Some? ==>
              forall s :: s in r <==> s in sts && s.studentId !in FindEvent(es, id).value.registrations
  {
    match FindEvent(es, id)
    case None => sts
    case Some(e) => DropStatusesOfMembers(sts, e.registrations); DropStatusesOf(sts, e.registrations)
  }

  /** Every event whose id is `id` given the attendance map `att`. */
  function SetAttendance(es: seq<Event>, id: string, att: map<string, bool>): (r: seq<Event>)
    ensures |r| == |es|
    ensures forall i {:trigger r[i]} :: 0 <= i < |es| ==> r[i] == if es[i].id == id then es[i].(attendance := att) else es[i]
  {
    if es == [] then []
    else [if es[0].id == id then es[0].(attendance := att) else es[0]] + SetAttendance(es[1..], id, att)
  }

  // ---------------------------------------------------------------------
  // Invitations: the union of old and new registrations

  predicate NoDuplicates<T(==)>(xs: seq<T>)
  {
    forall i, j :: 0 <= i < j < |xs| ==> xs[i] != xs[j]
  }

  /** `xs` with every repeated element dropped after its first occurrence,
      the order in which a JavaScript Set enumerates what was added to it. */
  function Dedup(xs: seq<string>): (r: seq<string>)
    ensures NoDuplicates(r)
    ensures forall x :: x in r <==> x in xs
    ensures |r| <= |xs|
  {
    if xs == [] then []
    else
      var r := Dedup(xs[..|xs| - 1]);
      assert forall x :: x in xs <==> x in xs[..|xs| - 1] || x == xs[|xs| - 1];
      if xs[|xs| - 1] in r then r else r + [xs[|xs| - 1]]
  }

  /** Deduplicating a longer list extends the deduplication of its prefix. */
  lemma {:induction false} DedupExtends(a: seq<string>, b: seq<string>)
    ensures |Dedup(a)| <= |Dedup(a + b)|
    ensures Dedup(a + b)[..|Dedup(a)|] == Dedup(a)
  {
    if b == [] {
      assert a + b == a;
    } else {
      var b' := b[..|b| - 1];
      DedupExtends(a, b');
      assert (a + b)[..|a + b| - 1] == a + b';
    }
  }

  /** A list without repetitions is its own deduplication. */
  lemma {:induction false} DedupOfDistinct(a: seq<string>)
    requires NoDuplicates(a)
    ensures Dedup(a) == a
  {
    if a != [] {
      var a' := a[..|a| - 1];
      DedupOfDistinct(a');
      assert a[|a| - 1] !in a';
      assert a' + [a[|a| - 1]] == a;
    }
  }

  /** `[...new Set([...old, ...added])]` */
  function Union(old_: seq<string>, added: seq<string>): (r: seq<string>)
    ensures NoDuplicates(r)
    ensures forall x :: x in r <==> x in old_ || x in added
  {
    Dedup(old_ + added)
  }

  /** When the old registrations have no repetitions they stay in front, in
      their order, and what follows are only invitees not already there. */
  lemma UnionKeepsOldFirst(old_: seq<string>, added: seq<string>)
    requires NoDuplicates(old_)
    ensures |old_| <= |Union(old_, added)| && Union(old_, added)[..|old_|] == old_
    ensures forall i :: |old_| <= i < |Union(old_, added)| ==>
              Union(old_, added)[i] in added && Union(old_, added)[i] !in old_
  {
    DedupExtends(old_, added);
    DedupOfDistinct(old_);
  }

  /** Every event whose id is `eventId` with `ids` merged into its registrations. */
  function AddInvitees(es: seq<Event>, eventId: string, ids: seq<string>): (r: seq<Event>)
    ensures |r| == |es|
    ensures forall i {:trigger r[i]} :: 0 <= i < |es| ==>
              r[i] == if es[i].id == eventId
                      then es[i].(registrations := Union(es[i].registrations, ids))
                      else es[i]
  {
    if es == [] then []
    else [if es[0].id == eventId then es[0].(registrations := Union(es[0].registrations, ids)) else es[0]]
         + AddInvitees(es[1..], eventId, ids)
  }

  /** The statuses of students not among `ids`, in their original order. */
  function Uninvited(sts: seq<RegistrationStatus>, ids: seq<string>): (r: seq<RegistrationStatus>)
    ensures |r| <= |sts|
    ensures forall s :: s in r <==> s in sts && s.studentId !in ids
  {
    DropStatusesOfMembers(sts, ids);
    DropStatusesOf(sts, ids)
  }

  /** One fresh pending status per invited id, in the order of `ids`. */
  function PendingFor(ids: seq<string>): (r: seq<RegistrationStatus>)
    ensures |r| == |ids|
    ensures forall j :: 0 <= j < |ids| ==> r[j] == RegistrationStatus(ids[j], Pending, None)
  {
    if ids == [] then [] else [RegistrationStatus(ids[0], Pending, None)] + PendingFor(ids[1..])
  }

  /** The status list after inviting `ids`. */
  function InviteStatuses(sts: seq<RegistrationStatus>, ids: seq<string>): (r: seq<RegistrationStatus>)
  {
    Uninvited(sts, ids) + PendingFor(ids)
  }

  // ---------------------------------------------------------------------
  // Registration statuses, keyed by student only

  /** The first status entry for student `sid`, as `Array.prototype.find` gives it. */
  function FindStatus(sts: seq<RegistrationStatus>, sid: string): (r: Option<RegistrationStatus>)
    ensures r.None? <==> forall i :: 0 <= i < |sts| ==> sts[i].studentId != sid
    ensures r.Some? ==> r.value in sts && r.value.studentId == sid
    ensures r.Some? ==> exists i :: 0 <= i < |sts| && sts[i] == r.value
                          && forall j :: 0 <= j < i ==> sts[j].studentId != sid
  {
    if sts == [] then None
    else if sts[0].studentId == sid then Some(sts[0])
    else FindStatus(sts[1..], sid)
  }

  /** Every entry of student `sid` replaced by `u`. */
  function ReplaceStatuses(sts: seq<RegistrationStatus>, sid: string, u: RegistrationStatus)
    : (r: seq<RegistrationStatus>)
    ensures |r| == |sts|
    ensures forall i {:trigger r[i]} :: 0 <= i < |sts| ==> r[i] == if sts[i].studentId == sid then u else sts[i]
  {
    if sts == [] then []
    else [if sts[0].studentId == sid then u else sts[0]] + ReplaceStatuses(sts[1..], sid, u)
  }

  /** The upsert of `handleUpdateRegistration`: every entry of the student
      gets the new status and response time; a student without an entry gets
      exactly one, appended. */
  function UpsertStatus(sts: seq<RegistrationStatus>, sid: string, st: RegState, now: int)
    : (r: seq<RegistrationStatus>)
    ensures (exists i :: 0 <= i < |sts| && sts[i].studentId == sid) ==>
              |r| == |sts|
              && forall i :: 0 <= i < |sts| ==>
                   r[i] == if sts[i].studentId == sid then RegistrationStatus(sid, st, Some(now)) else sts[i]
    ensures (forall i :: 0 <= i < |sts| ==> sts[i].studentId != sid) ==>
              r == sts + [RegistrationStatus(sid, st, Some(now))]
  {
    var updated := RegistrationStatus(sid, st, Some(now));
    if FindStatus(sts, sid).Some? then ReplaceStatuses(sts, sid, updated) else sts + [updated]
  }

  /** After the upsert the student's first entry is the new one, and every
      other student's first entry is what it was. */
  lemma {:induction false} UpsertThenFind(sts: seq<RegistrationStatus>, sid: string, st: RegState,
                                          now: int, other: string)
    ensures FindStatus(UpsertStatus(sts, sid, st, now), sid) == Some(RegistrationStatus(sid, st, Some(now)))
    ensures other != sid ==> FindStatus(UpsertStatus(sts, sid, st, now), other) == FindStatus(sts, other)
  {
    var u := RegistrationStatus(sid, st, Some(now));
    if FindStatus(sts, sid).Some? {
      ReplaceThenFind(sts, sid, u, other);
    } else {
      AppendThenFind(sts, u, sid);
      AppendThenFind(sts, u, other);
    }
  }

  lemma {:induction false} ReplaceThenFind(sts: seq<RegistrationStatus>, sid: string,
                                           u: RegistrationStatus, other: string)
    requires u.studentId == sid && FindStatus(sts, sid).Some?
    ensures FindStatus(ReplaceStatuses(sts, sid, u), sid) == Some(u)
    ensures other != sid ==> FindStatus(ReplaceStatuses(sts, sid, u), other) == FindStatus(sts, other)
  {
    var r := ReplaceStatuses(sts, sid, u);
    assert r[1..] == ReplaceStatuses(sts[1..], sid, u);
    if sts[0].studentId != sid {
      ReplaceThenFind(sts[1..], sid, u, other);
    } else if other != sid && FindStatus(sts[1..], sid).Some? {
      ReplaceThenFind(sts[1..], sid, u, other);
    } else if other != sid {
      ReplaceUnmatched(sts[1..], sid, u);
    }
  }

  lemma {:induction false} ReplaceUnmatched(sts: seq<RegistrationStatus>, sid: string, u: RegistrationStatus)
    requires FindStatus(sts, sid).None?
    ensures ReplaceStatuses(sts, sid, u) == sts
  {
  }

  lemma {:induction false} AppendThenFind(sts: seq<RegistrationStatus>, u: RegistrationStatus, sid: string)
    ensures FindStatus(sts + [u], sid) == if FindStatus(sts, sid).Some? then FindStatus(sts, sid)
                                         else if u.studentId == sid then Some(u) else None
  {
    if sts != [] {
      assert (sts + [u])[1..] == sts[1..] + [u];
      AppendThenFind(sts[1..], u, sid);
    }
  }

  lemma {:induction false} FindStatusConcat(a: seq<RegistrationStatus>, b: seq<RegistrationStatus>, sid: string)
    ensures FindStatus(a + b, sid) == if FindStatus(a, sid).Some? then FindStatus(a, sid) else FindStatus(b, sid)
  {
    if a != [] {
      assert (a + b)[0] == a[0] && (a + b)[1..] == a[1..] + b;
      FindStatusConcat(a[1..], b, sid);
    } else {
      assert a + b == b;
    }
  }

  lemma {:induction false} FindStatusDropped(sts: seq<RegistrationStatus>, ids: seq<string>, sid: string)
    requires sid !in ids
    ensures FindStatus(DropStatusesOf(sts, ids), sid) == FindStatus(sts, sid)
  {
    if sts != [] {
      FindStatusDropped(sts[1..], ids, sid);
    }
  }

  /** After an invitation every invited student's first entry is a fresh
      pending one, whatever it was before, and every other student's first
      entry is unchanged. */
  lemma InviteThenFind(sts: seq<RegistrationStatus>, ids: seq<string>, sid: string)
    ensures sid in ids ==> FindStatus(InviteStatuses(sts, ids), sid) == Some(RegistrationStatus(sid, Pending, None))
    ensures sid !in ids ==> FindStatus(InviteStatuses(sts, ids), sid) == FindStatus(sts, sid)
  {
    var kept := Uninvited(sts, ids);
    FindStatusConcat(kept, PendingFor(ids), sid);
    if sid in ids {
      assert FindStatus(kept, sid).None?;
      var j :| 0 <= j < |ids| && ids[j] == sid;
      assert PendingFor(ids)[j].studentId == sid;
    } else {
      FindStatusDropped(sts, ids, sid);
      assert FindStatus(PendingFor(ids), sid).None?;
    }
  }

  /** Every event whose id is `eventId` with student `sid` taken out of its registrations. */
  function DropFromEvent(es: seq<Event>, eventId: string, sid: string): (r: seq<Event>)
    ensures |r| == |es|
    ensures forall i {:trigger r[i]} :: 0 <= i < |es| ==>
              r[i] == if es[i].id == eventId
                      then es[i].(registrations := RemoveId(es[i].registrations, sid))
                      else es[i]
  {
    if es == [] then []
    else [if es[0].id == eventId then es[0].(registrations := RemoveId(es[0].registrations, sid)) else es[0]]
         + DropFromEvent(es[1..], eventId, sid)
  }

  // ---------------------------------------------------------------------
  // Dashboard figures

  /** The sum of the magnitudes of the negative balances. */
  function TotalDebt(ss: seq<Student>): (r: int)
    ensures r >= 0
    ensures r == 0 <==> forall i :: 0 <= i < |ss| ==> ss[i].balance >= 0
  {
    if ss == [] then 0
    else
      var last := ss[|ss| - 1];
      TotalDebt(ss[..|ss| - 1]) + (if last.balance < 0 then -last.balance else 0)
  }

  /** The sum of the positive balances. */
  function TotalCredit(ss: seq<Student>): (r: int)
    ensures r >= 0
    ensures r == 0 <==> forall i :: 0 <= i < |ss| ==> ss[i].balance <= 0
  {
    if ss == [] then 0
    else
      var last := ss[|ss| - 1];
      TotalCredit(ss[..|ss| - 1]) + (if last.balance > 0 then last.balance else 0)
  }

  function SumBalances(ss: seq<Student>): int
  {
    if ss == [] then 0 else SumBalances(ss[..|ss| - 1]) + ss[|ss| - 1].balance
  }

  /** Credit minus debt is the net of all balances. */
  lemma {:induction false} CreditMinusDebt(ss: seq<Student>)
    ensures TotalCredit(ss) - TotalDebt(ss) == SumBalances(ss)
  {
    if ss != [] {
      CreditMinusDebt(ss[..|ss| - 1]);
    }
  }

  /** An upcoming event under the registration minimum that starts within
      the attention window and has not started. */
  predicate NeedsAttention(e: Event, now: int)
  {
    var days := DaysUntil(e.start, now);
    e.status == Upcoming && |e.registrations| < MinimumRegistrations && days <= AttentionDays && days > 0
  }

  /** The attention test in milliseconds: fewer than fifteen registrations
      and a start strictly after now and at most fourteen days away. */
  lemma NeedsAttentionInMs(e: Event, now: int)
    ensures NeedsAttention(e, now) <==>
              e.status == Upcoming && |e.registrations| < 15
              && now < e.start && e.start - now <= 14 * DayMs
  {
    DaysUntilAtMost(e.start, now, AttentionDays);
    DaysUntilAtMost(e.start, now, 0);
  }

  /** The events that need attention, in their original order. */
  function AttentionEvents(es: seq<Event>, now: int): (r: seq<Event>)
    ensures |r| <= |es|
  {
    if es == [] then []
    else if NeedsAttention(es[0], now) then [es[0]] + AttentionEvents(es[1..], now)
    else AttentionEvents(es[1..], now)
  }

  /** An event is listed exactly when it is one of the events and needs attention. */
  lemma {:induction false} AttentionEventsMembers(es: seq<Event>, now: int)
    ensures forall e :: e in AttentionEvents(es, now) <==> e in es && NeedsAttention(e, now)
  {
    if es != [] {
      AttentionEventsMembers(es[1..], now);
      assert es == [es[0]] + es[1..];
    }
  }

  /** The filter works piece by piece, so the events needing attention keep their order. */
  lemma {:induction false} AttentionEventsConcat(a: seq<Event>, b: seq<Event>, now: int)
    ensures AttentionEvents(a + b, now) == AttentionEvents(a, now) + AttentionEvents(b, now)
  {
    if a == [] {
      assert a + b == b;
    } else {
      var y, t := a[0], a[1..];
      assert a + b == [y] + (t + b);
      AttentionEventsConcat(t, b, now);
      if !NeedsAttention(y, now) {
        assert AttentionEvents(a + b, now) == AttentionEvents(t + b, now);
      } else {
        assert AttentionEvents(a + b, now) == [y] + AttentionEvents(t + b, now);
        assert [y] + (AttentionEvents(t, now) + AttentionEvents(b, now)) == ([y] + AttentionEvents(t, now)) + AttentionEvents(b, now);
      }
    }
  }

  function EventsNeedingAttention(es: seq<Event>, now: int): nat
  {
    |AttentionEvents(es, now)|
  }

  /** The attention counter adds up over pieces of the event list, and a
      single event counts one exactly when it needs attention. */
  lemma EventsNeedingAttentionAdds(a: seq<Event>, b: seq<Event>, e: Event, now: int)
    ensures EventsNeedingAttention(a + b, now) == EventsNeedingAttention(a, now) + EventsNeedingAttention(b, now)
    ensures EventsNeedingAttention([e], now) == if NeedsAttention(e, now) then 1 else 0
  {
    AttentionEventsConcat(a, b, now);
  }

  /** The upcoming events, in their original order. */
  function UpcomingEvents(es: seq<Event>): (r: seq<Event>)
    ensures |r| <= |es|
  {
    if es == [] then []
    else if es[0].status == Upcoming then [es[0]] + UpcomingEvents(es[1..])
    else UpcomingEvents(es[1..])
  }

  /** An event is listed exactly when it is one of the events and upcoming. */
  lemma {:induction false} UpcomingEventsMembers(es: seq<Event>)
    ensures forall e :: e in UpcomingEvents(es) <==> e in es && e.status == Upcoming
  {
    if es != [] {
      UpcomingEventsMembers(es[1..]);
      assert es == [es[0]] + es[1..];
    }
  }

  /** The filter works piece by piece, so the upcoming events keep their order. */
  lemma {:induction false} UpcomingEventsConcat(a: seq<Event>, b: seq<Event>)
    ensures UpcomingEvents(a + b) == UpcomingEvents(a) + UpcomingEvents(b)
  {
    if a == [] {
      assert a + b == b;
    } else {
      var y, t := a[0], a[1..];
      assert a + b == [y] + (t + b);
      UpcomingEventsConcat(t, b);
      if y.status != Upcoming {
        assert UpcomingEvents(a + b) == UpcomingEvents(t + b);
      } else {
        assert UpcomingEvents(a + b) == [y] + UpcomingEvents(t + b);
        assert [y] + (UpcomingEvents(t) + UpcomingEvents(b)) == ([y] + UpcomingEvents(t)) + UpcomingEvents(b);
      }
    }
  }

  /** The attention counter never exceeds the upcoming-events counter. */
  lemma {:induction false} AttentionAmongUpcoming(es: seq<Event>, now: int)
    ensures EventsNeedingAttention(es, now) <= |UpcomingEvents(es)|
  {
    if es != [] {
      AttentionAmongUpcoming(es[1..], now);
    }
  }

  // ---------------------------------------------------------------------
  // The session

  class AdminSession {
    var students: seq<Student>
    var events: seq<Event>
    var statuses: seq<RegistrationStatus>
    /** The event picked on the registrations tab; empty when none is. */
    var selectedEventId: string

    constructor(students0: seq<Student>, events0: seq<Event>, statuses0: seq<RegistrationStatus>)
      ensures students == students0 && events == events0 && statuses == statuses0
      ensures selectedEventId == ""
    {
      students, events, statuses := students0, events0, statuses0;
      selectedEventId := "";
    }

    /** The event the registrations tab shows, if the selection names one. */
    function SelectedEvent(): (r: Option<Event>)
      reads this
      ensures r.Some? ==> r.value in events && r.value.id == selectedEventId
      ensures r.None? <==> forall i :: 0 <= i < |events| ==> events[i].id != selectedEventId
      ensures r.Some? ==> exists i :: 0 <= i < |events| && events[i] == r.value
                            && forall j :: 0 <= j < i ==> events[j].id != selectedEventId
    {
      FindEvent(events, selectedEventId)
    }

    /** Selecting an event, as the registrations tab and the invitation
        button of the events tab do. */
    method SelectEvent(id: string)
      modifies this`selectedEventId
      ensures selectedEventId == id
    {
      selectedEventId := id;
    }

    method AddStudent(id: string, f: StudentFields)
      modifies this`students
      ensures students == old(students) + [f.WithId(id)]
    {
      students := students + [f.WithId(id)];
    }

    method UpdateStudent(id: string, f: StudentFields)
      modifies this`students
      ensures students == ReplaceStudent(old(students), id, f)
      ensures events == old(events) && statuses == old(statuses)
    {
      students := ReplaceStudent(students, id, f);
    }

    /** Removes the student and takes it out of every event's registrations;
        its registration statuses stay. */
    method DeleteStudent(id: string)
      modifies this`students, this`events
      ensures students == RemoveStudent(old(students), id)
      ensures events == StripRegistrant(old(events), id)
      ensures statuses == old(statuses)
    {
      students := RemoveStudent(students, id);
      events := StripRegistrant(events, id);
    }

    method AddEvent(id: string, d: EventDraft)
      modifies this`events
      ensures events == old(events) + [d.WithId(id)]
      ensures students == old(students) && statuses == old(statuses)
    {
      events := events + [d.WithId(id)];
    }

    method UpdateEvent(id: string, d: EventDraft)
      modifies this`events
      ensures events == ReplaceEvent(old(events), id, d)
      ensures students == old(students) && statuses == old(statuses)
    {
      events := ReplaceEvent(events, id, d);
    }

    /** Removes the event and the statuses of the students registered for it. */
    method DeleteEvent(id: string)
      modifies this`events, this`statuses
      ensures events == RemoveEvent(old(events), id)
      ensures statuses == StatusesAfterEventDeletion(old(events), old(statuses), id)
      ensures students == old(students)
    {
      var before := events;
      events := RemoveEvent(events, id);
      statuses := StatusesAfterEventDeletion(before, statuses, id);
    }

    /** Merges the invitees into the event's registrations and gives each of
        them a fresh pending status in place of any earlier one. */
    method SendInvitations(eventId: string, ids: seq<string>)
      modifies this`events, this`statuses
      ensures events == AddInvitees(old(events), eventId, ids)
      ensures statuses == InviteStatuses(old(statuses), ids)
      ensures students == old(students)
    {
      events := AddInvitees(events, eventId, ids);
      statuses := InviteStatuses(statuses, ids);
    }

    /** Upserts the student's status; a cancellation also takes the student
        out of the registrations of event `eventId`. */
    method UpdateRegistration(eventId: string, sid: string, st: RegState, now: int)
      modifies this`events, this`statuses
      ensures statuses == UpsertStatus(old(statuses), sid, st, now)
      ensures events == if st == Cancelled then DropFromEvent(old(events), eventId, sid) else old(events)
      ensures students == old(students)
    {
      statuses := UpsertStatus(statuses, sid, st, now);
      if st == Cancelled {
        events := DropFromEvent(events, eventId, sid);
      }
    }

    method UpdateAttendance(eventId: string, att: map<string, bool>)
      modifies this`events
      ensures events == SetAttendance(old(events), eventId, att)
      ensures students == old(students) && statuses == old(statuses)
    {
      events := SetAttendance(events, eventId, att);
    }

    /** Adds `amount` to the student's balance; the reason is only logged. */
    method ChargeStudent(sid: string, amount: int)
      modifies this`students
      ensures students == Charge(old(students), sid, amount)
    {
      students := Charge(students, sid, amount);
    }
  }
}
