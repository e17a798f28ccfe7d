/** Attendance taking for one event and the no-show charges that follow from
    it: one record per registered student, the full price for every student
    not marked present, the charges pushed to the session as negative balance
    adjustments, and the report built from the records. */
module AttendanceManagement {
  import opened Domain
  import MainApp

  datatype AttendanceRecord = AttendanceRecord(studentId: string, attended: bool, charge: int)

  /** A report line: the record and the student it resolves to. */
  datatype ReportEntry = ReportEntry(record: AttendanceRecord, student: Option<Student>)

  datatype ReportData = ReportData(
    records: seq<AttendanceRecord>,
    attendedCount: nat,
    absentCount: nat,
    totalCharges: int,
    absentStudents: seq<ReportEntry>,
    attendedStudents: seq<ReportEntry>)

  predicate UniqueIds(ss: seq<Student>)
  {
    forall i, j :: 0 <= i < j < |ss| ==> ss[i].id != ss[j].id
  }

  /** The students registered for the event, in the order of the student list. */
  function RegisteredStudents(students: seq<Student>, e: Event): (r: seq<Student>)
    ensures |r| <= |students|
  {
    if students == [] then []
    else if students[0].id in e.registrations then [students[0]] + RegisteredStudents(students[1..], e)
    else RegisteredStudents(students[1..], e)
  }

  /** A student is selected exactly when listed and registered for the event,
      and a list with unique ids gives a selection with unique ids. */
  lemma {:induction false} RegisteredStudentsMembers(students: seq<Student>, e: Event)
    ensures forall s :: s in RegisteredStudents(students, e) <==> s in students && s.id in e.registrations
    ensures UniqueIds(students) ==> UniqueIds(RegisteredStudents(students, e))
  {
    if students != [] {
      RegisteredStudentsMembers(students[1..], e);
      assert students == [students[0]] + students[1..];
    }
  }

  /** The selection works piece by piece, so the registered students keep the order of the student list. */
  lemma {:induction false} RegisteredStudentsConcat(a: seq<Student>, b: seq<Student>, e: Event)
    ensures RegisteredStudents(a + b, e) == RegisteredStudents(a, e) + RegisteredStudents(b, e)
  {
    if a == [] {
      assert a + b == b;
    } else {
      var y, t := a[0], a[1..];
      assert a + b == [y] + (t + b);
      RegisteredStudentsConcat(t, b, e);
      if y.id !in e.registrations {
        assert RegisteredStudents(a + b, e) == RegisteredStudents(t + b, e);
      } else {
        assert RegisteredStudents(a + b, e) == [y] + RegisteredStudents(t + b, e);
        assert [y] + (RegisteredStudents(t, e) + RegisteredStudents(b, e)) == ([y] + RegisteredStudents(t, e)) + RegisteredStudents(b, e);
      }
    }
  }

  /** A student counts as present only when the map records `true`;
      a missing entry counts as absent. */
  predicate Attended(att: map<string, bool>, id: string)
  {
    id in att && att[id]
  }

  /** The record the charge rule gives one registered student. */
  function RecordFor(s: Student, att: map<string, bool>, price: int): AttendanceRecord
  {
    AttendanceRecord(s.id, Attended(att, s.id), if Attended(att, s.id) then 0 else price)
  }

  /** One record per registered student, in order: present students owe
      nothing and absent ones owe the full price. */
  function ChargeRecords(regs: seq<Student>, att: map<string, bool>, price: int): (r: seq<AttendanceRecord>)
    ensures |r| == |regs|
    ensures forall i :: 0 <= i < |regs| ==>
              r[i].studentId == regs[i].id
              && (r[i].attended <==> regs[i].id in att && att[regs[i].id])
              && r[i].charge == (if r[i].attended then 0 else price)
  {
    if regs == [] then []
    else ChargeRecords(regs[..|regs| - 1], att, price) + [RecordFor(regs[|regs| - 1], att, price)]
  }

  /** The records with a positive charge, in order. */
  function Chargeable(rs: seq<AttendanceRecord>): (r: seq<AttendanceRecord>)
    ensures |r| <= |rs|
  {
    if rs == [] then []
    else (if rs[0].charge > 0 then [rs[0]] else []) + Chargeable(rs[1..])
  }

  /** The selection works piece by piece, so the chargeable records keep their order. */
  lemma {:induction false} ChargeableConcat(a: seq<AttendanceRecord>, b: seq<AttendanceRecord>)
    ensures Chargeable(a + b) == Chargeable(a) + Chargeable(b)
  {
    if a == [] {
      assert a + b == b;
    } else {
      var y, t := a[0], a[1..];
      assert a + b == [y] + (t + b);
      ChargeableConcat(t, b);
      if y.charge <= 0 {
        assert Chargeable(a + b) == Chargeable(t + b);
      } else {
        assert Chargeable(a + b) == [y] + Chargeable(t + b);
        assert [y] + (Chargeable(t) + Chargeable(b)) == ([y] + Chargeable(t)) + Chargeable(b);
      }
    }
  }

  /** A record is chargeable exactly when it is one of the records and its
      charge is positive. */
  lemma {:induction false} ChargeableMembers(rs: seq<AttendanceRecord>)
    ensures forall x :: x in Chargeable(rs) <==> x in rs && x.charge > 0
  {
    if rs != [] {
      ChargeableMembers(rs[1..]);
      assert rs == [rs[0]] + rs[1..];
    }
  }

  /** The total charged to student `id` by the records. */
  function ChargesFor(rs: seq<AttendanceRecord>, id: string): int
  {
    if rs == [] then 0
    else (if rs[0].studentId == id then rs[0].charge else 0) + ChargesFor(rs[1..], id)
  }

  /** The student list after one `onChargeStudent(id, -charge)` call per record, in order. */
  function ApplyCharges(ss: seq<Student>, rs: seq<AttendanceRecord>): seq<Student>
    decreases rs
  {
    if rs == [] then ss
    else ApplyCharges(MainApp.Charge(ss, rs[0].studentId, -rs[0].charge), rs[1..])
  }

  /** Applying a run of charges lowers each student's balance by what the
      records charge that student's id, and changes nothing else. */
  lemma {:induction false} ApplyChargesEffect(ss: seq<Student>, rs: seq<AttendanceRecord>)
    ensures |ApplyCharges(ss, rs)| == |ss|
    ensures forall i :: 0 <= i < |ss| ==>
              ApplyCharges(ss, rs)[i] == ss[i].(balance := ss[i].balance - ChargesFor(rs, ss[i].id))
    decreases rs
  {
    if rs != [] {
      var first := MainApp.Charge(ss, rs[0].studentId, -rs[0].charge);
      ApplyChargesEffect(first, rs[1..]);
      forall i | 0 <= i < |ss|
        ensures ApplyCharges(ss, rs)[i] == ss[i].(balance := ss[i].balance - ChargesFor(rs, ss[i].id))
      {
        assert first[i].id == ss[i].id;
      }
    }
  }

  /** Nothing guards against processing the same charges again: a second run
      lowers every balance by the same amount once more. */
  lemma ApplyChargesTwice(ss: seq<Student>, rs: seq<AttendanceRecord>)
    ensures |ApplyCharges(ApplyCharges(ss, rs), rs)| == |ss|
    ensures forall i :: 0 <= i < |ss| ==>
              ApplyCharges(ApplyCharges(ss, rs), rs)[i].balance == ss[i].balance - 2 * ChargesFor(rs, ss[i].id)
  {
    ApplyChargesEffect(ss, rs);
    ApplyChargesEffect(ApplyCharges(ss, rs), rs);
  }

  predicate DistinctStudents(rs: seq<AttendanceRecord>)
  {
    forall i, j :: 0 <= i < j < |rs| ==> rs[i].studentId != rs[j].studentId
  }

  /** The charges of a student split over a record run cut in two. */
  lemma {:induction false} ChargesForAppend(rs: seq<AttendanceRecord>, ts: seq<AttendanceRecord>, id: string)
    ensures ChargesFor(rs + ts, id) == ChargesFor(rs, id) + ChargesFor(ts, id)
  {
    if rs != [] {
      ChargesForAppend(rs[1..], ts, id);
      assert (rs + ts)[1..] == rs[1..] + ts;
    } else {
      assert rs + ts == ts;
    }
  }

  /** Charges of a student without a record: none. */
  lemma {:induction false} NoRecordNoCharge(rs: seq<AttendanceRecord>, id: string)
    requires forall i :: 0 <= i < |rs| ==> rs[i].studentId != id
    ensures ChargesFor(Chargeable(rs), id) == 0
  {
    if rs != [] {
      var head := if rs[0].charge > 0 then [rs[0]] else [];
      assert forall i :: 0 <= i < |rs| - 1 ==> rs[1..][i] == rs[i + 1];
      NoRecordNoCharge(rs[1..], id);
      ChargesForAppend(head, Chargeable(rs[1..]), id);
    }
  }

  /** With one record per student, the positive charges charge a student
      exactly its own record's charge when that is positive, else nothing. */
  lemma {:induction false} OwnChargeOnly(rs: seq<AttendanceRecord>, k: nat)
    requires DistinctStudents(rs) && k < |rs|
    ensures ChargesFor(Chargeable(rs), rs[k].studentId) == if rs[k].charge > 0 then rs[k].charge else 0
  {
    var tail := rs[1..];
    var id := rs[k].studentId;
    var head := if rs[0].charge > 0 then [rs[0]] else [];
    assert forall i :: 0 <= i < |tail| ==> tail[i] == rs[i + 1];
    if k == 0 {
      NoRecordNoCharge(tail, id);
    } else {
      assert DistinctStudents(tail);
      OwnChargeOnly(tail, k - 1);
      assert rs[0].studentId != id;
    }
    ChargesForAppend(head, Chargeable(tail), id);
  }

  /** With distinct student ids, one run of the positive charges costs a
      registered no-show exactly the price (when the price is positive), a
      present student nothing, and a student who is not registered nothing. */
  lemma ChargedOncePerNoShow(regs: seq<Student>, att: map<string, bool>, price: int, id: string)
    requires UniqueIds(regs)
    ensures forall k :: 0 <= k < |regs| ==>
              ChargesFor(Chargeable(ChargeRecords(regs, att, price)), regs[k].id)
              == if !Attended(att, regs[k].id) && price > 0 then price else 0
    ensures (forall k :: 0 <= k < |regs| ==> regs[k].id != id) ==>
              ChargesFor(Chargeable(ChargeRecords(regs, att, price)), id) == 0
  {
    var rs := ChargeRecords(regs, att, price);
    assert DistinctStudents(rs);
    forall k | 0 <= k < |regs|
      ensures ChargesFor(Chargeable(rs), regs[k].id) == if !Attended(att, regs[k].id) && price > 0 then price else 0
    {
      OwnChargeOnly(rs, k);
    }
    if forall k :: 0 <= k < |regs| ==> regs[k].id != id {
      NoRecordNoCharge(rs, id);
    }
  }

  // ---------------------------------------------------------------------
  // Report

  /** The records of absent students, in record order. */
  function Absentees(rs: seq<AttendanceRecord>): (r: seq<AttendanceRecord>)
    ensures |r| <= |rs|
  {
    if rs == [] then []
    else
      var last := rs[|rs| - 1];
      Absentees(rs[..|rs| - 1]) + (if last.attended then [] else [last])
  }

  /** The selection works piece by piece, so the absent records keep their order. */
  lemma {:induction false} AbsenteesConcat(a: seq<AttendanceRecord>, b: seq<AttendanceRecord>)
    ensures Absentees(a + b) == Absentees(a) + Absentees(b)
  {
    if b == [] {
      assert a + b == a;
    } else {
      AbsenteesConcat(a, b[..|b| - 1]);
      assert (a + b)[..|a + b| - 1] == a + b[..|b| - 1];
      assert (a + b)[|a + b| - 1] == b[|b| - 1];
    }
  }

  lemma {:induction false} AbsenteesMembers(rs: seq<AttendanceRecord>)
    ensures forall x :: x in Absentees(rs) <==> x in rs && !x.attended
  {
    if rs != [] {
      var init, last := rs[..|rs| - 1], rs[|rs| - 1];
      AbsenteesMembers(init);
      assert rs == init + [last];
    }
  }

  /** The records of present students, in record order. */
  function Attendees(rs: seq<AttendanceRecord>): (r: seq<AttendanceRecord>)
    ensures |r| <= |rs|
  {
    if rs == [] then []
    else
      var last := rs[|rs| - 1];
      Attendees(rs[..|rs| - 1]) + (if last.attended then [last] else [])
  }

  /** The selection works piece by piece, so the present records keep their order. */
  lemma {:induction false} AttendeesConcat(a: seq<AttendanceRecord>, b: seq<AttendanceRecord>)
    ensures Attendees(a + b) == Attendees(a) + Attendees(b)
  {
    if b == [] {
      assert a + b == a;
    } else {
      AttendeesConcat(a, b[..|b| - 1]);
      assert (a + b)[..|a + b| - 1] == a + b[..|b| - 1];
      assert (a + b)[|a + b| - 1] == b[|b| - 1];
    }
  }

  lemma {:induction false} AttendeesMembers(rs: seq<AttendanceRecord>)
    ensures forall x :: x in Attendees(rs) <==> x in rs && x.attended
  {
    if rs != [] {
      var init, last := rs[..|rs| - 1], rs[|rs| - 1];
      AttendeesMembers(init);
      assert rs == init + [last];
    }
  }

  /** Absent and present records split the records: together they are the
      records, each one exactly once. */
  lemma {:induction false} AbsentAttendedPartition(rs: seq<AttendanceRecord>)
    ensures multiset(Absentees(rs)) + multiset(Attendees(rs)) == multiset(rs)
    ensures |Absentees(rs)| + |Attendees(rs)| == |rs|
  {
    if rs != [] {
      var init, last := rs[..|rs| - 1], rs[|rs| - 1];
      AbsentAttendedPartition(init);
      assert rs == init + [last];
      assert multiset(rs) == multiset(init) + multiset{last};
      if last.attended {
        assert Attendees(rs) == Attendees(init) + [last];
        assert multiset(Attendees(rs)) == multiset(Attendees(init)) + multiset{last};
      } else {
        assert Absentees(rs) == Absentees(init) + [last];
        assert multiset(Absentees(rs)) == multiset(Absentees(init)) + multiset{last};
      }
    }
  }

  function TotalCharges(rs: seq<AttendanceRecord>): int
  {
    if rs == [] then 0 else TotalCharges(rs[..|rs| - 1]) + rs[|rs| - 1].charge
  }

  /** The total of records that charge the price exactly to the absent
      is the price times the number of absent records. */
  lemma {:induction false} TotalIsPriceTimesAbsent(rs: seq<AttendanceRecord>, price: int)
    requires forall i :: 0 <= i < |rs| ==> rs[i].charge == if rs[i].attended then 0 else price
    ensures TotalCharges(rs) == price * |Absentees(rs)|
  {
    if rs != [] {
      var init := rs[..|rs| - 1];
      var last := rs[|rs| - 1];
      assert forall i :: 0 <= i < |init| ==> init[i] == rs[i];
      TotalIsPriceTimesAbsent(init, price);
      var n := |Absentees(init)|;
      assert TotalCharges(rs) == TotalCharges(init) + last.charge;
      if !last.attended {
        assert Absentees(rs) == Absentees(init) + [last];
        assert price * (n + 1) == price * n + price;
      } else {
        assert Absentees(rs) == Absentees(init);
      }
    }
  }

  /** Each record with the student it names, looked up in the student list. */
  function Resolve(rs: seq<AttendanceRecord>, students: seq<Student>): (r: seq<ReportEntry>)
    ensures |r| == |rs|
    ensures forall i :: 0 <= i < |rs| ==>
              r[i].record == rs[i] && r[i].student == FindStudent(students, rs[i].studentId)
  {
    if rs == [] then [] else [ReportEntry(rs[0], FindStudent(students, rs[0].studentId))] + Resolve(rs[1..], students)
  }

  /** `generateReportData`: counts, total and the two resolved lists. */
  function GenerateReportData(students: seq<Student>, e: Event, att: map<string, bool>): (d: ReportData)
    ensures d.records == ChargeRecords(RegisteredStudents(students, e), att, e.price)
    ensures d.attendedCount + d.absentCount == |d.records|
    ensures d.totalCharges == e.price * d.absentCount
    ensures |d.absentStudents| == d.absentCount && |d.attendedStudents| == d.attendedCount
  {
    var records := ChargeRecords(RegisteredStudents(students, e), att, e.price);
    AbsentAttendedPartition(records);
    TotalIsPriceTimesAbsent(records, e.price);
    ReportData(records, |Attendees(records)|, |Absentees(records)|, TotalCharges(records),
               Resolve(Absentees(records), students), Resolve(Attendees(records), students))
  }

  /** The counts are those of the absent and present records, and line `i`
      of the absent list is the `i`-th absent record of the report,
      so a record of the report that was not attended, with the student its
      id names; the present list is built the same way from the attended
      records. */
  lemma ReportListsFromRecords(students: seq<Student>, e: Event, att: map<string, bool>)
    ensures var d := GenerateReportData(students, e, att);
            d.absentCount == |Absentees(d.records)| && d.attendedCount == |Attendees(d.records)|
    ensures var d := GenerateReportData(students, e, att);
            (forall i :: 0 <= i < |d.absentStudents| ==>
               d.absentStudents[i].record == Absentees(d.records)[i]
               && d.absentStudents[i].record in d.records && !d.absentStudents[i].record.attended
               && d.absentStudents[i].student == FindStudent(students, d.absentStudents[i].record.studentId))
            && (forall i :: 0 <= i < |d.attendedStudents| ==>
               d.attendedStudents[i].record == Attendees(d.records)[i]
               && d.attendedStudents[i].record in d.records && d.attendedStudents[i].record.attended
               && d.attendedStudents[i].student == FindStudent(students, d.attendedStudents[i].record.studentId))
  {
    var d := GenerateReportData(students, e, att);
    AbsenteesMembers(d.records);
    AttendeesMembers(d.records);
    forall i | 0 <= i < |d.absentStudents|
      ensures d.absentStudents[i].record in d.records && !d.absentStudents[i].record.attended
    {
      assert Absentees(d.records)[i] in Absentees(d.records);
    }
    forall i | 0 <= i < |d.attendedStudents|
      ensures d.attendedStudents[i].record in d.records && d.attendedStudents[i].record.attended
    {
      assert Attendees(d.records)[i] in Attendees(d.records);
    }
  }

  /** The students of report lines that resolved, in order. */
  function ResolvedStudents(es: seq<ReportEntry>): (r: seq<Student>)
    ensures |r| <= |es|
    ensures (forall i :: 0 <= i < |es| ==> es[i].student.Some?) ==> |r| == |es|
  {
    if es == [] then []
    else if es[0].student.Some? then [es[0].student.value] + ResolvedStudents(es[1..])
    else ResolvedStudents(es[1..])
  }

  /** Unresolved lines are skipped piece by piece, so the students keep the order of the lines. */
  lemma {:induction false} ResolvedStudentsConcat(a: seq<ReportEntry>, b: seq<ReportEntry>)
    ensures ResolvedStudents(a + b) == ResolvedStudents(a) + ResolvedStudents(b)
  {
    if a == [] {
      assert a + b == b;
    } else {
      var y, t := a[0], a[1..];
      assert a + b == [y] + (t + b);
      ResolvedStudentsConcat(t, b);
      if y.student.None? {
        assert ResolvedStudents(a + b) == ResolvedStudents(t + b);
      } else {
        assert ResolvedStudents(a + b) == [y.student.value] + ResolvedStudents(t + b);
        assert [y.student.value] + (ResolvedStudents(t) + ResolvedStudents(b)) == ([y.student.value] + ResolvedStudents(t)) + ResolvedStudents(b);
      }
    }
  }

  /** A student is listed exactly when some line resolved to them. */
  lemma {:induction false} ResolvedStudentsMembers(es: seq<ReportEntry>)
    ensures forall s :: s in ResolvedStudents(es) <==> exists i :: 0 <= i < |es| && es[i].student == Some(s)
  {
    if es != [] {
      ResolvedStudentsMembers(es[1..]);
      forall s | (exists i :: 0 <= i < |es| && es[i].student == Some(s)) && es[0].student != Some(s)
        ensures exists i :: 0 <= i < |es[1..]| && es[1..][i].student == Some(s)
      {
        var i :| 0 <= i < |es| && es[i].student == Some(s);
        assert es[1..][i - 1] == es[i];
      }
    }
  }

  /** Every record built from students of a list names a student of that list. */
  lemma RecordsResolve(regs: seq<Student>, students: seq<Student>, att: map<string, bool>, price: int)
    requires forall s :: s in regs ==> s in students
    ensures forall rec :: rec in ChargeRecords(regs, att, price) ==> FindStudent(students, rec.studentId).Some?
  {
    var rs := ChargeRecords(regs, att, price);
    forall rec | rec in rs
      ensures FindStudent(students, rec.studentId).Some?
    {
      var k :| 0 <= k < |rs| && rs[k] == rec;
      assert regs[k] in regs;
      var j :| 0 <= j < |students| && students[j] == regs[k];
      assert students[j].id == rec.studentId;
    }
  }

  /** Records whose students are all in the list resolve to report lines
      that all carry a student. */
  lemma ResolveAll(rs: seq<AttendanceRecord>, students: seq<Student>)
    requires forall rec :: rec in rs ==> FindStudent(students, rec.studentId).Some?
    ensures forall i :: 0 <= i < |rs| ==> Resolve(rs, students)[i].student.Some?
  {
    forall i | 0 <= i < |rs|
      ensures Resolve(rs, students)[i].student.Some?
    {
      assert rs[i] in rs;
    }
  }

  /** Every record names a student of the list it was built from, so every
      absent line resolves and the absentee recipients are as many as the
      absent students. */
  lemma AbsenteesResolve(students: seq<Student>, e: Event, att: map<string, bool>)
    ensures forall en :: en in GenerateReportData(students, e, att).absentStudents ==> en.student.Some?
    ensures |ResolvedStudents(GenerateReportData(students, e, att).absentStudents)|
            == GenerateReportData(students, e, att).absentCount
  {
    var regs := RegisteredStudents(students, e);
    var records := ChargeRecords(regs, att, e.price);
    RegisteredStudentsMembers(students, e);
    RecordsResolve(regs, students, att, e.price);
    var absent := Absentees(records);
    AbsenteesMembers(records);
    ResolveAll(absent, students);
    var lines := GenerateReportData(students, e, att).absentStudents;
    assert lines == Resolve(absent, students);
    assert forall en :: en in lines ==> en.student.Some?;
  }

  /** With unique ids, looking a listed student up by their id finds them. */
  lemma FindListed(ss: seq<Student>, s: Student)
    requires UniqueIds(ss) && s in ss
    ensures FindStudent(ss, s.id) == Some(s)
  {
    var r := FindStudent(ss, s.id);
    var j :| 0 <= j < |ss| && ss[j] == s;
    var k :| 0 <= k < |ss| && ss[k] == r.value;
  }

  /** A record of the report names a student registered for the event and
      is marked attended exactly when the attendance map says present. */
  lemma RegisteredRecord(students: seq<Student>, e: Event, att: map<string, bool>, price: int, rec: AttendanceRecord)
    requires rec in ChargeRecords(RegisteredStudents(students, e), att, price)
    ensures rec.studentId in e.registrations && (rec.attended <==> Attended(att, rec.studentId))
  {
    var regs := RegisteredStudents(students, e);
    var rs := ChargeRecords(regs, att, price);
    var k :| 0 <= k < |rs| && rs[k] == rec;
    RegisteredStudentsMembers(students, e);
    assert regs[k] in regs;
  }

  /** Every recipient of the absentee message is a student of the list who
      is registered for the event and not marked present. */
  lemma RecipientsAreAbsent(students: seq<Student>, e: Event, att: map<string, bool>)
    ensures forall s :: s in ResolvedStudents(GenerateReportData(students, e, att).absentStudents) ==>
              s in students && s.id in e.registrations && !Attended(att, s.id)
  {
    var records := ChargeRecords(RegisteredStudents(students, e), att, e.price);
    var absent := Absentees(records);
    var lines := Resolve(absent, students);
    assert GenerateReportData(students, e, att).absentStudents == lines;
    ResolvedStudentsMembers(lines);
    AbsenteesMembers(records);
    forall s | s in ResolvedStudents(lines)
      ensures s in students && s.id in e.registrations && !Attended(att, s.id)
    {
      var i :| 0 <= i < |lines| && lines[i].student == Some(s);
      assert absent[i] in absent;
      RegisteredRecord(students, e, att, e.price, absent[i]);
    }
  }

  /** With unique ids, every student of the list who is registered for the
      event and not marked present receives the absentee message. */
  lemma AbsentAreRecipients(students: seq<Student>, e: Event, att: map<string, bool>)
    requires UniqueIds(students)
    ensures forall s :: s in students && s.id in e.registrations && !Attended(att, s.id) ==>
              s in ResolvedStudents(GenerateReportData(students, e, att).absentStudents)
  {
    forall s | s in students && s.id in e.registrations && !Attended(att, s.id)
      ensures s in ResolvedStudents(GenerateReportData(students, e, att).absentStudents)
    {
      AbsentIsRecipient(students, e, att, s);
    }
  }

  lemma AbsentIsRecipient(students: seq<Student>, e: Event, att: map<string, bool>, s: Student)
    requires UniqueIds(students)
    requires s in students && s.id in e.registrations && !Attended(att, s.id)
    ensures s in ResolvedStudents(GenerateReportData(students, e, att).absentStudents)
  {
    var regs := RegisteredStudents(students, e);
    var records := ChargeRecords(regs, att, e.price);
    var absent := Absentees(records);
    var lines := Resolve(absent, students);
    assert GenerateReportData(students, e, att).absentStudents == lines;
    RegisteredStudentsMembers(students, e);
    assert s in regs;
    var k :| 0 <= k < |regs| && regs[k] == s;
    AbsenteesMembers(records);
    assert records[k] in absent;
    var i :| 0 <= i < |absent| && absent[i] == records[k];
    FindListed(students, s);
    assert lines[i].student == Some(s);
    ResolvedStudentsMembers(lines);
  }

  // ---------------------------------------------------------------------
  // The attendance screen

  class AttendanceSheet {
    var attendance: map<string, bool>
    var reportEmail: string
    var absenteeMessage: string

    constructor(e: Event)
      ensures attendance == e.attendance && reportEmail == "" && absenteeMessage == ""
    {
      attendance, reportEmail, absenteeMessage := e.attendance, "", "";
    }

    /** Records one student's attendance and pushes the whole map to the session. */
    method ChangeAttendance(session: MainApp.AdminSession, e: Event, sid: string, attended: bool)
      modifies this`attendance, session`events
      ensures attendance == old(attendance)[sid := attended]
      ensures session.events == MainApp.SetAttendance(old(session.events), e.id, attendance)
      ensures session.students == old(session.students) && session.statuses == old(session.statuses)
    {
      attendance := attendance[sid := attended];
      session.UpdateAttendance(e.id, attendance);
    }

    /** `calculateCharges`: one record per registered student. */
    method CalculateCharges(students: seq<Student>, e: Event) returns (records: seq<AttendanceRecord>)
      ensures records == ChargeRecords(RegisteredStudents(students, e), attendance, e.price)
    {
      var regs := RegisteredStudents(students, e);
      records := [];
      for i := 0 to |regs|
        invariant records == ChargeRecords(regs[..i], attendance, e.price)
      {
        var s := regs[i];
        var attended := s.id in attendance && attendance[s.id];
        var charge := 0;
        if !attended {
          charge := e.price;
        }
        records := records + [AttendanceRecord(s.id, attended, charge)];
        assert regs[..i + 1][..i] == regs[..i];
      }
      assert regs[..|regs|] == regs;
    }

    /** `handleProcessCharges`: one negative balance adjustment per record with
        a positive charge; returns how many students were charged. */
    method ProcessCharges(session: MainApp.AdminSession, e: Event) returns (charged: nat)
      modifies session`students
      ensures var due := Chargeable(ChargeRecords(RegisteredStudents(old(session.students), e), attendance, e.price));
              charged == |due| && session.students == ApplyCharges(old(session.students), due)
    {
      var records := CalculateCharges(session.students, e);
      var due := Chargeable(records);
      if |due| == 0 {
        return 0;
      }
      ChargeEach(session, due);
      charged := |due|;
    }

    /** `chargeRecords.forEach(record => onChargeStudent(record.studentId, -record.charge, …))` */
    static method ChargeEach(session: MainApp.AdminSession, due: seq<AttendanceRecord>)
      modifies session`students
      ensures session.students == ApplyCharges(old(session.students), due)
    {
      ghost var start := session.students;
      for i := 0 to |due|
        invariant ApplyCharges(session.students, due[i..]) == ApplyCharges(start, due)
      {
        assert due[i..][1..] == due[i + 1..];
        session.ChargeStudent(due[i].studentId, -due[i].charge);
      }
    }

    /** Refused while the address is empty; otherwise hands over the report
        data and clears the address. */
    method SendReport(students: seq<Student>, e: Event) returns (sent: Option<ReportData>)
      modifies this`reportEmail
      ensures old(reportEmail) == "" ==> sent == None && reportEmail == ""
      ensures old(reportEmail) != "" ==>
                sent == Some(GenerateReportData(students, e, attendance)) && reportEmail == ""
    {
      if reportEmail == "" {
        return None;
      }
      sent := Some(GenerateReportData(students, e, attendance));
      reportEmail := "";
    }

    /** Refused for a blank message and when no absent student resolves;
        otherwise returns the absent students and clears the message. */
    method SendAbsenteeMessage(students: seq<Student>, e: Event) returns (recipients: seq<Student>)
      modifies this`absenteeMessage
      ensures IsBlank(old(absenteeMessage)) ==> recipients == [] && absenteeMessage == old(absenteeMessage)
      ensures !IsBlank(old(absenteeMessage)) ==>
                recipients == ResolvedStudents(GenerateReportData(students, e, attendance).absentStudents)
                && absenteeMessage == (if |recipients| == 0 then old(absenteeMessage) else "")
    {
      if IsBlank(absenteeMessage) {
        return [];
      }
      var report := GenerateReportData(students, e, attendance);
      recipients := ResolvedStudents(report.absentStudents);
      if |recipients| == 0 {
        return;
      }
      absenteeMessage := "";
    }
  }
}
