# Trip dashboard core, modelled in Dafny

This project models the business logic of a trip-management dashboard for a
university's international school. There are two front ends:

- The administrator's dashboard keeps three lists in one session: students, trips ("events") and registration statuses. Its screens are:
  - the student roster, with a spreadsheet import;
  - the event list, with a registration-minimum classification;
  - the registrations and invitations of one event;
  - attendance, with no-show charging.
- The student portal lets a student log in, register for a trip, cancel within the cancellation window and read notifications.

Timestamps are whole milliseconds. The current time (`now`) and every
generated id are parameters. Money is a whole number.

Modules, one per source file:

| module | source file | form |
|---|---|---|
| `Domain` | shared types of `src/MainApp.tsx` and the components | datatypes, the day count, blank-after-trim |
| `MainApp` | `src/MainApp.tsx` | class `AdminSession` (the three lists and the selected event), with each handler specified by a pure function; the dashboard figures as functions |
| `AttendanceManagement` | `src/components/AttendanceManagement.tsx` | class `AttendanceSheet`; the charge loop and the loop pushing charges are methods with invariants; the report as functions |
| `StudentManagement` | `src/components/StudentManagement.tsx` | class `StudentForm`; the import loop is a method; row mapping and balance sign as functions |
| `EventManagement` | `src/components/EventManagement.tsx` | class `EventEditor` for the form state; classification, badge and alert as functions |
| `RegistrationManagement` | `src/components/RegistrationManagement.tsx` | class `InvitationPanel` for the selection; status lookup, counters and flags as functions |
| `StudentApp` | `src/StudentApp.tsx` | class `StudentPortal`; lookups, the per-event view and counters as functions |

A component method calls the `AdminSession` method wherever the component
calls one of its `onXxx` callbacks. Its `ensures` therefore state the
session's new lists.

Where the code and its written description differ, the model follows the code:

- A student may cancel only while `now < start - 48h`. At exactly 48 hours before the start, the cancellation is refused (`StudentApp.CancelBoundaryIsStrict`).
- A cancelled student can be confirmed again from the registrations screen, because the confirm button is disabled only for a student who is already confirmed. The confirmation does not put the student back into the event's registrations (`RegistrationManagement.ConfirmAfterCancel`).
- Registration statuses name a student but not an event. An invitation to one event therefore resets that student's status for every event. The registrations screen also counts statuses over the whole list (`RegistrationManagement.MinimumViewsDisagree`).

## Model

| member | source | states |
|---|---|---|
| Domain.FindStudent | src/StudentApp.tsx:173 | the first student with the id (no earlier entry has it); none exactly when no student has it |
| Domain.DaysUntil | src/MainApp.tsx:246 | the ceiling day count: `(d-1)` days < time to start <= `d` days |
| Domain.DaysUntilAtMost | src/components/EventManagement.tsx:137 | comparing the day count with `k` is comparing the time to start with `k` days of milliseconds |
| Domain.TrimStart | src/components/RegistrationManagement.tsx:136 | removes exactly the leading whitespace |
| Domain.TrimEnd | src/components/RegistrationManagement.tsx:136 | removes exactly the trailing whitespace |
| Domain.BlankIffAllWhitespace | src/components/AttendanceManagement.tsx:195 | a message is blank after trimming iff every character is whitespace |
| MainApp.ReplaceStudent | src/MainApp.tsx:98-102 | only entries with the id take the new fields, keeping their id; length and order are kept |
| MainApp.RemoveStudent | src/MainApp.tsx:105 | the students without the id; never more than before |
| MainApp.RemoveStudentMembers | src/MainApp.tsx:105 | exactly the students without the id remain |
| MainApp.RemoveStudentConcat | src/MainApp.tsx:105 | removal over a split list is removal over each part: the remaining students keep their order |
| MainApp.RemoveAbsentStudent | src/MainApp.tsx:105 | deleting an id no student has leaves the list unchanged |
| MainApp.RemoveId | src/MainApp.tsx:106-109 | the other ids; never more than before |
| MainApp.RemoveIdMembers | src/MainApp.tsx:106-109 | exactly the other ids remain |
| MainApp.RemoveIdConcat | src/MainApp.tsx:106-109 | removal over a split list is removal over each part: the remaining ids keep their order |
| MainApp.RemoveAbsentId | src/MainApp.tsx:106-109 | a list without the id is unchanged |
| MainApp.StripRegistrant | src/MainApp.tsx:104-111 | every event loses the id from its registrations, and no other field changes |
| MainApp.Charge | src/MainApp.tsx:194-199 | the matching students' balances rise by the amount; nothing else changes |
| MainApp.ChargeTwice | src/MainApp.tsx:194-199 | charging twice is charging the double amount once |
| MainApp.ReplaceEvent | src/MainApp.tsx:122-126 | only events with the id take the submitted record, keeping their id |
| MainApp.RemoveEvent | src/MainApp.tsx:129 | the events without the id; never more than before |
| MainApp.RemoveEventMembers | src/MainApp.tsx:129 | exactly the events without the id remain |
| MainApp.RemoveEventConcat | src/MainApp.tsx:129 | removal over a split list is removal over each part: the remaining events keep their order |
| MainApp.FindEvent | src/MainApp.tsx:132 | the first event with the id (no earlier entry has it); none exactly when no event has it |
| MainApp.DropStatusesOf | src/MainApp.tsx:131-134 | the statuses of students not in the list; never more than before |
| MainApp.DropStatusesOfMembers | src/MainApp.tsx:131-134 | exactly the statuses of students not in the list remain |
| MainApp.DropStatusesOfConcat | src/MainApp.tsx:131-134 | dropping over a split list is dropping over each part: the kept statuses keep their order (also for the invitation, which drops the same way) |
| MainApp.StatusesAfterEventDeletion | src/MainApp.tsx:128-137 | statuses of the deleted event's registrants are dropped; nothing is dropped when no event has the id |
| MainApp.SetAttendance | src/MainApp.tsx:188-192 | only events with the id get the new attendance map |
| MainApp.Dedup | src/MainApp.tsx:146 | duplicate-free, same members, first occurrences in order |
| MainApp.DedupExtends | src/MainApp.tsx:146 | deduplicating a longer list extends the deduplicated prefix |
| MainApp.DedupOfDistinct | src/MainApp.tsx:146 | a duplicate-free list is its own deduplication |
| MainApp.Union | src/MainApp.tsx:146 | duplicate-free, with exactly the members of both lists |
| MainApp.UnionKeepsOldFirst | src/MainApp.tsx:144-148 | the old registrations come first, in order; the rest are new invitees not already registered |
| MainApp.AddInvitees | src/MainApp.tsx:144-148 | only the event with the id gets the union; other events are untouched |
| MainApp.Uninvited | src/MainApp.tsx:156 | exactly the statuses of students not invited remain, never more than before; their order is stated by DropStatusesOfConcat |
| MainApp.PendingFor | src/MainApp.tsx:151-154 | one pending status without response time per invitee, in order |
| MainApp.InviteThenFind | src/MainApp.tsx:151-158 | after inviting, each invitee's first status is a fresh pending one; other students' first status is unchanged |
| MainApp.FindStatusConcat | src/MainApp.tsx:163 | the first status of a student in a concatenation comes from the first part if it has one |
| MainApp.FindStatusDropped | src/MainApp.tsx:156 | dropping other students' statuses does not change a student's first status |
| MainApp.FindStatus | src/MainApp.tsx:163 | the first status of the student (no earlier entry is theirs); none exactly when the student has none |
| MainApp.ReplaceStatuses | src/MainApp.tsx:171 | every entry of the student is replaced and the others are kept |
| MainApp.UpsertStatus | src/MainApp.tsx:161-175 | all existing entries of the student get the new status and time; a student without one gets exactly one appended entry |
| MainApp.UpsertThenFind | src/MainApp.tsx:161-175 | after the upsert the student's status is the new one, and other students' statuses are unchanged |
| MainApp.ReplaceThenFind | src/MainApp.tsx:170-171 | replacing a student's entries makes the replacement its first entry; others keep theirs |
| MainApp.ReplaceUnmatched | src/MainApp.tsx:170-173 | replacing entries of a student with none changes nothing |
| MainApp.AppendThenFind | src/MainApp.tsx:172-174 | an appended entry is found only when no earlier entry matches |
| MainApp.DropFromEvent | src/MainApp.tsx:177-184 | only the given event loses the student from its registrations |
| MainApp.TotalDebt | src/MainApp.tsx:240 | non-negative; zero iff no balance is negative |
| MainApp.TotalCredit | src/MainApp.tsx:241 | non-negative; zero iff no balance is positive |
| MainApp.CreditMinusDebt | src/MainApp.tsx:240-241 | total credit minus total debt is the sum of all balances |
| MainApp.NeedsAttentionInMs | src/MainApp.tsx:244-248 | needs attention iff upcoming, under 15 registrations, and starting after now and within 14 days |
| MainApp.AttentionEvents | src/MainApp.tsx:244-248 | the events needing attention; never more than the events |
| MainApp.AttentionEventsMembers | src/MainApp.tsx:244-248 | exactly the events that need attention are listed |
| MainApp.AttentionEventsConcat | src/MainApp.tsx:244-248 | the filter over a split list is the filter over each part: the events keep their order |
| MainApp.EventsNeedingAttentionAdds | src/MainApp.tsx:244-248 | the attention counter adds up over parts of the list, and one event counts one iff it needs attention |
| MainApp.UpcomingEvents | src/MainApp.tsx:239 | the upcoming events; never more than the events |
| MainApp.UpcomingEventsMembers | src/MainApp.tsx:239 | exactly the upcoming events are listed |
| MainApp.UpcomingEventsConcat | src/MainApp.tsx:239 | the filter over a split list is the filter over each part: the events keep their order |
| MainApp.AttentionAmongUpcoming | src/MainApp.tsx:239-248 | the attention count never exceeds the upcoming count |
| MainApp.AdminSession.SelectedEvent | src/MainApp.tsx:235 | the first event with the selected id (no earlier event has it); none iff no event has it |
| MainApp.AdminSession.SelectEvent | src/MainApp.tsx:371-376 | the selection becomes the id |
| MainApp.AdminSession.AddStudent | src/MainApp.tsx:90-96 | the student is appended with the given id; only the student list may change |
| MainApp.AdminSession.UpdateStudent | src/MainApp.tsx:98-102 | the students become the replacement; only the student list may change |
| MainApp.AdminSession.DeleteStudent | src/MainApp.tsx:104-111 | the student is removed and stripped from all registrations; the statuses cannot change |
| MainApp.AdminSession.AddEvent | src/MainApp.tsx:114-120 | the event is appended with the given id; only the event list may change |
| MainApp.AdminSession.UpdateEvent | src/MainApp.tsx:122-126 | events with the id take the record; only the event list may change |
| MainApp.AdminSession.DeleteEvent | src/MainApp.tsx:128-137 | the event and its registrants' statuses are removed, judged on the list before removal |
| MainApp.AdminSession.SendInvitations | src/MainApp.tsx:139-159 | registrations take the union; statuses are replaced by fresh pending ones for the invitees |
| MainApp.AdminSession.UpdateRegistration | src/MainApp.tsx:161-186 | statuses are upserted; a cancellation also removes the student from that event's registrations |
| MainApp.AdminSession.UpdateAttendance | src/MainApp.tsx:188-192 | the event's attendance map is replaced; only the event list may change |
| MainApp.AdminSession.ChargeStudent | src/MainApp.tsx:194-201 | the balance changes by the amount |
| AttendanceManagement.RegisteredStudents | src/components/AttendanceManagement.tsx:60-62 | the registered students; never more than the roster |
| AttendanceManagement.RegisteredStudentsMembers | src/components/AttendanceManagement.tsx:60-62 | exactly the students whose id is registered; unique ids stay unique |
| AttendanceManagement.RegisteredStudentsConcat | src/components/AttendanceManagement.tsx:60-62 | the selection over a split roster is the selection over each part: roster order is kept |
| AttendanceManagement.ChargeRecords | src/components/AttendanceManagement.tsx:70-96 | one record per registered student, in order, with id, attendance and charge |
| AttendanceManagement.Chargeable | src/components/AttendanceManagement.tsx:100 | never more than the records; which records and their order are stated by ChargeableMembers and ChargeableConcat |
| AttendanceManagement.ChargeableConcat | src/components/AttendanceManagement.tsx:100 | the filter over split records is the filter over each part: the records keep their order |
| AttendanceManagement.ChargeableMembers | src/components/AttendanceManagement.tsx:100 | a record is kept exactly when it is one of the records and its charge is positive |
| AttendanceManagement.ApplyChargesEffect | src/components/AttendanceManagement.tsx:107-113 | each balance falls by what the records charge that id; nothing else changes |
| AttendanceManagement.ApplyChargesTwice | src/components/AttendanceManagement.tsx:98-116 | processing again charges again: twice the amount |
| AttendanceManagement.ChargesForAppend | src/components/AttendanceManagement.tsx:107-113 | the charges to one id over two runs of records add up |
| AttendanceManagement.NoRecordNoCharge | src/components/AttendanceManagement.tsx:100-113 | a student without a record is not charged |
| AttendanceManagement.OwnChargeOnly | src/components/AttendanceManagement.tsx:100-113 | with one record per student, each is charged only its own positive charge |
| AttendanceManagement.ChargedOncePerNoShow | src/components/AttendanceManagement.tsx:70-116 | a registered no-show pays the price once, a present student nothing, and an unregistered student nothing |
| AttendanceManagement.Absentees | src/components/AttendanceManagement.tsx:164-165 | never more than the records; which records and their order are stated by AbsenteesMembers and AbsenteesConcat |
| AttendanceManagement.AbsenteesConcat | src/components/AttendanceManagement.tsx:164-165 | the filter over split records is the filter over each part: the records keep their order |
| AttendanceManagement.AbsenteesMembers | src/components/AttendanceManagement.tsx:164-165 | a record is listed exactly when it is one of the records and marked absent |
| AttendanceManagement.Attendees | src/components/AttendanceManagement.tsx:174-175 | never more than the records; which records and their order are stated by AttendeesMembers and AttendeesConcat |
| AttendanceManagement.AttendeesConcat | src/components/AttendanceManagement.tsx:174-175 | the filter over split records is the filter over each part: the records keep their order |
| AttendanceManagement.AttendeesMembers | src/components/AttendanceManagement.tsx:174-175 | a record is listed exactly when it is one of the records and marked present |
| AttendanceManagement.AbsentAttendedPartition | src/components/AttendanceManagement.tsx:160-182 | absent and present records partition the records |
| AttendanceManagement.TotalIsPriceTimesAbsent | src/components/AttendanceManagement.tsx:162 | the total charge is the price times the absentees |
| AttendanceManagement.Resolve | src/components/AttendanceManagement.tsx:166-172 | each record paired with the first student having its id |
| AttendanceManagement.GenerateReportData | src/components/AttendanceManagement.tsx:158-192 | the counts add up to the records; the total is price × absent; the lists have the counted lengths |
| AttendanceManagement.ReportListsFromRecords | src/components/AttendanceManagement.tsx:158-192 | the counts are those of the absent and present records; absent line i is the i-th absent record, not attended, with the student its id names; likewise for the present list |
| AttendanceManagement.ResolvedStudents | src/components/AttendanceManagement.tsx:201-203 | the students found; never more than the lines, and as many when every line resolves |
| AttendanceManagement.ResolvedStudentsMembers | src/components/AttendanceManagement.tsx:201-203 | a student is listed exactly when some line resolved to them |
| AttendanceManagement.ResolvedStudentsConcat | src/components/AttendanceManagement.tsx:201-203 | over split lines the result is that of each part: the students keep the order of the lines |
| AttendanceManagement.RecordsResolve | src/components/AttendanceManagement.tsx:60-62 | every record built from registered students names a student of the list |
| AttendanceManagement.ResolveAll | src/components/AttendanceManagement.tsx:166-172 | records whose students are all in the list resolve to lines that all carry a student |
| AttendanceManagement.AbsenteesResolve | src/components/AttendanceManagement.tsx:201-205 | every absent registered student resolves, so the message goes to all absentees |
| AttendanceManagement.FindListed | src/components/AttendanceManagement.tsx:166-172 | with unique ids, looking a listed student up by id finds that student |
| AttendanceManagement.RegisteredRecord | src/components/AttendanceManagement.tsx:60-96 | a record names a registered student and is attended iff the map says present |
| AttendanceManagement.RecipientsAreAbsent | src/components/AttendanceManagement.tsx:194-205 | every absentee-message recipient is a listed student, registered and not marked present |
| AttendanceManagement.AbsentIsRecipient | src/components/AttendanceManagement.tsx:194-205 | with unique ids, a listed, registered student not marked present is a recipient |
| AttendanceManagement.AbsentAreRecipients | src/components/AttendanceManagement.tsx:194-205 | with unique ids, every listed, registered student not marked present is a recipient |
| AttendanceManagement.AttendanceSheet.ChangeAttendance | src/components/AttendanceManagement.tsx:64-68 | only that student's key changes, and the whole map is pushed to the event; only the session's event list may change |
| AttendanceManagement.AttendanceSheet.CalculateCharges | src/components/AttendanceManagement.tsx:70-96 | the loop builds exactly the charge records |
| AttendanceManagement.AttendanceSheet.ProcessCharges | src/components/AttendanceManagement.tsx:98-116 | the balances become the positive charges applied, and only the student list may change; the count is how many charges there are |
| AttendanceManagement.AttendanceSheet.ChargeEach | src/components/AttendanceManagement.tsx:107-113 | the loop applies each charge in order |
| AttendanceManagement.AttendanceSheet.SendReport | src/components/AttendanceManagement.tsx:118-156 | refused with an empty address; otherwise sends the report and clears the address |
| AttendanceManagement.AttendanceSheet.SendAbsenteeMessage | src/components/AttendanceManagement.tsx:194-214 | refused when blank or with no recipient; otherwise sends to the absentees and clears the message |
| StudentManagement.DigitsRoundTrip | src/components/StudentManagement.tsx:113 | the digits of a number read back as the number |
| StudentManagement.ParseSignedDigits | src/components/StudentManagement.tsx:113 | a run of digits, with or without a leading minus, reads as its value |
| StudentManagement.ParseDecimalText | src/components/StudentManagement.tsx:113 | the decimal text of any whole number parses back to it |
| StudentManagement.TextOf | src/components/StudentManagement.tsx:110-112 | a missing cell or zero reads as empty text; text is kept |
| StudentManagement.BalanceTextReadBack | src/components/StudentManagement.tsx:110-113 | a balance written as text reads back as that balance |
| StudentManagement.MapRows | src/components/StudentManagement.tsx:108-114 | each row maps columns 0 to 3 to name, e-mail, phone and balance |
| StudentManagement.MapRowsConcat | src/components/StudentManagement.tsx:108-114 | mapping a split sheet maps each part, in order |
| StudentManagement.KeepComplete | src/components/StudentManagement.tsx:115 | exactly the rows with a name and an e-mail remain |
| StudentManagement.KeepCompleteConcat | src/components/StudentManagement.tsx:115 | the filter over split rows is the filter over each part: order and repeated rows are kept |
| StudentManagement.ImportRows | src/components/StudentManagement.tsx:108-115 | the preview holds exactly the complete mapped rows after the header |
| StudentManagement.ImportRowsAppend | src/components/StudentManagement.tsx:108-115 | a row added at the end of the sheet adds its mapped fields at the end of the preview iff complete: sheet order and repeated rows are kept |
| StudentManagement.NewStudents | src/components/StudentManagement.tsx:128-138 | the added students, never more than the preview rows |
| StudentManagement.NewStudentsMembers | src/components/StudentManagement.tsx:131-137 | only complete rows with an e-mail not on the old roster are added, and every such row is added with its id |
| StudentManagement.NewStudentsStep | src/components/StudentManagement.tsx:131-137 | each further row is appended after the earlier ones exactly when it is complete and its e-mail is new |
| StudentManagement.SameFileDuplicatesBothAdded | src/components/StudentManagement.tsx:133 | two rows with the same new e-mail are both added |
| StudentManagement.FormatBalance | src/components/StudentManagement.tsx:150-153 | zero shows the fixed text, a positive balance gets `+`, a negative one is shown as it is |
| StudentManagement.CreditShownWithPlus | src/MainApp.tsx:241 | the total credit is positive iff some student is shown with `+` |
| StudentManagement.SubmitDecision | src/components/StudentManagement.tsx:49-60 | refused without a name or e-mail; otherwise updates the edited student or adds one |
| StudentManagement.StudentForm.ResetForm | src/components/StudentManagement.tsx:66-69 | empty fields, zero balance, nobody being edited |
| StudentManagement.StudentForm.Edit | src/components/StudentManagement.tsx:71-80 | the form holds the student's four fields |
| StudentManagement.StudentForm.Submit | src/components/StudentManagement.tsx:46-64 | refused, nothing changes; or the session updates or adds the student and the form resets; only the student list may change |
| StudentManagement.StudentForm.Delete | src/components/StudentManagement.tsx:82-87 | the student is deleted, and stripped from the registrations, only when confirmed; the statuses cannot change |
| StudentManagement.StudentForm.LoadFile | src/components/StudentManagement.tsx:89-126 | only `.xlsx`/`.xls` names are read; the preview becomes the imported rows |
| StudentManagement.StudentForm.ConfirmUpload | src/components/StudentManagement.tsx:128-148 | the roster grows by exactly the new students, the count is how many, and the preview is cleared |
| EventManagement.FormOf | src/components/EventManagement.tsx:90-101 | editing fills the form with the event's six fields |
| EventManagement.EditThenSubmit | src/components/EventManagement.tsx:54-101 | submitting the form opened on an event is refused iff the event lacks a title or location, and otherwise sends the event's fields with registrations, attendance and status reset |
| EventManagement.SubmittedDraft | src/components/EventManagement.tsx:54-65 | nothing without a title, date or location; otherwise the fields with no registrations or attendance and status upcoming |
| EventManagement.ResubmitResetsRegistrations | src/components/EventManagement.tsx:59-67 | saving an edited event empties its registrations and attendance and sets it upcoming |
| EventManagement.SubmitDecision | src/components/EventManagement.tsx:51-76 | refused without the required fields; otherwise updates the edited event or adds one |
| EventManagement.EventStatusInfo | src/components/EventManagement.tsx:134-145 | minimum met iff at least 15 registered; else urgent within 7 days, needs attention within 14 days, otherwise normal |
| EventManagement.AlertIffNeedsAttention | src/components/EventManagement.tsx:316 | a card's warning shows iff the dashboard counts the event as needing attention |
| EventManagement.UrgentAlertWithinAWeek | src/components/EventManagement.tsx:316-331 | a warning is urgent iff the start is at most 7 days away, and it is in the future |
| EventManagement.Badge | src/components/EventManagement.tsx:267-277 | upcoming events only: approved when the minimum is met, under review exactly when the warning shows, regular otherwise |
| EventManagement.BadgeColour | src/components/EventManagement.tsx:269 | default iff the minimum is met; red iff urgent; secondary iff the event needs attention; outline iff its level is normal |
| EventManagement.PastEventUrgentWithoutAlert | src/components/EventManagement.tsx:134-145 | a started upcoming event under the minimum is urgent and red, yet has no warning and a regular badge |
| EventManagement.FormatPrice | src/components/EventManagement.tsx:130-132 | free iff the price is not positive |
| EventManagement.EventEditor.ResetForm | src/components/EventManagement.tsx:78-88 | empty form without a capacity; nothing being edited |
| EventManagement.EventEditor.Edit | src/components/EventManagement.tsx:90-101 | the form holds the event's fields |
| EventManagement.EventEditor.Submit | src/components/EventManagement.tsx:51-76 | refused, nothing changes; or the session updates or adds the event and the form resets; only the event list may change |
| EventManagement.EventEditor.Delete | src/components/EventManagement.tsx:103-108 | the event and its registrants' statuses are deleted only when confirmed; the students cannot change |
| EventManagement.EventEditor.OpenInvitations | src/components/EventManagement.tsx:286-287 | enabled only for upcoming events; selects the event |
| RegistrationManagement.RegistrationStatusOf | src/components/RegistrationManagement.tsx:81-86 | the student's first status (no earlier entry is theirs), or pending without a response time when there is none |
| RegistrationManagement.InvitedShowPending | src/MainApp.tsx:151-158 | an invited student shows as pending whatever it showed before; others are unchanged |
| RegistrationManagement.CountStatus | src/components/RegistrationManagement.tsx:153-155 | zero iff no entry has the state |
| RegistrationManagement.CountsPartition | src/components/RegistrationManagement.tsx:153-155 | the three counts sum to the number of entries |
| RegistrationManagement.RegistrationOverview | src/components/RegistrationManagement.tsx:153-161 | the confirmed, pending and cancelled counters are the counts of those states over the statuses; the days until the event are the rounded-up day difference; minimum met iff 15 confirmed; urgent implies needs attention; both need a future start and the minimum unmet |
| RegistrationManagement.LateCancelWarningLastDayOnly | src/components/RegistrationManagement.tsx:229 | the "under two days" warning is not shown between one and two days before the start |
| RegistrationManagement.MinimumViewsDisagree | src/components/RegistrationManagement.tsx:159 | with 15 registrations but no confirmed status, the events screen says met and this screen says not |
| RegistrationManagement.ConfirmAfterCancel | src/components/RegistrationManagement.tsx:290-303 | after a cancellation, confirm is enabled and takes effect, but the student stays out of the registrations |
| RegistrationManagement.CancelLeavesEvent | src/MainApp.tsx:177-184 | after a cancellation the student is in no registration list of that event |
| RegistrationManagement.InviteDecision | src/components/RegistrationManagement.tsx:130-139 | refused without a selection, then when the message is blank; otherwise sent to the whole selection |
| RegistrationManagement.Ids | src/components/RegistrationManagement.tsx:116 | the students' ids, in order |
| RegistrationManagement.InvitationPanel.SelectAll | src/components/RegistrationManagement.tsx:114-120 | the selection becomes all ids, or empty |
| RegistrationManagement.InvitationPanel.SetSelected | src/components/RegistrationManagement.tsx:122-128 | checking appends; unchecking removes every occurrence |
| RegistrationManagement.InvitationPanel.OpenDialog | src/components/RegistrationManagement.tsx:148-151 | the message becomes the default text |
| RegistrationManagement.InvitationPanel.Send | src/components/RegistrationManagement.tsx:130-146 | refused, nothing changes; or the session invites the selection and the panel is cleared; the students cannot change |
| RegistrationManagement.InvitationPanel.Respond | src/components/RegistrationManagement.tsx:287-303 | an enabled button upserts the status; a cancellation also removes the registration; the students cannot change |
| StudentApp.FindRegistration | src/StudentApp.tsx:247-249 | the first registration for the event; none iff there is none |
| StudentApp.AppendedEntryShadowed | src/StudentApp.tsx:195-201 | a registration appended after an earlier one for the same event is never looked up |
| StudentApp.CancelEntries | src/StudentApp.tsx:227-233 | every registration for the event becomes cancelled with the response time; others are unchanged |
| StudentApp.CancelThenFind | src/StudentApp.tsx:227-249 | after a cancellation the event's registration shows as cancelled |
| StudentApp.EventStatusForStudent | src/StudentApp.tsx:251-265 | nothing when logged out; cancel enabled iff more than one day is left; registered iff the first entry is not cancelled; fullness as the capacity test |
| StudentApp.CancelAllowedEnablesButton | src/StudentApp.tsx:220-226 | whenever the handler allows a cancellation, the button is enabled |
| StudentApp.ButtonEnabledButCancelRefused | src/StudentApp.tsx:220-226 | between one and two days before the start the button is enabled, but the handler refuses |
| StudentApp.CancelBoundaryIsStrict | src/StudentApp.tsx:224 | exactly 48 hours before the start is refused; one millisecond earlier is allowed |
| StudentApp.LateNoticeWindows | src/StudentApp.tsx:553 | the late notice shows in the last day and again a day or more after the start |
| StudentApp.UnreadCount | src/StudentApp.tsx:315 | zero iff every notification is read |
| StudentApp.MarkRead | src/StudentApp.tsx:240-244 | only notifications with the id become read |
| StudentApp.MarkReadIdempotent | src/StudentApp.tsx:240-244 | marking read twice is marking read once |
| StudentApp.MarkReadLowersUnread | src/StudentApp.tsx:240-244 | the unread count falls by exactly the unread notifications with the id |
| StudentApp.MyUpcomingTrips | src/StudentApp.tsx:316-320 | at most the number of upcoming events; zero iff no upcoming event has a standing registration |
| StudentApp.MyUpcomingTripsAdds | src/StudentApp.tsx:316-320 | the counter adds up over parts of the event list, and one event counts one iff it is an upcoming trip with a standing registration |
| StudentApp.RegistrationDecision | src/StudentApp.tsx:181-238 | logged out, unknown event, full, no registration, too late to cancel, or done, each in exactly its case |
| StudentApp.RegisteredNotice | src/StudentApp.tsx:205-212 | an unread information notice with the id, the time, the fixed title and the message worded from the trip's title |
| StudentApp.StudentPortal.Login | src/StudentApp.tsx:172-179 | succeeds iff the id is on the list; otherwise the current student stays |
| StudentApp.StudentPortal.Logout | src/StudentApp.tsx:380-383 | nobody is logged in |
| StudentApp.StudentPortal.EventRegistration | src/StudentApp.tsx:181-238 | registering appends one pending entry and prepends one notice; cancelling cancels the entries; every refusal changes nothing |
| StudentApp.StudentPortal.MarkNotificationRead | src/StudentApp.tsx:240-244 | the notifications become the marked list |

## Left out

- Rendering, dialogs, open/closed dialog flags, toasts and styling. Only the conditions that decide a badge, warning or enabled button are modelled.
- The spreadsheet library and the file reader. A sheet is given as rows of cells, and only the mapping of those rows is modelled. The Excel report download is not part of this model.
- A number in a text column is read as its decimal text. Fractions, exponents, hexadecimal and surrounding whitespace are not read as numbers by `NumberOf`. Only an optional sign and decimal digits are.
- Browser storage of the logged-in student, and restoring it at start-up. Login is modelled directly.
- Sending e-mails, invitations and absentee messages: the handlers only log them. The modelled guards decide whether anything is sent. Their texts and the message templates are left out.
- Date strings, their parsing and formatting, and an unparseable date. Start times and `now` are whole milliseconds.
- Currency formatting. `RenderBalance` takes the formatter as a parameter.
- Id generation from the clock. Ids are parameters. Two rows of one import may receive the same clock reading, and ids are not checked for uniqueness.
- Fractional amounts and floating-point arithmetic. Prices and balances are whole numbers.
- The detailed report's reshaping into names, e-mails and phones. `SendReport` returns the report data it is built from.
- The student portal's trip-history and my-trips listings, including the no-show note. Only the counters are modelled.
- The screen switch between the administrator and student apps, the static documentation pages, and the currency helper are not part of this model.
- StudentManagement.TextOf: a non-zero numeric cell in a text column stays a number in the source, while the model turns it into its decimal text. The import's duplicate check compares e-mails with `===`, so in the source a numeric e-mail cell never matches a roster e-mail and its row is always added; in the model `EmailTaken` matches it against a roster e-mail with the same digits and the row is skipped.
- MainApp.UnionKeepsOldFirst: stated for an event whose registrations have no duplicates. Duplicates can arise only from data that did not pass through the handlers.
- StudentApp.RegisteredNotice: the notice's message text is a parameter (`wording`), applied to the trip's title. The source's wording is display text only and is not modelled.
- The date computations inside `calculateCharges` (src/components/AttendanceManagement.tsx:79-85) are computed and never used. `ChargeRecords` states that the charge depends only on attendance and price.
