/** The student roster screen: the add/edit form with its required fields,
    the mapping of spreadsheet rows to students, the import that skips
    e-mail addresses already on the roster, and the sign of a displayed
    balance. */
module StudentManagement {
  import opened Domain
  import MainApp

  // ---------------------------------------------------------------------
  // Spreadsheet cells

  /** A cell as the sheet reader hands it over: missing, text, or a whole number. */
  datatype Cell = Blank | Text(s: string) | Number(n: int)

  type Row = seq<Cell>

  /** Column `k` of a row; columns past the end are missing. */
  function CellAt(row: Row, k: nat): Cell
  {
    if k < |row| then row[k] else Blank
  }

  function DigitChar(d: nat): (c: char)
    requires d < 10
    ensures '0' <= c <= '9'
  {
    "0123456789"[d]
  }

  function DigitValue(c: char): nat
    requires '0' <= c <= '9'
  {
    (c as int - '0' as int) as nat
  }

  predicate AllDigits(s: string)
  {
    forall i :: 0 <= i < |s| ==> '0' <= s[i] <= '9'
  }

  /** The decimal digits of `n`, most significant first. */
  function Digits(n: nat): (s: string)
    ensures |s| > 0 && AllDigits(s)
  {
    if n < 10 then [DigitChar(n)] else Digits(n / 10) + [DigitChar(n % 10)]
  }

  /** The value of a run of decimal digits. */
  function DigitsValue(s: string): nat
    requires AllDigits(s)
  {
    if s == [] then 0 else DigitsValue(s[..|s| - 1]) * 10 + DigitValue(s[|s| - 1])
  }

  lemma {:induction false} DigitsRoundTrip(n: nat)
    ensures DigitsValue(Digits(n)) == n
  {
    if n >= 10 {
      DigitsRoundTrip(n / 10);
      var s := Digits(n);
      assert s[..|s| - 1] == Digits(n / 10);
    }
  }

  /** The decimal text of a whole number, with a leading `-` when negative. */
  function DecimalText(n: int): string
  {
    if n < 0 then "-" + Digits(-n) else Digits(n)
  }

  /** The whole numbers `Number(text)` reads: an optional sign and at least
      one decimal digit; anything else is not a number. */
  function ParseInteger(s: string): Option<int>
  {
    if s != [] && (s[0] == '-' || s[0] == '+') then
      if s[1..] != [] && AllDigits(s[1..]) then
        Some(if s[0] == '-' then 0 - DigitsValue(s[1..]) else DigitsValue(s[1..]))
      else None
    else if s != [] && AllDigits(s) then Some(DigitsValue(s))
    else None
  }

  /** A signed or unsigned run of digits reads as its value. */
  lemma ParseSignedDigits(d: string)
    requires d != [] && AllDigits(d)
    ensures ParseInteger(d) == Some(DigitsValue(d))
    ensures ParseInteger("-" + d) == Some(0 - DigitsValue(d))
  {
    assert '0' <= d[0] <= '9';
    assert ("-" + d)[1..] == d;
  }

  /** Reading back the decimal text of a whole number gives the number. */
  lemma ParseDecimalText(n: int)
    ensures ParseInteger(DecimalText(n)) == Some(n)
  {
    var m := if n < 0 then -n else n;
    var d := Digits(m);
    DigitsRoundTrip(m);
    ParseSignedDigits(d);
  }

  /** `cell || ''`: a text column; a missing cell and a zero become the empty text. */
  function TextOf(c: Cell): (t: string)
    ensures c.Blank? ==> t == ""
    ensures c.Text? ==> t == c.s
    ensures c.Number? ==> (t == "" <==> c.n == 0)
  {
    match c
    case Blank => ""
    case Text(s) => s
    case Number(n) => if n == 0 then "" else DecimalText(n)
  }

  /** `Number(cell) || 0`: the balance column; what is not a number becomes 0. */
  function NumberOf(c: Cell): int
  {
    match c
    case Blank => 0
    case Number(n) => n
    case Text(s) => match ParseInteger(s) case Some(v) => v case None => 0
  }

  /** A balance written out as text in the sheet is read back as that balance. */
  lemma BalanceTextReadBack(n: int)
    ensures NumberOf(Text(DecimalText(n))) == n
    ensures TextOf(Number(n)) == (if n == 0 then "" else DecimalText(n))
  {
    ParseDecimalText(n);
  }

  /** Columns 0 to 3 as name, e-mail, phone and balance. */
  function MapRow(row: Row): StudentFields
  {
    StudentFields(TextOf(CellAt(row, 0)), TextOf(CellAt(row, 1)), TextOf(CellAt(row, 2)), NumberOf(CellAt(row, 3)))
  }

  function MapRows(rows: seq<Row>): (r: seq<StudentFields>)
    ensures |r| == |rows|
    ensures forall k {:trigger r[k]} :: 0 <= k < |rows| ==> r[k] == MapRow(rows[k])
  {
    if rows == [] then [] else [MapRow(rows[0])] + MapRows(rows[1..])
  }

  /** Mapping works piece by piece. */
  lemma {:induction false} MapRowsConcat(a: seq<Row>, b: seq<Row>)
    ensures MapRows(a + b) == MapRows(a) + MapRows(b)
  {
    if a == [] {
      assert a + b == b;
    } else {
      var y, t := a[0], a[1..];
      assert a + b == [y] + (t + b);
      MapRowsConcat(t, b);
      assert MapRows(a + b) == [MapRow(y)] + MapRows(t + b);
      assert [MapRow(y)] + (MapRows(t) + MapRows(b)) == ([MapRow(y)] + MapRows(t)) + MapRows(b);
    }
  }

  predicate Complete(f: StudentFields)
  {
    f.name != "" && f.email != ""
  }

  /** The rows with both a name and an e-mail, in order. */
  function KeepComplete(fs: seq<StudentFields>): (r: seq<StudentFields>)
    ensures |r| <= |fs|
    ensures forall f {:trigger f in r} :: f in r <==> f in fs && Complete(f)
  {
    if fs == [] then []
    else if Complete(fs[0]) then [fs[0]] + KeepComplete(fs[1..])
    else KeepComplete(fs[1..])
  }

  /** The filter works piece by piece, so complete rows keep their order and repeated rows stay repeated. */
  lemma {:induction false} KeepCompleteConcat(a: seq<StudentFields>, b: seq<StudentFields>)
    ensures KeepComplete(a + b) == KeepComplete(a) + KeepComplete(b)
  {
    if a == [] {
      assert a + b == b;
    } else {
      var y, t := a[0], a[1..];
      assert a + b == [y] + (t + b);
      KeepCompleteConcat(t, b);
      if !Complete(y) {
        assert KeepComplete(a + b) == KeepComplete(t + b);
      } else {
        assert KeepComplete(a + b) == [y] + KeepComplete(t + b);
        assert [y] + (KeepComplete(t) + KeepComplete(b)) == ([y] + KeepComplete(t)) + KeepComplete(b);
      }
    }
  }

  /** The preview of an uploaded sheet: the header row skipped, every other
      row mapped, and rows without a name or e-mail left out. */
  function ImportRows(rows: seq<Row>): (r: seq<StudentFields>)
    ensures |r| < |rows| || rows == []
    ensures forall f :: f in r <==> Complete(f) && exists k :: 1 <= k < |rows| && f == MapRow(rows[k])
  {
    if rows == [] then []
    else
      var mapped := MapRows(rows[1..]);
      assert forall f :: f in mapped <==> exists k :: 1 <= k < |rows| && f == MapRow(rows[k]) by {
        forall f | f in mapped ensures exists k :: 1 <= k < |rows| && f == MapRow(rows[k]) {
          var j :| 0 <= j < |mapped| && mapped[j] == f;
          assert rows[1..][j] == rows[j + 1];
        }
        forall f | exists k :: 1 <= k < |rows| && f == MapRow(rows[k]) ensures f in mapped {
          var k :| 1 <= k < |rows| && f == MapRow(rows[k]);
          assert mapped[k - 1] == f;
        }
      }
      KeepComplete(mapped)
  }

  /** A row added at the end of the sheet adds its mapped fields at the end
      of the preview when they are complete, whatever came before: the
      preview keeps the sheet's order and keeps repeated rows. */
  lemma ImportRowsAppend(rows: seq<Row>, row: Row)
    requires rows != []
    ensures ImportRows(rows + [row]) == ImportRows(rows) + (if Complete(MapRow(row)) then [MapRow(row)] else [])
  {
    var f := MapRow(row);
    calc {
      ImportRows(rows + [row]);
      { assert (rows + [row])[1..] == rows[1..] + [row]; }
      KeepComplete(MapRows(rows[1..] + [row]));
      { MapRowsConcat(rows[1..], [row]); assert MapRows([row]) == [f]; }
      KeepComplete(MapRows(rows[1..]) + [f]);
      { KeepCompleteConcat(MapRows(rows[1..]), [f]); assert [f][1..] == []; }
      ImportRows(rows) + (if Complete(f) then [f] else []);
    }
  }

  // ---------------------------------------------------------------------
  // Import confirmation

  predicate EmailTaken(ss: seq<Student>, email: string)
  {
    exists i :: 0 <= i < |ss| && ss[i].email == email
  }

  /** The students the confirmation adds: each complete preview row whose
      e-mail is not on the roster as it was before the import, with the id
      drawn for that row. Rows are not checked against each other. */
  function NewStudents(preview: seq<StudentFields>, ids: seq<string>, existing: seq<Student>): (r: seq<Student>)
    requires |ids| == |preview|
    ensures |r| <= |preview|
  {
    if preview == [] then []
    else
      var init := NewStudents(preview[..|preview| - 1], ids[..|ids| - 1], existing);
      var f := preview[|preview| - 1];
      if !EmailTaken(existing, f.email) && Complete(f) then init + [f.WithId(ids[|ids| - 1])] else init
  }

  /** Every added student comes from a complete row whose e-mail was not on
      the roster, and every such row is added with its id. */
  lemma {:induction false} NewStudentsMembers(preview: seq<StudentFields>, ids: seq<string>, existing: seq<Student>)
    requires |ids| == |preview|
    ensures forall s :: s in NewStudents(preview, ids, existing) ==>
              !EmailTaken(existing, s.email) && Complete(FieldsOf(s))
    ensures forall k :: 0 <= k < |preview| && !EmailTaken(existing, preview[k].email) && Complete(preview[k])
              ==> preview[k].WithId(ids[k]) in NewStudents(preview, ids, existing)
  {
    if preview != [] {
      NewStudentsMembers(preview[..|preview| - 1], ids[..|ids| - 1], existing);
    }
  }

  /** One step of the confirmation: the rows up to `i`, then row `i` added or not. */
  lemma NewStudentsStep(rows: seq<StudentFields>, ids: seq<string>, existing: seq<Student>, i: nat)
    requires |ids| == |rows| && i < |rows|
    ensures NewStudents(rows[..i + 1], ids[..i + 1], existing)
            == NewStudents(rows[..i], ids[..i], existing)
               + (if !EmailTaken(existing, rows[i].email) && Complete(rows[i]) then [rows[i].WithId(ids[i])] else [])
  {
    assert rows[..i + 1][..i] == rows[..i] && ids[..i + 1][..i] == ids[..i];
  }

  /** Two rows of one file with the same new e-mail are both added. */
  lemma SameFileDuplicatesBothAdded(f: StudentFields, id1: string, id2: string, existing: seq<Student>)
    requires !EmailTaken(existing, f.email) && Complete(f)
    ensures NewStudents([f, f], [id1, id2], existing) == [f.WithId(id1), f.WithId(id2)]
  {
    assert [f, f][..1] == [f];
    assert [id1, id2][..1] == [id1];
  }

  // ---------------------------------------------------------------------
  // Balance display

  /** What `formatBalance` shows: a fixed zero text, a `+` before a credit,
      and a debt as the formatted (negative) amount. */
  datatype BalanceDisplay = ZeroBalance | CreditBalance(amount: int) | DebtBalance(amount: int)

  function FormatBalance(b: int): (d: BalanceDisplay)
    ensures d.ZeroBalance? <==> b == 0
    ensures d.CreditBalance? <==> b > 0
    ensures d.DebtBalance? <==> b < 0
    ensures !d.ZeroBalance? ==> d.amount == b
  {
    if b == 0 then ZeroBalance else if b > 0 then CreditBalance(b) else DebtBalance(b)
  }

  /** The display as text, given the currency formatter. */
  function RenderBalance(d: BalanceDisplay, currency: int -> string): string
  {
    match d
    case ZeroBalance => "0 \U{20AA}"
    case CreditBalance(a) => "+" + currency(a)
    case DebtBalance(a) => currency(a)
  }

  /** Exactly the students that make up the total credit are shown with a `+`. */
  lemma CreditShownWithPlus(ss: seq<Student>)
    ensures MainApp.TotalCredit(ss) > 0 <==> exists i :: 0 <= i < |ss| && FormatBalance(ss[i].balance).CreditBalance?
  {
  }

  predicate EndsWith(s: string, suffix: string)
  {
    |suffix| <= |s| && s[|s| - |suffix|..] == suffix
  }

  // ---------------------------------------------------------------------
  // The roster screen

  datatype SubmitAction = Refused | Added(fields: StudentFields) | Updated(id: string, fields: StudentFields)

  /** What submitting the form does: refused without a name or an e-mail,
      otherwise an update of the student being edited or a new student. */
  function SubmitDecision(editing: Option<Student>, data: StudentFields): (a: SubmitAction)
    ensures a.Refused? <==> data.name == "" || data.email == ""
    ensures a.Updated? <==> !a.Refused? && editing.Some?
    ensures a.Updated? ==> a.id == editing.value.id && a.fields == data
    ensures a.Added? ==> a.fields == data
  {
    if data.name == "" || data.email == "" then Refused
    else if editing.Some? then Updated(editing.value.id, data)
    else Added(data)
  }

  const EmptyFields := StudentFields("", "", "", 0)

  class StudentForm {
    var editing: Option<Student>
    var data: StudentFields
    var preview: seq<StudentFields>

    constructor()
      ensures editing == None && data == EmptyFields && preview == []
    {
      editing, data, preview := None, EmptyFields, [];
    }

    method ResetForm()
      modifies this`editing, this`data
      ensures editing == None && data == EmptyFields
    {
      data := EmptyFields;
      editing := None;
    }

    method Edit(s: Student)
      modifies this`editing, this`data
      ensures editing == Some(s) && data == FieldsOf(s)
    {
      editing := Some(s);
      data := StudentFields(s.name, s.email, s.phone, s.balance);
    }

    /** `handleSubmit`; `newId` is the id a new student receives. */
    method Submit(session: MainApp.AdminSession, newId: string) returns (a: SubmitAction)
      modifies this`editing, this`data, session`students
      ensures a == SubmitDecision(old(editing), old(data))
      ensures a.Refused? ==> editing == old(editing) && data == old(data) && session.students == old(session.students)
      ensures a.Updated? ==> session.students == MainApp.ReplaceStudent(old(session.students), a.id, a.fields)
      ensures a.Added? ==> session.students == old(session.students) + [a.fields.WithId(newId)]
      ensures !a.Refused? ==> editing == None && data == EmptyFields
      ensures session.events == old(session.events) && session.statuses == old(session.statuses)
    {
      if data.name == "" || data.email == "" {
        return Refused;
      }
      if editing.Some? {
        a := Updated(editing.value.id, data);
        session.UpdateStudent(editing.value.id, data);
      } else {
        a := Added(data);
        session.AddStudent(newId, data);
      }
      ResetForm();
    }

    /** `handleDelete`: the student is removed only when the user confirms. */
    method Delete(session: MainApp.AdminSession, s: Student, confirmed: bool)
      modifies session`students, session`events
      ensures session.students == if confirmed then MainApp.RemoveStudent(old(session.students), s.id) else old(session.students)
      ensures session.events == if confirmed then MainApp.StripRegistrant(old(session.events), s.id) else old(session.events)
      ensures session.statuses == old(session.statuses)
    {
      if confirmed {
        session.DeleteStudent(s.id);
      }
    }

    /** `handleFileUpload`: only `.xlsx` and `.xls` files are read; the rows
        of the first sheet become the preview. */
    method LoadFile(fileName: string, rows: seq<Row>) returns (accepted: bool)
      modifies this`preview
      ensures accepted <==> EndsWith(fileName, ".xlsx") || EndsWith(fileName, ".xls")
      ensures preview == if accepted then ImportRows(rows) else old(preview)
    {
      accepted := EndsWith(fileName, ".xlsx") || EndsWith(fileName, ".xls");
      if accepted {
        preview := ImportRows(rows);
      }
    }

    /** `handleConfirmUpload`: adds every preview row whose e-mail is not on
        the roster as it stood before the import; `ids[k]` is the id row `k`
        receives if added. */
    method ConfirmUpload(session: MainApp.AdminSession, ids: seq<string>) returns (addedCount: nat)
      requires |ids| == |preview|
      modifies this`preview, session`students
      ensures session.students == old(session.students) + NewStudents(old(preview), ids, old(session.students))
      ensures addedCount == |NewStudents(old(preview), ids, old(session.students))|
      ensures preview == []
    {
      var existing, rows := session.students, preview;
      addedCount := 0;
      for i := 0 to |rows|
        invariant session.students == existing + NewStudents(rows[..i], ids[..i], existing)
        invariant addedCount == |NewStudents(rows[..i], ids[..i], existing)|
      {
        var row := rows[i];
        NewStudentsStep(rows, ids, existing, i);
        if !EmailTaken(existing, row.email) && row.name != "" && row.email != "" {
          assert existing + (NewStudents(rows[..i], ids[..i], existing) + [row.WithId(ids[i])])
                 == (existing + NewStudents(rows[..i], ids[..i], existing)) + [row.WithId(ids[i])];
          session.AddStudent(ids[i], row);
          addedCount := addedCount + 1;
        } else {
          assert NewStudents(rows[..i], ids[..i], existing) + [] == NewStudents(rows[..i], ids[..i], existing);
        }
      }
      assert rows[..|rows|] == rows && ids[..|ids|] == ids;
      preview := [];
    }
  }
}
