/** CSV export of the issuance history: the global history (also written
    by the monthly export), the per-student history, and the monthly
    export's due check and file name. Every export is a fixed header row
    and one row per record, cells joined with ',' and rows with '\n',
    with no quoting of any cell. Locale rendering of dates is the
    parameter `fmt`. */
module CsvExport {
  import opened Common
  import opened JsText
  import opened Ledger

  /** `getStudentName`: the name of the first student with the id, or
      "Unknown Student" when there is none or its name is empty. */
  function StudentName(students: seq<Student>, id: int): (r: string)
    ensures r != ""
    ensures (forall s :: s in students ==> s.id != id) ==> r == "Unknown Student"
    ensures r != "Unknown Student" ==> exists s :: s in students && s.id == id && s.name == r
    ensures forall i :: 0 <= i < |students| && students[i].id == id &&
                        (forall j :: 0 <= j < i ==> students[j].id != id) ==>
              r == (if students[i].name != "" then students[i].name else "Unknown Student")
  {
    var hasId := (s: Student) => s.id == id;
    assert forall i :: 0 <= i < |students| && students[i].id == id &&
                       (forall j :: 0 <= j < i ==> students[j].id != id) ==>
             FindFirst(students, hasId) == Some(students[i]) by {
      forall i | 0 <= i < |students| && students[i].id == id && (forall j :: 0 <= j < i ==> students[j].id != id) {
        FindFirstAt(students, hasId, i);
      }
    }
    match FindFirst(students, hasId)
    case Some(s) => if s.name != "" then s.name else "Unknown Student"
    case None => "Unknown Student"
  }

  /** `getItemName`: the name of the first item with the id, or
      "Unknown Item" when there is none or its name is empty. */
  function ItemName(inv: seq<Item>, id: int): (r: string)
    ensures r != ""
    ensures (forall it :: it in inv ==> it.id != id) ==> r == "Unknown Item"
    ensures r != "Unknown Item" ==> exists it :: it in inv && it.id == id && it.name == r
    ensures forall i :: 0 <= i < |inv| && inv[i].id == id &&
                        (forall j :: 0 <= j < i ==> inv[j].id != id) ==>
              r == (if inv[i].name != "" then inv[i].name else "Unknown Item")
  {
    var hasId := (it: Item) => it.id == id;
    assert forall i :: 0 <= i < |inv| && inv[i].id == id &&
                       (forall j :: 0 <= j < i ==> inv[j].id != id) ==>
             FindFirst(inv, hasId) == Some(inv[i]) by {
      forall i | 0 <= i < |inv| && inv[i].id == id && (forall j :: 0 <= j < i ==> inv[j].id != id) {
        FindFirstAt(inv, hasId, i);
      }
    }
    match FindFirst(inv, hasId)
    case Some(it) => if it.name != "" then it.name else "Unknown Item"
    case None => "Unknown Item"
  }

  function StatusText(s: Status): string
  {
    match s
    case Issued => "Issued"
    case Returned => "Returned"
  }

  function ReturnDateText(l: Loan, fmt: Date -> string): string
  {
    if l.returnDate.Some? then fmt(l.returnDate.value) else "N/A"
  }

  /** The rows joined into CSV text, without any quoting. */
  function CsvText(rows: seq<seq<string>>): string
  {
    Join(MapSeq(rows, (row: seq<string>) => Join(row, ',')), '\n')
  }

  const HistoryHeader: seq<string> := ["Date", "Student Name", "Item Name", "Quantity", "Status", "Return Date"]

  /** One record of the global history, in header order. */
  function HistoryRow(l: Loan, students: seq<Student>, inv: seq<Item>, fmt: Date -> string): (row: seq<string>)
    ensures |row| == |HistoryHeader|
    ensures row[0] == fmt(l.date)
    ensures row[1] == StudentName(students, l.studentId) && row[2] == ItemName(inv, l.itemId)
    ensures row[3] == IntToString(l.quantity)
    ensures row[4] == (if l.status == Issued then "Issued" else "Returned")
    ensures l.returnDate.Some? ==> row[5] == fmt(l.returnDate.value)
    ensures row[5] == "N/A" <==> l.returnDate.None? || fmt(l.returnDate.value) == "N/A"
  {
    [fmt(l.date), StudentName(students, l.studentId), ItemName(inv, l.itemId),
     IntToString(l.quantity), StatusText(l.status), ReturnDateText(l, fmt)]
  }

  function HistoryRows(h: seq<Loan>, students: seq<Student>, inv: seq<Item>, fmt: Date -> string): seq<seq<string>>
  {
    [HistoryHeader] + MapSeq(h, (l: Loan) => HistoryRow(l, students, inv, fmt))
  }

  /** The CSV text of `downloadGlobalHistory` and of the monthly export: it
      starts with the header line, and is nothing more exactly when the
      history is empty; otherwise a line break follows the header. */
  function GlobalHistoryCsv(h: seq<Loan>, students: seq<Student>, inv: seq<Item>, fmt: Date -> string): (r: string)
    ensures var head := Join(HistoryHeader, ',');
            |head| <= |r| && r[..|head|] == head &&
            (r == head <==> h == []) &&
            (h != [] ==> r[|head|] == '\n')
  {
    CsvTextHead(HistoryRows(h, students, inv, fmt));
    CsvText(HistoryRows(h, students, inv, fmt))
  }

  /** CSV text begins with its first row's line, and has more only when
      there are more rows, after a line break. */
  lemma CsvTextHead(rows: seq<seq<string>>)
    requires |rows| >= 1
    ensures var r, head := CsvText(rows), Join(rows[0], ',');
            |head| <= |r| && r[..|head|] == head &&
            (r == head <==> |rows| == 1) &&
            (|rows| > 1 ==> r[|head|] == '\n')
  {
    var lines := MapSeq(rows, (row: seq<string>) => Join(row, ','));
    assert lines[0] == Join(rows[0], ',');
    if |rows| > 1 {
      var r := lines[0] + ['\n'] + Join(lines[1..], '\n');
      assert r[..|lines[0]|] == lines[0];
    }
  }

  /** The text of a single-row CSV is that row joined on commas. */
  lemma CsvTextSingleRow(row: seq<string>)
    ensures CsvText([row]) == Join(row, ',')
  {
    assert MapSeq([row], (r: seq<string>) => Join(r, ','))[0] == Join(row, ',');
  }

  /** An empty history exports the header line alone. */
  lemma EmptyHistoryIsHeaderOnly(students: seq<Student>, inv: seq<Item>, fmt: Date -> string)
    ensures GlobalHistoryCsv([], students, inv, fmt) == Join(HistoryHeader, ',')
  {
    assert HistoryRows([], students, inv, fmt) == [HistoryHeader];
    CsvTextSingleRow(HistoryHeader);
  }

  /** No cell contains either separator. */
  ghost predicate PlainCells(rows: seq<seq<string>>)
  {
    forall j, k :: 0 <= j < |rows| && 0 <= k < |rows[j]| ==> ',' !in rows[j][k] && '\n' !in rows[j][k]
  }

  lemma {:induction false} JoinAvoids(parts: seq<string>, sep: char, c: char)
    requires c != sep
    requires forall k :: 0 <= k < |parts| ==> c !in parts[k]
    ensures c !in Join(parts, sep)
  {
    if |parts| > 1 {
      JoinAvoids(parts[1..], sep, c);
    }
  }

  /** When no cell holds a comma or a line break, reading the text back
      (split on '\n', then each line on ',') gives the rows exactly. */
  lemma CsvTextReadsBack(rows: seq<seq<string>>)
    requires |rows| >= 1 && forall j :: 0 <= j < |rows| ==> |rows[j]| >= 1
    requires PlainCells(rows)
    ensures |Split(CsvText(rows), '\n')| == |rows|
    ensures forall j :: 0 <= j < |rows| ==> Split(Split(CsvText(rows), '\n')[j], ',') == rows[j]
  {
    var lines := MapSeq(rows, (row: seq<string>) => Join(row, ','));
    forall j | 0 <= j < |rows| ensures '\n' !in lines[j] && Split(lines[j], ',') == rows[j] {
      JoinAvoids(rows[j], ',', '\n');
      SplitJoin(rows[j], ',');
    }
    SplitJoin(lines, '\n');
  }

  /** A cell that holds a comma is not read back: the line splits into
      different cells (there is no quoting as in section 2 of RFC 4180). */
  lemma CommaCellIsNotReadBack(row: seq<string>, k: int)
    requires 0 <= k < |row| && ',' in row[k]
    ensures Split(Join(row, ','), ',') != row
  {
    var cells := Split(Join(row, ','), ',');
    assert k < |cells| ==> ',' !in cells[k];
  }

  /** A header row followed by one row per element reads back line by line. */
  lemma TableReadsBack<T>(header: seq<string>, xs: seq<T>, row: T -> seq<string>)
    requires |header| >= 1 && forall x :: |row(x)| >= 1
    requires PlainCells([header] + MapSeq(xs, row))
    ensures var lines := Split(CsvText([header] + MapSeq(xs, row)), '\n');
            |lines| == |xs| + 1 &&
            Split(lines[0], ',') == header &&
            forall k :: 0 <= k < |xs| ==> Split(lines[k + 1], ',') == row(xs[k])
  {
    var rows := [header] + MapSeq(xs, row);
    assert forall k :: 0 <= k < |xs| ==> rows[k + 1] == row(xs[k]);
    CsvTextReadsBack(rows);
  }

  /** Reading back the global history: one header line and one line per
      record, each line holding that record's six cells, provided no cell
      holds a comma or a line break. */
  lemma GlobalHistoryReadsBack(h: seq<Loan>, students: seq<Student>, inv: seq<Item>, fmt: Date -> string)
    requires PlainCells(HistoryRows(h, students, inv, fmt))
    ensures var lines := Split(GlobalHistoryCsv(h, students, inv, fmt), '\n');
            |lines| == |h| + 1 &&
            Split(lines[0], ',') == HistoryHeader &&
            forall k :: 0 <= k < |h| ==> Split(lines[k + 1], ',') == HistoryRow(h[k], students, inv, fmt)
  {
    TableReadsBack(HistoryHeader, h, (l: Loan) => HistoryRow(l, students, inv, fmt));
  }

  /** One record of a student's history with the item name it is shown with. */
  datatype HistoryEntry = HistoryEntry(loan: Loan, itemName: string)

  /** `getStudentHistory`: the student's records, in history order, each
      with its item's name. */
  function StudentHistory(h: seq<Loan>, inv: seq<Item>, studentId: int): (r: seq<HistoryEntry>)
    ensures |r| == |FilterSeq(h, (l: Loan) => l.studentId == studentId)|
    ensures forall k :: 0 <= k < |r| ==>
              r[k].loan == FilterSeq(h, (l: Loan) => l.studentId == studentId)[k] &&
              r[k].itemName == ItemName(inv, r[k].loan.itemId)
    ensures forall k :: 0 <= k < |r| ==> r[k].loan in h && r[k].loan.studentId == studentId
  {
    var mine := FilterSeq(h, (l: Loan) => l.studentId == studentId);
    MapSeq(mine, (l: Loan) => HistoryEntry(l, ItemName(inv, l.itemId)))
  }

  /** A student without records has an empty history. */
  lemma StudentHistoryEmpty(h: seq<Loan>, inv: seq<Item>, studentId: int)
    requires forall l :: l in h ==> l.studentId != studentId
    ensures StudentHistory(h, inv, studentId) == []
  {
    var mine := FilterSeq(h, (l: Loan) => l.studentId == studentId);
    assert forall k :: 0 <= k < |mine| ==> mine[k] in mine;
  }

  /** Every record of the student appears in the student's history. */
  lemma StudentHistoryComplete(h: seq<Loan>, inv: seq<Item>, studentId: int, l: Loan)
    requires l in h && l.studentId == studentId
    ensures exists k :: 0 <= k < |StudentHistory(h, inv, studentId)| &&
                        StudentHistory(h, inv, studentId)[k] == HistoryEntry(l, ItemName(inv, l.itemId))
  {
    var mine := FilterSeq(h, (l: Loan) => l.studentId == studentId);
    assert l in mine;
    var k :| 0 <= k < |mine| && mine[k] == l;
    assert StudentHistory(h, inv, studentId)[k] == HistoryEntry(l, ItemName(inv, l.itemId));
  }

  const StudentHeader: seq<string> := ["Item Name", "Quantity", "Issue Date", "Status", "Return Date"]

  /** One entry of a student's history, in header order. */
  function StudentRow(e: HistoryEntry, fmt: Date -> string): (row: seq<string>)
    ensures |row| == |StudentHeader|
    ensures row[0] == e.itemName && row[1] == IntToString(e.loan.quantity) && row[2] == fmt(e.loan.date)
    ensures row[3] == (if e.loan.status == Issued then "Issued" else "Returned")
    ensures e.loan.returnDate.Some? ==> row[4] == fmt(e.loan.returnDate.value)
    ensures row[4] == "N/A" <==> e.loan.returnDate.None? || fmt(e.loan.returnDate.value) == "N/A"
  {
    [e.itemName, IntToString(e.loan.quantity), fmt(e.loan.date), StatusText(e.loan.status), ReturnDateText(e.loan, fmt)]
  }

  function StudentRows(h: seq<Loan>, inv: seq<Item>, studentId: int, fmt: Date -> string): seq<seq<string>>
  {
    [StudentHeader] + MapSeq(StudentHistory(h, inv, studentId), (e: HistoryEntry) => StudentRow(e, fmt))
  }

  /** The CSV text of `downloadStudentHistory`: it starts with the header
      line, and is nothing more exactly when the student has no record. */
  function StudentHistoryCsv(h: seq<Loan>, inv: seq<Item>, studentId: int, fmt: Date -> string): (r: string)
    ensures var head := Join(StudentHeader, ',');
            |head| <= |r| && r[..|head|] == head &&
            (r == head <==> forall l :: l in h ==> l.studentId != studentId)
  {
    CsvTextHead(StudentRows(h, inv, studentId, fmt));
    assert StudentHistory(h, inv, studentId) == [] <==> forall l :: l in h ==> l.studentId != studentId by {
      if forall l :: l in h ==> l.studentId != studentId {
        StudentHistoryEmpty(h, inv, studentId);
      } else {
        var l :| l in h && l.studentId == studentId;
        StudentHistoryComplete(h, inv, studentId, l);
      }
    }
    CsvText(StudentRows(h, inv, studentId, fmt))
  }

  /** A student without records exports the header line alone. */
  lemma StudentWithoutRecordsIsHeaderOnly(h: seq<Loan>, inv: seq<Item>, studentId: int, fmt: Date -> string)
    requires forall l :: l in h ==> l.studentId != studentId
    ensures StudentHistoryCsv(h, inv, studentId, fmt) == Join(StudentHeader, ',')
  {
    StudentHistoryEmpty(h, inv, studentId);
    assert StudentRows(h, inv, studentId, fmt) == [StudentHeader];
    CsvTextSingleRow(StudentHeader);
  }

  /** Reading back a student's export: a header line and one line per record
      of that student, in history order. */
  lemma StudentHistoryReadsBack(h: seq<Loan>, inv: seq<Item>, studentId: int, fmt: Date -> string)
    requires PlainCells(StudentRows(h, inv, studentId, fmt))
    ensures var entries := StudentHistory(h, inv, studentId);
            var lines := Split(StudentHistoryCsv(h, inv, studentId, fmt), '\n');
            |lines| == |entries| + 1 &&
            Split(lines[0], ',') == StudentHeader &&
            forall k :: 0 <= k < |entries| ==> Split(lines[k + 1], ',') == StudentRow(entries[k], fmt)
  {
    TableReadsBack(StudentHeader, StudentHistory(h, inv, studentId), (e: HistoryEntry) => StudentRow(e, fmt));
  }

  /** Two instants in the same month of the same year. */
  predicate SameMonth(a: Date, b: Date)
  {
    a.year == b.year && a.month == b.month
  }

  /** The monthly export is due when nothing was exported yet, or the last
      export fell in another month or year; the day is not looked at. */
  function ExportDue(last: Option<Date>, now: Date): (due: bool)
    ensures last.None? ==> due
    ensures last.Some? ==> (due <==> !SameMonth(last.value, now))
  {
    last.None? || last.value.month != now.month || last.value.year != now.year
  }

  /** Two instants of the same month are equally due, and an export
      recorded at one of them leaves the other not due. */
  lemma SameMonthEquallyDue(last: Option<Date>, a: Date, b: Date)
    requires SameMonth(a, b)
    ensures ExportDue(last, a) == ExportDue(last, b)
    ensures !ExportDue(Some(a), b)
  {
  }

  /** The month part of the monthly file name: 1-based, padded to two digits. */
  function MonthField(month: int): string
  {
    PadStart2(IntToString(month + 1))
  }

  const MonthlyPrefix := "inventory_history_"

  /** `inventory_history_<year>_<MM>.csv`. */
  function MonthlyFileName(now: Date): (name: string)
    ensures |MonthlyPrefix| <= |name| && name[..|MonthlyPrefix|] == MonthlyPrefix
    ensures |name| >= 4 && name[|name| - 4..] == ".csv"
  {
    var name := MonthlyPrefix + IntToString(now.year) + "_" + MonthField(now.month) + ".csv";
    assert name[..|MonthlyPrefix|] == MonthlyPrefix;
    name
  }

  /** Instants of the same month get the same file name. */
  lemma SameMonthSameFileName(a: Date, b: Date)
    requires SameMonth(a, b)
    ensures MonthlyFileName(a) == MonthlyFileName(b)
  {
  }

  /** For months as `getMonth` reports them, the file name tells the month
      and year apart: two instants share a file name exactly when they fall
      in the same month. */
  lemma {:induction false} MonthlyFileNameIdentifiesMonth(a: Date, b: Date)
    requires 0 <= a.month < 12 && 0 <= b.month < 12
    ensures MonthlyFileName(a) == MonthlyFileName(b) <==> SameMonth(a, b)
  {
    if MonthlyFileName(a) == MonthlyFileName(b) {
      MonthFieldIsTwoDigits(a.month);
      MonthFieldIsTwoDigits(b.month);
      FileNamePartsEqual(MonthlyPrefix, IntToString(a.year), MonthField(a.month),
                         IntToString(b.year), MonthField(b.month));
      IntToStringInjective(a.year, b.year);
    }
  }

  /** Two names built the same way around a two-character month field
      agree in their year parts and in their month parts. */
  lemma FileNamePartsEqual(p: string, ya: string, ma: string, yb: string, mb: string)
    requires |ma| == 2 && |mb| == 2
    requires p + ya + "_" + ma + ".csv" == p + yb + "_" + mb + ".csv"
    ensures ya == yb && ma == mb
  {
    var na, nb := p + ya + "_" + ma + ".csv", p + yb + "_" + mb + ".csv";
    assert |ya| == |yb|;
    assert na[|p|..|p| + |ya|] == ya;
    assert nb[|p|..|p| + |yb|] == yb;
    assert na[|p| + |ya| + 1..|p| + |ya| + 3] == ma;
    assert nb[|p| + |yb| + 1..|p| + |yb| + 3] == mb;
  }

  /** For a month from `getMonth` (0 to 11) the field is two decimal digits
      whose value is the 1-based month. */
  lemma MonthFieldIsTwoDigits(month: int)
    requires 0 <= month < 12
    ensures var f := MonthField(month);
            |f| == 2 && IsDecDigit(f[0]) && IsDecDigit(f[1]) && DigitsValue(f, 10) == month + 1
  {
    var d := NatToString(month + 1);
    if month + 1 < 10 {
      assert d == [DigitChar(month + 1)];
      var f := ['0'] + d;
      assert MonthField(month) == f;
      assert f[..1] == ['0'];
      assert DigitsValue(['0'], 10) == 0 by {
        assert ['0'][..0] == [];
      }
    } else {
      assert d == NatToString((month + 1) / 10) + [DigitChar((month + 1) % 10)];
      assert NatToString((month + 1) / 10) == [DigitChar(1)];
    }
  }
}
