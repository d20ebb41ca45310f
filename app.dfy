/** The application's shared state and the handlers that change it:
    issuing and returning items, adding a student, and the monthly export
    of the issuance history. */
module App {
  import opened Common
  import opened Ledger
  import opened Collections
  import opened CsvExport
  import opened IssueForm

  /** The inventory a first session starts with. */
  const InitialInventory: seq<Item> := [
    Item(1, "Breadboard", 15),
    Item(2, "Arduino Uno", 10),
    Item(3, "Jumper Wires", 100),
    Item(4, "Resistor Kit", 5),
    Item(5, "Oscilloscope", 3)
  ]

  /** What an earlier session left in storage; each part may be missing. */
  datatype Saved = Saved(inventory: Option<seq<Item>>, students: Option<seq<Student>>,
                         history: Option<seq<Loan>>, lastDownload: Option<Date>)

  /** A file handed to the browser: its name and its text. */
  datatype Download = Download(fileName: string, content: string)

  /** The state one render of the application sees: what a callback
      created in that render reads for as long as it lives. */
  datatype Snapshot = Snapshot(inventory: seq<Item>, students: seq<Student>,
                               history: seq<Loan>, lastDownload: Option<Date>)

  /** Well-formed stored state, as the handlers below leave it. */
  ghost predicate SavedValid(saved: Saved)
  {
    (saved.inventory.Some? ==> DistinctIds(saved.inventory.value, ItemId)) &&
    (saved.students.Some? ==> DistinctIds(saved.students.value, StudentId)) &&
    (saved.history.Some? ==> WellFormedHistory(saved.history.value))
  }

  class Store {
    var inventory: seq<Item>
    var students: seq<Student>
    var history: seq<Loan>
    var lastDownload: Option<Date>

    /** Item ids and student ids are distinct, and the history is well formed. */
    ghost predicate Valid()
      reads this
    {
      DistinctIds(inventory, ItemId) && DistinctIds(students, StudentId) && WellFormedHistory(history)
    }

    /** Each part of the state is what was stored, or its default: the
        initial inventory, no students, no history, no download yet. */
    constructor(saved: Saved)
      requires SavedValid(saved)
      ensures Valid()
      ensures inventory == (if saved.inventory.Some? then saved.inventory.value else InitialInventory)
      ensures students == (if saved.students.Some? then saved.students.value else [])
      ensures history == (if saved.history.Some? then saved.history.value else [])
      ensures lastDownload == saved.lastDownload
    {
      inventory := if saved.inventory.Some? then saved.inventory.value else InitialInventory;
      students := if saved.students.Some? then saved.students.value else [];
      history := if saved.history.Some? then saved.history.value else [];
      lastDownload := saved.lastDownload;
    }

    /** `handleIssueItem`: the requested item loses the requested quantity,
        and one `Issued` record with a fresh id is appended. Every item's
        total stock is unchanged. */
    method IssueItem(req: IssueRequest)
      requires Valid()
      modifies this
      ensures Valid()
      ensures inventory == Adjust(old(inventory), req.itemId, -req.quantity)
      ensures history == old(history) + [NewLoan(old(history), req.studentId, req.itemId, req.quantity, req.date)]
      ensures students == old(students) && lastDownload == old(lastDownload)
      ensures forall i :: 0 <= i < |inventory| ==> Stock(inventory[i], history) == Stock(old(inventory)[i], old(history))
    {
      IssueKeepsHistoryWellFormed(history, req.studentId, req.itemId, req.quantity, req.date);
      IssueConservesStock(inventory, history, req.studentId, req.itemId, req.quantity, req.date);
      var l := NewLoan(history, req.studentId, req.itemId, req.quantity, req.date);
      inventory := Adjust(inventory, req.itemId, -req.quantity);
      history := history + [l];
    }

    /** `handleReturnItem`: the record's item gets the record's quantity
        back and the record is marked `Returned` at `now`. Returning a record
        that was still `Issued` conserves every item's total stock; the
        record's status is not checked, so returning it again credits its
        item a second time. */
    method ReturnItem(rec: Loan, now: Date)
      requires Valid()
      modifies this
      ensures Valid()
      ensures inventory == Adjust(old(inventory), rec.itemId, rec.quantity)
      ensures history == MarkReturned(old(history), rec.id, now)
      ensures students == old(students) && lastDownload == old(lastDownload)
      ensures rec in old(history) && rec.status == Issued ==>
                forall i :: 0 <= i < |inventory| ==> Stock(inventory[i], history) == Stock(old(inventory)[i], old(history))
      ensures rec in old(history) && rec.status == Returned ==>
                forall i :: 0 <= i < |inventory| ==>
                  Stock(inventory[i], history)
                  == Stock(old(inventory)[i], old(history)) + (if inventory[i].id == rec.itemId then rec.quantity else 0)
    {
      ReturnKeepsHistoryWellFormed(history, rec.id, now);
      if rec in history {
        if rec.status == Issued {
          ReturnConservesStock(inventory, history, rec, now);
        } else {
          DoubleReturnOverCredits(inventory, history, rec, now);
        }
      }
      inventory := Adjust(inventory, rec.itemId, rec.quantity);
      history := MarkReturned(history, rec.id, now);
    }

    /** `handleAddStudent`: the new student is appended with the id one
        above the largest; with at least one student already there, that id
        is new. */
    method AddStudent(s: Student)
      requires Valid() && |students| > 0
      modifies this
      ensures Valid()
      ensures students == old(students) + [s.(id := NextId(old(students), StudentId))]
      ensures inventory == old(inventory) && history == old(history) && lastDownload == old(lastDownload)
    {
      var added := s.(id := NextId(students, StudentId));
      AppendKeepsDistinct(students, [added], StudentId);
      students := students + [added];
    }

    /** `checkAndDownloadMonthlyHistory`, run at login and by the hourly
        timer: when no export was recorded for the month of `now`, hand over
        this month's history file and record `now`. Afterwards no export is
        due for the rest of that month. */
    method CheckMonthlyExport(now: Date, fmt: Date -> string) returns (download: Option<Download>)
      modifies this
      ensures inventory == old(inventory) && students == old(students) && history == old(history)
      ensures ExportDue(old(lastDownload), now) ==>
                download == Some(Download(MonthlyFileName(now), GlobalHistoryCsv(history, students, inventory, fmt))) &&
                lastDownload == Some(now)
      ensures !ExportDue(old(lastDownload), now) ==> download == None && lastDownload == old(lastDownload)
      ensures !ExportDue(lastDownload, now)
    {
      if ExportDue(lastDownload, now) {
        download := Some(Download(MonthlyFileName(now), GlobalHistoryCsv(history, students, inventory, fmt)));
        lastDownload := Some(now);
      } else {
        download := None;
      }
    }

    /** The state as the current render sees it. */
    function Capture(): (snap: Snapshot)
      reads this
      ensures snap.inventory == inventory && snap.students == students
      ensures snap.history == history && snap.lastDownload == lastDownload
    {
      Snapshot(inventory, students, history, lastDownload)
    }

    /** The hourly timer as installed: it runs the check of the render that
        installed it, so both the due test and the file's content come from
        `installed`, that render's state, however the store has changed
        since. Only the recorded download time is written back. */
    method TimerTickAsWritten(installed: Snapshot, now: Date, fmt: Date -> string) returns (download: Option<Download>)
      modifies this
      ensures inventory == old(inventory) && students == old(students) && history == old(history)
      ensures ExportDue(installed.lastDownload, now) ==>
                download == Some(Download(MonthlyFileName(now),
                                          GlobalHistoryCsv(installed.history, installed.students, installed.inventory, fmt))) &&
                lastDownload == Some(now)
      ensures !ExportDue(installed.lastDownload, now) ==> download == None && lastDownload == old(lastDownload)
    {
      if ExportDue(installed.lastDownload, now) {
        download := Some(Download(MonthlyFileName(now),
                                  GlobalHistoryCsv(installed.history, installed.students, installed.inventory, fmt)));
        lastDownload := Some(now);
      } else {
        download := None;
      }
    }
  }

  /** The first session, as written: the login check exports the month's
      file, and an hour later, in the same month, the timer installed at
      login exports the same file again, because it still sees no earlier
      download. It keeps doing so every hour until the history changes. */
  method RepeatedMonthlyExportAsWritten(now: Date, later: Date, fmt: Date -> string)
    returns (atLogin: Option<Download>, hourLater: Option<Download>)
    requires later.year == now.year && later.month == now.month
    ensures atLogin.Some? && hourLater.Some?
    ensures atLogin == hourLater
  {
    var store := new Store(Saved(None, None, None, None));
    var installed := store.Capture();
    atLogin := store.CheckMonthlyExport(now, fmt);
    hourLater := store.TimerTickAsWritten(installed, later, fmt);
    SameMonthSameFileName(now, later);
  }

  /** The same session when each check reads the current last-download
      value: one export per month. */
  method OneMonthlyExport(now: Date, later: Date, fmt: Date -> string)
    returns (atLogin: Option<Download>, hourLater: Option<Download>)
    requires later.year == now.year && later.month == now.month
    ensures atLogin.Some? && hourLater.None?
  {
    var store := new Store(Saved(None, None, None, None));
    atLogin := store.CheckMonthlyExport(now, fmt);
    hourLater := store.CheckMonthlyExport(later, fmt);
  }
}
