/** The students page: search, selection, add, edit, the guarded delete,
    each student's history, and returning an item from it. */
module StudentsPage {
  import opened Common
  import opened Ledger
  import opened Collections
  import opened CsvExport
  import opened App

  /** `filteredStudents`: the students whose name, enrollment number or
      department contains the search term, ignoring the case of letters,
      in list order. */
  function FilterStudents(students: seq<Student>, term: string): (r: seq<Student>)
    ensures forall s :: s in r ==> s in students && StudentMatches(s, term)
    ensures forall s :: s in students && StudentMatches(s, term) ==> s in r
    ensures forall s :: s in r ==> multiset(r)[s] == multiset(students)[s]
    ensures IsSubsequence(r, students)
  {
    FilterIsSubsequence(students, (s: Student) => StudentMatches(s, term));
    FilterSeq(students, (s: Student) => StudentMatches(s, term))
  }

  predicate StudentMatches(s: Student, term: string)
  {
    Matches(s.name, term) || Matches(s.enrollmentNumber, term) || Matches(s.department, term)
  }

  /** An empty search shows every student. */
  lemma EmptySearchShowsAll(students: seq<Student>)
    ensures FilterStudents(students, "") == students
  {
    forall i | 0 <= i < |students| ensures Matches(students[i].name, "") {
      MatchesProperties(students[i].name, "");
    }
    FilterKeepsAll(students, (s: Student) => StudentMatches(s, ""));
  }

  /** The delete guard: some selected student still holds an unreturned record. */
  predicate HasUnreturned(selected: set<int>, h: seq<Loan>)
  {
    exists l :: l in h && l.studentId in selected && l.status != Returned
  }

  /** A delete the guard lets through leaves every student who holds an
      unreturned record in place. */
  lemma GuardedDeleteKeepsBorrowers(students: seq<Student>, selected: set<int>, h: seq<Loan>)
    requires !HasUnreturned(selected, h)
    ensures forall l, s :: l in h && l.status != Returned && s in students && s.id == l.studentId ==>
              s in RemoveSelected(students, selected, StudentId)
  {
    forall l, s | l in h && l.status != Returned && s in students && s.id == l.studentId
      ensures s in RemoveSelected(students, selected, StudentId)
    {
      assert StudentId(s) !in selected;
    }
  }

  class StudentsView {
    const store: Store
    var selected: set<int>
    var searchTerm: string

    constructor(store: Store)
      ensures this.store == store && selected == {} && searchTerm == ""
    {
      this.store := store;
      selected := {};
      searchTerm := "";
    }

    /** The students shown under the current search. */
    function Visible(): seq<Student>
      reads this, store
    {
      FilterStudents(store.students, searchTerm)
    }

    /** The page's `handleAddStudent`, the same rule as the store's. */
    method AddStudent(s: Student)
      requires store.Valid() && |store.students| > 0
      modifies store
      ensures store.Valid()
      ensures store.students == old(store.students) + [s.(id := NextId(old(store.students), StudentId))]
      ensures store.inventory == old(store.inventory) && store.history == old(store.history)
      ensures store.lastDownload == old(store.lastDownload)
    {
      store.AddStudent(s);
    }

    /** `handleEditStudent`: the student with `updated`'s id becomes
        `updated`; nothing else changes. */
    method EditStudent(updated: Student)
      requires store.Valid()
      modifies store
      ensures store.Valid()
      ensures store.students == ReplaceById(old(store.students), updated, StudentId)
      ensures store.inventory == old(store.inventory) && store.history == old(store.history)
      ensures store.lastDownload == old(store.lastDownload)
    {
      var students' := ReplaceById(store.students, updated, StudentId);
      assert forall i :: 0 <= i < |students'| ==> students'[i].id == Ids(students', StudentId)[i];
      store.students := students';
    }

    /** `handleSelect`: flip one student's checkbox. */
    method Select(id: int)
      modifies this
      ensures selected == Toggle(old(selected), id)
      ensures searchTerm == old(searchTerm)
    {
      selected := Toggle(selected, id);
    }

    /** `handleSelectAll` over the students currently shown. */
    method SelectAll()
      modifies this
      ensures selected == Collections.SelectAll(old(selected), Ids(old(Visible()), StudentId))
      ensures searchTerm == old(searchTerm)
    {
      selected := Collections.SelectAll(selected, Ids(Visible(), StudentId));
    }

    /** `handleDeleteStudents`: refused, changing nothing, when a selected
        student holds an unreturned record; otherwise, if `confirmed`,
        exactly the selected students are removed and the selection is
        cleared, and if not, nothing changes. A delete never leaves an
        unreturned record without its student. */
    method DeleteStudents(confirmed: bool) returns (refused: bool)
      requires store.Valid()
      modifies this, store
      ensures store.Valid()
      ensures refused <==> HasUnreturned(old(selected), old(store.history))
      ensures refused || !confirmed ==> store.students == old(store.students) && selected == old(selected)
      ensures !refused && confirmed ==>
                store.students == RemoveSelected(old(store.students), old(selected), StudentId) && selected == {}
      ensures forall l, s :: (l in store.history && l.status != Returned && s in old(store.students) &&
                              s.id == l.studentId) ==> s in store.students
      ensures store.inventory == old(store.inventory) && store.history == old(store.history)
      ensures store.lastDownload == old(store.lastDownload) && searchTerm == old(searchTerm)
    {
      refused := HasUnreturned(selected, store.history);
      if !refused && confirmed {
        GuardedDeleteKeepsBorrowers(store.students, selected, store.history);
        RemoveSelectedKeepsDistinct(store.students, selected, StudentId);
        store.students := RemoveSelected(store.students, selected, StudentId);
        selected := {};
      }
    }

    /** The Return action in a student's history. It is offered only for a
        record that is not `Returned` and acts only once confirmed; then it
        is the store's return, and every item's total stock is conserved. */
    method ReturnRecord(entry: HistoryEntry, confirmed: bool, now: Date)
      requires store.Valid()
      requires entry.loan in store.history && entry.loan.status != Returned
      modifies store
      ensures store.Valid()
      ensures !confirmed ==> store.inventory == old(store.inventory) && store.history == old(store.history)
      ensures confirmed ==> store.inventory == Adjust(old(store.inventory), entry.loan.itemId, entry.loan.quantity) &&
                            store.history == MarkReturned(old(store.history), entry.loan.id, now)
      ensures forall i :: 0 <= i < |store.inventory| ==>
                Stock(store.inventory[i], store.history) == Stock(old(store.inventory)[i], old(store.history))
      ensures store.students == old(store.students) && store.lastDownload == old(store.lastDownload)
    {
      if confirmed {
        store.ReturnItem(entry.loan, now);
      }
    }
  }
}
