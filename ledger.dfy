/** The loan ledger: stock items, students, issuance records, and the pure
    list transformations behind issuing and returning an item. The
    quantity stored on an item is what is currently available; the total
    stock is that plus what unreturned records still hold. */
module Ledger {
  import opened Common

  /** An instant as the application reads it back from its ISO-8601 text:
      the calendar year and zero-based month that `getFullYear` and
      `getMonth` report, and the rest of the instant (day and time) kept
      abstract. */
  datatype Date = Date(year: int, month: int, rest: int)

  datatype Item = Item(id: int, name: string, quantity: int)

  datatype Student = Student(id: int, name: string, enrollmentNumber: string,
                             department: string, phoneNumber: string, email: string)

  function ItemId(it: Item): int { it.id }

  function StudentId(s: Student): int { s.id }

  datatype Status = Issued | Returned

  /** An issuance record; `returnDate` is absent until the record is returned. */
  datatype Loan = Loan(id: int, studentId: int, itemId: int, quantity: int,
                       date: Date, status: Status, returnDate: Option<Date>)

  /** What one record contributes to the issued quantity of `itemId`. */
  function Outstanding(l: Loan, itemId: int): int
  {
    if l.itemId == itemId && l.status != Returned then l.quantity else 0
  }

  /** `getIssuedQuantity`: the `reduce` over the history, from the first
      record to the last, adding the quantity of every unreturned record of
      the item. */
  function IssuedQuantity(h: seq<Loan>, itemId: int): (r: int)
    ensures (forall l :: l in h ==> l.itemId != itemId || l.status == Returned) ==> r == 0
    ensures (forall l :: l in h ==> l.quantity >= 0) ==> r >= 0
  {
    if h == [] then 0
    else
      assert forall l :: l in h[..|h| - 1] ==> l in h;
      IssuedQuantity(h[..|h| - 1], itemId) + Outstanding(h[|h| - 1], itemId)
  }

  /** Plain sum of quantities, as an independent reference for the fold above. */
  function SumQuantities(ls: seq<Loan>): int
  {
    if ls == [] then 0 else ls[0].quantity + SumQuantities(ls[1..])
  }

  lemma {:induction false} SumQuantitiesAppend(a: seq<Loan>, b: seq<Loan>)
    ensures SumQuantities(a + b) == SumQuantities(a) + SumQuantities(b)
  {
    if a == [] {
      assert a + b == b;
    } else {
      assert (a + b)[1..] == a[1..] + b;
      SumQuantitiesAppend(a[1..], b);
    }
  }

  /** The fold equals the sum over exactly the unreturned records of the item. */
  lemma {:induction false} IssuedQuantityIsSumOfUnreturned(h: seq<Loan>, itemId: int)
    ensures IssuedQuantity(h, itemId)
         == SumQuantities(FilterSeq(h, (l: Loan) => l.itemId == itemId && l.status != Returned))
  {
    var keep := (l: Loan) => l.itemId == itemId && l.status != Returned;
    if h != [] {
      var front, last := h[..|h| - 1], h[|h| - 1];
      assert h == front + [last];
      IssuedQuantityIsSumOfUnreturned(front, itemId);
      FilterAppend(front, [last], keep);
      SumQuantitiesAppend(FilterSeq(front, keep), FilterSeq([last], keep));
      assert FilterSeq([last], keep) == if keep(last) then [last] else [] by {
        assert [last][1..] == [];
      }
    }
  }

  /** Appending a record adds exactly its own contribution. */
  lemma IssuedQuantityAppend(h: seq<Loan>, l: Loan, itemId: int)
    ensures IssuedQuantity(h + [l], itemId) == IssuedQuantity(h, itemId) + Outstanding(l, itemId)
  {
    assert (h + [l])[..|h|] == h;
  }

  /** Total stock of an item: available plus issued and not yet returned. */
  function Stock(it: Item, h: seq<Loan>): int
  {
    it.quantity + IssuedQuantity(h, it.id)
  }

  /** The `inventory.map` of issue and return: every item whose id is
      `itemId` changes its quantity by `delta`; nothing else changes. */
  function Adjust(inv: seq<Item>, itemId: int, delta: int): (r: seq<Item>)
    ensures |r| == |inv|
    ensures forall i :: 0 <= i < |inv| ==>
              r[i].id == inv[i].id && r[i].name == inv[i].name &&
              r[i].quantity == inv[i].quantity + (if inv[i].id == itemId then delta else 0)
    ensures (forall i :: 0 <= i < |inv| ==> inv[i].id != itemId) ==> r == inv
  {
    MapSeq(inv, (it: Item) => if it.id == itemId then it.(quantity := it.quantity + delta) else it)
  }

  /** The `issuanceHistory.map` of a return: every record whose id is
      `loanId` becomes `Returned` with the given return date; all other
      records, and the length, are unchanged. */
  function MarkReturned(h: seq<Loan>, loanId: int, now: Date): (r: seq<Loan>)
    ensures |r| == |h|
    ensures forall i :: 0 <= i < |h| && h[i].id != loanId ==> r[i] == h[i]
    ensures forall i :: 0 <= i < |h| && h[i].id == loanId ==>
              r[i] == h[i].(status := Returned, returnDate := Some(now))
  {
    MapSeq(h, (l: Loan) => if l.id == loanId then l.(returnDate := Some(now), status := Returned) else l)
  }

  function LoanIds(h: seq<Loan>): (ids: seq<int>)
    ensures |ids| == |h| && forall i :: 0 <= i < |h| ==> ids[i] == h[i].id
  {
    MapSeq(h, (l: Loan) => l.id)
  }

  /** `Math.max(0, ...ids) + 1`: positive, above every existing record id,
      and one more than either 0 or the largest id. */
  function NextLoanId(h: seq<Loan>): (r: int)
    ensures r >= 1
    ensures forall l :: l in h ==> l.id < r
    ensures r == 1 || exists l :: l in h && l.id == r - 1
  {
    var ids := LoanIds(h);
    assert forall l :: l in h ==> l.id in ids by {
      forall l | l in h ensures l.id in ids {
        var i :| 0 <= i < |h| && h[i] == l;
        assert ids[i] == l.id;
      }
    }
    var m := MaxWithZero(ids);
    assert m != 0 ==> exists l :: l in h && l.id == m by {
      if m != 0 {
        var i :| 0 <= i < |ids| && ids[i] == m;
        assert h[i] in h;
      }
    }
    m + 1
  }

  /** No two records share an id. */
  ghost predicate UniqueIds(h: seq<Loan>)
  {
    forall i, j :: 0 <= i < j < |h| ==> h[i].id != h[j].id
  }

  /** What the ledger keeps true of its history: ids are positive and
      distinct, and a return date is present exactly on returned records. */
  ghost predicate WellFormedHistory(h: seq<Loan>)
  {
    UniqueIds(h) &&
    forall l :: l in h ==> l.id > 0 && (l.returnDate.Some? <==> l.status == Returned)
  }

  /** The record an issue appends: the given student, item, quantity and
      date, status `Issued`, no return date, and the next record id. */
  function NewLoan(h: seq<Loan>, studentId: int, itemId: int, quantity: int, date: Date): (l: Loan)
    ensures l.studentId == studentId && l.itemId == itemId && l.quantity == quantity && l.date == date
    ensures l.status == Issued && l.returnDate.None?
    ensures l.id == NextLoanId(h)
    ensures l.id >= 1 && forall old_ :: old_ in h ==> old_.id < l.id
  {
    Loan(NextLoanId(h), studentId, itemId, quantity, date, Issued, None)
  }

  /** Issuing keeps the history well formed. */
  lemma IssueKeepsHistoryWellFormed(h: seq<Loan>, studentId: int, itemId: int, quantity: int, date: Date)
    requires WellFormedHistory(h)
    ensures WellFormedHistory(h + [NewLoan(h, studentId, itemId, quantity, date)])
  {
    var l := NewLoan(h, studentId, itemId, quantity, date);
    var h' := h + [l];
    forall i, j | 0 <= i < j < |h'| ensures h'[i].id != h'[j].id {
      if j == |h| {
        assert h'[i] in h;
      } else {
        assert h'[i] == h[i] && h'[j] == h[j];
      }
    }
  }

  /** Returning keeps the history well formed. */
  lemma ReturnKeepsHistoryWellFormed(h: seq<Loan>, loanId: int, now: Date)
    requires WellFormedHistory(h)
    ensures WellFormedHistory(MarkReturned(h, loanId, now))
  {
    var h' := MarkReturned(h, loanId, now);
    forall l | l in h' ensures l.id > 0 && (l.returnDate.Some? <==> l.status == Returned) {
      var i :| 0 <= i < |h'| && h'[i] == l;
      assert h[i] in h;
    }
  }

  /** Issuing conserves every item's total stock: the item loses what the
      new record holds. */
  lemma IssueConservesStock(inv: seq<Item>, h: seq<Loan>, studentId: int, itemId: int, quantity: int, date: Date)
    ensures var inv', h' := Adjust(inv, itemId, -quantity), h + [NewLoan(h, studentId, itemId, quantity, date)];
            forall i :: 0 <= i < |inv| ==> Stock(inv'[i], h') == Stock(inv[i], h)
  {
    var l := NewLoan(h, studentId, itemId, quantity, date);
    forall i | 0 <= i < |inv| ensures Stock(Adjust(inv, itemId, -quantity)[i], h + [l]) == Stock(inv[i], h) {
      IssuedQuantityAppend(h, l, inv[i].id);
    }
  }

  /** How much of `itemId` the records with id `loanId` still hold. */
  function Returning(h: seq<Loan>, loanId: int, itemId: int): int
  {
    if h == [] then 0
    else Returning(h[..|h| - 1], loanId, itemId)
         + (if h[|h| - 1].id == loanId then Outstanding(h[|h| - 1], itemId) else 0)
  }

  /** Marking the records with id `loanId` returned takes exactly their
      outstanding quantity out of the issued quantity. */
  lemma {:induction false} IssuedQuantityAfterReturn(h: seq<Loan>, loanId: int, now: Date, itemId: int)
    ensures IssuedQuantity(MarkReturned(h, loanId, now), itemId)
         == IssuedQuantity(h, itemId) - Returning(h, loanId, itemId)
  {
    if h != [] {
      var front, last := h[..|h| - 1], h[|h| - 1];
      var m := MarkReturned(h, loanId, now);
      MarkReturnedFront(h, loanId, now);
      IssuedQuantityAfterReturn(front, loanId, now, itemId);
      assert Outstanding(m[|m| - 1], itemId)
          == Outstanding(last, itemId) - (if last.id == loanId then Outstanding(last, itemId) else 0);
    }
  }

  /** Marking a history returned and then dropping its last record is
      the same as dropping the last record first. */
  lemma MarkReturnedFront(h: seq<Loan>, loanId: int, now: Date)
    requires h != []
    ensures MarkReturned(h, loanId, now)[..|h| - 1] == MarkReturned(h[..|h| - 1], loanId, now)
  {
    var m, mf := MarkReturned(h, loanId, now), MarkReturned(h[..|h| - 1], loanId, now);
    forall i | 0 <= i < |h| - 1 ensures m[i] == mf[i] {
      assert h[..|h| - 1][i] == h[i];
    }
  }

  lemma {:induction false} ReturningAbsent(h: seq<Loan>, loanId: int, itemId: int)
    requires forall l :: l in h ==> l.id != loanId
    ensures Returning(h, loanId, itemId) == 0
  {
    if h != [] {
      assert forall l :: l in h[..|h| - 1] ==> l in h;
      ReturningAbsent(h[..|h| - 1], loanId, itemId);
    }
  }

  /** With distinct ids, the records with `rec`'s id are `rec` alone. */
  lemma {:induction false} ReturningUnique(h: seq<Loan>, rec: Loan, itemId: int)
    requires UniqueIds(h) && rec in h
    ensures Returning(h, rec.id, itemId) == Outstanding(rec, itemId)
  {
    var front, last := h[..|h| - 1], h[|h| - 1];
    assert UniqueIds(front);
    if last == rec {
      forall l | l in front ensures l.id != rec.id {
        var i :| 0 <= i < |front| && front[i] == l;
        assert h[i] == l;
      }
      ReturningAbsent(front, rec.id, itemId);
    } else {
      assert h == front + [last];
      assert rec in front;
      var i :| 0 <= i < |front| && front[i] == rec;
      assert h[i] == rec;
      ReturningUnique(front, rec, itemId);
    }
  }

  /** The effect of a return on an item's total stock: its own credit,
      minus what `rec` was still holding of it. */
  lemma ReturnStock(inv: seq<Item>, h: seq<Loan>, rec: Loan, now: Date)
    requires UniqueIds(h) && rec in h
    ensures var inv', h' := Adjust(inv, rec.itemId, rec.quantity), MarkReturned(h, rec.id, now);
            forall i :: 0 <= i < |inv| ==>
              Stock(inv'[i], h') == Stock(inv[i], h)
                                    + (if inv[i].id == rec.itemId then rec.quantity else 0)
                                    - Outstanding(rec, inv[i].id)
  {
    forall i | 0 <= i < |inv|
      ensures Stock(Adjust(inv, rec.itemId, rec.quantity)[i], MarkReturned(h, rec.id, now))
           == Stock(inv[i], h) + (if inv[i].id == rec.itemId then rec.quantity else 0)
              - Outstanding(rec, inv[i].id)
    {
      IssuedQuantityAfterReturn(h, rec.id, now, inv[i].id);
      ReturningUnique(h, rec, inv[i].id);
    }
  }

  /** Returning a record that is still `Issued` conserves every item's total stock. */
  lemma ReturnConservesStock(inv: seq<Item>, h: seq<Loan>, rec: Loan, now: Date)
    requires UniqueIds(h) && rec in h && rec.status == Issued
    ensures var inv', h' := Adjust(inv, rec.itemId, rec.quantity), MarkReturned(h, rec.id, now);
            forall i :: 0 <= i < |inv| ==> Stock(inv'[i], h') == Stock(inv[i], h)
  {
    ReturnStock(inv, h, rec, now);
  }

  /** Returning a record that is already `Returned` credits its item a second
      time: the item's total stock grows by the record's quantity. */
  lemma DoubleReturnOverCredits(inv: seq<Item>, h: seq<Loan>, rec: Loan, now: Date)
    requires UniqueIds(h) && rec in h && rec.status == Returned
    ensures var inv', h' := Adjust(inv, rec.itemId, rec.quantity), MarkReturned(h, rec.id, now);
            forall i :: 0 <= i < |inv| ==>
              Stock(inv'[i], h') == Stock(inv[i], h) + (if inv[i].id == rec.itemId then rec.quantity else 0)
  {
    ReturnStock(inv, h, rec, now);
  }
}
