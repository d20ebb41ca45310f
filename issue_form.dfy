/** The issue form: an item, a student and a quantity chosen in the UI,
    checked in a fixed order before a request reaches the ledger. */
module IssueForm {
  import opened Common
  import opened JsText
  import opened Ledger
  import opened Collections

  /** What a successful submission hands to the ledger: the selected item's
      id, the selected student's id, the parsed quantity and the instant. */
  datatype IssueRequest = IssueRequest(itemId: int, studentId: int, quantity: int, date: Date)

  const SelectItemMessage := "Please select an item"
  const InvalidQuantityMessage := "Please enter a valid quantity"

  /** The insufficient-stock message, naming what is available: the number
      after "Only " reads back as the item's quantity, and the message ends
      with the item's name and "(s) available". */
  function ShortageMessage(it: Item): (msg: string)
    ensures |msg| > 5 && msg[..5] == "Only " && JsParseInt(msg[5..]) == Num(it.quantity)
    ensures var tail := it.name + "(s) available";
            |tail| <= |msg| && msg[|msg| - |tail|..] == tail
  {
    var n, tail := IntToString(it.quantity), it.name + "(s) available";
    var msg := "Only " + n + " " + tail;
    assert msg[5..] == n + ([' '] + tail);
    ParseIntOfIntToString(it.quantity, [' '] + tail);
    assert msg[|msg| - |tail|..] == tail;
    msg
  }

  /** The item whose id is `parseInt` of the selected value: the first one,
      or none when the value does not parse or no item has that id. */
  function SelectedItem(inv: seq<Item>, selectedItem: string): (r: Option<Item>)
    ensures r.None? <==> JsParseInt(selectedItem).NaN? ||
                         forall it :: it in inv ==> it.id != JsParseInt(selectedItem).value
    ensures r.Some? ==> JsParseInt(selectedItem) == Num(r.value.id) &&
                        exists i :: 0 <= i < |inv| && inv[i] == r.value &&
                                    forall j :: 0 <= j < i ==> inv[j].id != r.value.id
  {
    match JsParseInt(selectedItem)
    case NaN => None
    case Num(id) => FindFirst(inv, (it: Item) => it.id == id)
  }

  /** The checks of a submission, in order: the item must exist, the
      quantity `q` (the `parseInt` of the quantity input) must not exceed what
      it has, and it must be positive. The first failing check gives the
      message. */
  function Validate(inv: seq<Item>, selectedItem: string, q: int,
                    studentId: int, now: Date): (r: Result<IssueRequest, string>)
    ensures var sel := SelectedItem(inv, selectedItem);
            (sel.None? ==> r == Err(SelectItemMessage)) &&
            (sel.Some? && q > sel.value.quantity ==> r == Err(ShortageMessage(sel.value))) &&
            (sel.Some? && q <= sel.value.quantity && q <= 0 ==> r == Err(InvalidQuantityMessage)) &&
            (r.Ok? <==> sel.Some? && 0 < q <= sel.value.quantity)
    ensures r.Ok? ==> r.value.itemId == SelectedItem(inv, selectedItem).value.id &&
                      r.value.studentId == studentId &&
                      r.value.quantity == q &&
                      r.value.date == now
  {
    match SelectedItem(inv, selectedItem)
    case None => Err(SelectItemMessage)
    case Some(it) =>
      if q > it.quantity then Err(ShortageMessage(it))
      else if q <= 0 then Err(InvalidQuantityMessage)
      else Ok(IssueRequest(it.id, studentId, q, now))
  }

  /** Taking a positive amount no larger than what one item has, from the
      only item with that id, leaves every quantity non-negative. */
  lemma IssueFromItemKeepsQuantitiesNonNegative(inv: seq<Item>, i: int, q: int)
    requires DistinctIds(inv, ItemId) && forall it :: it in inv ==> it.quantity >= 0
    requires 0 <= i < |inv| && 0 < q <= inv[i].quantity
    ensures forall it :: it in Adjust(inv, inv[i].id, -q) ==> it.quantity >= 0
  {
    var inv' := Adjust(inv, inv[i].id, -q);
    forall it | it in inv' ensures it.quantity >= 0 {
      var k :| 0 <= k < |inv'| && inv'[k] == it;
      assert inv[k] in inv;
      assert inv[k].id == inv[i].id ==> k == i;
    }
  }

  /** A validated request asks for something that exists, in a positive
      amount no larger than what is available; so when item ids are distinct
      and no quantity is negative, the issue leaves every quantity
      non-negative. */
  lemma ValidatedIssueKeepsQuantitiesNonNegative(inv: seq<Item>, selectedItem: string, q: int,
                                                 studentId: int, now: Date)
    requires DistinctIds(inv, ItemId) && forall it :: it in inv ==> it.quantity >= 0
    requires Validate(inv, selectedItem, q, studentId, now).Ok?
    ensures var req := Validate(inv, selectedItem, q, studentId, now).value;
            req.quantity > 0 &&
            forall it :: it in Adjust(inv, req.itemId, -req.quantity) ==> it.quantity >= 0
  {
    var req := Validate(inv, selectedItem, q, studentId, now).value;
    var sel := SelectedItem(inv, selectedItem).value;
    var i :| 0 <= i < |inv| && inv[i] == sel;
    IssueFromItemKeepsQuantitiesNonNegative(inv, i, req.quantity);
  }

  /** The form's state: the raw values of the two selects and the quantity
      input, and the error banner. */
  class IssueFormState {
    var selectedItem: string
    var quantity: string
    var selectedStudent: string
    var error: string

    /** Nothing selected, a quantity of 1, no error. */
    constructor()
      ensures selectedItem == "" && quantity == "1" && selectedStudent == "" && error == ""
    {
      selectedItem := "";
      quantity := "1";
      selectedStudent := "";
      error := "";
    }

    /** Choosing another item resets the quantity to 1 and clears the error. */
    method ChangeItem(value: string)
      modifies this
      ensures selectedItem == value && quantity == "1" && error == ""
      ensures selectedStudent == old(selectedStudent)
    {
      selectedItem := value;
      error := "";
      quantity := "1";
    }

    /** Editing the quantity clears the error. */
    method ChangeQuantity(value: string)
      modifies this
      ensures quantity == value && error == ""
      ensures selectedItem == old(selectedItem) && selectedStudent == old(selectedStudent)
    {
      quantity := value;
      error := "";
    }

    method ChangeStudent(value: string)
      modifies this
      ensures selectedStudent == value
      ensures selectedItem == old(selectedItem) && quantity == old(quantity) && error == old(error)
    {
      selectedStudent := value;
    }

    /** `handleSubmit`: on a failed check the banner shows its message and no
        request is emitted; otherwise the banner is cleared and exactly the
        validated request is emitted. The selections are kept either way.
        The quantity input and the student select are `required`, so the
        browser submits only a quantity that is a number and a student that
        was chosen. */
    method Submit(inv: seq<Item>, now: Date) returns (request: Option<IssueRequest>)
      requires JsParseInt(quantity).Num? && JsParseInt(selectedStudent).Num?
      modifies this
      ensures selectedItem == old(selectedItem) && quantity == old(quantity) &&
              selectedStudent == old(selectedStudent)
      ensures var v := Validate(inv, selectedItem, JsParseInt(quantity).value, JsParseInt(selectedStudent).value, now);
              (v.Ok? ==> request == Some(v.value) && error == "") &&
              (v.Err? ==> request == None && error == v.error)
    {
      var v := Validate(inv, selectedItem, JsParseInt(quantity).value, JsParseInt(selectedStudent).value, now);
      match v
      case Err(message) =>
        error := message;
        request := None;
      case Ok(req) =>
        error := "";
        request := Some(req);
    }
  }
}
