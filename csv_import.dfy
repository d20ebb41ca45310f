/** The inventory CSV import: the header names the columns, every
    non-blank line after it becomes one new item, and a single bad line
    rejects the whole file. New items get consecutive ids above the
    largest existing one. */
module CsvImport {
  import opened Common
  import opened JsText
  import opened Ledger

  datatype ImportError = MissingColumns | InvalidRow(line: string)

  /** The banner text for each failure. */
  function ErrorMessage(e: ImportError): string
  {
    match e
    case MissingColumns => "CSV must contain 'name' and 'quantity' columns"
    case InvalidRow(_) => "Error processing CSV file. Please check the format."
  }

  /** Positions of the `name` and `quantity` columns. */
  datatype Columns = Columns(name: nat, quantity: nat)

  /** The header cells: the first line, lower-cased, trimmed as a whole,
      split on ','; single cells are not trimmed. */
  function HeaderCells(text: string): (cells: seq<string>)
    ensures |cells| >= 1 && forall k :: 0 <= k < |cells| ==> ',' !in cells[k]
    ensures Join(cells, ',') == Trim(Lower(Split(text, '\n')[0]))
  {
    Split(Trim(Lower(Split(text, '\n')[0])), ',')
  }

  /** Both required columns must be present as exact cells, in any order;
      each column's position is its first occurrence. */
  function FindColumns(headers: seq<string>): (r: Option<Columns>)
    ensures r.Some? <==> "name" in headers && "quantity" in headers
    ensures r.Some? ==> r.value.name < |headers| && headers[r.value.name] == "name" &&
                        "name" !in headers[..r.value.name]
    ensures r.Some? ==> r.value.quantity < |headers| && headers[r.value.quantity] == "quantity" &&
                        "quantity" !in headers[..r.value.quantity]
  {
    if "name" in headers && "quantity" in headers then
      Some(Columns(IndexOf(headers, "name"), IndexOf(headers, "quantity")))
    else None
  }

  /** An item read from the file, before it has an id. */
  datatype NewItem = NewItem(name: string, quantity: int)

  /** One data line, or the line itself when it fails. A line too short to
      have a name cell fails (the missing cell has no `trim`); a missing
      quantity cell reads as NaN. The line fails when the trimmed name is
      empty or the quantity is NaN or negative. */
  function ParseRow(line: string, cols: Columns): (r: Result<NewItem, string>)
    ensures r.Err? ==> r.error == line
    ensures r.Ok? ==> r.value.name != "" && r.value.quantity >= 0
  {
    var cells := Split(line, ',');
    if cols.name >= |cells| then Err(line)
    else
      var name := Trim(cells[cols.name]);
      var quantity := if cols.quantity < |cells| then JsParseInt(cells[cols.quantity]) else NaN;
      if name == "" || quantity.NaN? || quantity.value < 0 then Err(line)
      else Ok(NewItem(name, quantity.value))
  }

  /** Which lines are accepted: exactly those with a name cell whose
      trimmed text is not empty and a quantity cell that parses to a
      non-negative number; the item is that name and that number. */
  lemma ParseRowAccepts(line: string, cols: Columns)
    ensures var r, cells := ParseRow(line, cols), Split(line, ',');
            (r.Ok? <==> cols.name < |cells| && Trim(cells[cols.name]) != "" &&
                        cols.quantity < |cells| && JsParseInt(cells[cols.quantity]).Num? &&
                        JsParseInt(cells[cols.quantity]).value >= 0) &&
            (r.Ok? ==> r.value == NewItem(Trim(cells[cols.name]), JsParseInt(cells[cols.quantity]).value))
  {
  }

  /** A line that is not blank once trimmed. */
  predicate NotBlank(line: string)
  {
    Trim(line) != ""
  }

  /** The lines after the header that are not blank once trimmed, each as
      often as it occurs there, in file order. */
  function DataLines(text: string): (lines: seq<string>)
    ensures forall l :: l in lines <==> l in Split(text, '\n')[1..] && Trim(l) != ""
    ensures forall l :: l in lines ==> multiset(lines)[l] == multiset(Split(text, '\n')[1..])[l]
    ensures IsSubsequence(lines, Split(text, '\n')[1..])
  {
    FilterIsSubsequence(Split(text, '\n')[1..], NotBlank);
    FilterSeq(Split(text, '\n')[1..], NotBlank)
  }

  /** `Math.max(0, ...ids)` over the current inventory: 0 or the largest id. */
  function MaxItemId(inv: seq<Item>): (m: int)
    ensures m >= 0 && forall it :: it in inv ==> it.id <= m
    ensures m == 0 || exists it :: it in inv && it.id == m
  {
    var ids := MapSeq(inv, (it: Item) => it.id);
    assert forall it :: it in inv ==> it.id in ids by {
      forall it | it in inv ensures it.id in ids {
        var i :| 0 <= i < |inv| && inv[i] == it;
        assert ids[i] == it.id;
      }
    }
    var m := MaxWithZero(ids);
    assert m != 0 ==> exists it :: it in inv && it.id == m by {
      if m != 0 {
        var i :| 0 <= i < |ids| && ids[i] == m;
        assert inv[i] in inv;
      }
    }
    m
  }

  /** The parsed items with ids `maxId + 1`, `maxId + 2`, ... in file order. */
  function AssignIds(items: seq<NewItem>, maxId: int): (r: seq<Item>)
    ensures |r| == |items|
    ensures forall k :: 0 <= k < |items| ==> r[k] == Item(maxId + k + 1, items[k].name, items[k].quantity)
  {
    seq(|items|, k requires 0 <= k < |items| => Item(maxId + k + 1, items[k].name, items[k].quantity))
  }

  /** `handleCsvImport` once the file text is read: the items to append, or
      why nothing is appended. */
  function ImportCsv(text: string, inv: seq<Item>): (r: Result<seq<Item>, ImportError>)
    ensures r == Err(MissingColumns) <==> !("name" in HeaderCells(text) && "quantity" in HeaderCells(text))
    ensures r.Ok? ==> |r.value| == |DataLines(text)|
    ensures r.Ok? ==> forall k :: 0 <= k < |r.value| ==>
              r.value[k].id == MaxItemId(inv) + k + 1 && r.value[k].name != "" && r.value[k].quantity >= 0
  {
    match FindColumns(HeaderCells(text))
    case None => Err(MissingColumns)
    case Some(cols) =>
      match MapResult(DataLines(text), (line: string) => ParseRow(line, cols))
      case Err(line) => Err(InvalidRow(line))
      case Ok(items) => Ok(AssignIds(items, MaxItemId(inv)))
  }

  /** All or nothing: the import succeeds exactly when both columns are
      present and every data line parses, and then the k-th new item is the
      k-th data line. */
  lemma ImportAllOrNothing(text: string, inv: seq<Item>)
    requires "name" in HeaderCells(text) && "quantity" in HeaderCells(text)
    ensures var cols, lines := FindColumns(HeaderCells(text)).value, DataLines(text);
            var r := ImportCsv(text, inv);
            (r.Ok? <==> forall k :: 0 <= k < |lines| ==> ParseRow(lines[k], cols).Ok?) &&
            (r.Ok? ==> forall k :: 0 <= k < |lines| ==>
                         ParseRow(lines[k], cols) == Ok(NewItem(r.value[k].name, r.value[k].quantity))) &&
            (r.Err? ==> exists k :: 0 <= k < |lines| && ParseRow(lines[k], cols).Err? && r.error == InvalidRow(lines[k]))
  {
    var cols := FindColumns(HeaderCells(text)).value;
    var f := (line: string) => ParseRow(line, cols);
    var m := MapResult(DataLines(text), f);
    if m.Ok? {
      assert ImportCsv(text, inv) == Ok(AssignIds(m.value, MaxItemId(inv)));
    }
  }

  /** Imported items are well formed, and their ids are above every existing
      id and distinct from each other. */
  lemma ImportedItemsAreFresh(text: string, inv: seq<Item>)
    requires ImportCsv(text, inv).Ok?
    ensures var added := ImportCsv(text, inv).value;
            (forall k :: 0 <= k < |added| ==> added[k].name != "" && added[k].quantity >= 0) &&
            (forall k, it :: 0 <= k < |added| && it in inv ==> it.id < added[k].id) &&
            (forall j, k :: 0 <= j < k < |added| ==> added[j].id < added[k].id)
  {
  }

  /** A file whose data lines are blank imports nothing, and succeeds. */
  lemma BlankLinesOnlyImportNothing(text: string, inv: seq<Item>)
    requires "name" in HeaderCells(text) && "quantity" in HeaderCells(text)
    requires forall k :: 1 <= k < |Split(text, '\n')| ==> Trim(Split(text, '\n')[k]) == ""
    ensures ImportCsv(text, inv) == Ok([])
  {
    var all := Split(text, '\n');
    var rest := all[1..];
    forall i | 0 <= i < |rest| ensures !NotBlank(rest[i]) {
      assert rest[i] == all[i + 1];
    }
    FilterDropsAll(rest, NotBlank);
  }
}
