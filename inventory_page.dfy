/** The inventory page: search, selection, add, edit, delete and CSV
    import over the shared inventory. */
module InventoryPage {
  import opened Common
  import opened JsText
  import opened Ledger
  import opened Collections
  import CsvImport
  import opened CsvExport
  import opened App

  /** `filteredInventory`: the items whose name contains the search term,
      ignoring the case of letters, in inventory order. */
  function FilterInventory(inv: seq<Item>, term: string): (r: seq<Item>)
    ensures forall it :: it in r ==> it in inv && Matches(it.name, term)
    ensures forall it :: it in inv && Matches(it.name, term) ==> it in r
    ensures forall it :: it in r ==> multiset(r)[it] == multiset(inv)[it]
    ensures IsSubsequence(r, inv)
  {
    FilterIsSubsequence(inv, (it: Item) => Matches(it.name, term));
    FilterSeq(inv, (it: Item) => Matches(it.name, term))
  }

  /** An empty search shows the whole inventory. */
  lemma EmptySearchShowsAll(inv: seq<Item>)
    ensures FilterInventory(inv, "") == inv
  {
    forall i | 0 <= i < |inv| ensures Matches(inv[i].name, "") {
      MatchesProperties(inv[i].name, "");
    }
    FilterKeepsAll(inv, (it: Item) => Matches(it.name, ""));
  }

  /** Deleting an item does not touch the history, so a record of a
      deleted item is exported with "Unknown Item". */
  lemma DeletedItemIsUnknown(inv: seq<Item>, selected: set<int>, l: Loan)
    requires l.itemId in selected
    ensures ItemName(RemoveSelected(inv, selected, ItemId), l.itemId) == "Unknown Item"
  {
  }

  /** A successful import keeps item ids distinct: the new ids are above
      every existing one and distinct from each other. */
  lemma ImportKeepsIdsDistinct(text: string, inv: seq<Item>)
    requires DistinctIds(inv, ItemId) && CsvImport.ImportCsv(text, inv).Ok?
    ensures DistinctIds(inv + CsvImport.ImportCsv(text, inv).value, ItemId)
  {
    var added := CsvImport.ImportCsv(text, inv).value;
    CsvImport.ImportedItemsAreFresh(text, inv);
    assert DistinctIds(added, ItemId);
    AppendKeepsDistinct(inv, added, ItemId);
  }

  class InventoryView {
    const store: Store
    var selected: set<int>
    var searchTerm: string
    var csvError: string

    constructor(store: Store)
      ensures this.store == store && selected == {} && searchTerm == "" && csvError == ""
    {
      this.store := store;
      selected := {};
      searchTerm := "";
      csvError := "";
    }

    /** The items shown under the current search. */
    function Visible(): seq<Item>
      reads this, store
    {
      FilterInventory(store.inventory, searchTerm)
    }

    /** `handleAddItem`: append the new item with the id one above the
        largest; with at least one item already there, that id is new. */
    method AddItem(name: string, quantity: int)
      requires store.Valid() && |store.inventory| > 0
      modifies store
      ensures store.Valid()
      ensures store.inventory == old(store.inventory) + [Item(NextId(old(store.inventory), ItemId), name, quantity)]
      ensures store.students == old(store.students) && store.history == old(store.history)
      ensures store.lastDownload == old(store.lastDownload)
    {
      var added := Item(NextId(store.inventory, ItemId), name, quantity);
      AppendKeepsDistinct(store.inventory, [added], ItemId);
      store.inventory := store.inventory + [added];
    }

    /** `handleEditItem`: the item with `updated`'s id becomes `updated`;
        nothing else changes. */
    method EditItem(updated: Item)
      requires store.Valid()
      modifies store
      ensures store.Valid()
      ensures store.inventory == ReplaceById(old(store.inventory), updated, ItemId)
      ensures store.students == old(store.students) && store.history == old(store.history)
      ensures store.lastDownload == old(store.lastDownload)
    {
      var inv' := ReplaceById(store.inventory, updated, ItemId);
      assert forall i :: 0 <= i < |inv'| ==> inv'[i].id == Ids(inv', ItemId)[i];
      store.inventory := inv';
    }

    /** `handleSelect`: flip one item's checkbox. */
    method Select(id: int)
      modifies this
      ensures selected == Toggle(old(selected), id)
      ensures searchTerm == old(searchTerm) && csvError == old(csvError)
    {
      selected := Toggle(selected, id);
    }

    /** `handleSelectAll` over the items currently shown. */
    method SelectAll()
      modifies this
      ensures selected == Collections.SelectAll(old(selected), Ids(old(Visible()), ItemId))
      ensures searchTerm == old(searchTerm) && csvError == old(csvError)
    {
      selected := Collections.SelectAll(selected, Ids(Visible(), ItemId));
    }

    /** `handleDeleteSelected`: remove exactly the selected items, keep the
        rest in order, and clear the selection. Records of deleted items
        stay in the history. */
    method DeleteSelected()
      requires store.Valid()
      modifies this, store
      ensures store.Valid()
      ensures store.inventory == RemoveSelected(old(store.inventory), old(selected), ItemId)
      ensures selected == {}
      ensures searchTerm == old(searchTerm) && csvError == old(csvError)
      ensures store.students == old(store.students) && store.history == old(store.history)
      ensures store.lastDownload == old(store.lastDownload)
    {
      RemoveSelectedKeepsDistinct(store.inventory, selected, ItemId);
      store.inventory := RemoveSelected(store.inventory, selected, ItemId);
      selected := {};
    }

    /** `handleCsvImport` once the file text is read: on success the parsed
        items are appended and the banner cleared; otherwise the inventory
        is unchanged and the banner explains. */
    method ImportCsv(text: string)
      requires store.Valid()
      modifies this, store
      ensures store.Valid()
      ensures match CsvImport.ImportCsv(text, old(store.inventory))
              case Ok(added) => store.inventory == old(store.inventory) + added && csvError == ""
              case Err(e) => store.inventory == old(store.inventory) && csvError == CsvImport.ErrorMessage(e)
      ensures store.students == old(store.students) && store.history == old(store.history)
      ensures store.lastDownload == old(store.lastDownload)
      ensures selected == old(selected) && searchTerm == old(searchTerm)
    {
      var r := CsvImport.ImportCsv(text, store.inventory);
      if r.Ok? {
        ImportKeepsIdsDistinct(text, store.inventory);
        store.inventory := store.inventory + r.value;
        csvError := "";
      } else {
        csvError := CsvImport.ErrorMessage(r.error);
      }
    }
  }
}
