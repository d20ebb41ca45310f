# Inventory management tool — a Dafny model of its core

The application is a single-page tool for a laboratory's stock of components.
It keeps three lists:

- the **inventory**: items with an id, a name and the quantity currently available;
- the **students** who may borrow;
- the **issuance history**: one record per loan, with its student, item, quantity and date. Each record is `Issued` or `Returned`, and a returned record also has its return date.

Issuing an item takes stock off the shelf and appends a record. Returning puts the stock back and marks the record returned. The inventory table shows every item's total as available plus issued.

The model covers:

- that ledger, the issue form's checks, and the CSV import of new items;
- the three CSV exports: the global history, one student's history, and the automatic monthly file;
- the list edits of the two management pages: add, edit, delete by selection, checkboxes, select-all and search.

Modules follow the program:

| file | module | what |
|---|---|---|
| `common.dfy` | `Common` | `Option`/`Result`, and the JavaScript array operations used: `map`, `filter`, `find`, `indexOf`, `map` with a throwing callback, `Math.max` |
| `js_text.dfy` | `JsText` | the JavaScript string semantics the core relies on: `toLowerCase`, `trim`, `split`/`join` on one character, `includes`, `parseInt`, integer-to-text and `padStart` |
| `ledger.dfy` | `Ledger` | items, students, records; the issued quantity; the list transformations of issue and return; stock conservation |
| `collections.dfy` | `Collections` | id allocation, edit by id, delete by selection, checkbox toggle, select-all, case-insensitive search |
| `csv_export.dfy` | `CsvExport` | name lookups, history rows, the CSV texts, the monthly due check and file name |
| `csv_import.dfy` | `CsvImport` | header and row parsing, all-or-nothing import with fresh ids |
| `issue_form.dfy` | `IssueForm` | the validation chain and the form's state |
| `app.dfy` | `App` | `Store`, the shared state, and its handlers |
| `inventory_page.dfy` | `InventoryPage` | `InventoryView`: search, selection, add, edit, delete, import |
| `students_page.dfy` | `StudentsPage` | `StudentsView`: search, selection, add, edit, guarded delete, return |

The pages hold the store they share (`const store: Store`) and change its fields the way the React state setters do. The store's invariant `Valid()` has three parts:

- item ids are distinct;
- student ids are distinct;
- the history is well formed: record ids are positive and distinct, and a return date is present exactly on returned records.

Every handler keeps it.

Instants are `Date(year, month, rest)`. `year` and `month` are what `getFullYear` and `getMonth` report, the month counted from 0. `rest` stands for the rest of the instant and stays abstract. The locale rendering `toLocaleString` is a parameter `fmt: Date -> string`.

## Model

| member | source | states |
|---|---|---|
| Ledger.IssuedQuantity | Inventory_management_tool-main/src/App.js:203-210 | the issued quantity of an item is 0 when it has no unreturned record, and never negative when no record has a negative quantity |
| Ledger.IssuedQuantityIsSumOfUnreturned | Inventory_management_tool-main/src/App.js:203-210 | the `reduce` equals the sum of quantities over exactly the unreturned records of that item |
| Ledger.IssuedQuantityAppend | Inventory_management_tool-main/src/App.js:203-210 | appending a record adds exactly what that record holds of the item |
| Ledger.Adjust | Inventory_management_tool-main/src/App.js:149-157 | the inventory `map` of issue and return: only items with the given id change quantity, by the given amount; ids, names, length and order stay; with no such item the list is unchanged |
| Ledger.NextLoanId | Inventory_management_tool-main/src/App.js:161 | `Math.max(0, ...ids) + 1` is positive, above every existing record id, and either 1 (no record has a positive id) or one more than some record's id |
| Ledger.NewLoan | Inventory_management_tool-main/src/App.js:160-167 | the appended record carries the given student, item, quantity and date; its id is `NextLoanId` of the history, hence fresh and positive; it is `Issued` with no return date |
| Ledger.MarkReturned | Inventory_management_tool-main/src/App.js:185-194 | exactly the record with the given id becomes `Returned` with the return date; every other record and the length are unchanged |
| Ledger.IssueKeepsHistoryWellFormed | Inventory_management_tool-main/src/App.js:160-168 | issuing keeps record ids distinct and positive, and return dates exactly on returned records |
| Ledger.ReturnKeepsHistoryWellFormed | Inventory_management_tool-main/src/App.js:184-194 | returning keeps the history well formed |
| Ledger.IssueConservesStock | Inventory_management_tool-main/src/App.js:149-168 | issuing leaves every item's total (available + issued) unchanged |
| Ledger.IssuedQuantityAfterReturn | Inventory_management_tool-main/src/App.js:185-210 | marking a record returned removes exactly its outstanding quantity from the issued quantity |
| Ledger.ReturnStock | Inventory_management_tool-main/src/App.js:172-210 | a return changes an item's total by the credit it gives that item minus what the record still held of it |
| Ledger.ReturnConservesStock | Inventory_management_tool-main/src/App.js:172-210 | returning a record that was `Issued` leaves every item's total unchanged |
| Ledger.DoubleReturnOverCredits | Inventory_management_tool-main/src/App.js:172-195 | returning a record that is already `Returned` raises its item's total by the record's quantity |
| App.Store.constructor | Inventory_management_tool-main/src/App.js:8-40 | each list is the stored one or its default: the five initial items, no students, no history, no download |
| App.Store.IssueItem | Inventory_management_tool-main/src/App.js:147-170 | the item loses the quantity, one `Issued` record with a fresh id is appended, the invariant holds, and every item's total is conserved |
| App.Store.ReturnItem | Inventory_management_tool-main/src/App.js:172-195 | the item regains the quantity and the record is returned. Totals are conserved for an `Issued` record; for a `Returned` one its item is credited a second time |
| App.Store.AddStudent | Inventory_management_tool-main/src/App.js:197-200 | the student is appended with id `max + 1`, distinct from every other. This handler of the top-level component is never handed to a page; the students page adds through its own copy, `StudentsPage.StudentsView.AddStudent` |
| App.Store.CheckMonthlyExport | Inventory_management_tool-main/src/App.js:55-111 | when due, hands over the month's file with the global history CSV and records `now`; otherwise changes nothing; afterwards nothing is due for that month |
| App.Store.TimerTickAsWritten | Inventory_management_tool-main/src/App.js:121-130 | the hourly tick runs the check of the render that installed the timer: the due test reads that render's last-download value, and the file is built from that render's history, students and inventory; only the download time is written back |
| App.RepeatedMonthlyExportAsWritten | Inventory_management_tool-main/src/App.js:113-130 | in a first session, the login export and the tick an hour later in the same month both hand over a file, and it is the same file |
| App.OneMonthlyExport | Inventory_management_tool-main/src/App.js:55-62 | when each check reads the current value, the second check in the same month hands over nothing |
| CsvExport.ExportDue | Inventory_management_tool-main/src/App.js:55-62 | due when nothing was exported yet; after an export, due exactly when the instant falls in another month or year |
| CsvExport.SameMonthEquallyDue | Inventory_management_tool-main/src/App.js:60-62 | two instants of the same month and year are equally due, and an export recorded at one leaves the other not due |
| CsvExport.MonthFieldIsTwoDigits | Inventory_management_tool-main/src/App.js:94-96 | the month in the file name is two decimal digits whose value is the 1-based month |
| CsvExport.MonthlyFileName | Inventory_management_tool-main/src/App.js:94-96 | the name starts with `inventory_history_` and ends with `.csv` |
| CsvExport.SameMonthSameFileName | Inventory_management_tool-main/src/App.js:94-96 | instants of the same month and year get the same file name |
| CsvExport.MonthlyFileNameIdentifiesMonth | Inventory_management_tool-main/src/App.js:94-96 | for months 0 to 11, two instants share a file name exactly when they fall in the same month of the same year |
| CsvExport.StudentName | Inventory_management_tool-main/src/components/InventoryPage.js:105-107 | the first student with the id gives its name, or "Unknown Student" when that name is empty; "Unknown Student" when no student has the id; never empty |
| CsvExport.ItemName | Inventory_management_tool-main/src/components/InventoryPage.js:110-112 | the first item with the id gives its name, or "Unknown Item" when that name is empty; "Unknown Item" when no item has the id; never empty |
| CsvExport.HistoryRow | Inventory_management_tool-main/src/components/InventoryPage.js:120-127 | six cells in header order: the rendered date, the student's name, the item's name, the quantity's decimal text, "Issued" or "Returned", and the rendered return date, or `N/A` when there is none |
| CsvExport.GlobalHistoryCsv | Inventory_management_tool-main/src/components/InventoryPage.js:115-133 | the text starts with the header line, is exactly that line when the history is empty, and otherwise continues with a line break |
| CsvExport.EmptyHistoryIsHeaderOnly | Inventory_management_tool-main/src/components/InventoryPage.js:115-133 | an empty history exports the header line alone |
| CsvExport.CsvTextReadsBack | Inventory_management_tool-main/src/components/InventoryPage.js:130-133 | when no cell holds a comma or a newline, splitting the text on newlines and then on commas gives back the rows |
| CsvExport.CommaCellIsNotReadBack | Inventory_management_tool-main/src/components/InventoryPage.js:130-133 | a cell that holds a comma is not read back, since nothing is quoted |
| CsvExport.GlobalHistoryReadsBack | Inventory_management_tool-main/src/components/InventoryPage.js:115-133 | provided no cell holds a comma or a line break, the global export is one line per record after the header, each splitting back into that record's row. Dates rendered by a locale that writes a comma ("10/15/2026, 2:30:00 PM") break this condition, and `CsvExport.CommaCellIsNotReadBack` shows such a line does not read back |
| CsvExport.StudentHistory | Inventory_management_tool-main/src/components/StudentsPage.js:58-65 | exactly that student's records, in history order, each with its item's name |
| CsvExport.StudentHistoryEmpty | Inventory_management_tool-main/src/components/StudentsPage.js:58-65 | a student without records has an empty history |
| CsvExport.StudentHistoryComplete | Inventory_management_tool-main/src/components/StudentsPage.js:58-65 | every record of the student appears in the history |
| CsvExport.StudentRow | Inventory_management_tool-main/src/components/StudentsPage.js:76-82 | five cells in header order: the item name, the quantity's decimal text, the rendered issue date, "Issued" or "Returned", and the rendered return date, or `N/A` when there is none |
| CsvExport.StudentHistoryCsv | Inventory_management_tool-main/src/components/StudentsPage.js:68-88 | the text starts with the header line, and is exactly that line when the student has no record |
| CsvExport.StudentWithoutRecordsIsHeaderOnly | Inventory_management_tool-main/src/components/StudentsPage.js:68-88 | a student without records exports the header line alone |
| CsvExport.StudentHistoryReadsBack | Inventory_management_tool-main/src/components/StudentsPage.js:68-88 | provided no cell holds a comma or a line break, the student export is one line per record after the header, each splitting back into that record's row; as above, locale dates with a comma break the condition |
| CsvImport.FindColumns | Inventory_management_tool-main/src/components/InventoryPage.js:168-180 | columns are found exactly when both `name` and `quantity` are exact header cells; each position is the first occurrence |
| CsvImport.HeaderCells | Inventory_management_tool-main/src/components/InventoryPage.js:164-165 | the header cells are comma-free pieces that join back into the first line, lower-cased and trimmed |
| CsvImport.DataLines | Inventory_management_tool-main/src/components/InventoryPage.js:183-184 | exactly the lines after the first whose trimmed text is not empty, each as often as in the file, in file order |
| CsvImport.ParseRow | Inventory_management_tool-main/src/components/InventoryPage.js:186-197 | an accepted line yields a non-empty name and a non-negative quantity; a rejected line is reported as itself |
| CsvImport.ParseRowAccepts | Inventory_management_tool-main/src/components/InventoryPage.js:186-197 | a line is accepted exactly when it has a name cell with a non-empty trimmed name and a quantity cell that parses to a non-negative number; the item is that name and number |
| CsvImport.MaxItemId | Inventory_management_tool-main/src/components/InventoryPage.js:201 | `Math.max(0, ...ids)` is non-negative, not below any item id, and either 0 or the id of some item |
| CsvImport.AssignIds | Inventory_management_tool-main/src/components/InventoryPage.js:202-205 | the k-th parsed item gets id `maxId + k + 1` |
| CsvImport.ImportCsv | Inventory_management_tool-main/src/components/InventoryPage.js:163-212 | rejected for missing columns exactly when a required column is absent; on success one item per non-blank data line, with ids above the old maximum, non-empty names and non-negative quantities |
| CsvImport.ImportAllOrNothing | Inventory_management_tool-main/src/components/InventoryPage.js:183-212 | the import succeeds exactly when every data line parses; the k-th item is the k-th line; a failure is caused by some line |
| CsvImport.ImportedItemsAreFresh | Inventory_management_tool-main/src/components/InventoryPage.js:200-207 | new ids are above every existing id and increase along the file |
| CsvImport.BlankLinesOnlyImportNothing | Inventory_management_tool-main/src/components/InventoryPage.js:183-184 | a file with both columns and only blank lines after the header imports nothing, successfully |
| JsText.Trim | Inventory_management_tool-main/src/components/InventoryPage.js:165 | the result is the contiguous run of the text starting where `trimStart` starts, with only white space before and after it and none at either of its ends; empty exactly when the text is all white space |
| JsText.Split | Inventory_management_tool-main/src/components/InventoryPage.js:164-165 | at least one piece, no piece contains the separator, and joining the pieces gives the text back |
| JsText.SplitJoin | Inventory_management_tool-main/src/components/InventoryPage.js:186 | splitting a join of separator-free parts gives the parts back |
| JsText.Includes | Inventory_management_tool-main/src/components/InventoryPage.js:21-23 | true exactly when the needle occurs at some position |
| JsText.ParseIntOfIntToString | Inventory_management_tool-main/src/components/InventoryPage.js:188 | `parseInt` reads back any integer's decimal text, whatever follows that is not a digit or `x` |
| JsText.ParseIntSkipsLeadingSpace | Inventory_management_tool-main/src/components/InventoryPage.js:188 | `parseInt` ignores leading white space |
| JsText.JsParseInt | Inventory_management_tool-main/src/components/InventoryPage.js:188 | all-white-space text gives NaN, and a number is read only from text holding a decimal digit |
| JsText.ParseIntNaNExactly | Inventory_management_tool-main/src/components/InventoryPage.js:188 | NaN exactly when no digit of the radix in use follows the leading white space, the optional sign and, in base 16, the `0x` prefix |
| JsText.IntToStringInjective | Inventory_management_tool-main/src/App.js:94-95 | different integers have different decimal texts |
| JsText.NatToString | Inventory_management_tool-main/src/App.js:94 | decimal digits without a leading zero whose value is the number |
| Common.MapResult | Inventory_management_tool-main/src/components/InventoryPage.js:183-198 | a `map` whose callback may throw succeeds exactly when every element succeeds; otherwise the first failure is the error |
| Common.IndexOf | Inventory_management_tool-main/src/components/InventoryPage.js:179-180 | -1 exactly when absent, otherwise the first position |
| Common.MaxWithZero | Inventory_management_tool-main/src/components/InventoryPage.js:201 | non-negative, not below any element, and 0 or an element |
| Common.FindFirst | Inventory_management_tool-main/src/components/InventoryPage.js:105-112 | none exactly when no element matches; otherwise the first match |
| IssueForm.SelectedItem | Inventory_management_tool-main/src/components/IssuePage.js:13 | the first item whose id is the parsed selection; none when the selection does not parse or matches no id |
| IssueForm.Validate | Inventory_management_tool-main/src/components/IssuePage.js:13-28 | checks in order, the first failure deciding the message: no item, then too many, then not positive; success exactly when the item exists and `0 < q <= available`, with the request carrying item, student, quantity and date |
| IssueForm.ShortageMessage | Inventory_management_tool-main/src/components/IssuePage.js:20-22 | the message starts with "Only ", the number after it reads back as the item's quantity, and it ends with the item's name and "(s) available" |
| IssueForm.IssueFromItemKeepsQuantitiesNonNegative | Inventory_management_tool-main/src/App.js:149-157 | taking at most what an item has, with distinct ids, leaves no quantity negative |
| IssueForm.ValidatedIssueKeepsQuantitiesNonNegative | Inventory_management_tool-main/src/components/IssuePage.js:13-36 | a request that passes the checks, applied to the inventory, leaves every quantity non-negative |
| IssueForm.IssueFormState.constructor | Inventory_management_tool-main/src/components/IssuePage.js:4-7 | nothing selected, quantity 1, no error |
| IssueForm.IssueFormState.ChangeItem | Inventory_management_tool-main/src/components/IssuePage.js:89-94 | changing the item resets the quantity to 1 and clears the error |
| IssueForm.IssueFormState.ChangeQuantity | Inventory_management_tool-main/src/components/IssuePage.js:167-170 | editing the quantity clears the error |
| IssueForm.IssueFormState.ChangeStudent | Inventory_management_tool-main/src/components/IssuePage.js:124 | only the selected student changes |
| IssueForm.IssueFormState.Submit | Inventory_management_tool-main/src/components/IssuePage.js:9-37 | on a failed check the error shows its message and nothing is emitted; otherwise the error is cleared and exactly the validated request is emitted |
| Collections.NextId | Inventory_management_tool-main/src/components/InventoryPage.js:35 | `Math.max(...ids) + 1` on a non-empty list is above every id and one more than the largest |
| Collections.AppendKeepsDistinct | Inventory_management_tool-main/src/components/InventoryPage.js:34-38 | appending records with new, distinct ids keeps ids distinct |
| Collections.ReplaceById | Inventory_management_tool-main/src/components/InventoryPage.js:26-31 | only records with the edited id are replaced; length, order and ids stay |
| Collections.ReplaceByIdSettles | Inventory_management_tool-main/src/components/InventoryPage.js:26-31 | repeating an edit changes nothing more; an edit of an absent id changes nothing |
| Collections.RemoveSelected | Inventory_management_tool-main/src/components/InventoryPage.js:61-64 | exactly the records whose id is not selected remain, each as often as before and in their original order |
| Common.FilterIsSubsequence | Inventory_management_tool-main/src/components/InventoryPage.js:62 | a `filter` keeps its survivors in their original order: the k-th survivor sits at an index of the input that increases with k |
| Collections.FilterKeepsDistinct | Inventory_management_tool-main/src/components/InventoryPage.js:61-64 | a filter keeps ids distinct |
| Collections.RemoveSelectedKeepsDistinct | Inventory_management_tool-main/src/components/InventoryPage.js:61-64 | a delete keeps ids distinct |
| Collections.Toggle | Inventory_management_tool-main/src/components/InventoryPage.js:41-49 | the checkbox's id flips membership and every other id keeps it |
| Collections.ToggleTwice | Inventory_management_tool-main/src/components/InventoryPage.js:41-49 | toggling twice restores the selection |
| Collections.SelectAll | Inventory_management_tool-main/src/components/InventoryPage.js:52-58 | empty when the selection's size equals the number shown, otherwise exactly the shown ids |
| Collections.SelectAllTwiceClears | Inventory_management_tool-main/src/components/InventoryPage.js:52-58 | with distinct shown ids, select-all from a partial selection selects all shown, and a second press clears |
| Collections.Matches | Inventory_management_tool-main/src/components/InventoryPage.js:21-23 | the lower-cased field contains the lower-cased term |
| Collections.MatchesProperties | Inventory_management_tool-main/src/components/InventoryPage.js:21-23 | the empty term matches everything, and the case of the term does not matter |
| InventoryPage.FilterInventory | Inventory_management_tool-main/src/components/InventoryPage.js:21-23 | exactly the items whose name matches the search, in inventory order and each as often as in the list |
| InventoryPage.EmptySearchShowsAll | Inventory_management_tool-main/src/components/InventoryPage.js:21-23 | an empty search shows the whole inventory, in order |
| InventoryPage.DeletedItemIsUnknown | Inventory_management_tool-main/src/components/InventoryPage.js:61-64 | a record of a deleted item is exported as "Unknown Item" |
| InventoryPage.ImportKeepsIdsDistinct | Inventory_management_tool-main/src/components/InventoryPage.js:200-207 | appending imported items keeps item ids distinct |
| InventoryPage.InventoryView.constructor | Inventory_management_tool-main/src/components/InventoryPage.js:13-18 | a page opens with nothing selected, an empty search and no import banner, over the shared store |
| InventoryPage.InventoryView.AddItem | Inventory_management_tool-main/src/components/InventoryPage.js:34-38 | the item is appended with id `max + 1`; the invariant holds |
| InventoryPage.InventoryView.EditItem | Inventory_management_tool-main/src/components/InventoryPage.js:26-31 | the item with the edited id is replaced; nothing else changes |
| InventoryPage.InventoryView.Select | Inventory_management_tool-main/src/components/InventoryPage.js:41-49 | the selection is toggled at the id |
| InventoryPage.InventoryView.SelectAll | Inventory_management_tool-main/src/components/InventoryPage.js:52-58 | select-all over the ids of the items shown |
| InventoryPage.InventoryView.DeleteSelected | Inventory_management_tool-main/src/components/InventoryPage.js:61-64 | exactly the selected items are removed and the selection is cleared; the search term, the import banner, the students, the history and the last download are untouched |
| InventoryPage.InventoryView.ImportCsv | Inventory_management_tool-main/src/components/InventoryPage.js:163-212 | on success the items are appended and the error cleared; on failure the inventory is unchanged and the error is the failure's message |
| StudentsPage.FilterStudents | Inventory_management_tool-main/src/components/StudentsPage.js:39-43 | exactly the students whose name, enrollment number or department matches the search, in list order and each as often as in the list |
| StudentsPage.EmptySearchShowsAll | Inventory_management_tool-main/src/components/StudentsPage.js:39-43 | an empty search shows every student, in order |
| StudentsPage.GuardedDeleteKeepsBorrowers | Inventory_management_tool-main/src/components/StudentsPage.js:105-122 | a delete the guard allows keeps every student holding an unreturned record |
| StudentsPage.StudentsView.constructor | Inventory_management_tool-main/src/components/StudentsPage.js:32-36 | a page opens with nothing selected and an empty search, over the shared store |
| StudentsPage.StudentsView.AddStudent | Inventory_management_tool-main/src/components/StudentsPage.js:46-50 | the student is appended with id `max + 1`; the invariant holds |
| StudentsPage.StudentsView.EditStudent | Inventory_management_tool-main/src/components/StudentsPage.js:126-131 | the student with the edited id is replaced; nothing else changes |
| StudentsPage.StudentsView.Select | Inventory_management_tool-main/src/components/StudentsPage.js:134-142 | the selection is toggled at the id |
| StudentsPage.StudentsView.SelectAll | Inventory_management_tool-main/src/components/StudentsPage.js:145-151 | select-all over the ids of the students shown |
| StudentsPage.StudentsView.DeleteStudents | Inventory_management_tool-main/src/components/StudentsPage.js:105-123 | refused exactly when a selected student holds an unreturned record. Otherwise, if confirmed, exactly the selected students go and the selection clears; if not, nothing changes. No borrower is ever removed |
| StudentsPage.StudentsView.ReturnRecord | Inventory_management_tool-main/src/components/StudentsPage.js:446-451 | offered only for an unreturned record and acting only when confirmed, the return conserves every item's total |

## Left out

- Login (`LoginPage.js`), page navigation, logout, rendering, styles and hover handlers.
- Persistence. Reading and writing the browser's storage and JSON encoding are not modelled. `App.Store.constructor` takes what was stored as a parameter and requires it to be well formed, as the handlers leave it.
- Downloads and uploads. Blobs, object URLs, link clicks and the file reader are browser I/O, so CSV text goes in and out directly. The file-type check before an import, and the "Error reading file" message, are not modelled. The per-student and global export file names are not modelled.
- The clock, `toISOString` and `toLocaleString`. Instants are parameters (`now`), and the rendering is the parameter `fmt`.
- The hourly timer itself and the login effect. They are modelled only as calls to `App.Store.CheckMonthlyExport` (and `App.Store.TimerTickAsWritten`).
- `window.confirm` is a boolean parameter. The `alert` on a refused delete becomes the `refused` result.
- The history table on the inventory page sorts the history in place by date, newest first (`InventoryPage.js:815`). Later exports then follow that order. The model keeps the history in insertion order.
- JsText.Lower: lower-cases the ASCII letters only; JavaScript's `toLowerCase` also maps other Unicode letters.
- JsText.JsParseInt: works on unbounded integers. JavaScript numbers lose precision above 2^53 and `parseInt` returns a floating-point value.
- App.Store.AddStudent, StudentsPage.StudentsView.AddStudent, InventoryPage.InventoryView.AddItem: require a non-empty list. On an empty list the source computes `Math.max()` of nothing, `-Infinity`, so the new record's id is `-Infinity`. It stays `-Infinity` for every later student until the page is reloaded: the list is saved with `JSON.stringify`, which writes `-Infinity` as `null`, and after a reload `Math.max` reads that `null` as 0. The application starts with no students, so this is the normal path for the first student. The model does not represent that id.
- IssueForm.IssueFormState.Submit: requires that the quantity and the student selection parse as numbers. Both inputs are `required` in the form, so the browser does not submit them otherwise. The submit handler itself would let a quantity that parses to NaN pass all three checks.
- IssueForm.Validate: takes the student and quantity already parsed, as numbers; the parsing is in `IssueForm.IssueFormState.Submit`.
- Edits and adds take the item's quantity as a number, that is, after the form's `parseInt`. A quantity that does not parse is not modelled there.
- Ids are JavaScript numbers compared with `===`. They are modelled as integers.

## Findings

| source | as written | input that shows it | evidently intended | confidence | as-written member | corrected member |
|---|---|---|---|---|---|---|
| Inventory_management_tool-main/src/App.js:121-130 | The hourly timer keeps the export check of the render that installed it. That check reads the last-download value, history, students and inventory of that render, and the timer is installed again only when the login state or the history changes. | First session, no earlier download. The login check exports the month's file and records the time. An hour later, same month, nothing issued or returned: the timer still sees no earlier download and exports the same file again, every hour, with the names of the render that installed it even if an item was renamed since. | At most one automatic export per month: each check reads the current last-download value. | medium, not executed | App.RepeatedMonthlyExportAsWritten | App.OneMonthlyExport |
