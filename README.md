# User registry: record store, table view, edit session and entry form

This project models the logic of a small browser app that keeps a registry of
people. The app has:

- an entry form: name, email, phone number, date of birth, city, district,
  province, country and a profile picture;
- a table of the saved records, with a search box, pages of five rows, and
  Edit and Delete buttons on each row;
- an edit dialog that holds a working copy of one record;
- a store: the ordered list of records, which is written in full to the
  browser's persistent storage after every change.

Modules and files:

- `entries.dfy` (`Entries`): a record is a plain object, modelled as a map from
  property name to value. A value is text, or the File object that the form keeps
  in the picture slot until submit. This module also gives JavaScript's
  truthiness and `toString` on those values.
- `validation.dfy` (`Validation`): the per-field validator. The form and the
  table each have a copy of it, with the same rules.
  - The e-mail regex `/\S+@\S+\.\S+/` is an explicit predicate. It is unanchored,
    and white space is JavaScript's `\s` set.
  - The phone regex `/^\d{7,}$/` is an explicit predicate.
- `store.dfy` (`RecordStore`): the store is a class with two fields, the list
  `entries` and the persisted copy `stored`.
  - Its append, delete-by-position and replace-by-position are the pure list
    functions that `filter` and `map` compute.
  - After every change, `stored` holds exactly the list.
- `table.dfy` (`UserTable`): the table view.
  - Pure parts: the search filter (ASCII case folding and `includes`), the page
    slice, the page count `ceil(n/5)`, and the index the row buttons pass on.
  - `TableView` is a class holding the component's state: current page, search
    term, edit index, working copy, dialog flag and errors.
- `form.dfy` (`EntryForm`): the blank record (country `"Nepal"`), the form
  class, its single-field change, and its submit.

Behaviours of the code that a reader might not expect, all kept in the model:

- Saving in the edit dialog commits without validating.
- Submitting the form calls the validator with no field name. That falls to the
  switch's default case, so the validator accepts every record, including one
  with empty required fields. The browser still checks the `type="email"` input
  before it fires submit, so a non-empty malformed e-mail such as "foo" never
  reaches the submit handler; that browser check is not part of this model.
- A non-empty profile picture is always reported as "must be a PNG file".
- A valid phone number leaves the error map empty. A valid name or email leaves
  an empty message under its key.
- Changing the search term keeps the current page.
- An Edit or Delete row index is a position in the filtered list, but it is used
  as a position in the full list. Even with no search term the two lists differ
  when a persisted record has no property, since such a record never matches;
  `EmptyEntryShiftsRowIndex` exhibits `[{}, r]`, whose first row shows r while
  its index names `{}`. `SearchShiftsRowIndex` exhibits an entry list
  where, under a search, the first row shows one record and its index names
  another. `ShownEntryPosition` gives the position that would designate the
  shown record.
- A corrupted persisted blob makes `JSON.parse` throw. It is not read as an
  empty list.

## Model

| member | source | states |
|---|---|---|
| `RecordStore.RemoveAt` | src/App.js:18 | for an index in range the result is the list without that position (`s[..i] + s[i+1..]`); for an index out of range the list is unchanged |
| `RecordStore.ReplaceAt` | src/App.js:24 | the length is kept; position `index` holds the new record and every other position is unchanged; an index out of range changes nothing |
| `RecordStore.RemoveAtShifts` | src/App.js:17-18 | deleting shortens the list by one, keeps earlier positions and moves every later record down one place |
| `RecordStore.Store.constructor` | src/App.js:9 | the list is the persisted list when there is one and empty otherwise; the persisted copy agrees with it |
| `RecordStore.Store.Add` | src/App.js:11-15 | the list becomes the old list plus the record at the end, and the persisted copy is overwritten with it |
| `RecordStore.Store.Delete` | src/App.js:17-21 | the list becomes `RemoveAt(old list, index)` and the persisted copy is overwritten with it |
| `RecordStore.Store.Edit` | src/App.js:23-27 | the list becomes `ReplaceAt(old list, index, record)` and the persisted copy is overwritten with it |
| `Entries.Truthy` | src/Component/Form.js:68 | `!formData[key]` is false exactly when the property is present and does not print as "" |
| `Entries.ToText` | src/Component/UserTable.js:46 | `toString` gives a string itself, and only the empty string prints as "" |
| `Validation.EmailPattern` | src/Component/Form.js:81 | the unanchored `/\S+@\S+\.\S+/`: some slice is a non-space run, "@", a non-space run, ".", a non-space run; a match has at least five characters |
| `Validation.PhonePattern` | src/Component/Form.js:94 | `/^\d{7,}$/`: seven or more ASCII digits and nothing else; such a string never matches the e-mail pattern |
| `Validation.Validate` | src/Component/UserTable.js:101-154 | reads the stored record. An empty name gives "Name is required"; a valid name leaves "" under its key. Email: empty gives "Email is required", a regex mismatch gives "Email is invalid", a valid one leaves "" under its key. Phone: empty gives "Phone number is required", not 7+ digits gives "Phone number is invalid", a valid one leaves the map empty. A non-empty picture is always flagged; an empty one leaves the map empty. Other names, and no name, are valid with no errors. The error map holds at most the validated key. Invalid exactly when a non-empty message is recorded |
| `Validation.ValidateReadsOnlyItsField` | src/Component/Form.js:66-106 | the check of a field depends only on the value stored under that field |
| `Validation.EmailPatternNeedsAt` | src/Component/Form.js:81 | a string matching the e-mail pattern has an "@" after its first character |
| `Validation.EmailExamples` | src/Component/Form.js:81 | "foo" does not match the e-mail pattern; "foo@bar.com" does |
| `Validation.PhoneExamples` | src/Component/Form.js:94 | "12345" does not match the phone pattern; "1234567" does |
| `Validation.ValidatorExamples` | src/Component/Form.js:66-99 | email "foo" is rejected as invalid and "foo@bar.com" passes; phone "12345" is rejected and "1234567" passes; a blank-space name passes; a missing name is required |
| `UserTable.Lower` | src/Component/UserTable.js:46 | lower-casing keeps the length of the string |
| `UserTable.LowerAt` | src/Component/UserTable.js:46 | each character of the lower-cased string is the ASCII lower case of the character at the same position |
| `UserTable.Includes` | src/Component/UserTable.js:46 | `s.includes(t)`: t is a prefix of s or of a suffix of s; the empty term is in every string, and a longer term than s is not |
| `UserTable.IncludesIffOccurs` | src/Component/UserTable.js:46 | `includes` holds exactly when the term occurs as a slice of the string |
| `UserTable.FilterBy` | src/Component/UserTable.js:44-48 | the filtered list is never longer than the list |
| `UserTable.FilterIsSubsequence` | src/Component/UserTable.js:44-48 | the filtered list is a subsequence of the list, in the same order |
| `UserTable.FilterKeepsExactly` | src/Component/UserTable.js:44-48 | a record is in the filtered list exactly when it is in the list and passes the test |
| `UserTable.FilterKeepsAll` | src/Component/UserTable.js:44-48 | when every record passes, the filtered list is the list |
| `UserTable.KeptPositionsSelect` | src/Component/UserTable.js:44-48 | the j-th filtered record is the record at the j-th kept position of the list |
| `UserTable.KeptPositionsIncrease` | src/Component/UserTable.js:44-48 | the kept positions increase strictly, so the filter keeps the list's order |
| `UserTable.KeptPositionsMatch` | src/Component/UserTable.js:44-48 | a position is kept exactly when its record passes the test |
| `UserTable.Matches` | src/Component/UserTable.js:45-47 | some property value, printed and lower-cased, includes the lower-cased term; an entry with no property never matches |
| `UserTable.Filter` | src/Component/UserTable.js:44-48 | the search result is no longer than the list, and each record in it is in the list and matches the term |
| `UserTable.EmptyTermMatches` | src/Component/UserTable.js:45-46 | with an empty term a record matches exactly when it has at least one property |
| `UserTable.FilterEmptyTerm` | src/Component/UserTable.js:43-50 | with an empty term a list of records that each have a property is its own filtered list |
| `UserTable.NepalMatches` | src/Component/UserTable.js:44-48 | the term "nepal" matches a record with country "Nepal", case-insensitively, and not a record with country "India" |
| `UserTable.Page` | src/Component/UserTable.js:96-99 | page p is `f[(p-1)*5 .. min(p*5, len)]` when it starts inside the list and empty otherwise; it never holds more than 5 rows |
| `UserTable.PageCount` | src/Component/UserTable.js:224 | the least number of pages of five that hold n rows, i.e. `ceil(n/5)` |
| `UserTable.PagesInRange` | src/Component/UserTable.js:223-234 | every page from 1 to the page count has a row; every later page is empty |
| `UserTable.PagesUpToPrefix` | src/Component/UserTable.js:96-99 | pages 1..k in order are the first `min(5k, len)` records |
| `UserTable.PagesCoverList` | src/Component/UserTable.js:223-224 | all pages offered, read in order, are exactly the filtered list |
| `UserTable.TwelveRows` | src/Component/UserTable.js:96-99 | with 12 rows page 1 is rows 0..4, page 3 is rows 10..11, and there are 3 pages |
| `UserTable.RowIndex` | src/Component/UserTable.js:204 | `(p-1)*5 + row`; for a row of page p it divides back into page `p-1` (from 0) and remainder `row` |
| `UserTable.RowIndexInFiltered` | src/Component/UserTable.js:204 | the row index `(p-1)*5 + row` is the row's position in the filtered list, and lies within the full list |
| `UserTable.RowIndexWithoutSearch` | src/Component/UserTable.js:212 | with an empty search term, and when every record has a property, the row index designates in the full list the very record shown on that row |
| `UserTable.EmptyEntryShiftsRowIndex` | src/Component/UserTable.js:44-48 | a record with no property is not kept even by the empty term: in `[{}, r]` the first row shows r while its index 0 names `{}` |
| `UserTable.ShownEntryPosition` | src/Component/UserTable.js:185-216 | the record shown on a row sits in the full list at the kept position that the row index selects |
| `UserTable.SearchShiftsRowIndex` | src/Component/UserTable.js:201-205 | searching "nepal" keeps only the Nepali record; under that search the first row shows it while its index 0 names the Indian record |
| `UserTable.TableView.Filtered` | src/Component/UserTable.js:22 | the filtered list: no longer than the store's list, and each record in it is stored and matches the search term |
| `UserTable.TableView.Rows` | src/Component/UserTable.js:96-99 | the rows on screen: at most five, each a stored record that matches the search term |
| `UserTable.TableView.constructor` | src/Component/UserTable.js:20-29 | page 1, empty search term, no edit session, dialog closed, no errors |
| `UserTable.TableView.SearchChange` | src/Component/UserTable.js:92-94 | the search term is replaced and the page number is kept |
| `UserTable.TableView.ChangePage` | src/Component/UserTable.js:62-64 | the page becomes one of the offered pages, which then has rows; nothing else changes |
| `UserTable.TableView.Edit` | src/Component/UserTable.js:56-60 | the edit index is recorded, the working copy is the record at that index (none if there is none), and the dialog opens |
| `UserTable.TableView.EditRow` | src/Component/UserTable.js:201-205 | the row's Edit button opens the dialog on the record at the row index, which is in range; without a search term, and when every stored record has a property, it is the record shown on the row |
| `UserTable.TableView.Delete` | src/Component/UserTable.js:52-54 | the store's list loses the position given, and the persisted copy is overwritten with the new list |
| `UserTable.TableView.InputChange` | src/Component/UserTable.js:66-70 | errors are the validator's result on the working copy before the change; only the named property of the working copy changes |
| `UserTable.TableView.FileChange` | src/Component/UserTable.js:72-83 | a PNG file puts its data URI in the picture property and nothing else; any other choice leaves the working copy unchanged |
| `UserTable.TableView.Save` | src/Component/UserTable.js:85-90 | the store's list becomes `ReplaceAt(list, edit index, working copy)` without validation, the persisted copy is overwritten with the new list, and the dialog closes |
| `UserTable.TableView.Cancel` | src/Component/UserTable.js:354-359 | the dialog closes; the store is not touched |
| `UserTable.EditTypeCancel` | src/Component/UserTable.js:56-70 | opening record 2, typing into it and cancelling leaves the store's list unchanged |
| `EntryForm.BlankRecord` | src/Component/Form.js:16-27 | the ten properties of the form's record all hold "" except country, which holds "Nepal" |
| `EntryForm.Submission` | src/Component/Form.js:50-55 | without a picture the record is submitted as it is. With a picture it is submitted exactly when reading succeeds, with the data URI in the picture slot. No other property differs |
| `EntryForm.SubmitGateAlwaysOpen` | src/Component/Form.js:62-115 | the validator called with no field name is valid and clears the errors, whatever the record holds |
| `EntryForm.ValidationSeesPreviousValue` | src/Component/Form.js:36-45 | typing the first character of an empty name still reports "Name is required", because the check sees the record before the change |
| `EntryForm.Form.constructor` | src/Component/Form.js:16-30 | the form starts with the blank record and no errors |
| `EntryForm.Form.SetProfilePicture` | src/Component/Form.js:32-34 | the chosen File object is written into the picture slot |
| `EntryForm.Form.HandleChange` | src/Component/Form.js:36-45 | errors are the validator's result on the record before the change; only the named property changes |
| `EntryForm.Form.ClearForm` | src/Component/Form.js:117-130 | the record is the blank record again, the same one the form starts with |
| `EntryForm.Form.HandleSubmit` | src/Component/Form.js:47-60 | the errors are cleared. The append runs exactly once with the submitted record, the persisted copy is overwritten with the new list, and then the form is reset. When the picture read fails, nothing is appended and the record stays |

## Left out

- The country list fetched over HTTP (in both components): network I/O with no logic.
- The FileReader data-URI encoding. Its result is a parameter: `encoded` in the
  table's file change, `read` in the form's submit.
- In the table's file change, a failed read (the `onloadend` result is then
  null) is not modelled.
- In the table's file change, the handler works on the working copy as it was
  when the file was chosen. Edits typed while the read is in progress are lost.
  The model commits the read result at once.
- The choice of a file followed by a cancelled file dialog is not modelled. It
  leaves `undefined` in the picture slot, and the search's `toString` on it
  can throw (`some` stops at the first match, so it throws only when it reaches
  that property).
- `localStorage` and JSON. The persisted copy is a list value, `None` until the
  first write. Parsing, and the exception a corrupted blob raises, are not
  modelled.
- In the form's submit, the handler awaits the picture read and then appends
  through the `addEntry` closure and the record it saw when submit began.
  Fields typed during the read are lost, and a record deleted in the table
  during the read comes back. The model appends to the current list at once.
- The 500 ms delay before save commits: save commits at once. A commit that
  arrives after the dialog was closed and reopened is therefore not modelled.
- The one-render lag of the filter effect: the filtered list is always the
  filter of the current list and term.
- The browser's own check of the form's `type="email"` input, which blocks
  submit while a non-empty e-mail is malformed by the HTML standard's rule. The
  dialog's `required` attributes gate nothing, since its save button is
  `type="button"`.
- The validator's picture case is never reached from the markup: both picture
  inputs use their own handlers. It is modelled as written.
- Rendering, the modal's markup, routing, `alert`, `console.log` and styling.
  Styling includes the email and phone borders, which read the name's error.
- The province option lists: constants only read by the markup.
- The profile listing component is not part of this model. It only reads
  storage and renders a table.
- `UserTable.Lower`: folds only ASCII letters. JavaScript's `toLowerCase` also
  folds all other Unicode letters.
- `Validation.Validate`: its `value` argument is never read in the source, so it
  is not a parameter.
- Property values are text or File objects. Other JavaScript values (numbers,
  null) are not modelled.
