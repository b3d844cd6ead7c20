# Self-certification components, modelled in Dafny

This project models the two Lightning Web Components of the self-certification
workflow.

- **Admin table** (`selfCertificationAdmin.js`). The table keeps the certification
  records as fetched (`initialRecords`) and the list left after a search
  (`certifications`). It shows one page of that list (`paginatedData`), chosen by
  `pageSize`, `currentPage` and `totalPages`. It can export the selected rows as
  comma-separated text.
- **User form** (`selfCertificationUser.js`). The form collects two confirmation
  checkboxes and one uploaded file. It sends a create call to the backend and shows
  the submitted record until the user goes back.

Layout, one module per file:

| file | module | what it holds |
|---|---|---|
| `wrappers.dfy` | `Wrappers` | `Option`, standing for `null`/`undefined` |
| `text.dfy` | `Text` | `toLowerCase` and `includes` as the search uses them; `Join` and `JoinLines`, the comma template literal and the line breaks of the export; `Split`, the reader in which the read-back lemmas are stated |
| `records.dfy` | `CertRecords` | the record, `decorateData`, the search filter |
| `pagination.dfy` | `Pagination` | `slice`, `Math.ceil(n / pageSize)`, the page slice, page lemmas |
| `csv_export.dfy` | `CsvExport` | the exported text and when it reads back |
| `admin_table.dfy` | `AdminTable` | class `SelfCertificationAdmin`, one method per handler |
| `user_form.dfy` | `UserForm` | class `SelfCertificationUser`, one method per handler |

A record is modelled as two parts:

- the string forms (`String(val)`) of all its field values, in key order, which is
  what the search looks at;
- the named fields the export reads.

The two parts are separate data. The predicate `FieldsListed` ties them
together as they are in a fetched record: a present country, date or status
is also one of the values, and a present `Certified_By__r` is among them as
`"[object Object]"`.

Decorating a record adds `Certified_By_Name` after its fetched fields, just as a
new key comes last in `Object.values`.

Each handler that assigns component fields is a class method. Its contract gives
the new value of every field it may change, and its `modifies` clause limits
which fields those are. Both classes keep an invariant, `Valid()`:

- **Admin.** `certifications` is the search result of `initialRecords` for the
  last key. `paginatedData` is page `currentPage` of `certifications`. While
  `certifications` is non-empty, `totalPages` is its page count and
  `1 <= currentPage <= totalPages`. An empty list without a load error is
  page 1 of 0 pages.
- **User form.** `uploadedFileUrl` is the download prefix followed by
  `uploadedFileId`. Uploads are disabled exactly while no file is held. The form
  shows exactly while there is no submitted record and no record id.

Backend answers are parameters of the handlers: the record fetch, the user info,
the pricing call and the create call. So are the date formatting of the export
and today's date.

The model follows the code, including where it does less than a reader of a
data table might expect:

- the table offers no sorting;
- the export never quotes a cell, contrary to section 2 of RFC 4180;
- the search reads the relation object's string form, so the key `object`
  finds every record that has a certifier (`CertRecords.FoundByObjectKey`);
- a load error does not reset the page counters;
- `handleRefresh` does nothing, so the selection is never cleared.

## Model

| member | source | states |
|---|---|---|
| `CertRecords.Decorate` | force-app/main/default/lwc/selfCertificationAdmin/selfCertificationAdmin.js:45-50 | same number of records, same order; each record's fields are unchanged; `Certified_By_Name` is the related Name when `Certified_By__r` is present, `''` otherwise |
| `CertRecords.DecorateIdempotent` | force-app/main/default/lwc/selfCertificationAdmin/selfCertificationAdmin.js:45-50 | decorating already-decorated records changes nothing |
| `CertRecords.DecoratedFoundByName` | force-app/main/default/lwc/selfCertificationAdmin/selfCertificationAdmin.js:45-50 | after decoration, any non-empty key that occurs in the certifier's name finds the record, whatever its other fields hold |
| `CertRecords.FoundByExportedField` | force-app/main/default/lwc/selfCertificationAdmin/selfCertificationAdmin.js:61-67 | a fetched record is found, before and after decoration, by any non-empty key inside its lower-cased country or status |
| `CertRecords.FoundByObjectKey` | force-app/main/default/lwc/selfCertificationAdmin/selfCertificationAdmin.js:61-67 | a fetched record with a related certifier is found by the key `object`, which occurs in the relation's string form `[object Object]` |
| `CertRecords.FilterSpec` | force-app/main/default/lwc/selfCertificationAdmin/selfCertificationAdmin.js:61-67 | a record is in the result if and only if it is in the input and some field value, lower-cased, contains the key; the result is an order-preserving subsequence of the input |
| `CertRecords.FilterCount` | force-app/main/default/lwc/selfCertificationAdmin/selfCertificationAdmin.js:61-67 | each matching record keeps its number of occurrences; each non-matching record has none |
| `CertRecords.SearchRecordsSpec` | force-app/main/default/lwc/selfCertificationAdmin/selfCertificationAdmin.js:61-70 | the empty key gives exactly the fetched list; any other key gives exactly the matching records, as a subsequence |
| `Text.Lower` | force-app/main/default/lwc/selfCertificationAdmin/selfCertificationAdmin.js:53 | `toLowerCase` keeps the length, turns each upper-case letter into its own lower-case letter (32 code points on), leaves no upper-case letter and keeps every other character |
| `Text.LowerIgnoresCase` | force-app/main/default/lwc/selfCertificationAdmin/selfCertificationAdmin.js:53 | two strings have the same lower-case form if and only if they differ at most in letter case; lowering twice is lowering once |
| `CertRecords.SearchIgnoresKeyCase` | force-app/main/default/lwc/selfCertificationAdmin/selfCertificationAdmin.js:53-67 | keys that differ only in letter case give the same search result |
| `Text.ContainsAt` | force-app/main/default/lwc/selfCertificationAdmin/selfCertificationAdmin.js:65 | `includes` holds if and only if the key equals some window of the value |
| `Pagination.Slice` | force-app/main/default/lwc/selfCertificationAdmin/selfCertificationAdmin.js:115 | `slice(lo, hi)` has `min(hi, n) - lo` elements (none when that is not positive), taken from position `lo` on |
| `Pagination.PageCount` | force-app/main/default/lwc/selfCertificationAdmin/selfCertificationAdmin.js:72 | `Math.ceil(n / size)` is zero exactly for no rows |
| `Pagination.PageCountBounds` | force-app/main/default/lwc/selfCertificationAdmin/selfCertificationAdmin.js:72 | the page count `t` is the least whole number of pages that holds all rows: `n <= t*size`, and `(t-1)*size < n` when `t > 0` |
| `Pagination.Page` | force-app/main/default/lwc/selfCertificationAdmin/selfCertificationAdmin.js:113-115 | page `p` holds at most `size` rows |
| `Pagination.PageRows` | force-app/main/default/lwc/selfCertificationAdmin/selfCertificationAdmin.js:113-115 | page `p` is `xs[(p-1)*size .. min(p*size, n)]` when it starts inside the list and empty otherwise |
| `Pagination.PageNonEmpty` | force-app/main/default/lwc/selfCertificationAdmin/selfCertificationAdmin.js:107-117 | a page is non-empty exactly when its number is between 1 and the page count |
| `Pagination.PagesThroughPrefix` | force-app/main/default/lwc/selfCertificationAdmin/selfCertificationAdmin.js:107-117 | pages 1 to `k`, concatenated, are the first `k*size` rows (or all of them) |
| `Pagination.PagesRebuildAll` | force-app/main/default/lwc/selfCertificationAdmin/selfCertificationAdmin.js:107-117 | pages 1 to `totalPages`, concatenated, give back the list exactly: no gap, no overlap |
| `CsvExport.HeaderReadsBack` | force-app/main/default/lwc/selfCertificationAdmin/selfCertificationAdmin.js:151 | the fixed header line splits on `,` into the four column titles |
| `CsvExport.HeaderHasNoBreak` | force-app/main/default/lwc/selfCertificationAdmin/selfCertificationAdmin.js:151 | the header line holds no line break, so it is exactly the first line |
| `CsvExport.CsvDocumentSnoc` | force-app/main/default/lwc/selfCertificationAdmin/selfCertificationAdmin.js:152-162 | each row of the `forEach` appends exactly its own line to the text |
| `CsvExport.DocumentLines` | force-app/main/default/lwc/selfCertificationAdmin/selfCertificationAdmin.js:151-162 | when no cell holds a line break, the export splits into the header, one line per selected row in selection order, and nothing after the last line break |
| `CsvExport.DocumentLineCount` | force-app/main/default/lwc/selfCertificationAdmin/selfCertificationAdmin.js:151-162 | the export splits into one line per row, plus the header, the empty piece after the last break and one extra line per line break inside a cell; so it has exactly one line per row if and only if no cell holds a line break |
| `CsvExport.RowReadsBack` | force-app/main/default/lwc/selfCertificationAdmin/selfCertificationAdmin.js:153-161 | a row's line splits back into its four cells (country, date, certifier name, status; `''` when missing) if and only if no cell holds a comma; otherwise into four cells plus one per comma in the values, since nothing is quoted |
| `Text.SplitJoin` | force-app/main/default/lwc/selfCertificationAdmin/selfCertificationAdmin.js:161 | splitting cells joined by a separator gives them back when no cell holds the separator |
| `Text.JoinSepCount` | force-app/main/default/lwc/selfCertificationAdmin/selfCertificationAdmin.js:161 | a join of `n` cells holds `n - 1` separators plus those inside the cells |
| `Text.JoinCharCount` | force-app/main/default/lwc/selfCertificationAdmin/selfCertificationAdmin.js:161 | any character other than the separator occurs in the joined row exactly as often as in its cells |
| `Text.SplitCount` | force-app/main/default/lwc/selfCertificationAdmin/selfCertificationAdmin.js:161 | splitting on a separator gives one piece more than the separators in the text, and no piece holds the separator |
| `Text.SplitJoinLines` | force-app/main/default/lwc/selfCertificationAdmin/selfCertificationAdmin.js:152-162 | lines without breaks, each ended by a break, split back into those lines and one empty piece |
| `AdminTable.SelfCertificationAdmin.constructor` | force-app/main/default/lwc/selfCertificationAdmin/selfCertificationAdmin.js:13-23 | empty lists, page size 10, page 1, no pages, no error |
| `AdminTable.SelfCertificationAdmin.WiredCertifications` | force-app/main/default/lwc/selfCertificationAdmin/selfCertificationAdmin.js:26-43 | on data, both lists are the decorated records, page 1 is shown and it holds the first `pageSize` records, `totalPages` is their page count and the error is cleared; on error, the three lists are empty and the page counters are kept; with neither, nothing changes; the invariant holds throughout |
| `AdminTable.SelfCertificationAdmin.UpdatePaginatedData` | force-app/main/default/lwc/selfCertificationAdmin/selfCertificationAdmin.js:107-117 | shows page `currentPage`; an empty list gives an empty page and `totalPages = 0` |
| `AdminTable.SelfCertificationAdmin.HandleSearch` | force-app/main/default/lwc/selfCertificationAdmin/selfCertificationAdmin.js:52-75 | an empty key restores the fetched list; any other key filters it case-insensitively; the page is 1 and `totalPages` is the new list's page count; the fetched list, selection, page size and error are kept |
| `AdminTable.SelfCertificationAdmin.HandleRowSelection` | force-app/main/default/lwc/selfCertificationAdmin/selfCertificationAdmin.js:95-98 | the selection becomes the rows the table reports; nothing else changes |
| `AdminTable.SelfCertificationAdmin.HandlePageSizeChange` | force-app/main/default/lwc/selfCertificationAdmin/selfCertificationAdmin.js:100-105 | the new size is in effect, the page is 1, `totalPages` is `ceil(n / size)`, and page 1 at the new size is shown |
| `AdminTable.SelfCertificationAdmin.HandlePrevious` | force-app/main/default/lwc/selfCertificationAdmin/selfCertificationAdmin.js:119-124 | on page 1 no field changes; otherwise the page goes down by one and that page is shown |
| `AdminTable.SelfCertificationAdmin.HandleNext` | force-app/main/default/lwc/selfCertificationAdmin/selfCertificationAdmin.js:126-131 | when `currentPage >= totalPages` no field changes; otherwise the page goes up by one and that page is shown |
| `AdminTable.SelfCertificationAdmin.IsPreviousDisabled` | force-app/main/default/lwc/selfCertificationAdmin/selfCertificationAdmin.js:133-135 | the Previous button is off exactly when `handlePrevious` would do nothing |
| `AdminTable.SelfCertificationAdmin.IsNextDisabled` | force-app/main/default/lwc/selfCertificationAdmin/selfCertificationAdmin.js:137-139 | when the button is off, `handleNext` would do nothing; while the list is non-empty, the converse holds too |
| `AdminTable.SelfCertificationAdmin.HandleTestExport` | force-app/main/default/lwc/selfCertificationAdmin/selfCertificationAdmin.js:141-162 | no text for an empty selection; otherwise the header followed by one unquoted line per selected row, in selection order; no field of the table changes |
| `UserForm.SelfCertificationUser.constructor` | force-app/main/default/lwc/selfCertificationUser/selfCertificationUser.js:8-22 | form shown, no record; empty name, country and comments; price `N/A`; period `6 month`; today's date; checkboxes off; no file; upload disabled |
| `UserForm.SelfCertificationUser.WiredUser` | force-app/main/default/lwc/selfCertificationUser/selfCertificationUser.js:25-33 | delivered data sets the user name and country; an error or no delivery changes nothing |
| `UserForm.SelfCertificationUser.PricingLoaded` | force-app/main/default/lwc/selfCertificationUser/selfCertificationUser.js:35-46 | an answer with a numeric or `null` price sets the country, and the formatted price or `N/A`; a rejected call, a `null` answer, or a price that makes `toFixed` throw (missing, not a number) ends in the `catch`, which sets both country and price to `N/A` |
| `UserForm.SelfCertificationUser.HandleCommentsChange` | force-app/main/default/lwc/selfCertificationUser/selfCertificationUser.js:48-50 | the comments become the input's value; nothing else changes |
| `UserForm.SelfCertificationUser.HandleConfirmationChange` | force-app/main/default/lwc/selfCertificationUser/selfCertificationUser.js:52-54 | `confirmation` becomes the checkbox's `checked`; nothing else changes |
| `UserForm.SelfCertificationUser.HandleESignatureChange` | force-app/main/default/lwc/selfCertificationUser/selfCertificationUser.js:56-58 | `eSignature` becomes the checkbox's `checked`; nothing else changes |
| `UserForm.SelfCertificationUser.HandleUploadFinished` | force-app/main/default/lwc/selfCertificationUser/selfCertificationUser.js:60-80 | a non-empty list sets the file id to the first file's `documentId` and the URL to the download prefix plus that id, and enables upload; an empty list changes nothing |
| `UserForm.SelfCertificationUser.HandleSubmit` | force-app/main/default/lwc/selfCertificationUser/selfCertificationUser.js:82-145 | without both checkboxes, or without a file URL, there is no create call and nothing changes; otherwise the call carries period, date, country, comments, both flags and the file id; success stores the new id, hides the form and snapshots name, country, period, date, comments and flags; failure changes nothing |
| `UserForm.SelfCertificationUser.HandleBack` | force-app/main/default/lwc/selfCertificationUser/selfCertificationUser.js:147-162 | the form is shown with no record, no comments, checkboxes off, no file, upload disabled and no record id; name, country, price, period and date are kept |

## Left out

- The Apex calls (`getCertifications`, `getUserInfo`, `getPricingDataByUserCountry`, `createSelfCertification`) and the `@wire`/promise plumbing are foreign backend calls. Their results are parameters of the handlers.
- Each answer is applied as soon as the handler runs, with no wait. The model does not capture an event that arrives between a call and its answer, such as `handleBack` while a create call is pending, or a late fetch answer.
- Toasts (`ShowToastEvent`), `alert` and `console` output are side effects that hold no state.
- The browser download at the end of `handleTestExport` (data URI, anchor, `click`) is browser I/O. The model stops at the CSV text.
- Date handling is not modelled. The export's date-only formatting is a function parameter, and the form's default date is a constructor parameter. An invalid date, which makes `toISOString` throw, is not modelled.
- `price.toFixed(2)` is floating-point formatting. A numeric price arrives already formatted; which values make `toFixed` throw is data of the answer (`UnusablePrice`).
- `Text.Lower`: maps only the ASCII letters `A`-`Z`; JavaScript's `toLowerCase` maps every Unicode letter, which this model does not capture.
- `String(val)` is not computed. Each record carries the string forms of its field values as data.
- A related certifier record without a `Name`, where `Certified_By_Name` would be `undefined`, is not modelled.
- `AdminTable.SelfCertificationAdmin.HandlePageSizeChange`: requires a positive page size. The size menu offers only 10 to 50, so `parseInt` of any other string is not modelled.
- `AdminTable.SelfCertificationAdmin.HandleNext`: the bound `1 <= currentPage <= totalPages` is proved while `certifications` is non-empty, and page 1 of 0 pages while it is empty without a load error; it fails only after a load error. The error branch of `wiredCertifications` keeps the page counters, and `handleNext` can then move past the last page. `AdminTable.StaleCountersAfterLoadError` shows page 3 of 0 pages this way.
- The `!this.initialRecords` branch of `handleSearch` is not modelled. That field is always an array, so the branch is dead code.
- `handleRefresh` is empty and is not modelled. Neither are the display-only getters (`pageSizeOptions`, `selectedCount`, `totalCount`) or the fields no handler changes (`certColumns`, `searchText`, `submit`).
- `@track` reactivity and rendering are not modelled.
