# Asset tracker: a Dafny model of its data core

The asset tracker is a single-page app (`src/App.jsx`). It keeps a list of
accounts (bank, investment, cash, ...) and dated snapshots of their balances
("records"). From these it draws a total-assets curve, a breakdown of the
latest snapshot and a per-account history. This project models the data
core of that component in Dafny and proves what it promises:

- `seqs.dfy` (module `Seqs`) covers the array operations the code relies on. `Filter` is order-preserving, and its kept positions are characterised exactly. `SortBy` is a stable sort by an integer key, like `Array.prototype.sort` with a numeric comparator.
- `dataset.dfy` (module `Dataset`) holds the data:
  - accounts, records and the default data set;
  - the colour palette;
  - plain JavaScript objects, modelled as insertion-ordered property lists with `o[k]` (`Get`) and `o[k] = v` (`Put`);
  - `calculateTotal`.
- `record_store.dfy` (module `RecordStore`) models the record handlers:
  - add with overwrite-by-date;
  - update with its asymmetric date-collision rule;
  - delete by date.
- `account_registry.dfy` (module `AccountRegistry`) covers:
  - the account handlers (add, toggle, soft delete);
  - the visible, active, inactive and selectable lists;
  - the new-account form's blank-name check.
- `record_forms.dfy` (module `RecordForms`) covers the new-record and edit-record forms:
  - the prefill loops;
  - the cleaning loop that keeps only positive amounts;
  - the refusal of an empty result;
  - the edit form's choice of accounts.
- `backup.dfy` (module `Backup`) covers the structural check of an imported file, over a small JSON value type, and the export it must accept.
- `series.dfy` (module `Series`) covers:
  - `chartData`;
  - the time-window filter `getFilteredData`;
  - the headline change and its percentage;
  - the latest total.
- `breakdown.dfy` (module `Breakdown`) covers:
  - `getLatestPieData`;
  - `getLegendData`, which is sorted by amount but coloured by breakdown position;
  - `getAccountHistoryData`.
- `tracker.dfy` (module `Tracker`) holds the class `AssetTracker`:
  - The component's `data` state is a pair of fields, `accounts` and `records`.
  - One method per handler replaces those fields. The methods include the forms' submits, the import, and the in-place sort that `chartData` performs on `data.records`.

Modelling choices:

- **Dates** are integers written YYYYMMDD. The source's ISO `YYYY-MM-DD` strings compare and sort like these numbers.
- **Windows.** The cutoffs of the "3m", "6m" and "1y" windows are parameters (`Series.Cutoffs`), because the source computes them from the clock. The source compares local midnight of each point's day with a cutoff taken at the current time of day. A cutoff parameter is therefore the first calendar day whose points the window keeps.
- **Form fields** hold `Option<int>`: what `parseInt` reads from the field, with `None` for NaN. `parseInt(value) || 0` is `RecordForms.Amount`.
- **`generateId()`** is a parameter, `freshId`. Distinct ids are kept when it is fresh (`AccountRegistry.AddAccountKeepsIdsDistinct`).
- **Undefined `accountId`.** Where the legend leaves `accountId` undefined, the model has `None`. The history then reads the property named `"undefined"`, as `record.assets[undefined]` does.
- **Code over design.** Where the code differs from what the app evidently intends, the model follows the code:
  - The toggle does not keep "deleted implies inactive" (`AccountRegistry.ToggleDeletedReactivates`).
  - The latest record is the first record with the greatest date.
  - The legend finds an account by name, not by id (`Breakdown.LegendNameClash`).
  - Loading does not fall back to the defaults when the saved text fails to parse: the source throws there.
  - The import check only requires two arrays. It does not decode them, so the model proves that an export passes the check, not that import inverts export.

## Model

| member | source | states |
|---|---|---|
| Seqs.FilterKeepsExactly | src/App.jsx:374-377 | a filter keeps exactly the positions whose element passes, in increasing order |
| Seqs.SortByStable | src/App.jsx:415 | the sort is stable: elements with equal keys keep their original relative order |
| Seqs.FilterSortedIsSuffix | src/App.jsx:374-377 | on a sequence sorted by a key, keeping the elements whose key is at least a cutoff keeps a suffix |
| Dataset.Get | src/App.jsx:1145 | `o[k]` is undefined exactly when no property has key k; otherwise it is a property's value, and the only one when keys are distinct |
| Dataset.Put | src/App.jsx:1064 | `o[k] = v` appends a property for a new key and keeps the key order for an existing one |
| Dataset.PutGet | src/App.jsx:1064 | after `o[k] = v`, `o[k]` reads v |
| Dataset.PutOthers | src/App.jsx:1064 | `o[k] = v` leaves every other property's value as it was |
| Dataset.PutDistinct | src/App.jsx:1061-1065 | assignment never creates a repeated key |
| Dataset.Total | src/App.jsx:122-124 | calculateTotal of balances that are never negative is never negative, and of positive balances it is positive exactly when there is a balance; `TotalAppend` states how totals add |
| Dataset.TotalAppend | src/App.jsx:122-124 | calculateTotal adds up: the total of two runs of balances is the sum of their totals |
| RecordStore.FindIndex | src/App.jsx:155 | findIndex: -1 exactly when no record has the date, otherwise the first index with that date |
| RecordStore.AddRecord | src/App.jsx:152-174 | an existing date's slot is overwritten with the new record; a new date appends it (length +1); every other record is unchanged and in place |
| RecordStore.AddRecordKeepsDistinct | src/App.jsx:152-174 | one record per date is preserved, and the only record with the new date is the new record |
| RecordStore.AddRecordExactlyOne | src/App.jsx:152-174 | with distinct dates beforehand, exactly one record has the new record's date |
| RecordStore.AddRecordOverwrites | src/App.jsx:155-163 | a second save on the same date replaces the first outright (no merge) |
| RecordStore.SaveTwiceExample | src/App.jsx:155-163 | saving {a:100} and then {b:50} on 2024-01-01 leaves the single record {b:50} |
| RecordStore.UpdateRecord | src/App.jsx:176-201 | the store never grows; every record other than the updated one was already there and is not dated originalDate |
| RecordStore.UpdateCollision | src/App.jsx:179-190 | when the date moves onto an existing one, nothing is left at originalDate, the new date holds only the updated record, all other records survive, and the length drops by the number of records at originalDate |
| RecordStore.UpdateCollisionLength | src/App.jsx:179-190 | with distinct dates, the collision case loses one record exactly when originalDate had one |
| RecordStore.UpdateCollisionOrder | src/App.jsx:183-189 | in the collision case the survivors keep their relative order, with the new-date slot overwritten |
| RecordStore.UpdateInPlace | src/App.jsx:191-198 | otherwise the records at originalDate are replaced in place, with length and positions unchanged, and nothing happens when originalDate is absent |
| RecordStore.UpdateKeepsDistinct | src/App.jsx:176-201 | both branches preserve one record per date |
| RecordStore.UpdateCollisionExample | src/App.jsx:179-190 | moving the 2024-01-01 record onto 2024-02-01 leaves only the updated 2024-02-01 record |
| RecordStore.DeleteRecord | src/App.jsx:203-208 | a record survives exactly when it was there and has another date |
| RecordStore.DeleteRecordKeepsOrder | src/App.jsx:203-208 | the survivors are the records not at that date, in their original order |
| RecordStore.DeleteRecordCount | src/App.jsx:203-208 | the length drops by the number of records at the date; deleting an absent date is a no-op; with distinct dates, deleting a present one removes exactly one record |
| RecordStore.DeleteRecordKeepsDistinct | src/App.jsx:203-208 | deleting keeps one record per date |
| AccountRegistry.AddAccount | src/App.jsx:210-215 | appends exactly one account, with the given name and category, the fresh id, active and not deleted; the others are unchanged |
| AccountRegistry.AddAccountKeepsIdsDistinct | src/App.jsx:210-215 | with a fresh id, account ids stay unique |
| AccountRegistry.ToggleAccount | src/App.jsx:217-224 | toggle flips `active` of the matching accounts only; ids, names, categories, `deleted`, order and the other accounts are unchanged |
| AccountRegistry.ToggleTwiceRestores | src/App.jsx:217-224 | toggling twice restores the accounts |
| AccountRegistry.UnknownIdIsNoOp | src/App.jsx:217-234 | toggling or deleting an id no account has changes nothing |
| AccountRegistry.DeleteAccount | src/App.jsx:226-234 | soft delete sets `deleted` and clears `active` on the matching accounts; ids, names, categories, order and the other accounts are unchanged |
| AccountRegistry.DeleteAccountIdempotent | src/App.jsx:226-234 | deleting twice is deleting once |
| AccountRegistry.DeleteAccountKeepsDeletedInactive | src/App.jsx:226-234 | soft delete preserves "deleted implies inactive" |
| AccountRegistry.ToggleVisibleKeepsDeletedInactive | src/App.jsx:217-224 | toggling an account that is not deleted preserves "deleted implies inactive" |
| AccountRegistry.ToggleDeletedReactivates | src/App.jsx:221 | the toggle itself does not enforce it: toggling a deleted account makes it active |
| AccountRegistry.VisibleAccounts | src/App.jsx:774 | exactly the accounts that are not deleted |
| AccountRegistry.ActiveAccounts | src/App.jsx:775 | exactly the accounts that are not deleted and are active |
| AccountRegistry.InactiveAccounts | src/App.jsx:776 | exactly the accounts that are not deleted and are inactive |
| AccountRegistry.SelectableAccounts | src/App.jsx:318 | exactly the active accounts that are not deleted, which the new-record form offers |
| AccountRegistry.AccountListsAgree | src/App.jsx:774-776 | the account screen's active list equals the form's list in the same order, and the active and inactive lists split the visible list |
| AccountRegistry.DeleteAccountHides | src/App.jsx:774 | a soft-deleted id appears in neither the visible list nor the selectable list |
| AccountRegistry.TrimStart | src/App.jsx:780 | removes exactly the leading JavaScript white space |
| AccountRegistry.TrimEnd | src/App.jsx:780 | removes exactly the trailing JavaScript white space |
| AccountRegistry.Trim | src/App.jsx:780 | `trim()` is never longer than the name and, when not empty, starts and ends with a character that is not white space; `TrimStart`, `TrimEnd` and `TrimEmptyIffBlank` state the rest |
| AccountRegistry.TrimEmptyIffBlank | src/App.jsx:780 | `name.trim()` is empty exactly when every character is white space |
| AccountRegistry.SubmitNewAccount | src/App.jsx:778-786 | a blank name is refused; any other name adds the account with the name as typed |
| RecordForms.Cleaned | src/App.jsx:1061-1065 | the cleaned map has at most one entry per field; `CleanedIsPositive`, `CleanedHasExactly`, `CleanedEmptyIff` and `CleanedIsPositiveInputs` state what it holds |
| RecordForms.CleanInputs | src/App.jsx:1061-1065 | the cleaning loop computes the left-to-right assignments of the positive amounts |
| RecordForms.CleanedIsPositiveInputs | src/App.jsx:1061-1065 | for an object's fields, the cleaned map is exactly the positive fields, in entry order, with their amounts |
| RecordForms.CleanedIsPositive | src/App.jsx:1161-1165 | the cleaned map has distinct keys and only positive amounts |
| RecordForms.CleanedHasExactly | src/App.jsx:1161-1165 | an id is in the cleaned map exactly when its field parses to a positive number, and then it holds that number |
| RecordForms.CleanedEmptyIff | src/App.jsx:1067-1070 | the cleaned map is empty exactly when no field is positive |
| RecordForms.SubmitRecord | src/App.jsx:1057-1073 | submit fails exactly when no amount is positive; otherwise the record has the form's date and its balances are the cleaned map, which with distinct field keys is exactly the positive fields in entry order |
| RecordForms.Prefilled | src/App.jsx:1046-1052 | the prefilled fields are at most one per account; `PrefilledFields` states that with distinct ids there is one per account, in order, with the record's amount or nothing |
| RecordForms.PrefillInputs | src/App.jsx:1046-1052 | the prefill loop builds the fields by assignment in account order |
| RecordForms.PrefilledFields | src/App.jsx:1149-1155 | with distinct ids there is one field per shown account, in order, holding the record's amount or nothing |
| RecordForms.DisplayAccounts | src/App.jsx:1141-1147 | the edit form shows exactly the accounts that are selectable or hold a positive amount in the record |
| RecordForms.DisplayAccountsOrder | src/App.jsx:1147 | the selectable accounts come first, in account order, and the inactive or deleted ones follow |
| RecordForms.DisplayAccountsDistinct | src/App.jsx:1141-1147 | no account is shown twice |
| RecordForms.EditUnchangedKeepsAmounts | src/App.jsx:1141-1170 | saving the edit form unchanged keeps every amount of a saved record whose ids all belong to accounts |
| Backup.CheckImport | src/App.jsx:827-836 | an import passes exactly when the value is an object with array `accounts` and `records`; a null value, a missing accounts array and a missing records array each give their own error; on success the counts are the array lengths |
| Backup.Encode | src/App.jsx:797 | the exported value; `ExportPassesImport` states that it passes the import check with its counts |
| Backup.ExportPassesImport | src/App.jsx:796-797 | an exported data set passes the import check, with its numbers of accounts and records |
| Backup.ImportIgnoresContents | src/App.jsx:827-832 | the check accepts any array contents, and refuses an object without one of the arrays or a value that is not an object |
| Series.SortByDate | src/App.jsx:127 | the records are rearranged into non-decreasing date order |
| Series.ChartData | src/App.jsx:126-132 | one point per record; `ChartDataShape` and `ChartDataStrictlyAscending` state the order and the contents |
| Series.ChartDataShape | src/App.jsx:126-132 | chartData has one point per record, in ascending date order, each carrying a record's date, total and balances |
| Series.ChartDataStrictlyAscending | src/App.jsx:126-132 | with one record per date the points' dates strictly increase |
| Series.FilterByWindow | src/App.jsx:353-378 | the window result is drawn from the series and is never longer |
| Series.WindowIdentity | src/App.jsx:354 | "all", an unknown range and an empty series are returned unchanged |
| Series.WindowExact | src/App.jsx:374-377 | a known window keeps exactly the items dated on or after its cutoff, as an order-preserving subsequence |
| Series.WindowIsSuffix | src/App.jsx:374-377 | on an ascending series every window is a suffix |
| Series.WindowsNested | src/App.jsx:359-370 | with ordered cutoffs, the 3-month window lies inside the 6-month one, which lies inside the 1-year one |
| Series.Change | src/App.jsx:383-385 | the headline change; `ChangeOverAll` and `WindowChange` state it is the latest total minus the first kept total, and 0 with fewer than two points |
| Series.ChangePercent | src/App.jsx:386-388 | the percentage change; `ChangePercentAgrees` states it reconstructs the last total and has the change's sign |
| Series.LatestTotal | src/App.jsx:253 | latestTotal; `ChangeOverAll`, `WindowChange` and `Breakdown.LatestRecordIsLastPoint` state it is the latest record's total |
| Series.ChangeOverAll | src/App.jsx:383-385 | over the whole series the change is the latest total minus the earliest record's total, and 0 with fewer than two records |
| Series.WindowChange | src/App.jsx:383-385 | over a window the change is the latest total minus the first kept point's total |
| Series.ChangePercentAgrees | src/App.jsx:386-388 | growing the first total by the percentage gives the last total, and the percentage has the change's sign |
| Breakdown.LatestRecord | src/App.jsx:136 | the record picked is one of the records, with the greatest date |
| Breakdown.LatestIsFirstOfLatestDate | src/App.jsx:136 | ties on the latest date go to the first record |
| Breakdown.LatestRecordIsLastPoint | src/App.jsx:253 | with one record per date, the latest record is the curve's last point, so latestTotal is its total |
| Breakdown.ResolveAccount | src/App.jsx:137 | the lookup finds nothing exactly when no account has the id; otherwise it finds the last account with it |
| Breakdown.PieData | src/App.jsx:134-150 | the breakdown; `PieEmptyIff`, `PieDataExact`, `PieIgnoresStatus` and `PieTotalIsLatestTotal` state its contents |
| Breakdown.PieEmptyIff | src/App.jsx:135 | when every record holds a positive balance, the breakdown is empty exactly when there are no records |
| Breakdown.PieDataExact | src/App.jsx:140-149 | the breakdown lists exactly the latest record's positive entries, in entry order, each with the name and category of its account (the last one with that id), or with the raw id and "其他" when no account has the id |
| Breakdown.PieIgnoresStatus | src/App.jsx:138-149 | toggling or deleting any account leaves the breakdown unchanged |
| Breakdown.PieTotalIsLatestTotal | src/App.jsx:401 | for a saved record, the legend's total equals calculateTotal of the latest record |
| Breakdown.FindIdByName | src/App.jsx:406 | finds nothing exactly when no account has the name; otherwise it finds the first account with that name |
| Breakdown.UnsortedLegend | src/App.jsx:403-414 | the legend rows before sorting; `LegendColours`, `LegendPercentsSumTo100` and `UnmatchedNameHistoryIsZero` state their colours, percentages and ids |
| Breakdown.LegendData | src/App.jsx:398-416 | the legend; `LegendSorted` and `LegendStable` state its order |
| Breakdown.LegendSorted | src/App.jsx:415 | the legend has one row per slice, is a rearrangement of the unsorted rows, and runs in non-increasing order of amount |
| Breakdown.LegendStable | src/App.jsx:415 | rows of equal amount keep the breakdown's order |
| Breakdown.LegendColours | src/App.jsx:411 | each row's colour is COLORS[i mod 10], where i is its slice's position in the unsorted breakdown |
| Breakdown.LegendPercentsSumTo100 | src/App.jsx:401-403 | with a positive total the percentages sum to exactly 100 |
| Breakdown.AccountHistory | src/App.jsx:428-439 | the selected account's history; `HistoryFollowsChart` and `HistoryInWindow` state its points |
| Breakdown.HistoryFollowsChart | src/App.jsx:431-436 | the history has one point per record, with the curve's dates, in ascending order, holding the account's balance or 0 |
| Breakdown.HistoryInWindow | src/App.jsx:438 | the history is the series in the chosen window: the whole series for "all", otherwise exactly the points on or after the cutoff, always a suffix |
| Breakdown.UnmatchedNameHistoryIsZero | src/App.jsx:406 | a legend row whose name matches no account has an undefined id, and its history is all zeros |
| Breakdown.LegendNameClash | src/App.jsx:406 | when two accounts share a name, the second's slice gets the first's id and the first's history |
| Tracker.AssetTracker.constructor | src/App.jsx:41-44 | the state starts as the saved data, or as the three default bank accounts with no records |
| Tracker.AssetTracker.AddRecord | src/App.jsx:152-174 | the records become the add-with-overwrite result, the accounts are untouched, and one record per date is preserved |
| Tracker.AssetTracker.UpdateRecord | src/App.jsx:176-201 | the records become the update result, the accounts are untouched, and one record per date is preserved |
| Tracker.AssetTracker.DeleteRecord | src/App.jsx:203-208 | the records become the delete result, the accounts are untouched, and one record per date is preserved |
| Tracker.AssetTracker.AddAccount | src/App.jsx:210-215 | the accounts become the append result; the records are untouched |
| Tracker.AssetTracker.ToggleAccount | src/App.jsx:217-224 | the accounts become the toggle result; the records are untouched |
| Tracker.AssetTracker.DeleteAccount | src/App.jsx:226-234 | the accounts become the soft-delete result, "deleted implies inactive" is preserved, and the records are untouched |
| Tracker.AssetTracker.SubmitNewRecord | src/App.jsx:1057-1073 | with no positive amount nothing changes; otherwise the cleaned record is added |
| Tracker.AssetTracker.SubmitEditedRecord | src/App.jsx:1157-1173 | with no positive amount nothing changes; otherwise the cleaned record replaces the one at the original date |
| Tracker.AssetTracker.SubmitNewAccount | src/App.jsx:778-786 | a blank name changes nothing; otherwise the account is added |
| Tracker.AssetTracker.Import | src/App.jsx:817-841 | a refused file or a declined confirmation changes nothing; otherwise the data is replaced |
| Tracker.AssetTracker.ChartData | src/App.jsx:126-132 | building the chart sorts the state's records in place and returns their points |

## Left out

- React rendering, hooks, icons, charts and styles are not modelled: they are presentation only.
- `localStorage`, the JSON text, `FileReader`, `Blob`, the download link and `window.confirm` are left out because they are foreign I/O. The saved data, the parsed file and the user's answer are parameters.
- A saved text that fails to parse is left out: the source throws there, and `loadData` is modelled from an already parsed value.
- Turning the parsed import value into typed accounts and records is left out. The source stores the parsed object as it is, so `Tracker.AssetTracker.Import` takes both the JSON value and its typed reading.
- `generateId` is taken as the parameter `freshId`, because it is built on the clock and `Math.random`.
- Calendar arithmetic (`setMonth`, `setFullYear`), `formatDate`, `new Date` parsing and time zones are left out; window cutoffs are parameters.
- Floating point, `toFixed`, `formatCurrency` and `Intl.NumberFormat` are left out. Percentages are exact `real` numbers.
- `parseInt`'s reading of strings is left out; a field holds the integer it reads, or nothing for NaN.
- The online/offline banner hook is left out: it has no effect on the data.
- JavaScript's ordering of integer-like object keys ahead of other keys is left out. Keys are kept in insertion order, which is what account ids of the form `acc_...` get.
- The `|| 0` of `calculateTotal` on non-numeric values is left out, because balances are integers here.
- Backup.Encode: dates are written as the model's integers rather than as ISO date strings. `deleted` is always written, although the seeded accounts have no such property until they are deleted.
- `chartData` spreads the balances into each point next to `date` and `total`. The model keeps the balances in a separate field, so an account id named `date` or `total` is not modelled.
- The form state between prefill and submit (typing in a field) is not modelled. Submits take the fields as they stand.
- Series.FilterByWindow: its own contract states only that the result is drawn from the input and is no longer than it. The exact behaviour is stated by `Series.WindowIdentity`, `Series.WindowExact` and `Series.WindowIsSuffix`.
- RecordStore.UpdateRecord: its own contract states only bounds. The two branches are stated by `RecordStore.UpdateCollision` and `RecordStore.UpdateInPlace`.
