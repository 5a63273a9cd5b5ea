/** The App component's `data` state, { accounts, records }, and the handlers
    that replace it: record and account handlers, the forms' submits, the
    import, and the in-place sort that building the chart performs. */
module Tracker {
  import opened Dataset
  import RecordStore
  import AccountRegistry
  import RecordForms
  import Backup
  import Series

  class AssetTracker {
    var accounts: seq<Account>
    var records: seq<Record>

    /** useState(loadData): the saved data, or the defaults when nothing was
        saved. */
    constructor (saved: Option<Data>)
      ensures saved.Some? ==> accounts == saved.value.accounts && records == saved.value.records
      ensures saved.None? ==> accounts == DefaultData.accounts && records == DefaultData.records
    {
      var d := if saved.Some? then saved.value else DefaultData;
      accounts := d.accounts;
      records := d.records;
    }

    /** handleAddRecord: findIndex on the date, then a copy with that slot
        written, or the record appended. */
    method AddRecord(newRecord: Record)
      modifies this
      ensures records == RecordStore.AddRecord(old(records), newRecord)
      ensures accounts == old(accounts)
      ensures old(DistinctDates(records)) ==> DistinctDates(records)
    {
      var existingIndex := 0;
      while existingIndex < |records| && records[existingIndex].date != newRecord.date
        invariant 0 <= existingIndex <= |records|
        invariant forall k :: 0 <= k < existingIndex ==> records[k].date != newRecord.date
      {
        existingIndex := existingIndex + 1;
      }
      ghost var before := records;
      if existingIndex < |records| {
        records := records[existingIndex := newRecord];
      } else {
        records := records + [newRecord];
      }
      if DistinctDates(before) {
        RecordStore.AddRecordKeepsDistinct(before, newRecord);
      }
    }

    /** handleUpdateRecord. */
    method UpdateRecord(updatedRecord: Record, originalDate: Date)
      modifies this
      ensures records == RecordStore.UpdateRecord(old(records), updatedRecord, originalDate)
      ensures accounts == old(accounts)
      ensures old(DistinctDates(records)) ==> DistinctDates(records)
    {
      if DistinctDates(records) {
        RecordStore.UpdateKeepsDistinct(records, updatedRecord, originalDate);
      }
      records := RecordStore.UpdateRecord(records, updatedRecord, originalDate);
    }

    /** handleDeleteRecord. */
    method DeleteRecord(date: Date)
      modifies this
      ensures records == RecordStore.DeleteRecord(old(records), date)
      ensures accounts == old(accounts)
      ensures old(DistinctDates(records)) ==> DistinctDates(records)
    {
      if DistinctDates(records) {
        RecordStore.DeleteRecordKeepsDistinct(records, date);
      }
      records := RecordStore.DeleteRecord(records, date);
    }

    /** handleAddAccount, with freshId standing for generateId(). */
    method AddAccount(name: string, category: string, freshId: Id)
      modifies this
      ensures accounts == AccountRegistry.AddAccount(old(accounts), name, category, freshId)
      ensures records == old(records)
    {
      accounts := AccountRegistry.AddAccount(accounts, name, category, freshId);
    }

    /** handleToggleAccount. */
    method ToggleAccount(id: Id)
      modifies this
      ensures accounts == AccountRegistry.ToggleAccount(old(accounts), id)
      ensures records == old(records)
    {
      accounts := AccountRegistry.ToggleAccount(accounts, id);
    }

    /** handleDeleteAccount. */
    method DeleteAccount(id: Id)
      modifies this
      ensures accounts == AccountRegistry.DeleteAccount(old(accounts), id)
      ensures records == old(records)
      ensures old(AccountRegistry.DeletedInactive(accounts)) ==> AccountRegistry.DeletedInactive(accounts)
    {
      accounts := AccountRegistry.DeleteAccount(accounts, id);
    }

    /** The new-record form's submit followed by onSave: nothing changes when
        no amount is positive. */
    method SubmitNewRecord(date: Date, fields: RecordForms.Inputs) returns (r: Result<Record, RecordForms.FormError>)
      modifies this
      ensures r == RecordForms.SubmitRecord(date, fields)
      ensures r.Err? ==> records == old(records)
      ensures r.Ok? ==> records == RecordStore.AddRecord(old(records), r.value)
      ensures accounts == old(accounts)
    {
      var processedAssets := RecordForms.CleanInputs(fields);
      if processedAssets == [] {
        r := Err(RecordForms.NoPositiveAmount);
      } else {
        var record := Record(date, processedAssets);
        AddRecord(record);
        r := Ok(record);
      }
    }

    /** The edit form's submit followed by onSave(record, record.date). */
    method SubmitEditedRecord(date: Date, fields: RecordForms.Inputs, originalDate: Date)
      returns (r: Result<Record, RecordForms.FormError>)
      modifies this
      ensures r == RecordForms.SubmitRecord(date, fields)
      ensures r.Err? ==> records == old(records)
      ensures r.Ok? ==> records == RecordStore.UpdateRecord(old(records), r.value, originalDate)
      ensures accounts == old(accounts)
    {
      var processedAssets := RecordForms.CleanInputs(fields);
      if processedAssets == [] {
        r := Err(RecordForms.NoPositiveAmount);
      } else {
        var record := Record(date, processedAssets);
        UpdateRecord(record, originalDate);
        r := Ok(record);
      }
    }

    /** The new-account form's submit followed by onAdd: a blank name changes
        nothing. */
    method SubmitNewAccount(name: string, category: string, freshId: Id)
      returns (r: Result<seq<Account>, AccountRegistry.NameError>)
      modifies this
      ensures r == AccountRegistry.SubmitNewAccount(old(accounts), name, category, freshId)
      ensures accounts == if r.Ok? then r.value else old(accounts)
      ensures records == old(records)
    {
      r := AccountRegistry.SubmitNewAccount(accounts, name, category, freshId);
      if r.Ok? {
        AddAccount(name, category, freshId);
      }
    }

    /** handleImport once the file is parsed: `parsed` is the parsed value as
        the tracker reads it. A refused file or a declined confirmation
        changes nothing; otherwise the data is replaced. */
    method Import(v: Backup.Json, parsed: Data, confirmed: bool) returns (r: Result<Backup.Counts, Backup.ImportError>)
      modifies this
      ensures r == Backup.CheckImport(v)
      ensures r.Ok? && confirmed ==> accounts == parsed.accounts && records == parsed.records
      ensures !(r.Ok? && confirmed) ==> accounts == old(accounts) && records == old(records)
    {
      r := Backup.CheckImport(v);
      if r.Ok? && confirmed {
        accounts := parsed.accounts;
        records := parsed.records;
      }
    }

    /** chartData: data.records.sort(...) reorders the state's array in place
        before the points are built. */
    method ChartData() returns (points: seq<Series.ChartPoint>)
      modifies this
      ensures records == Series.SortByDate(old(records))
      ensures points == Series.ChartData(old(records))
      ensures accounts == old(accounts)
    {
      records := Series.SortByDate(records);
      points := Series.Points(records);
    }
  }
}
