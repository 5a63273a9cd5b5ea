/** The new-record and edit-record forms: which accounts they show, how their
    inputs are prefilled, and how the inputs are cleaned into a record's
    balances before onSave is called. */
module RecordForms {
  import opened Seqs
  import opened Dataset
  import AccountRegistry

  /** A form's inputs, account id to what parseInt reads from the field
      (None for NaN, which is what an empty field gives). */
  type Inputs = Obj<Option<int>>

  /** parseInt(value) || 0 */
  function Amount(v: Option<int>): int
  {
    match v
    case Some(n) => n
    case None => 0
  }

  /** The cleaning loop's result on inputs: each field whose amount is
      positive, written with processedAssets[id] = num in entry order. */
  function Cleaned(inputs: Inputs): (r: Assets)
    ensures |r| <= |inputs|
  {
    if inputs == [] then []
    else
      var last := inputs[|inputs| - 1];
      var before := Cleaned(inputs[..|inputs| - 1]);
      if Amount(last.val) > 0 then Put(before, last.key, Amount(last.val)) else before
  }

  /** The inputs that cleaning keeps. */
  function IsPositiveInput(p: Prop<Option<int>>): bool { Amount(p.val) > 0 }

  function ToAmount(p: Prop<Option<int>>): Prop<int> { Prop(p.key, Amount(p.val)) }

  /** The order-preserving selection of the positive inputs, with their
      amounts: what cleaning means when the inputs come from an object
      (whose keys never repeat). */
  function PositiveInputs(inputs: Inputs): (a: Assets)
    ensures |a| == |Filter(inputs, IsPositiveInput)|
  {
    var kept := Filter(inputs, IsPositiveInput);
    seq(|kept|, k requires 0 <= k < |kept| => ToAmount(kept[k]))
  }

  /** The forEach loop of both forms' handleSubmit. */
  method CleanInputs(inputs: Inputs) returns (processed: Assets)
    ensures processed == Cleaned(inputs)
  {
    processed := [];
    var i := 0;
    while i < |inputs|
      invariant 0 <= i <= |inputs|
      invariant processed == Cleaned(inputs[..i])
    {
      assert inputs[..i + 1][..i] == inputs[..i];
      var num := Amount(inputs[i].val);
      if num > 0 {
        processed := Put(processed, inputs[i].key, num);
      }
      i := i + 1;
    }
    assert inputs[..|inputs|] == inputs;
  }

  /** Cleaning keeps exactly the positive inputs, in their order, with their
      amounts. */
  lemma {:induction false} CleanedIsPositiveInputs(inputs: Inputs)
    requires DistinctKeys(inputs)
    ensures Cleaned(inputs) == PositiveInputs(inputs)
  {
    if inputs != [] {
      var n := |inputs| - 1;
      var init, last := inputs[..n], inputs[n];
      assert inputs == init + [last];
      assert DistinctKeys(init);
      CleanedIsPositiveInputs(init);
      PositiveInputsSnoc(init, last);
      if IsPositiveInput(last) {
        NewKeyNotKept(inputs);
      }
    }
  }

  /** CleanedIsPositiveInputs stated for any inputs, as an implication. */
  lemma CleanedIsPositiveInputsWhenDistinct(inputs: Inputs)
    ensures DistinctKeys(inputs) ==> Cleaned(inputs) == PositiveInputs(inputs)
  {
    if DistinctKeys(inputs) {
      CleanedIsPositiveInputs(inputs);
    }
  }

  /** Selecting the positive inputs of init + [last]. */
  lemma PositiveInputsSnoc(init: Inputs, last: Prop<Option<int>>)
    ensures PositiveInputs(init + [last]) ==
      PositiveInputs(init) + (if IsPositiveInput(last) then [ToAmount(last)] else [])
  {
    FilterAppend(init, [last], IsPositiveInput);
    assert Filter([last], IsPositiveInput) == if IsPositiveInput(last) then [last] else [] by {
      assert [last][1..] == [];
    }
  }

  /** With distinct keys, the last input's key is not among those kept
      from the earlier ones. */
  lemma NewKeyNotKept(inputs: Inputs)
    requires inputs != [] && DistinctKeys(inputs)
    ensures !HasKey(PositiveInputs(inputs[..|inputs| - 1]), inputs[|inputs| - 1].key)
  {
    var n := |inputs| - 1;
    var init := inputs[..n];
    var before := PositiveInputs(init);
    forall k | 0 <= k < |before| ensures before[k].key != inputs[n].key {
      var x := Filter(init, IsPositiveInput)[k];
      assert x in init;
      var j :| 0 <= j < |init| && init[j] == x;
      assert inputs[j] == x;
    }
  }

  /** Cleaning yields a valid record body: distinct keys, every amount
      positive. */
  lemma {:induction false} CleanedIsPositive(inputs: Inputs)
    ensures DistinctKeys(Cleaned(inputs))
    ensures forall k :: 0 <= k < |Cleaned(inputs)| ==> Cleaned(inputs)[k].val > 0
  {
    if inputs != [] {
      var n := |inputs| - 1;
      var before := Cleaned(inputs[..n]);
      CleanedIsPositive(inputs[..n]);
      if Amount(inputs[n].val) > 0 {
        PutDistinct(before, inputs[n].key, Amount(inputs[n].val));
        PutValues(before, inputs[n].key, Amount(inputs[n].val));
      }
    }
  }

  /** o[k] = v with v positive keeps every value positive. */
  lemma {:induction false} PutValues(o: Assets, k: Id, v: int)
    requires v > 0
    requires forall i :: 0 <= i < |o| ==> o[i].val > 0
    ensures forall i :: 0 <= i < |Put(o, k, v)| ==> Put(o, k, v)[i].val > 0
  {
    if o != [] && o[0].key != k {
      PutValues(o[1..], k, v);
    }
  }

  /** An account id holds a positive amount after cleaning exactly when its
      field parses to a positive number. */
  lemma CleanedHasExactly(inputs: Inputs, id: Id)
    requires DistinctKeys(inputs)
    ensures Get(Cleaned(inputs), id).Some? <==> exists k :: 0 <= k < |inputs| && inputs[k].key == id && Amount(inputs[k].val) > 0
    ensures Get(Cleaned(inputs), id).Some? ==> Get(inputs, id).Some? && Get(Cleaned(inputs), id).value == Amount(Get(inputs, id).value)
  {
    CleanedIsPositiveInputs(inputs);
    var kept := Filter(inputs, IsPositiveInput);
    var a := Cleaned(inputs);
    if exists k :: 0 <= k < |inputs| && inputs[k].key == id && Amount(inputs[k].val) > 0 {
      var k :| 0 <= k < |inputs| && inputs[k].key == id && Amount(inputs[k].val) > 0;
      assert inputs[k] in kept;
      var j :| 0 <= j < |kept| && kept[j] == inputs[k];
      assert a[j].key == id;
    }
    if Get(a, id).Some? {
      var j :| 0 <= j < |a| && a[j].key == id;
      assert kept[j] in inputs;
      var k :| 0 <= k < |inputs| && inputs[k] == kept[j];
      CleanedIsPositive(inputs);
      assert a[j] == Prop(id, Amount(inputs[k].val));
    }
  }

  datatype FormError = NoPositiveAmount

  /** handleSubmit of both forms: the record to hand to onSave, or the
      "at least one amount" error when nothing positive was entered. */
  function SubmitRecord(date: Date, inputs: Inputs): (r: Result<Record, FormError>)
    ensures r.Err? <==> forall k :: 0 <= k < |inputs| ==> Amount(inputs[k].val) <= 0
    ensures r.Ok? ==> r.value.date == date && ValidAssets(r.value.assets)
    ensures r.Ok? ==> r.value.assets == Cleaned(inputs)
    ensures DistinctKeys(inputs) && r.Ok? ==> r.value.assets == PositiveInputs(inputs)
  {
    CleanedIsPositive(inputs);
    CleanedEmptyIff(inputs);
    CleanedIsPositiveInputsWhenDistinct(inputs);
    var processed := Cleaned(inputs);
    if processed == [] then Err(NoPositiveAmount) else Ok(Record(date, processed))
  }

  /** Cleaning yields nothing exactly when no field is positive. */
  lemma {:induction false} CleanedEmptyIff(inputs: Inputs)
    ensures Cleaned(inputs) == [] <==> forall k :: 0 <= k < |inputs| ==> Amount(inputs[k].val) <= 0
  {
    if inputs != [] {
      var n := |inputs| - 1;
      CleanedEmptyIff(inputs[..n]);
      if Amount(inputs[n].val) > 0 {
        PutGet(Cleaned(inputs[..n]), inputs[n].key, Amount(inputs[n].val));
      }
      assert forall k :: 0 <= k < n ==> inputs[..n][k] == inputs[k];
    }
  }

  /** What a field shows before the user types: `record.assets[id] || ''`. */
  function PrefillValue(record: Option<Record>, id: Id): Option<int>
  {
    match record
    case None => None
    case Some(r) =>
      match Get(r.assets, id)
      case Some(v) => if v != 0 then Some(v) else None
      case None => None
  }

  /** The prefill loop's result: one field per shown account, written with
      initial[acc.id] = ... in account order. */
  function Prefilled(accounts: seq<Account>, record: Option<Record>): (r: Inputs)
    ensures |r| <= |accounts|
  {
    if accounts == [] then []
    else
      var last := accounts[|accounts| - 1];
      Put(Prefilled(accounts[..|accounts| - 1], record), last.id, PrefillValue(record, last.id))
  }

  /** The forEach loops that build the forms' initial inputs: the new-record
      form from the latest record (None when there is none), the edit form
      from the record being edited. */
  method PrefillInputs(accounts: seq<Account>, record: Option<Record>) returns (initial: Inputs)
    ensures initial == Prefilled(accounts, record)
  {
    initial := [];
    for i := 0 to |accounts|
      invariant initial == Prefilled(accounts[..i], record)
    {
      assert accounts[..i + 1][..i] == accounts[..i];
      initial := Put(initial, accounts[i].id, PrefillValue(record, accounts[i].id));
    }
    assert accounts[..|accounts|] == accounts;
  }

  /** With distinct account ids the form has one field per account, in
      account order, each prefilled from the record. */
  lemma {:induction false} PrefilledFields(accounts: seq<Account>, record: Option<Record>)
    requires DistinctIds(accounts)
    ensures |Prefilled(accounts, record)| == |accounts|
    ensures forall k :: 0 <= k < |accounts| ==>
      Prefilled(accounts, record)[k] == Prop(accounts[k].id, PrefillValue(record, accounts[k].id))
  {
    if accounts != [] {
      var n := |accounts| - 1;
      var before := Prefilled(accounts[..n], record);
      assert DistinctIds(accounts[..n]);
      PrefilledFields(accounts[..n], record);
      assert !HasKey(before, accounts[n].id) by {
        forall k | 0 <= k < |before| ensures before[k].key != accounts[n].id {
          assert before[k].key == accounts[k].id;
        }
      }
      var field := Prop(accounts[n].id, PrefillValue(record, accounts[n].id));
      assert Prefilled(accounts, record) == before + [field];
      forall k | 0 <= k < |accounts|
        ensures Prefilled(accounts, record)[k] == Prop(accounts[k].id, PrefillValue(record, accounts[k].id))
      {
        if k < n {
          assert accounts[..n][k] == accounts[k];
        }
      }
    }
  }

  /** The record holds a positive amount for the account. (The source also
      asks that the id be among the record's keys, which this implies.) */
  predicate HoldsPositive(record: Record, a: Account)
  {
    Get(record.assets, a.id).Some? && Get(record.assets, a.id).value > 0
  }

  /** An account that the edit form shows although it cannot take new
      records: inactive or deleted, with a positive amount in the record. */
  function HoldsInactive(record: Record): Account -> bool
  {
    (a: Account) => (a.deleted || !a.active) && HoldsPositive(record, a)
  }

  /** The edit form's displayAccounts: the active, not deleted accounts, then
      the inactive or deleted ones that hold a positive amount in the record. */
  function DisplayAccounts(accounts: seq<Account>, record: Record): (r: seq<Account>)
    ensures forall a :: a in r <==>
      a in accounts && ((a.active && !a.deleted) || HoldsPositive(record, a))
  {
    AccountRegistry.SelectableAccounts(accounts) + Filter(accounts, HoldsInactive(record))
  }

  /** The active accounts come first, in account order, then the others. */
  lemma DisplayAccountsOrder(accounts: seq<Account>, record: Record)
    ensures var r := DisplayAccounts(accounts, record);
      var n := |AccountRegistry.SelectableAccounts(accounts)|;
      && n <= |r|
      && r[..n] == AccountRegistry.SelectableAccounts(accounts)
      && (forall k :: 0 <= k < n ==> r[k].active && !r[k].deleted)
      && (forall k :: n <= k < |r| ==> r[k].deleted || !r[k].active)
  {
    var sel := AccountRegistry.SelectableAccounts(accounts);
    var rest := Filter(accounts, HoldsInactive(record));
    var r := DisplayAccounts(accounts, record);
    assert r == sel + rest;
    forall k | 0 <= k < |sel| ensures r[k].active && !r[k].deleted {
      assert r[k] == sel[k] && sel[k] in sel;
    }
    forall k | |sel| <= k < |r| ensures r[k].deleted || !r[k].active {
      assert r[k] == rest[k - |sel|] && rest[k - |sel|] in rest;
    }
  }

  /** With distinct account ids the edit form shows every account at most
      once. */
  lemma DisplayAccountsDistinct(accounts: seq<Account>, record: Record)
    requires DistinctIds(accounts)
    ensures DistinctIds(DisplayAccounts(accounts, record))
  {
    var sel := AccountRegistry.SelectableAccounts(accounts);
    var rest := Filter(accounts, HoldsInactive(record));
    var r := DisplayAccounts(accounts, record);
    FilterKeepsExactly(accounts, AccountRegistry.IsSelectable);
    FilterKeepsExactly(accounts, HoldsInactive(record));
    SubsequenceKeepsDistinctIds(sel, accounts, KeptIndices(accounts, AccountRegistry.IsSelectable));
    SubsequenceKeepsDistinctIds(rest, accounts, KeptIndices(accounts, HoldsInactive(record)));
    forall i, j | 0 <= i < j < |r| ensures r[i].id != r[j].id {
      if i < |sel| <= j {
        var x, y := sel[i], rest[j - |sel|];
        assert r[i] == x && r[j] == y;
        assert x in sel && y in rest;
        var p :| 0 <= p < |accounts| && accounts[p] == x;
        var q :| 0 <= q < |accounts| && accounts[q] == y;
        assert p != q by {
          assert x.active && !x.deleted;
          assert y.deleted || !y.active;
        }
      } else if j < |sel| {
        assert r[i] == sel[i] && r[j] == sel[j];
      } else {
        assert r[i] == rest[i - |sel|] && r[j] == rest[j - |sel|];
      }
    }
  }

  lemma SubsequenceKeepsDistinctIds(r: seq<Account>, s: seq<Account>, ix: seq<nat>)
    requires SubsequenceAt(r, s, ix)
    requires DistinctIds(s)
    ensures DistinctIds(r)
  {
    forall i, j | 0 <= i < j < |r| ensures r[i].id != r[j].id {
      assert ix[i] < ix[j];
    }
  }

  /** Opening the edit form and saving it unchanged keeps every amount of
      the record: each account holding a balance is shown, prefilled with
      it, and no other field holds a positive amount. */
  lemma EditUnchangedKeepsAmounts(accounts: seq<Account>, record: Record, id: Id)
    requires DistinctIds(accounts) && ValidAssets(record.assets)
    requires forall i :: 0 <= i < |record.assets| ==> exists a :: a in accounts && a.id == record.assets[i].key
    ensures Get(Cleaned(Prefilled(DisplayAccounts(accounts, record), Some(record))), id) == Get(record.assets, id)
  {
    var shown := DisplayAccounts(accounts, record);
    DisplayAccountsDistinct(accounts, record);
    var got := Get(record.assets, id);
    if got.Some? {
      assert got.value > 0;
      var i :| 0 <= i < |record.assets| && record.assets[i].key == id;
      var a :| a in accounts && a.id == id;
      assert HoldsPositive(record, a);
      assert a in shown;
      SavedFieldKept(shown, record, id);
    } else {
      UnsavedFieldDropped(shown, record, id);
    }
  }

  /** The fields of distinct accounts have distinct keys. */
  lemma PrefilledKeysDistinct(shown: seq<Account>, record: Option<Record>)
    requires DistinctIds(shown)
    ensures DistinctKeys(Prefilled(shown, record))
    ensures |Prefilled(shown, record)| == |shown|
    ensures forall k :: 0 <= k < |shown| ==> Prefilled(shown, record)[k] == Prop(shown[k].id, PrefillValue(record, shown[k].id))
  {
    var fields := Prefilled(shown, record);
    PrefilledFields(shown, record);
    forall i, j | 0 <= i < j < |fields| ensures fields[i].key != fields[j].key {
      assert fields[i].key == shown[i].id && fields[j].key == shown[j].id;
    }
  }

  /** A shown account with a positive balance keeps it. */
  lemma SavedFieldKept(shown: seq<Account>, record: Record, id: Id)
    requires DistinctIds(shown)
    requires exists a :: a in shown && a.id == id
    requires Get(record.assets, id).Some? && Get(record.assets, id).value > 0
    ensures Get(Cleaned(Prefilled(shown, Some(record))), id) == Get(record.assets, id)
  {
    var fields := Prefilled(shown, Some(record));
    PrefilledKeysDistinct(shown, Some(record));
    CleanedHasExactly(fields, id);
    var a :| a in shown && a.id == id;
    var k :| 0 <= k < |shown| && shown[k] == a;
    assert fields[k] == Prop(id, Some(Get(record.assets, id).value));
  }

  /** An id without a balance in the record gets none. */
  lemma UnsavedFieldDropped(shown: seq<Account>, record: Record, id: Id)
    requires DistinctIds(shown)
    requires Get(record.assets, id).None?
    ensures Get(Cleaned(Prefilled(shown, Some(record))), id).None?
  {
    var fields := Prefilled(shown, Some(record));
    PrefilledKeysDistinct(shown, Some(record));
    CleanedHasExactly(fields, id);
    forall k | 0 <= k < |fields| && fields[k].key == id ensures Amount(fields[k].val) <= 0 {
      assert fields[k] == Prop(id, PrefillValue(Some(record), id));
    }
  }
}
