/** The account registry: handleAddAccount, handleToggleAccount and
    handleDeleteAccount (a soft delete), the account lists the screens show,
    and the new-account form's name check. */
module AccountRegistry {
  import opened Seqs
  import opened Dataset

  /** handleAddAccount: appends the account under a fresh id, active and not
      deleted. The name is stored as typed (untrimmed). */
  function AddAccount(accounts: seq<Account>, name: string, category: string, freshId: Id): (r: seq<Account>)
    ensures |r| == |accounts| + 1 && r[..|accounts|] == accounts
    ensures r[|accounts|].id == freshId && r[|accounts|].active && !r[|accounts|].deleted
    ensures r[|accounts|].name == name && r[|accounts|].category == category
  {
    accounts + [Account(freshId, name, category, true, false)]
  }

  /** With an id not used before (what generateId provides), ids stay unique. */
  lemma AddAccountKeepsIdsDistinct(accounts: seq<Account>, name: string, category: string, freshId: Id)
    requires DistinctIds(accounts)
    requires forall a :: a in accounts ==> a.id != freshId
    ensures DistinctIds(AddAccount(accounts, name, category, freshId))
  {
    var r := AddAccount(accounts, name, category, freshId);
    forall i, j | 0 <= i < j < |r| ensures r[i].id != r[j].id {
      if j == |accounts| {
        assert r[i] in accounts;
      }
    }
  }

  /** handleToggleAccount: flips `active` of the accounts with that id. */
  function ToggleAccount(accounts: seq<Account>, id: Id): (r: seq<Account>)
    ensures |r| == |accounts|
    ensures forall k :: 0 <= k < |accounts| ==>
      && r[k].id == accounts[k].id && r[k].name == accounts[k].name
      && r[k].category == accounts[k].category && r[k].deleted == accounts[k].deleted
      && r[k].active == (if accounts[k].id == id then !accounts[k].active else accounts[k].active)
  {
    seq(|accounts|, k requires 0 <= k < |accounts| =>
      if accounts[k].id == id then accounts[k].(active := !accounts[k].active) else accounts[k])
  }

  /** handleDeleteAccount: marks the accounts with that id deleted and
      inactive; they stay in the list so that records can still name them. */
  function DeleteAccount(accounts: seq<Account>, id: Id): (r: seq<Account>)
    ensures |r| == |accounts|
    ensures forall k :: 0 <= k < |accounts| ==>
      && r[k].id == accounts[k].id && r[k].name == accounts[k].name
      && r[k].category == accounts[k].category
      && (accounts[k].id == id ==> r[k].deleted && !r[k].active)
      && (accounts[k].id != id ==> r[k] == accounts[k])
  {
    seq(|accounts|, k requires 0 <= k < |accounts| =>
      if accounts[k].id == id then accounts[k].(deleted := true, active := false) else accounts[k])
  }

  /** Toggling twice restores the accounts. */
  lemma ToggleTwiceRestores(accounts: seq<Account>, id: Id)
    ensures ToggleAccount(ToggleAccount(accounts, id), id) == accounts
  {
    var r := ToggleAccount(ToggleAccount(accounts, id), id);
    assert forall k :: 0 <= k < |r| ==> r[k] == accounts[k];
  }

  /** Deleting twice is deleting once. */
  lemma DeleteAccountIdempotent(accounts: seq<Account>, id: Id)
    ensures DeleteAccount(DeleteAccount(accounts, id), id) == DeleteAccount(accounts, id)
  {
    var once := DeleteAccount(accounts, id);
    assert forall k :: 0 <= k < |once| ==> DeleteAccount(once, id)[k] == once[k];
  }

  /** Toggling or deleting an id no account has changes nothing. */
  lemma UnknownIdIsNoOp(accounts: seq<Account>, id: Id)
    requires forall a :: a in accounts ==> a.id != id
    ensures ToggleAccount(accounts, id) == accounts
    ensures DeleteAccount(accounts, id) == accounts
  {
    assert forall k :: 0 <= k < |accounts| ==> accounts[k] in accounts;
  }

  /** A deleted account is never active. */
  ghost predicate DeletedInactive(accounts: seq<Account>)
  {
    forall k :: 0 <= k < |accounts| && accounts[k].deleted ==> !accounts[k].active
  }

  /** Soft delete keeps "deleted implies inactive". */
  lemma DeleteAccountKeepsDeletedInactive(accounts: seq<Account>, id: Id)
    requires DeletedInactive(accounts)
    ensures DeletedInactive(DeleteAccount(accounts, id))
  {
  }

  /** Toggle keeps "deleted implies inactive" when it is applied to a visible
      account, the only kind the account screen offers it for. */
  lemma ToggleVisibleKeepsDeletedInactive(accounts: seq<Account>, id: Id)
    requires DeletedInactive(accounts)
    requires forall a :: a in accounts && a.id == id ==> !a.deleted
    ensures DeletedInactive(ToggleAccount(accounts, id))
  {
    var r := ToggleAccount(accounts, id);
    forall k | 0 <= k < |r| && r[k].deleted ensures !r[k].active {
      assert accounts[k] in accounts;
    }
  }

  /** The toggle itself does not enforce it: toggling a deleted account makes
      it active again. */
  lemma ToggleDeletedReactivates(a: Account)
    requires a.deleted && !a.active
    ensures !DeletedInactive(ToggleAccount([a], a.id))
  {
    assert ToggleAccount([a], a.id)[0] == a.(active := true);
  }

  function IsVisible(a: Account): bool { !a.deleted }
  function IsActive(a: Account): bool { a.active }
  function IsInactive(a: Account): bool { !a.active }
  function IsSelectable(a: Account): bool { a.active && !a.deleted }

  /** accounts.filter(a => !a.deleted): the account screen's list. */
  function VisibleAccounts(accounts: seq<Account>): (r: seq<Account>)
    ensures forall a :: a in r <==> a in accounts && !a.deleted
  {
    Filter(accounts, IsVisible)
  }

  /** visibleAccounts.filter(a => a.active) */
  function ActiveAccounts(accounts: seq<Account>): (r: seq<Account>)
    ensures forall a :: a in r <==> a in accounts && !a.deleted && a.active
  {
    Filter(VisibleAccounts(accounts), IsActive)
  }

  /** visibleAccounts.filter(a => !a.active) */
  function InactiveAccounts(accounts: seq<Account>): (r: seq<Account>)
    ensures forall a :: a in r <==> a in accounts && !a.deleted && !a.active
  {
    Filter(VisibleAccounts(accounts), IsInactive)
  }

  /** accounts.filter(a => a.active && !a.deleted): the accounts the new-record
      form offers. */
  function SelectableAccounts(accounts: seq<Account>): (r: seq<Account>)
    ensures forall a :: a in r <==> a in accounts && a.active && !a.deleted
  {
    Filter(accounts, IsSelectable)
  }

  /** The account screen's active list is exactly the new-record form's list,
      in the same order, and active and inactive lists split the visible one. */
  lemma AccountListsAgree(accounts: seq<Account>)
    ensures ActiveAccounts(accounts) == SelectableAccounts(accounts)
    ensures |ActiveAccounts(accounts)| + |InactiveAccounts(accounts)| == |VisibleAccounts(accounts)|
  {
    FilterFilter(accounts, IsVisible, IsActive, IsSelectable);
    FilterComplement(VisibleAccounts(accounts), IsActive, IsInactive);
  }

  /** A soft-deleted account leaves every listing. */
  lemma DeleteAccountHides(accounts: seq<Account>, id: Id)
    ensures forall a :: a in VisibleAccounts(DeleteAccount(accounts, id)) ==> a.id != id
    ensures forall a :: a in SelectableAccounts(DeleteAccount(accounts, id)) ==> a.id != id
  {
    var r := DeleteAccount(accounts, id);
    forall a | a in r && a.id == id ensures a.deleted {
      var k :| 0 <= k < |r| && r[k] == a;
    }
  }

  /** JavaScript's String.prototype.trim white space: WhiteSpace and
      LineTerminator of the ECMAScript grammar. */
  predicate IsJsSpace(c: char)
  {
    || c == ' ' || c == '\t' || c == '\n' || c == '\r'
    || c == '\U{000B}' || c == '\U{000C}' || c == '\U{00A0}' || c == '\U{1680}'
    || ('\U{2000}' <= c <= '\U{200A}')
    || c == '\U{2028}' || c == '\U{2029}' || c == '\U{202F}' || c == '\U{205F}'
    || c == '\U{3000}' || c == '\U{FEFF}'
  }

  function TrimStart(s: string): (r: string)
    ensures |r| <= |s| && r == s[|s| - |r|..]
    ensures r != [] ==> !IsJsSpace(r[0])
    ensures forall i :: 0 <= i < |s| - |r| ==> IsJsSpace(s[i])
  {
    if s != [] && IsJsSpace(s[0]) then
      var t := TrimStart(s[1..]);
      assert forall i :: 0 < i < |s| ==> s[i] == s[1..][i - 1];
      t
    else s
  }

  function TrimEnd(s: string): (r: string)
    ensures |r| <= |s| && r == s[..|r|]
    ensures r != [] ==> !IsJsSpace(r[|r| - 1])
    ensures forall i :: |r| <= i < |s| ==> IsJsSpace(s[i])
  {
    if s != [] && IsJsSpace(s[|s| - 1]) then TrimEnd(s[..|s| - 1]) else s
  }

  /** name.trim() */
  function Trim(s: string): (r: string)
    ensures |r| <= |s|
    ensures r != [] ==> !IsJsSpace(r[0]) && !IsJsSpace(r[|r| - 1])
  {
    TrimEnd(TrimStart(s))
  }

  /** A name is refused exactly when it is white space only (or empty). */
  lemma TrimEmptyIffBlank(s: string)
    ensures Trim(s) == [] <==> forall i :: 0 <= i < |s| ==> IsJsSpace(s[i])
  {
    var t := TrimStart(s);
    if t != [] {
      assert t[0] == s[|s| - |t|];
    }
  }

  datatype NameError = BlankName

  /** The new-account form's submit: a blank name adds nothing; otherwise the
      account is added under the name as typed. */
  function SubmitNewAccount(accounts: seq<Account>, name: string, category: string, freshId: Id)
    : (r: Result<seq<Account>, NameError>)
    ensures r.Err? <==> forall i :: 0 <= i < |name| ==> IsJsSpace(name[i])
    ensures r.Ok? ==> r.value == AddAccount(accounts, name, category, freshId)
  {
    TrimEmptyIffBlank(name);
    if Trim(name) == [] then Err(BlankName) else Ok(AddAccount(accounts, name, category, freshId))
  }
}
