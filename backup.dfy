/** The backup file: the shape check handleImport makes on a parsed file
    before it offers to replace the data, and the export it should accept. */
module Backup {
  import opened Dataset

  /** A parsed JSON value. Numbers are integers here; object properties are
      in the order JSON.parse creates them, one per key. */
  datatype Json =
    | JNull
    | JBool(b: bool)
    | JNumber(n: int)
    | JString(s: string)
    | JArray(items: seq<Json>)
    | JObject(props: Obj<Json>)

  /** Why an import is refused: reading a property of null throws, and each
      of the two arrays may be missing or not be an array. */
  datatype ImportError = NotAnObject | MissingAccounts | MissingRecords

  /** What the confirmation dialog reports. */
  datatype Counts = Counts(accounts: nat, records: nat)

  /** v[k]: only objects have the two properties the check reads. */
  function Member(v: Json, k: Id): Option<Json>
  {
    if v.JObject? then Get(v.props, k) else None
  }

  /** !x || !Array.isArray(x) is false exactly for arrays (an empty array is
      truthy). */
  predicate IsArray(x: Option<Json>)
  {
    x.Some? && x.value.JArray?
  }

  /** The structural check of handleImport, with the counts it shows. */
  function CheckImport(v: Json): (r: Result<Counts, ImportError>)
    ensures r.Ok? <==> v.JObject? && IsArray(Get(v.props, "accounts")) && IsArray(Get(v.props, "records"))
    ensures r == Err(NotAnObject) <==> v == JNull
    ensures r == Err(MissingAccounts) <==> v != JNull && !IsArray(Member(v, "accounts"))
    ensures r == Err(MissingRecords) <==> IsArray(Member(v, "accounts")) && !IsArray(Member(v, "records"))
    ensures r.Ok? ==> r.value == Counts(|Member(v, "accounts").value.items|, |Member(v, "records").value.items|)
  {
    if v == JNull then Err(NotAnObject)
    else if !IsArray(Member(v, "accounts")) then Err(MissingAccounts)
    else if !IsArray(Member(v, "records")) then Err(MissingRecords)
    else Ok(Counts(|Member(v, "accounts").value.items|, |Member(v, "records").value.items|))
  }

  function EncodeAccount(a: Account): Json
  {
    JObject([Prop("id", JString(a.id)), Prop("name", JString(a.name)), Prop("category", JString(a.category)),
             Prop("active", JBool(a.active)), Prop("deleted", JBool(a.deleted))])
  }

  function EncodeAssets(a: Assets): Obj<Json>
  {
    seq(|a|, k requires 0 <= k < |a| => Prop(a[k].key, JNumber(a[k].val)))
  }

  function EncodeRecord(r: Record): Json
  {
    JObject([Prop("date", JNumber(r.date)), Prop("assets", JObject(EncodeAssets(r.assets)))])
  }

  /** handleExport's JSON.stringify(allData), as the value it writes, with
      two differences from the file the application produces: dates are
      written as the numbers this model uses (the application writes ISO
      date strings), and `deleted` is always written (the seeded accounts
      of defaultData have no `deleted` property, so the application omits
      it for them until they are deleted). */
  function Encode(d: Data): Json
  {
    JObject([Prop("accounts", JArray(seq(|d.accounts|, k requires 0 <= k < |d.accounts| => EncodeAccount(d.accounts[k])))),
             Prop("records", JArray(seq(|d.records|, k requires 0 <= k < |d.records| => EncodeRecord(d.records[k]))))])
  }

  /** An exported backup passes the import check and reports the numbers of
      accounts and records it holds. */
  lemma ExportPassesImport(d: Data)
    ensures CheckImport(Encode(d)) == Ok(Counts(|d.accounts|, |d.records|))
  {
    var props := Encode(d).props;
    assert props[0].key == "accounts";
    assert props[1].key == "records" && props[1].key != "accounts";
  }

  /** The check only looks at the two arrays' presence: any array contents
      pass, an object lacking either array does not. */
  lemma ImportIgnoresContents(accounts: seq<Json>, records: seq<Json>)
    ensures CheckImport(JObject([Prop("accounts", JArray(accounts)), Prop("records", JArray(records))])).Ok?
    ensures CheckImport(JObject([Prop("accounts", JArray(accounts))])) == Err(MissingRecords)
    ensures CheckImport(JObject([Prop("records", JArray(records))])) == Err(MissingAccounts)
    ensures CheckImport(JArray([JObject([Prop("accounts", JArray(accounts)), Prop("records", JArray(records))])])) == Err(MissingAccounts)
  {
    var both: Obj<Json> := [Prop("accounts", JArray(accounts)), Prop("records", JArray(records))];
    assert both[1].key != "accounts";
    var recs: Obj<Json> := [Prop("records", JArray(records))];
    assert recs[0].key != "accounts";
    var accs: Obj<Json> := [Prop("accounts", JArray(accounts))];
    assert accs[0].key != "records";
  }
}
