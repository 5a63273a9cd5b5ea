/** The tracker's data: accounts, dated balance snapshots ("records") and the
    plain JavaScript objects that hold a record's balances and a form's
    inputs. */
module Dataset {

  datatype Option<T> = None | Some(value: T)

  datatype Result<T, E> = Ok(value: T) | Err(error: E)

  /** A calendar date, written YYYYMMDD. The source stores ISO "YYYY-MM-DD"
      strings, whose string order and equality are those of these numbers. */
  type Date = int

  /** Account ids ("acc_1", "acc_<time>_<random>"). */
  type Id = string

  /** One own property of a plain JavaScript object. */
  datatype Prop<V> = Prop(key: Id, val: V)

  /** A plain JavaScript object as Object.entries sees it: its own properties
      in insertion order. */
  type Obj<V> = seq<Prop<V>>

  ghost predicate HasKey<V>(o: Obj<V>, k: Id)
  {
    exists i :: 0 <= i < |o| && o[i].key == k
  }

  ghost predicate DistinctKeys<V>(o: Obj<V>)
  {
    forall i, j :: 0 <= i < j < |o| ==> o[i].key != o[j].key
  }

  /** o[k], None standing for undefined. */
  function Get<V>(o: Obj<V>, k: Id): (r: Option<V>)
    ensures r.None? <==> !HasKey(o, k)
    ensures r.Some? ==> Prop(k, r.value) in o
    ensures DistinctKeys(o) ==> forall i :: 0 <= i < |o| && o[i].key == k ==> r == Some(o[i].val)
  {
    if o == [] then None
    else if o[0].key == k then Some(o[0].val)
    else
      assert forall i :: 0 < i < |o| ==> o[i] == o[1..][i - 1];
      Get(o[1..], k)
  }

  /** The assignment o[k] = v: an existing property keeps its place, a new
      one is added last. */
  function Put<V>(o: Obj<V>, k: Id, v: V): (r: Obj<V>)
    ensures !HasKey(o, k) ==> r == o + [Prop(k, v)]
    ensures HasKey(o, k) ==> |r| == |o| && forall i :: 0 <= i < |o| ==> r[i].key == o[i].key
  {
    if o == [] then [Prop(k, v)]
    else if o[0].key == k then [Prop(k, v)] + o[1..]
    else
      assert forall i :: 0 < i < |o| ==> o[i] == o[1..][i - 1];
      var t := Put(o[1..], k, v);
      var r := [o[0]] + t;
      assert r[1..] == t;
      r
  }

  /** After o[k] = v, o[k] reads v. */
  lemma {:induction false} PutGet<V>(o: Obj<V>, k: Id, v: V)
    ensures Get(Put(o, k, v), k) == Some(v)
  {
    if o != [] && o[0].key != k {
      PutGet(o[1..], k, v);
      assert Put(o, k, v)[1..] == Put(o[1..], k, v);
    }
  }

  /** o[k] = v leaves every other property as it was. */
  lemma {:induction false} PutOthers<V>(o: Obj<V>, k: Id, v: V, j: Id)
    requires j != k
    ensures Get(Put(o, k, v), j) == Get(o, j)
  {
    if o != [] && o[0].key != k {
      PutOthers(o[1..], k, v, j);
      assert Put(o, k, v)[1..] == Put(o[1..], k, v);
    }
  }

  /** o[k] = v never creates a repeated key. */
  lemma PutDistinct<V>(o: Obj<V>, k: Id, v: V)
    requires DistinctKeys(o)
    ensures DistinctKeys(Put(o, k, v))
  {
    var r := Put(o, k, v);
    if !HasKey(o, k) {
      forall i, j | 0 <= i < j < |r| ensures r[i].key != r[j].key {
        if j == |o| {
          assert r[i].key == o[i].key;
        }
      }
    }
  }

  /** An account. The seeded accounts have no `deleted` property, which reads
      as false. */
  datatype Account = Account(id: Id, name: string, category: string, active: bool, deleted: bool)

  /** A record's balances: account id to amount. */
  type Assets = Obj<int>

  /** A dated snapshot of balances. */
  datatype Record = Record(date: Date, assets: Assets)

  /** The whole persisted state. */
  datatype Data = Data(accounts: seq<Account>, records: seq<Record>)

  /** The data used when nothing was saved before: three bank accounts
      (郵局, 台新銀行, 中國信託) and no records. */
  const DefaultData: Data :=
    Data([Account("acc_1", "郵局", "銀行", true, false),
          Account("acc_2", "台新銀行", "銀行", true, false),
          Account("acc_3", "中國信託", "銀行", true, false)],
         [])

  /** The ten-colour chart palette. */
  const COLORS: seq<string> :=
    ["#10b981", "#3b82f6", "#f59e0b", "#ef4444", "#8b5cf6",
     "#06b6d4", "#84cc16", "#f97316", "#ec4899", "#14b8a6"]

  ghost predicate DistinctIds(accounts: seq<Account>)
  {
    forall i, j :: 0 <= i < j < |accounts| ==> accounts[i].id != accounts[j].id
  }

  ghost predicate DistinctDates(rs: seq<Record>)
  {
    forall i, j :: 0 <= i < j < |rs| ==> rs[i].date != rs[j].date
  }

  ghost predicate HasDate(rs: seq<Record>, d: Date)
  {
    exists k :: 0 <= k < |rs| && rs[k].date == d
  }

  /** A record as the forms save it: at least one balance, all positive. */
  ghost predicate ValidAssets(a: Assets)
  {
    a != [] && DistinctKeys(a) && forall i :: 0 <= i < |a| ==> a[i].val > 0
  }

  function DateOf(r: Record): Date { r.date }

  function OnDate(d: Date): Record -> bool { (r: Record) => r.date == d }

  function NotOnDate(d: Date): Record -> bool { (r: Record) => r.date != d }

  /** The number of records dated d. */
  function CountDate(rs: seq<Record>, d: Date): (n: nat)
    ensures n <= |rs|
    ensures n == 0 <==> !HasDate(rs, d)
  {
    if rs == [] then 0
    else
      assert forall k :: 0 < k < |rs| ==> rs[k] == rs[1..][k - 1];
      (if rs[0].date == d then 1 else 0) + CountDate(rs[1..], d)
  }

  /** calculateTotal: the sum of a record's balances. (`val || 0` leaves
      every integer as it is: 0 becomes 0 and any other integer is kept.)
      Balances that are never negative add up to a non-negative total, and
      positive ones to a positive total exactly when there is one. */
  function Total(a: Assets): (r: int)
    ensures (forall k :: 0 <= k < |a| ==> a[k].val >= 0) ==> r >= 0
    ensures (forall k :: 0 <= k < |a| ==> a[k].val > 0) ==> (r > 0 <==> a != [])
  {
    if a == [] then 0 else a[0].val + Total(a[1..])
  }

  /** The total of balances written one after the other is the sum of the
      two totals. */
  lemma {:induction false} TotalAppend(a: Assets, b: Assets)
    ensures Total(a + b) == Total(a) + Total(b)
  {
    if a != [] {
      assert (a + b)[1..] == a[1..] + b;
      TotalAppend(a[1..], b);
    } else {
      assert a + b == b;
    }
  }
}
