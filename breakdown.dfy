/** The dashboard's per-account views: the breakdown of the latest record
    (getLatestPieData), its legend sorted by amount (getLegendData) and the
    history of the account picked in the legend (getAccountHistoryData). */
module Breakdown {
  import opened Seqs
  import opened Dataset
  import Series
  import AccountRegistry

  function NegDate(r: Record): int { -r.date }

  /** [...records].sort((a, b) => b.date - a.date)[0]: a record with the
      latest date, the first such in the records' order. */
  function LatestRecord(rs: seq<Record>): (r: Record)
    requires rs != []
    ensures r in rs
    ensures forall x :: x in rs ==> x.date <= r.date
  {
    var s := SortBy(rs, NegDate);
    assert s[0] in multiset(rs);
    forall x | x in rs ensures x.date <= s[0].date {
      assert x in multiset(s);
    }
    s[0]
  }

  /** Ties on the latest date go to the record that comes first. */
  lemma LatestIsFirstOfLatestDate(rs: seq<Record>)
    requires rs != []
    ensures exists i :: (0 <= i < |rs| && rs[i] == LatestRecord(rs) &&
                         forall j :: 0 <= j < i ==> rs[j].date < rs[i].date)
  {
    var i := SortedHeadIsFirstOfItsKey(rs, NegDate);
    var latest := LatestRecord(rs);
    assert latest == SortBy(rs, NegDate)[0];
    forall j | 0 <= j < i ensures rs[j].date < latest.date {
      assert NegDate(rs[j]) != NegDate(latest);
      assert rs[j] in rs;
    }
    assert 0 <= i < |rs| && rs[i] == latest;
  }

  function KeyIs<T>(key: T -> int, k: int): T -> bool { (y: T) => key(y) == k }

  /** The first element of a stable sort is the first element of s with the
      smallest key. */
  lemma SortedHeadIsFirstOfItsKey<T>(s: seq<T>, key: T -> int) returns (i: int)
    requires s != []
    ensures 0 <= i < |s| && s[i] == SortBy(s, key)[0]
    ensures forall j :: 0 <= j < i ==> key(s[j]) != key(s[i])
  {
    var sorted := SortBy(s, key);
    var p := KeyIs(key, key(sorted[0]));
    SortByStable(s, key, key(sorted[0]), p);
    assert Filter(sorted, p) == [sorted[0]] + Filter(sorted[1..], p);
    i := FilterHead(s, p);
  }

  /** The first element a filter keeps is the first element satisfying it. */
  lemma {:induction false} FilterHead<T>(s: seq<T>, p: T -> bool) returns (i: int)
    requires Filter(s, p) != []
    ensures 0 <= i < |s| && s[i] == Filter(s, p)[0] && p(s[i])
    ensures forall j :: 0 <= j < i ==> !p(s[j])
  {
    if p(s[0]) {
      i := 0;
    } else {
      var t := FilterHead(s[1..], p);
      i := t + 1;
      assert s[i] == s[1..][t];
      forall j | 0 < j < i ensures !p(s[j]) {
        assert s[j] == s[1..][j - 1];
      }
    }
  }

  /** Object.fromEntries(accounts.map(a => [a.id, a]))[id]: the last account
      with that id. */
  function ResolveAccount(accounts: seq<Account>, id: Id): (r: Option<Account>)
    ensures r.None? <==> forall a :: a in accounts ==> a.id != id
    ensures r.Some? ==> exists i :: (0 <= i < |accounts| && accounts[i] == r.value && r.value.id == id &&
                                     forall j :: i < j < |accounts| ==> accounts[j].id != id)
  {
    if accounts == [] then None
    else
      var n := |accounts| - 1;
      if accounts[n].id == id then Some(accounts[n])
      else
        var r := ResolveAccount(accounts[..n], id);
        assert forall a :: a in accounts ==> a in accounts[..n] || a == accounts[n];
        r
  }

  /** One slice of the breakdown. */
  datatype PieItem = PieItem(name: string, value: int, category: string)

  function IsPositiveEntry(p: Prop<int>): bool { p.val > 0 }

  /** A balance as a slice: the account's name and category, or the raw id
      and "其他" for an id no account has. */
  function Slice(accounts: seq<Account>, p: Prop<int>): (item: PieItem)
    ensures item.value == p.val
  {
    match ResolveAccount(accounts, p.key)
    case Some(a) => PieItem(a.name, p.val, a.category)
    case None => PieItem(p.key, p.val, "其他")
  }

  /** The positive balances of the latest record, in its entry order. */
  function LatestEntries(rs: seq<Record>): seq<Prop<int>>
  {
    if rs == [] then [] else Filter(LatestRecord(rs).assets, IsPositiveEntry)
  }

  /** getLatestPieData. */
  function PieData(accounts: seq<Account>, rs: seq<Record>): seq<PieItem>
  {
    var entries := LatestEntries(rs);
    seq(|entries|, k requires 0 <= k < |entries| => Slice(accounts, entries[k]))
  }

  /** No records, no slices; with saved records (at least one positive
      balance each), at least one slice. */
  lemma PieEmptyIff(accounts: seq<Account>, rs: seq<Record>)
    requires forall r :: r in rs ==> ValidAssets(r.assets)
    ensures PieData(accounts, rs) == [] <==> rs == []
  {
    if rs != [] {
      var a := LatestRecord(rs).assets;
      assert a[0] in Filter(a, IsPositiveEntry);
    }
  }

  /** The breakdown lists exactly the latest record's positive balances, in
      its entry order, and every slice carries its account's name and
      category or the fallbacks. */
  lemma PieDataExact(accounts: seq<Account>, rs: seq<Record>)
    requires rs != []
    ensures var a := LatestRecord(rs).assets;
      var ix := KeptIndices(a, IsPositiveEntry);
      var r := PieData(accounts, rs);
      && |r| == |ix|
      && (forall i :: 0 <= i < |a| ==> (a[i].val > 0 <==> i in ix))
      && (forall k :: 0 <= k < |r| ==> (
            && ix[k] < |a| && r[k].value == a[ix[k]].val
            && (forall acc :: acc in accounts && acc.id == a[ix[k]].key ==> r[k].name == ResolveAccount(accounts, acc.id).value.name)
            && (forall acc :: acc in accounts && acc.id == a[ix[k]].key ==> r[k].category == ResolveAccount(accounts, acc.id).value.category)
            && ((forall acc :: acc in accounts ==> acc.id != a[ix[k]].key) ==> r[k].name == a[ix[k]].key && r[k].category == "其他")))
      && (forall k, l :: 0 <= k < l < |r| ==> ix[k] < ix[l])
  {
    var a := LatestRecord(rs).assets;
    FilterKeepsExactly(a, IsPositiveEntry);
  }

  /** Toggling or deleting an account never changes the breakdown: it
      ignores whether an account is active or deleted. */
  lemma PieIgnoresStatus(accounts: seq<Account>, rs: seq<Record>, id: Id)
    ensures PieData(AccountRegistry.ToggleAccount(accounts, id), rs) == PieData(accounts, rs)
    ensures PieData(AccountRegistry.DeleteAccount(accounts, id), rs) == PieData(accounts, rs)
  {
    var e := LatestEntries(rs);
    forall k | 0 <= k < |e|
      ensures Slice(AccountRegistry.ToggleAccount(accounts, id), e[k]) == Slice(accounts, e[k])
      ensures Slice(AccountRegistry.DeleteAccount(accounts, id), e[k]) == Slice(accounts, e[k])
    {
      ResolveIgnoresStatus(accounts, id, e[k].key);
    }
  }

  /** Resolution finds the same name and category after a toggle or a
      delete. */
  lemma {:induction false} ResolveIgnoresStatus(accounts: seq<Account>, id: Id, key: Id)
    ensures var before := ResolveAccount(accounts, key);
      var t := ResolveAccount(AccountRegistry.ToggleAccount(accounts, id), key);
      var d := ResolveAccount(AccountRegistry.DeleteAccount(accounts, id), key);
      && t.Some? == before.Some? && d.Some? == before.Some?
      && (before.Some? ==> t.value.name == before.value.name && t.value.category == before.value.category)
      && (before.Some? ==> d.value.name == before.value.name && d.value.category == before.value.category)
  {
    if accounts != [] {
      var n := |accounts| - 1;
      var ta := AccountRegistry.ToggleAccount(accounts, id);
      var da := AccountRegistry.DeleteAccount(accounts, id);
      assert ta[..n] == AccountRegistry.ToggleAccount(accounts[..n], id);
      assert da[..n] == AccountRegistry.DeleteAccount(accounts[..n], id);
      ResolveIgnoresStatus(accounts[..n], id, key);
    }
  }

  /** pieData.reduce((sum, d) => sum + d.value, 0) */
  function PieTotal(pie: seq<PieItem>): int
  {
    if pie == [] then 0 else PieTotal(pie[..|pie| - 1]) + pie[|pie| - 1].value
  }

  /** For a saved record the slices add up to the record's total, which is
      the latest total of the curve. */
  lemma PieTotalIsLatestTotal(accounts: seq<Account>, rs: seq<Record>)
    requires rs != [] && ValidAssets(LatestRecord(rs).assets)
    ensures PieTotal(PieData(accounts, rs)) == Total(LatestRecord(rs).assets)
  {
    var a := LatestRecord(rs).assets;
    FilterAll(a, IsPositiveEntry);
    PieTotalOfEntries(accounts, a);
  }

  lemma {:induction false} PieTotalOfEntries(accounts: seq<Account>, a: Assets)
    ensures PieTotal(seq(|a|, k requires 0 <= k < |a| => Slice(accounts, a[k]))) == Total(a)
  {
    if a != [] {
      var n := |a| - 1;
      var pie := seq(|a|, k requires 0 <= k < |a| => Slice(accounts, a[k]));
      PieTotalOfEntries(accounts, a[..n]);
      assert pie[..n] == seq(n, k requires 0 <= k < n => Slice(accounts, a[..n][k]));
      TotalLast(a);
    }
  }

  /** calculateTotal adds up from the front; adding the last value last gives
      the same sum. */
  lemma {:induction false} TotalLast(a: Assets)
    requires a != []
    ensures Total(a) == Total(a[..|a| - 1]) + a[|a| - 1].val
  {
    if |a| > 1 {
      TotalLast(a[1..]);
      assert a[1..][..|a| - 2] == a[..|a| - 1][1..];
    }
  }

  /** With one record per date the latest record is the last point of the
      curve, so the latest total is its total. */
  lemma LatestRecordIsLastPoint(rs: seq<Record>)
    requires rs != [] && DistinctDates(rs)
    ensures Series.ChartData(rs)[|rs| - 1] == Series.PointOf(LatestRecord(rs))
    ensures Series.LatestTotal(Series.ChartData(rs)) == Total(LatestRecord(rs).assets)
  {
    var latest := LatestRecord(rs);
    var c := Series.ChartData(rs);
    LatestIsLastSorted(rs);
    assert |c| == |rs|;
    assert c[|rs| - 1] == Series.PointOf(latest);
    assert Series.PointOf(latest).total == Total(latest.assets);
  }

  /** With one record per date, the latest record is the last one in
      ascending order. */
  lemma LatestIsLastSorted(rs: seq<Record>)
    requires rs != [] && DistinctDates(rs)
    ensures Series.SortByDate(rs)[|rs| - 1] == LatestRecord(rs)
  {
    LastIsTheLatest(rs, Series.SortByDate(rs), LatestRecord(rs));
  }

  lemma LastIsTheLatest(rs: seq<Record>, s: seq<Record>, m: Record)
    requires DistinctDates(rs) && |s| == |rs| > 0 && multiset(s) == multiset(rs)
    requires forall i, j :: 0 <= i < j < |s| ==> s[i].date <= s[j].date
    requires m in rs && forall x :: x in rs ==> x.date <= m.date
    ensures s[|s| - 1] == m
  {
    var last := s[|s| - 1];
    assert last in multiset(rs);
    assert m.date <= last.date by {
      assert m in multiset(s);
      var k :| 0 <= k < |s| && s[k] == m;
    }
    var i :| 0 <= i < |rs| && rs[i] == last;
    var j :| 0 <= j < |rs| && rs[j] == m;
  }

  /** One legend row. accountId is None where the source leaves it
      undefined. */
  datatype LegendItem = LegendItem(name: string, value: int, percent: real, color: string, accountId: Option<Id>)

  /** accounts.find(a => a.name === name)?.id: the first account of that
      name, deleted or not. */
  function FindIdByName(accounts: seq<Account>, name: string): (r: Option<Id>)
    ensures r.None? <==> forall a :: a in accounts ==> a.name != name
    ensures r.Some? ==> exists i :: (0 <= i < |accounts| && accounts[i].name == name && accounts[i].id == r.value &&
                                     forall j :: 0 <= j < i ==> accounts[j].name != name)
  {
    if accounts == [] then None
    else if accounts[0].name == name then Some(accounts[0].id)
    else
      var r := FindIdByName(accounts[1..], name);
      assert forall j :: 0 < j < |accounts| ==> accounts[j] == accounts[1..][j - 1];
      r
  }

  /** (item.value / total) * 100, or 0 when the total is not positive. */
  function Percent(value: int, total: int): real
  {
    if total > 0 then (value as real / total as real) * 100.0 else 0.0
  }

  /** The legend rows before sorting: row i takes colour i of the palette
      (cycling) and the id found by its slice's name. */
  function UnsortedLegend(accounts: seq<Account>, pie: seq<PieItem>): seq<LegendItem>
  {
    var total := PieTotal(pie);
    seq(|pie|, i requires 0 <= i < |pie| =>
      LegendItem(pie[i].name, pie[i].value, Percent(pie[i].value, total), COLORS[i % |COLORS|], FindIdByName(accounts, pie[i].name)))
  }

  function NegValue(item: LegendItem): int { -item.value }

  function HasValue(v: int): LegendItem -> bool { (item: LegendItem) => item.value == v }

  /** getLegendData: the rows sorted by amount, largest first. */
  function LegendData(accounts: seq<Account>, pie: seq<PieItem>): seq<LegendItem>
  {
    if pie == [] then [] else SortBy(UnsortedLegend(accounts, pie), NegValue)
  }

  /** The legend has a row per slice, in non-increasing order of amount, and
      is a rearrangement of the unsorted rows. */
  lemma LegendSorted(accounts: seq<Account>, pie: seq<PieItem>)
    ensures var r := LegendData(accounts, pie);
      && |r| == |pie|
      && multiset(r) == multiset(UnsortedLegend(accounts, pie))
      && forall i, j :: 0 <= i < j < |r| ==> r[i].value >= r[j].value
  {
    if pie != [] {
      var r := LegendData(accounts, pie);
      forall i, j | 0 <= i < j < |r| ensures r[i].value >= r[j].value {
        assert NegValue(r[i]) <= NegValue(r[j]);
      }
    }
  }

  /** Rows of equal amount keep the breakdown's order. */
  lemma LegendStable(accounts: seq<Account>, pie: seq<PieItem>, v: int)
    ensures Filter(LegendData(accounts, pie), HasValue(v)) == Filter(UnsortedLegend(accounts, pie), HasValue(v))
  {
    if pie != [] {
      SortByStable(UnsortedLegend(accounts, pie), NegValue, -v, HasValue(v));
    }
  }

  /** Sorting does not recolour: every row keeps the colour of its slice's
      position in the unsorted breakdown. */
  lemma LegendColours(accounts: seq<Account>, pie: seq<PieItem>)
    ensures forall item :: item in LegendData(accounts, pie) ==>
      exists i :: 0 <= i < |pie| && item.color == COLORS[i % 10] &&
        item.name == pie[i].name && item.value == pie[i].value
  {
    var u := UnsortedLegend(accounts, pie);
    LegendSorted(accounts, pie);
    forall item | item in LegendData(accounts, pie)
      ensures exists i :: 0 <= i < |pie| && item.color == COLORS[i % 10] && item.name == pie[i].name && item.value == pie[i].value
    {
      assert item in multiset(u);
      var i :| 0 <= i < |u| && u[i] == item;
    }
  }

  /** The sum of the rows' percentages. */
  function PercentSum(items: seq<LegendItem>): real
  {
    if items == [] then 0.0 else PercentSum(items[..|items| - 1]) + items[|items| - 1].percent
  }

  /** With a positive total the percentages add up to 100 (in exact
      arithmetic; the source rounds each for display). */
  lemma LegendPercentsSumTo100(accounts: seq<Account>, pie: seq<PieItem>)
    requires PieTotal(pie) > 0
    ensures PercentSum(LegendData(accounts, pie)) == 100.0
  {
    UnsortedPercentsSumTo100(accounts, pie);
    LegendSorted(accounts, pie);
    PercentSumPermutation(LegendData(accounts, pie), UnsortedLegend(accounts, pie));
  }

  lemma UnsortedPercentsSumTo100(accounts: seq<Account>, pie: seq<PieItem>)
    requires PieTotal(pie) > 0
    ensures PercentSum(UnsortedLegend(accounts, pie)) == 100.0
  {
    var u := UnsortedLegend(accounts, pie);
    var t := PieTotal(pie) as real;
    UnsortedPercentSum(accounts, pie, |pie|);
    assert u[..|pie|] == u;
    assert pie[..|pie|] == pie;
    WholeIsHundred(t);
  }

  lemma WholeIsHundred(t: real)
    requires t > 0.0
    ensures (t / t) * 100.0 == 100.0
  {
  }

  lemma {:induction false} UnsortedPercentSum(accounts: seq<Account>, pie: seq<PieItem>, n: nat)
    requires PieTotal(pie) > 0 && n <= |pie|
    ensures PercentSum(UnsortedLegend(accounts, pie)[..n]) == (PieTotal(pie[..n]) as real / PieTotal(pie) as real) * 100.0
  {
    var u := UnsortedLegend(accounts, pie);
    var t := PieTotal(pie) as real;
    if n > 0 {
      UnsortedPercentSum(accounts, pie, n - 1);
      assert u[..n][..n - 1] == u[..n - 1];
      assert pie[..n][..n - 1] == pie[..n - 1];
      var a := PieTotal(pie[..n - 1]) as real;
      var b := pie[n - 1].value as real;
      assert PercentSum(u[..n]) == PercentSum(u[..n - 1]) + u[n - 1].percent;
      assert u[n - 1].percent == (b / t) * 100.0;
      assert PieTotal(pie[..n]) as real == a + b;
      PercentAdd(a, b, t);
    } else {
      assert pie[..0] == [];
    }
  }

  lemma PercentAdd(a: real, b: real, t: real)
    requires t > 0.0
    ensures (a / t) * 100.0 + (b / t) * 100.0 == ((a + b) / t) * 100.0
  {
    assert a / t + b / t == (a + b) / t;
  }

  /** The percentage sum does not depend on the rows' order. */
  lemma {:induction false} PercentSumPermutation(s: seq<LegendItem>, t: seq<LegendItem>)
    requires multiset(s) == multiset(t)
    ensures PercentSum(s) == PercentSum(t)
    decreases |s|
  {
    if s != [] {
      var n := |s| - 1;
      var x := s[n];
      assert x in multiset(t);
      var i :| 0 <= i < |t| && t[i] == x;
      var rest := t[..i] + t[i + 1..];
      assert t == rest[..i] + [x] + rest[i..];
      assert s == s[..n] + [x];
      assert multiset(s) == multiset(s[..n]) + multiset{x};
      assert rest == rest[..i] + rest[i..];
      assert multiset(t) == multiset(rest) + multiset{x};
      assert multiset(s[..n]) == multiset(s) - multiset{x};
      assert multiset(rest) == multiset(t) - multiset{x};
      PercentSumPermutation(s[..n], rest);
      PercentSumInsert(rest, x, i);
    } else {
      assert |t| == |multiset(t)|;
    }
  }

  /** Putting an item anywhere adds its percentage once. */
  lemma {:induction false} PercentSumInsert(s: seq<LegendItem>, x: LegendItem, i: nat)
    requires i <= |s|
    ensures PercentSum(s[..i] + [x] + s[i..]) == PercentSum(s) + x.percent
    decreases |s|
  {
    if i < |s| {
      var n := |s| - 1;
      PercentSumInsert(s[..n], x, i);
      assert s[..n][..i] == s[..i];
      var t := s[..i] + [x] + s[i..];
      assert t[..|t| - 1] == s[..n][..i] + [x] + s[..n][i..];
    } else {
      assert s[..i] + [x] + s[i..] == s + [x];
      assert (s + [x])[..|s|] == s;
    }
  }

  /** The history point of one record. */
  datatype HistoryPoint = HistoryPoint(date: Date, value: int)

  function HistoryDate(p: HistoryPoint): Date { p.date }

  /** record.assets[selectedAccount.accountId] || 0: an undefined accountId
      reads the property named "undefined". */
  function HistoryValue(assets: Assets, accountId: Option<Id>): int
  {
    var key := if accountId.Some? then accountId.value else "undefined";
    match Get(assets, key)
    case Some(v) => v
    case None => 0
  }

  /** The selected account's balance in every record, in ascending date
      order, before the window is applied. */
  function HistorySeries(rs: seq<Record>, accountId: Option<Id>): (r: seq<HistoryPoint>)
    ensures |r| == |rs|
  {
    var s := Series.SortByDate(rs);
    seq(|s|, k requires 0 <= k < |s| => HistoryPoint(s[k].date, HistoryValue(s[k].assets, accountId)))
  }

  /** getAccountHistoryData: nothing until a legend row is selected, then
      the selected account's series in the dashboard's window. */
  function AccountHistory(rs: seq<Record>, selected: Option<LegendItem>, range: string, cutoffs: Series.Cutoffs)
    : seq<HistoryPoint>
  {
    if selected.None? then []
    else Series.FilterByWindow(range, HistorySeries(rs, selected.value.accountId), HistoryDate, cutoffs)
  }

  /** The history has one point per record, dated like the curve's points,
      holding the account's balance in that record or 0. */
  lemma HistoryFollowsChart(rs: seq<Record>, id: Id)
    ensures var h := HistorySeries(rs, Some(id));
      var c := Series.ChartData(rs);
      && |h| == |c|
      && (forall k :: 0 <= k < |h| ==> h[k].date == c[k].date)
      && (forall k :: 0 <= k < |h| ==> h[k].value == (if Get(c[k].assets, id).Some? then Get(c[k].assets, id).value else 0))
      && (forall i, j :: 0 <= i < j < |h| ==> h[i].date <= h[j].date)
  {
  }

  /** The selected account's history is the series in the chosen window:
      with "all" the whole series, with a window the points on or after its
      cutoff. */
  lemma HistoryInWindow(rs: seq<Record>, item: LegendItem, range: string, cutoffs: Series.Cutoffs)
    ensures var h := AccountHistory(rs, Some(item), range, cutoffs);
      var all := HistorySeries(rs, item.accountId);
      && (!Series.IsWindow(range) ==> h == all)
      && (Series.IsWindow(range) ==> forall p :: p in h <==> p in all && p.date >= Series.CutoffOf(range, cutoffs))
      && h == all[|all| - |h|..]
  {
    var all := HistorySeries(rs, item.accountId);
    if Series.IsWindow(range) {
      Series.WindowExact(range, all, HistoryDate, cutoffs);
    }
    Series.WindowIsSuffix(range, all, HistoryDate, cutoffs);
  }

  /** When the legend row's name matches no account the id is undefined and,
      since no record has a property named "undefined", every point is 0. */
  lemma UnmatchedNameHistoryIsZero(accounts: seq<Account>, pie: seq<PieItem>, k: int, rs: seq<Record>)
    requires 0 <= k < |pie|
    requires forall a :: a in accounts ==> a.name != pie[k].name
    requires forall r :: r in rs ==> !HasKey(r.assets, "undefined")
    ensures UnsortedLegend(accounts, pie)[k].accountId.None?
    ensures forall p :: p in HistorySeries(rs, UnsortedLegend(accounts, pie)[k].accountId) ==> p.value == 0
  {
    var s := Series.SortByDate(rs);
    forall i | 0 <= i < |s| ensures !HasKey(s[i].assets, "undefined") {
      assert s[i] in multiset(rs);
    }
  }

  /** The legend looks an account up by name, so two accounts with the same
      name both resolve to the first: the slice of the second account gets
      the first account's id and its history shows the first one's balances. */
  lemma LegendNameClash()
    ensures var accounts := [Account("acc_1", "Bank", "銀行", true, false), Account("acc_2", "Bank", "銀行", true, false)];
      var rs := [Record(20240101, [Prop("acc_1", 100), Prop("acc_2", 200)])];
      var pie := PieData(accounts, rs);
      var legend := UnsortedLegend(accounts, pie);
      && |pie| == 2 && pie[1].value == 200
      && legend[1].accountId == Some("acc_1")
      && HistorySeries(rs, legend[1].accountId) == [HistoryPoint(20240101, 100)]
  {
    var accounts := [Account("acc_1", "Bank", "銀行", true, false), Account("acc_2", "Bank", "銀行", true, false)];
    var rs := [Record(20240101, [Prop("acc_1", 100), Prop("acc_2", 200)])];
    var a := rs[0].assets;
    assert LatestRecord(rs) == rs[0];
    assert a[1..][1..] == [];
    assert Filter(a, IsPositiveEntry) == a;
    assert ResolveAccount(accounts, "acc_2") == Some(accounts[1]);
    assert FindIdByName(accounts, "Bank") == Some("acc_1");
    assert Series.SortByDate(rs) == rs;
    assert Get(a, "acc_1") == Some(100);
  }
}
