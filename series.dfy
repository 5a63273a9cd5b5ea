/** The dashboard's total-assets curve: calculateTotal per record, the series
    in ascending date order, the time-window filter and the headline change. */
module Series {
  import opened Seqs
  import opened Dataset

  /** One point of the curve: the record's date, its total and its balances. */
  datatype ChartPoint = ChartPoint(date: Date, total: int, assets: Assets)

  function PointOf(r: Record): ChartPoint
  {
    ChartPoint(r.date, Total(r.assets), r.assets)
  }

  function PointDate(p: ChartPoint): Date { p.date }

  /** The records in ascending date order; records of one date keep their
      order (the sort is stable). */
  function SortByDate(rs: seq<Record>): (r: seq<Record>)
    ensures |r| == |rs| && multiset(r) == multiset(rs)
    ensures forall i, j :: 0 <= i < j < |r| ==> r[i].date <= r[j].date
  {
    SortBy(rs, DateOf)
  }

  /** One point per record, in the records' order. */
  function Points(rs: seq<Record>): (ps: seq<ChartPoint>)
    ensures |ps| == |rs|
    ensures forall k :: 0 <= k < |rs| ==> ps[k] == PointOf(rs[k])
  {
    seq(|rs|, k requires 0 <= k < |rs| => PointOf(rs[k]))
  }

  /** chartData: the records sorted by date, each mapped to its point. */
  function ChartData(rs: seq<Record>): (r: seq<ChartPoint>)
    ensures |r| == |rs|
  {
    Points(SortByDate(rs))
  }

  /** chartData has one point per record, in ascending date order, each the
      point of one of the records; every record has its point. */
  lemma ChartDataShape(rs: seq<Record>)
    ensures |ChartData(rs)| == |rs|
    ensures forall i, j :: 0 <= i < j < |rs| ==> ChartData(rs)[i].date <= ChartData(rs)[j].date
    ensures forall k :: 0 <= k < |rs| ==> exists r :: r in rs && ChartData(rs)[k] == PointOf(r)
    ensures forall r :: r in rs ==> PointOf(r) in ChartData(rs)
  {
    var s := SortByDate(rs);
    forall k | 0 <= k < |rs| ensures exists r :: r in rs && ChartData(rs)[k] == PointOf(r) {
      assert s[k] in multiset(rs);
    }
    forall r | r in rs ensures PointOf(r) in ChartData(rs) {
      assert r in multiset(s);
      var k :| 0 <= k < |s| && s[k] == r;
      assert ChartData(rs)[k] == PointOf(r);
    }
  }

  /** With one record per date the dates strictly increase. */
  lemma ChartDataStrictlyAscending(rs: seq<Record>)
    requires DistinctDates(rs)
    ensures forall i, j :: 0 <= i < j < |rs| ==> ChartData(rs)[i].date < ChartData(rs)[j].date
  {
    var s := SortByDate(rs);
    SortedDistinct(rs, s);
  }

  lemma SortedDistinct(rs: seq<Record>, s: seq<Record>)
    requires DistinctDates(rs)
    requires multiset(s) == multiset(rs) && |s| == |rs|
    requires forall i, j :: 0 <= i < j < |s| ==> s[i].date <= s[j].date
    ensures forall i, j :: 0 <= i < j < |s| ==> s[i].date < s[j].date
  {
    forall i, j | 0 <= i < j < |s| ensures s[i].date < s[j].date {
      assert s[i] in multiset(rs) && s[j] in multiset(rs);
      var a :| 0 <= a < |rs| && rs[a] == s[i];
      var b :| 0 <= b < |rs| && rs[b] == s[j];
      if a == b {
        RecordOccursOnce(rs, a);
        OccursTwice(s, i, j);
      }
    }
  }

  lemma OccursTwice<T>(s: seq<T>, i: int, j: int)
    requires 0 <= i < j < |s| && s[i] == s[j]
    ensures multiset(s)[s[i]] >= 2
  {
    assert s == s[..i] + [s[i]] + s[i + 1..j] + [s[j]] + s[j + 1..];
  }

  /** With one record per date, a record occurs once. */
  lemma RecordOccursOnce(rs: seq<Record>, a: int)
    requires DistinctDates(rs) && 0 <= a < |rs|
    ensures multiset(rs)[rs[a]] == 1
  {
    var x := rs[a];
    assert rs == rs[..a] + [x] + rs[a + 1..];
    assert x !in rs[..a] by {
      forall k | 0 <= k < a ensures rs[..a][k] != x {
        assert rs[k].date != rs[a].date;
      }
    }
    assert x !in rs[a + 1..] by {
      forall k | a < k < |rs| ensures rs[k] != x {
        assert rs[k].date != rs[a].date;
      }
    }
  }

  /** The cutoff dates the dashboard's range buttons stand for, as computed
      from the clock when the dashboard is drawn. */
  datatype Cutoffs = Cutoffs(threeMonths: Date, sixMonths: Date, oneYear: Date)

  /** item => itemDate >= cutoffDate */
  function OnOrAfter<T>(dateOf: T -> Date, cutoff: Date): T -> bool
  {
    (x: T) => dateOf(x) >= cutoff
  }

  /** getFilteredData: "all", an empty series or an unknown range give the
      series back; "3m", "6m" and "1y" keep the items on or after their
      cutoff, in order. */
  function FilterByWindow<T>(range: string, items: seq<T>, dateOf: T -> Date, cutoffs: Cutoffs): (r: seq<T>)
    ensures |r| <= |items|
    ensures forall x :: x in r ==> x in items
  {
    if range == "all" || items == [] then items
    else if range == "3m" then Filter(items, OnOrAfter(dateOf, cutoffs.threeMonths))
    else if range == "6m" then Filter(items, OnOrAfter(dateOf, cutoffs.sixMonths))
    else if range == "1y" then Filter(items, OnOrAfter(dateOf, cutoffs.oneYear))
    else items
  }

  predicate IsWindow(range: string)
  {
    range == "3m" || range == "6m" || range == "1y"
  }

  /** The cutoff of a window range. */
  function CutoffOf(range: string, cutoffs: Cutoffs): Date
  {
    if range == "3m" then cutoffs.threeMonths
    else if range == "6m" then cutoffs.sixMonths
    else cutoffs.oneYear
  }

  /** "all", an unknown range and an empty series are left as they are. */
  lemma WindowIdentity<T>(range: string, items: seq<T>, dateOf: T -> Date, cutoffs: Cutoffs)
    requires !IsWindow(range) || items == []
    ensures FilterByWindow(range, items, dateOf, cutoffs) == items
  {
  }

  /** A window keeps exactly the items dated on or after its cutoff, at
      their positions' order: the order-preserving subsequence at the
      positions of those items. */
  lemma WindowExact<T>(range: string, items: seq<T>, dateOf: T -> Date, cutoffs: Cutoffs)
    requires IsWindow(range)
    ensures var r := FilterByWindow(range, items, dateOf, cutoffs);
      var c := CutoffOf(range, cutoffs);
      && SubsequenceAt(r, items, KeptIndices(items, OnOrAfter(dateOf, c)))
      && (forall i :: 0 <= i < |items| ==> (dateOf(items[i]) >= c <==> i in KeptIndices(items, OnOrAfter(dateOf, c))))
      && (forall x :: x in r <==> x in items && dateOf(x) >= c)
  {
    var c := CutoffOf(range, cutoffs);
    FilterKeepsExactly(items, OnOrAfter(dateOf, c));
    if items == [] {
      assert KeptIndices(items, OnOrAfter(dateOf, c)) == [];
    }
  }

  /** On a series in ascending date order a window keeps a suffix: the
      points from the cutoff onwards. */
  lemma WindowIsSuffix<T>(range: string, items: seq<T>, dateOf: T -> Date, cutoffs: Cutoffs)
    requires forall i, j :: 0 <= i < j < |items| ==> dateOf(items[i]) <= dateOf(items[j])
    ensures var r := FilterByWindow(range, items, dateOf, cutoffs);
      r == items[|items| - |r|..]
  {
    if IsWindow(range) && items != [] {
      var c := CutoffOf(range, cutoffs);
      FilterSortedIsSuffix(items, dateOf, c, OnOrAfter(dateOf, c));
    }
  }

  /** With the cutoffs in calendar order, the three-month window lies
      inside the six-month one, which lies inside the one-year one. */
  lemma WindowsNested<T>(items: seq<T>, dateOf: T -> Date, cutoffs: Cutoffs, x: T)
    requires cutoffs.oneYear <= cutoffs.sixMonths <= cutoffs.threeMonths
    ensures x in FilterByWindow("3m", items, dateOf, cutoffs) ==> x in FilterByWindow("6m", items, dateOf, cutoffs)
    ensures x in FilterByWindow("6m", items, dateOf, cutoffs) ==> x in FilterByWindow("1y", items, dateOf, cutoffs)
    ensures x in FilterByWindow("1y", items, dateOf, cutoffs) ==> x in FilterByWindow("all", items, dateOf, cutoffs)
  {
  }

  /** totalChange: the last point's total minus the first's, 0 with fewer than
      two points. */
  function Change(pts: seq<ChartPoint>): int
  {
    if |pts| >= 2 then pts[|pts| - 1].total - pts[0].total else 0
  }

  /** changePercent before toFixed(1): the change relative to the first
      total, 0 unless there are two points and the first total is positive. */
  function ChangePercent(pts: seq<ChartPoint>): real
  {
    if |pts| >= 2 && pts[0].total > 0 then (Change(pts) as real / pts[0].total as real) * 100.0 else 0.0
  }

  /** The headline change and its percentage agree: growing the first total
      by the percentage gives the last total, and both have the same sign. */
  lemma ChangePercentAgrees(pts: seq<ChartPoint>)
    requires |pts| >= 2 && pts[0].total > 0
    ensures pts[0].total as real * (1.0 + ChangePercent(pts) / 100.0) == pts[|pts| - 1].total as real
    ensures ChangePercent(pts) > 0.0 <==> Change(pts) > 0
    ensures ChangePercent(pts) == 0.0 <==> Change(pts) == 0
  {
    var f := pts[0].total as real;
    var d := Change(pts) as real;
    assert ChangePercent(pts) / 100.0 == d / f;
    assert f * (d / f) == d;
    if d > 0.0 {
      assert d / f > 0.0;
    } else if d < 0.0 {
      assert d / f < 0.0;
    }
  }

  /** latestTotal: the total of the last point, 0 when there is none. */
  function LatestTotal(pts: seq<ChartPoint>): int
  {
    if pts == [] then 0 else pts[|pts| - 1].total
  }

  /** Over the whole series the change is the latest total minus the total
      of the earliest record, and it is 0 for a single record. */
  lemma ChangeOverAll(rs: seq<Record>, cutoffs: Cutoffs)
    ensures var all := FilterByWindow("all", ChartData(rs), PointDate, cutoffs);
      && (|rs| >= 2 ==> Change(all) == LatestTotal(ChartData(rs)) - Total(SortByDate(rs)[0].assets))
      && (|rs| < 2 ==> Change(all) == 0)
  {
  }

  /** Change over a window ending at the latest point: the latest total
      minus the total of the first point kept. */
  lemma WindowChange(range: string, rs: seq<Record>, cutoffs: Cutoffs)
    ensures var w := FilterByWindow(range, ChartData(rs), PointDate, cutoffs);
      |w| >= 2 ==> Change(w) == LatestTotal(ChartData(rs)) - w[0].total
  {
    var pts := ChartData(rs);
    ChartDataAscending(rs);
    WindowIsSuffix(range, pts, PointDate, cutoffs);
    SuffixChange(pts, FilterByWindow(range, pts, PointDate, cutoffs));
  }

  lemma ChartDataAscending(rs: seq<Record>)
    ensures forall i, j :: 0 <= i < j < |ChartData(rs)| ==> PointDate(ChartData(rs)[i]) <= PointDate(ChartData(rs)[j])
  {
    var pts := ChartData(rs);
    var s := SortByDate(rs);
    forall i, j | 0 <= i < j < |pts| ensures PointDate(pts[i]) <= PointDate(pts[j]) {
      assert pts[i] == PointOf(s[i]) && pts[j] == PointOf(s[j]);
    }
  }

  /** The change over a suffix of two or more points ends at the last point. */
  lemma SuffixChange(pts: seq<ChartPoint>, w: seq<ChartPoint>)
    requires |w| <= |pts| && w == pts[|pts| - |w|..]
    ensures |w| >= 2 ==> Change(w) == LatestTotal(pts) - w[0].total
  {
    if |w| >= 2 {
      assert w[|w| - 1] == pts[|pts| - 1];
    }
  }
}
