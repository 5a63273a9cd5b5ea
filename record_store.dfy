/** The record store: the `setData` updaters behind handleAddRecord,
    handleUpdateRecord and handleDeleteRecord. Together they keep at most one
    record per date. */
module RecordStore {
  import opened Seqs
  import opened Dataset

  /** records.findIndex(r => r.date === d), -1 when there is none. */
  function FindIndex(rs: seq<Record>, d: Date): (i: int)
    ensures -1 <= i < |rs|
    ensures i == -1 <==> !HasDate(rs, d)
    ensures 0 <= i ==> rs[i].date == d && forall k :: 0 <= k < i ==> rs[k].date != d
  {
    if rs == [] then -1
    else if rs[0].date == d then 0
    else
      assert forall k :: 0 < k < |rs| ==> rs[k] == rs[1..][k - 1];
      var j := FindIndex(rs[1..], d);
      if j == -1 then -1 else j + 1
  }

  /** handleAddRecord: the new record overwrites the (first) record with its
      date, in that record's place, or is appended when the date is new. */
  function AddRecord(rs: seq<Record>, nr: Record): (r: seq<Record>)
    ensures HasDate(rs, nr.date) ==> |r| == |rs| && r[FindIndex(rs, nr.date)] == nr
    ensures !HasDate(rs, nr.date) ==> |r| == |rs| + 1 && r[|rs|] == nr
    ensures forall k :: 0 <= k < |rs| && k != FindIndex(rs, nr.date) ==> r[k] == rs[k]
  {
    var i := FindIndex(rs, nr.date);
    if i != -1 then rs[i := nr] else rs + [nr]
  }

  /** Adding a record keeps the dates distinct, and the only record left at
      the new record's date is the new record. */
  lemma AddRecordKeepsDistinct(rs: seq<Record>, nr: Record)
    requires DistinctDates(rs)
    ensures DistinctDates(AddRecord(rs, nr))
    ensures forall x :: x in AddRecord(rs, nr) && x.date == nr.date ==> x == nr
  {
    var r := AddRecord(rs, nr);
    var i := FindIndex(rs, nr.date);
    forall x | x in r && x.date == nr.date ensures x == nr {
      var k :| 0 <= k < |r| && r[k] == x;
    }
  }

  /** With distinct dates there is at most one record per date. */
  lemma {:induction false} CountDateAtMostOne(rs: seq<Record>, d: Date)
    requires DistinctDates(rs)
    ensures CountDate(rs, d) <= 1
  {
    if rs != [] {
      assert DistinctDates(rs[1..]);
      CountDateAtMostOne(rs[1..], d);
      if rs[0].date == d {
        assert !HasDate(rs[1..], d) by {
          forall k | 0 <= k < |rs[1..]| ensures rs[1..][k].date != d {
            assert rs[1..][k] == rs[k + 1];
          }
        }
      }
    }
  }

  /** Adding a record leaves exactly one record with its date, and that
      record is the one added. */
  lemma AddRecordExactlyOne(rs: seq<Record>, nr: Record)
    requires DistinctDates(rs)
    ensures CountDate(AddRecord(rs, nr), nr.date) == 1
  {
    var r := AddRecord(rs, nr);
    AddRecordKeepsDistinct(rs, nr);
    CountDateAtMostOne(r, nr.date);
    assert HasDate(r, nr.date) by {
      if HasDate(rs, nr.date) {
        assert r[FindIndex(rs, nr.date)].date == nr.date;
      } else {
        assert r[|rs|].date == nr.date;
      }
    }
  }

  /** Two writes for the same date: the second overwrites the first as a
      whole (no merge of their balances). */
  lemma AddRecordOverwrites(rs: seq<Record>, first: Record, second: Record)
    requires first.date == second.date
    ensures AddRecord(AddRecord(rs, first), second) == AddRecord(rs, second)
  {
    var mid := AddRecord(rs, first);
    if !HasDate(rs, first.date) {
      assert FindIndex(mid, second.date) == |rs|;
    } else {
      assert FindIndex(mid, second.date) == FindIndex(rs, second.date);
    }
  }

  /** records.map(r => r.date === d ? u : r) */
  function ReplaceOnDate(rs: seq<Record>, d: Date, u: Record): seq<Record>
  {
    seq(|rs|, k requires 0 <= k < |rs| => if rs[k].date == d then u else rs[k])
  }

  /** The asymmetric case of handleUpdateRecord: the date was changed to one
      that another record already has. */
  predicate Collides(rs: seq<Record>, updated: Record, originalDate: Date)
  {
    updated.date != originalDate && FindIndex(rs, updated.date) != -1
  }

  /** handleUpdateRecord. On a collision every record at originalDate is
      dropped and the record at the new date is overwritten; otherwise the
      records at originalDate are replaced where they stand. */
  function UpdateRecord(rs: seq<Record>, updated: Record, originalDate: Date): (r: seq<Record>)
    ensures |r| <= |rs|
    ensures forall x :: x in r && x != updated ==> x in rs && x.date != originalDate
  {
    if Collides(rs, updated, originalDate) then
      ReplaceOnDate(Filter(rs, NotOnDate(originalDate)), updated.date, updated)
    else
      ReplaceOnDate(rs, originalDate, updated)
  }

  /** The collision case: nothing is left at originalDate, the record at the
      new date is the updated one, every other record survives, and the store
      shrinks by the number of records that were at originalDate. */
  lemma UpdateCollision(rs: seq<Record>, updated: Record, originalDate: Date)
    requires Collides(rs, updated, originalDate)
    ensures var r := UpdateRecord(rs, updated, originalDate);
      && !HasDate(r, originalDate)
      && updated in r
      && (forall x :: x in r && x.date == updated.date ==> x == updated)
      && (forall x :: x in rs && x.date != originalDate && x.date != updated.date ==> x in r)
      && |r| == |rs| - CountDate(rs, originalDate)
  {
    var kept := Filter(rs, NotOnDate(originalDate));
    var r := UpdateRecord(rs, updated, originalDate);
    FilterNotOnDateLength(rs, originalDate);
    var i := FindIndex(rs, updated.date);
    assert rs[i] in kept;
    var j :| 0 <= j < |kept| && kept[j] == rs[i];
    assert r[j] == updated;
    forall x | x in rs && x.date != originalDate && x.date != updated.date
      ensures x in r
    {
      var k :| 0 <= k < |kept| && kept[k] == x;
      assert r[k] == x;
    }
  }

  /** The other case: the records at originalDate are replaced in place, so
      length and positions are unchanged; nothing happens when there is no
      record at originalDate. */
  lemma UpdateInPlace(rs: seq<Record>, updated: Record, originalDate: Date)
    requires !Collides(rs, updated, originalDate)
    ensures var r := UpdateRecord(rs, updated, originalDate);
      && |r| == |rs|
      && (forall k :: 0 <= k < |rs| && rs[k].date != originalDate ==> r[k] == rs[k])
      && (forall k :: 0 <= k < |rs| && rs[k].date == originalDate ==> r[k] == updated)
      && (!HasDate(rs, originalDate) ==> r == rs)
  {
  }

  /** Both cases keep at most one record per date. */
  lemma UpdateKeepsDistinct(rs: seq<Record>, updated: Record, originalDate: Date)
    requires DistinctDates(rs)
    ensures DistinctDates(UpdateRecord(rs, updated, originalDate))
  {
    var r := UpdateRecord(rs, updated, originalDate);
    if Collides(rs, updated, originalDate) {
      var kept := Filter(rs, NotOnDate(originalDate));
      FilterKeepsExactly(rs, NotOnDate(originalDate));
      SubsequenceKeepsDistinct(kept, rs, KeptIndices(rs, NotOnDate(originalDate)));
      forall i, j | 0 <= i < j < |r| ensures r[i].date != r[j].date {
        assert kept[i].date != kept[j].date;
      }
    } else {
      forall i, j | 0 <= i < j < |r| ensures r[i].date != r[j].date {
        if rs[i].date == originalDate && rs[j].date != originalDate && updated.date != originalDate {
          assert !HasDate(rs, updated.date);
        }
        if rs[j].date == originalDate && rs[i].date != originalDate && updated.date != originalDate {
          assert !HasDate(rs, updated.date);
        }
      }
    }
  }

  /** On a collision, one record fewer when originalDate had one. */
  lemma UpdateCollisionLength(rs: seq<Record>, updated: Record, originalDate: Date)
    requires DistinctDates(rs)
    requires Collides(rs, updated, originalDate)
    ensures |UpdateRecord(rs, updated, originalDate)| == if HasDate(rs, originalDate) then |rs| - 1 else |rs|
  {
    CountDateAtMostOne(rs, originalDate);
    UpdateCollision(rs, updated, originalDate);
  }

  /** On a collision the surviving records keep their relative order: the
      result is read off the records not dated originalDate, in order, with
      the one at the new date overwritten. */
  lemma UpdateCollisionOrder(rs: seq<Record>, updated: Record, originalDate: Date)
    requires Collides(rs, updated, originalDate)
    ensures var ix := KeptIndices(rs, NotOnDate(originalDate));
      var r := UpdateRecord(rs, updated, originalDate);
      && |r| == |ix|
      && (forall k, l :: 0 <= k < l < |ix| ==> ix[k] < ix[l])
      && (forall k :: 0 <= k < |ix| ==> ix[k] < |rs| && rs[ix[k]].date != originalDate)
      && (forall i :: 0 <= i < |rs| && rs[i].date != originalDate ==> i in ix)
      && (forall k :: 0 <= k < |ix| ==> r[k] == if rs[ix[k]].date == updated.date then updated else rs[ix[k]])
  {
    FilterKeepsExactly(rs, NotOnDate(originalDate));
  }

  /** Two saves on one date: the second replaces the first outright, its
      balances are not merged into the first's. */
  lemma SaveTwiceExample()
    ensures var first := Record(20240101, [Prop("a", 100)]);
      var second := Record(20240101, [Prop("b", 50)]);
      AddRecord(AddRecord([], first), second) == [second]
  {
    var first := Record(20240101, [Prop("a", 100)]);
    var second := Record(20240101, [Prop("b", 50)]);
    assert AddRecord([], first) == [first];
    assert FindIndex([first], second.date) == 0;
  }

  /** Moving the January record onto February's date leaves one record: the
      updated one at the February date. */
  lemma UpdateCollisionExample()
    ensures var jan := Record(20240101, [Prop("a", 100)]);
      var feb := Record(20240201, [Prop("a", 200)]);
      var updated := Record(20240201, [Prop("a", 300)]);
      UpdateRecord([jan, feb], updated, 20240101) == [updated]
  {
    var jan := Record(20240101, [Prop("a", 100)]);
    var feb := Record(20240201, [Prop("a", 200)]);
    var updated := Record(20240201, [Prop("a", 300)]);
    assert FindIndex([jan, feb], 20240201) == 1 by {
      assert [jan, feb][1..] == [feb];
    }
    assert Filter([jan, feb], NotOnDate(20240101)) == [feb] by {
      assert [jan, feb][1..] == [feb];
      assert [feb][1..] == [];
    }
  }

  /** handleDeleteRecord: drops every record with that date and keeps the
      others, in their order. */
  function DeleteRecord(rs: seq<Record>, d: Date): (r: seq<Record>)
    ensures forall x :: x in r <==> x in rs && x.date != d
  {
    Filter(rs, NotOnDate(d))
  }

  /** Deletion keeps exactly the positions not dated d, in increasing order. */
  lemma DeleteRecordKeepsOrder(rs: seq<Record>, d: Date)
    ensures SubsequenceAt(DeleteRecord(rs, d), rs, KeptIndices(rs, NotOnDate(d)))
    ensures forall i :: 0 <= i < |rs| ==> (rs[i].date != d <==> i in KeptIndices(rs, NotOnDate(d)))
  {
    FilterKeepsExactly(rs, NotOnDate(d));
  }

  /** Deletion removes CountDate(rs, d) records: one when dates are distinct
      and d is present, none (a no-op) when d is absent. */
  lemma DeleteRecordCount(rs: seq<Record>, d: Date)
    ensures |DeleteRecord(rs, d)| == |rs| - CountDate(rs, d)
    ensures !HasDate(rs, d) ==> DeleteRecord(rs, d) == rs
    ensures DistinctDates(rs) && HasDate(rs, d) ==> |DeleteRecord(rs, d)| == |rs| - 1
  {
    FilterNotOnDateLength(rs, d);
    if !HasDate(rs, d) {
      FilterAll(rs, NotOnDate(d));
    }
    if DistinctDates(rs) {
      CountDateAtMostOne(rs, d);
    }
  }

  /** Deletion keeps the dates distinct. */
  lemma DeleteRecordKeepsDistinct(rs: seq<Record>, d: Date)
    requires DistinctDates(rs)
    ensures DistinctDates(DeleteRecord(rs, d))
  {
    FilterKeepsExactly(rs, NotOnDate(d));
    SubsequenceKeepsDistinct(DeleteRecord(rs, d), rs, KeptIndices(rs, NotOnDate(d)));
  }

  /** Removing the records at d removes exactly CountDate(rs, d) records. */
  lemma {:induction false} FilterNotOnDateLength(rs: seq<Record>, d: Date)
    ensures |Filter(rs, NotOnDate(d))| == |rs| - CountDate(rs, d)
  {
    if rs != [] {
      FilterNotOnDateLength(rs[1..], d);
    }
  }

  /** A subsequence of records with distinct dates has distinct dates. */
  lemma SubsequenceKeepsDistinct(r: seq<Record>, rs: seq<Record>, ix: seq<nat>)
    requires SubsequenceAt(r, rs, ix)
    requires DistinctDates(rs)
    ensures DistinctDates(r)
  {
    forall i, j | 0 <= i < j < |r| ensures r[i].date != r[j].date {
      assert ix[i] < ix[j];
    }
  }
}
