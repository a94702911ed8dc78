/**
 * The dashboard's derived data: the age-range options offered by the checklist
 * (`sorted(shopping_df['Age Range'].unique())`) and the count table each chart
 * callback builds from the filtered rows.
 */
module Dashboard {
  import opened Wrappers
  import opened Sequences
  import opened PyStrings
  import opened Records
  import opened AgeBuckets
  import opened Selection
  import opened ValueCounts

  /** Python refuses to order NaN against a string label. */
  datatype SortError = TypeError

  function AgeRangeColumn(data: seq<Record>): (c: seq<Option<string>>)
  {
    seq(|data|, i requires 0 <= i < |data| => data[i].ageRange)
  }

  /** The labels among a list of optional labels, in order. */
  function PresentLabels(u: seq<Option<string>>): (ls: seq<string>)
    ensures forall l :: l in ls <==> Some(l) in u
  {
    if u == [] then []
    else
      var rest := PresentLabels(u[1..]);
      assert forall o :: o in u <==> o == u[0] || o in u[1..];
      match u[0]
      case None => rest
      case Some(l) => [l] + rest
  }

  function WrapAll(ls: seq<string>): (os: seq<Option<string>>)
    ensures forall o :: o in os <==> o.Some? && o.value in ls
  {
    var os := seq(|ls|, k requires 0 <= k < |ls| => Some(ls[k]));
    assert forall l :: l in ls ==> Some(l) in os by {
      forall l | l in ls ensures Some(l) in os {
        var k :| 0 <= k < |ls| && ls[k] == l;
        assert os[k] == Some(l);
      }
    }
    os
  }

  /**
   * `sorted(shopping_df['Age Range'].unique())`: the distinct labels in string order;
   * a lone NaN sorts to itself, but NaN next to any label makes the sort raise.
   */
  function AgeRangeOptions(data: seq<Record>): (r: Result<seq<Option<string>>, SortError>)
    ensures r.Success? ==> forall o :: o in r.value <==> o in AgeRangeColumn(data)
  {
    var column := AgeRangeColumn(data);
    var u := Distinct(column);
    if None !in u then
      var ls := SortStrings(PresentLabels(u));
      assert forall o :: o in WrapAll(ls) <==> o in column by {
        forall o ensures o in WrapAll(ls) <==> o in column {
          if o.Some? {
            assert o.value in ls <==> Some(o.value) in u;
          }
        }
      }
      Success(WrapAll(ls))
    else if |u| == 1 then Success(u)
    else Failure(TypeError)
  }

  /** The sort raises exactly when a missing Age Range sits beside a label. */
  lemma AgeRangeOptionsFailure(data: seq<Record>)
    ensures AgeRangeOptions(data).Failure? <==>
      (exists i :: 0 <= i < |data| && data[i].ageRange.None?) &&
      (exists j :: 0 <= j < |data| && data[j].ageRange.Some?)
  {
    var column := AgeRangeColumn(data);
    var u := Distinct(column);
    if exists i :: 0 <= i < |data| && data[i].ageRange.None? {
      var i :| 0 <= i < |data| && data[i].ageRange.None?;
      assert column[i] in u;
      if exists j :: 0 <= j < |data| && data[j].ageRange.Some? {
        var j :| 0 <= j < |data| && data[j].ageRange.Some?;
        assert column[j] in u;
        var a :| 0 <= a < |u| && u[a] == column[i];
        var b :| 0 <= b < |u| && u[b] == column[j];
        assert a != b;
      } else {
        AllMissingColumn(data);
      }
    } else {
      assert None !in column by {
        forall k | 0 <= k < |column| ensures column[k] != None {
          assert column[k] == data[k].ageRange;
        }
      }
    }
  }

  /** With no Age Range missing, the options are the dataset's labels, each once, in ascending string order. */
  lemma AgeRangeOptionsSorted(data: seq<Record>)
    requires forall i :: 0 <= i < |data| ==> data[i].ageRange.Some?
    ensures AgeRangeOptions(data).Success?
    ensures forall o :: o in AgeRangeOptions(data).value <==> o in AgeRangeColumn(data)
    ensures forall o :: o in AgeRangeOptions(data).value ==> o.Some?
    ensures StrictlySorted(PresentLabels(AgeRangeOptions(data).value))
  {
    var column := AgeRangeColumn(data);
    assert None !in column by {
      forall k | 0 <= k < |column| ensures column[k] != None {
        assert column[k] == data[k].ageRange;
      }
    }
    UnwrapAll(SortStrings(PresentLabels(Distinct(column))));
  }

  /** A dataset whose every Age Range is missing offers the single option NaN. */
  lemma AgeRangeOptionsAllMissing(data: seq<Record>)
    requires |data| > 0 && forall i :: 0 <= i < |data| ==> data[i].ageRange.None?
    ensures AgeRangeOptions(data) == Success([None])
  {
    AllMissingColumn(data);
  }

  /** The distinct values of an all-missing, non-empty column: just NaN. */
  lemma AllMissingColumn(data: seq<Record>)
    requires |data| > 0 && forall i :: 0 <= i < |data| ==> data[i].ageRange.None?
    ensures Distinct(AgeRangeColumn(data)) == [None]
  {
    DistinctAllNone(AgeRangeColumn(data));
  }

  lemma {:induction false} DistinctAllNone(column: seq<Option<string>>)
    requires column != [] && forall k :: 0 <= k < |column| ==> column[k] == None
    ensures Distinct(column) == [None]
  {
    var init := column[..|column| - 1];
    if init != [] {
      DistinctAllNone(init);
    }
  }

  lemma {:induction false} UnwrapAll(ls: seq<string>)
    ensures PresentLabels(WrapAll(ls)) == ls
  {
    if ls != [] {
      assert WrapAll(ls)[1..] == WrapAll(ls[1..]);
      UnwrapAll(ls[1..]);
    }
  }

  /** The six labels already stand in ascending string order. */
  lemma LabelsAscending()
    ensures StrictlySorted(Labels)
  {
  }

  /** The labels of `ls` that occur in the column, in the order of `ls`. */
  function Occurring(ls: seq<string>, column: seq<Option<string>>): (r: seq<string>)
    ensures forall l :: l in r <==> l in ls && Some(l) in column
    ensures forall i, j :: 0 <= i < j < |r| ==> Precedes(ls, r[i], r[j])
    ensures StrictlySorted(ls) ==> StrictlySorted(r)
  {
    if ls == [] then []
    else
      var rest := Occurring(ls[1..], column);
      assert forall l :: l in ls <==> l == ls[0] || l in ls[1..];
      assert StrictlySorted(ls) ==> forall l :: l in rest ==> Less(ls[0], l) by {
        if StrictlySorted(ls) {
          forall l | l in rest ensures Less(ls[0], l) {
            var j :| 0 <= j < |ls[1..]| && ls[1..][j] == l;
            assert ls[j + 1] == l;
          }
        }
      }
      if Some(ls[0]) in column then
        ConsPrecedes(ls, rest);
        [ls[0]] + rest
      else
        TailPrecedes(ls, rest);
        rest
  }

  /** A subsequence in order of the tail of `ls` is one of `ls`. */
  lemma TailPrecedes(ls: seq<string>, rest: seq<string>)
    requires ls != []
    requires forall i, j :: 0 <= i < j < |rest| ==> Precedes(ls[1..], rest[i], rest[j])
    ensures forall i, j :: 0 <= i < j < |rest| ==> Precedes(ls, rest[i], rest[j])
  {
    forall i, j | 0 <= i < j < |rest| ensures Precedes(ls, rest[i], rest[j]) {
      PrecedesTail(ls, rest[i], rest[j]);
    }
  }

  /** Putting the head of `ls` in front of such a subsequence of its tail keeps it in order. */
  lemma ConsPrecedes(ls: seq<string>, rest: seq<string>)
    requires ls != [] && forall l :: l in rest ==> l in ls[1..]
    requires forall i, j :: 0 <= i < j < |rest| ==> Precedes(ls[1..], rest[i], rest[j])
    ensures forall i, j :: 0 <= i < j < |[ls[0]] + rest| ==> Precedes(ls, ([ls[0]] + rest)[i], ([ls[0]] + rest)[j])
  {
    TailPrecedes(ls, rest);
    var r := [ls[0]] + rest;
    forall i, j | 0 <= i < j < |r| ensures Precedes(ls, r[i], r[j]) {
      assert r[j] == rest[j - 1];
      if i == 0 {
        assert rest[j - 1] in rest;
        var q :| 0 <= q < |ls[1..]| && ls[1..][q] == r[j];
        assert ls[0] == r[0] && ls[q + 1] == r[j];
      } else {
        assert r[i] == rest[i - 1];
      }
    }
  }

  /**
   * On a dataset made by the preprocessing script from ages that all lie in [18, 78),
   * the options are the labels that occur, in the order of their age bins.
   */
  lemma PreprocessedOptions(rows: seq<SurveyRow>)
    requires forall i :: 0 <= i < |rows| ==> 18 <= rows[i].age < 78
    ensures AgeRangeOptions(AddAgeRange(rows)) ==
      Success(WrapAll(Occurring(Labels, AgeRangeColumn(AddAgeRange(rows)))))
  {
    var data := AddAgeRange(rows);
    forall i | 0 <= i < |data| ensures data[i].ageRange.Some? && data[i].ageRange.value in Labels {
      AgeRangeMissing(rows[i].age);
    }
    LabelsAscending();
    OptionsInLabelOrder(data, Labels);
  }

  /**
   * When every row has a label from a strictly sorted list, the options are the labels
   * of that list that occur, in its order.
   */
  lemma OptionsInLabelOrder(data: seq<Record>, labels: seq<string>)
    requires StrictlySorted(labels)
    requires forall i :: 0 <= i < |data| ==> data[i].ageRange.Some? && data[i].ageRange.value in labels
    ensures AgeRangeOptions(data) == Success(WrapAll(Occurring(labels, AgeRangeColumn(data))))
  {
    var column := AgeRangeColumn(data);
    assert None !in column by {
      forall k | 0 <= k < |column| ensures column[k] != None {
        assert column[k] == data[k].ageRange;
      }
    }
    var ls := SortStrings(PresentLabels(Distinct(column)));
    assert AgeRangeOptions(data) == Success(WrapAll(ls));
    var want := Occurring(labels, column);
    forall l ensures l in ls <==> l in want {
      if Some(l) in column {
        var k :| 0 <= k < |column| && column[k] == Some(l);
        assert data[k].ageRange.value in labels;
      }
    }
    StrictlySortedUnique(ls, want);
  }

  /** The count table of one chart: `value_counts()` of `field` over the filtered rows. */
  function Aggregate(data: seq<Record>, field: Field, gender: string, selected: seq<string>): (r: seq<Entry>)
    ensures Sum(r) == |Filtered(data, gender, selected)|
    ensures Keys(r) == set row | row in Filtered(data, gender, selected) :: Value(row.rec, field)
    ensures forall e :: e in r ==> e.count >= 1
    ensures forall e :: e in r ==> e.count == multiset(Column(RecordsOf(Filtered(data, gender, selected)), field))[e.value]
    ensures DistinctKeys(r) && NonIncreasing(r)
  {
    var f := Filtered(data, gender, selected);
    var column := Column(RecordsOf(f), field);
    assert (set x | x in column) == set row | row in f :: Value(row.rec, field) by {
      forall v | v in column ensures exists row :: row in f && Value(row.rec, field) == v {
        var k :| 0 <= k < |column| && column[k] == v;
        assert f[k] in f;
      }
      forall row | row in f ensures Value(row.rec, field) in column {
        var k :| 0 <= k < |f| && f[k] == row;
        assert column[k] == Value(row.rec, field);
      }
    }
    Count(column)
  }

  /** With no age range ticked every chart's table is empty. */
  lemma AggregateEmptySelection(data: seq<Record>, field: Field, gender: string)
    ensures Aggregate(data, field, gender, []) == []
  {
    EmptySelection(data, gender);
    CountEmpty();
  }

  /** 'Both' with every row's Age Range ticked gives the unfiltered counts of the dataset. */
  lemma AggregateAllSelected(data: seq<Record>, field: Field, selected: seq<string>)
    requires forall i :: 0 <= i < |data| ==> InSelection(selected, data[i])
    ensures Aggregate(data, field, "Both", selected) == Count(Column(data, field))
  {
    AllSelected(data, selected);
  }

  // A three-customer example: two men (25 and 40) who subscribe, one woman (30) who does not.

  const MaleAt25 := Record("Male", 25, Some("18-27"), "Yes", "Gray", "Winter", "M")
  const FemaleAt30 := Record("Female", 30, Some("28-37"), "No", "Gray", "Winter", "M")
  const MaleAt40 := Record("Male", 40, Some("38-47"), "Yes", "Gray", "Summer", "M")

  /** The example's Age Range labels are the ones the bucketing gives its three ages. */
  lemma ExampleAgeRanges()
    ensures AgeRange(MaleAt25.age) == MaleAt25.ageRange
    ensures AgeRange(FemaleAt30.age) == FemaleAt30.ageRange
    ensures AgeRange(MaleAt40.age) == MaleAt40.ageRange
  {
    AgeRangeIn(MaleAt25.age, 0);
    AgeRangeIn(FemaleAt30.age, 1);
    AgeRangeIn(MaleAt40.age, 2);
  }

  /**
   * 'Male' with 18-27 and 38-47 ticked: the woman is filtered out and the subscription
   * chart gets one entry, Yes with 2; No is omitted rather than listed with 0.
   */
  lemma ExampleMaleCounts()
    ensures Aggregate([MaleAt25, FemaleAt30, MaleAt40], SubscriptionStatus, "Male", ["18-27", "38-47"]) == [Entry("Yes", 2)]
  {
    var data := [MaleAt25, FemaleAt30, MaleAt40];
    var sel := ["18-27", "38-47"];
    var fr := Frame(data);
    assert fr == [Row(0, MaleAt25), Row(1, FemaleAt30), Row(2, MaleAt40)];
    var gm := GenderMask(data, "Male");
    assert gm == [true, false, true];
    var im := IsinMask(data, sel);
    assert im == [true, false, true];
    assert Where(fr[2..], gm) == [Row(2, MaleAt40)];
    assert Where(fr[1..], gm) == [Row(2, MaleAt40)];
    var g := Where(fr, gm);
    assert g == [Row(0, MaleAt25), Row(2, MaleAt40)];
    assert Where(g[1..], im) == [Row(2, MaleAt40)];
    var f := Where(g, im);
    assert f == [Row(0, MaleAt25), Row(2, MaleAt40)];
    assert Filtered(data, "Male", sel) == f;
    var col := Column(RecordsOf(f), SubscriptionStatus);
    assert col == ["Yes", "Yes"];
    assert col[..1] == ["Yes"];
    assert Tally(col) == [Entry("Yes", 2)];
  }
}
