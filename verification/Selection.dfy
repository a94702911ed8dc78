/**
 * The row filter repeated in the four chart callbacks. A filtered frame keeps the
 * dataset's index, and a boolean mask is applied by looking each row's index up in
 * it, which is how pandas aligns `df[a][b]` when `b` was computed on the whole frame.
 */
module Selection {
  import opened Wrappers
  import opened Records

  /** A row of a frame together with its index label. */
  datatype Row = Row(index: nat, rec: Record)

  /** The loaded dataset, with its default index 0, 1, ..., n - 1. */
  function Frame(data: seq<Record>): (f: seq<Row>)
  {
    seq(|data|, k requires 0 <= k < |data| => Row(k, data[k]))
  }

  /** The records of a frame, in row order. */
  function RecordsOf(f: seq<Row>): (rs: seq<Record>)
  {
    seq(|f|, k requires 0 <= k < |f| => f[k].rec)
  }

  /** Index labels strictly increase down the frame (rows keep their original order). */
  predicate Ascending(f: seq<Row>)
  {
    forall k, l :: 0 <= k < l < |f| ==> f[k].index < f[l].index
  }

  /** `df['Age Range'].isin(selected)`: NaN is never in the selection. */
  predicate InSelection(selected: seq<string>, r: Record)
  {
    r.ageRange.Some? && r.ageRange.value in selected
  }

  function IsinMask(data: seq<Record>, selected: seq<string>): (m: seq<bool>)
    ensures |m| == |data|
    ensures forall i :: 0 <= i < |data| ==> (m[i] <==> data[i].ageRange.Some? && data[i].ageRange.value in selected)
  {
    seq(|data|, i requires 0 <= i < |data| => InSelection(selected, data[i]))
  }

  /** `df['Gender'] == gender`. */
  function GenderMask(data: seq<Record>, gender: string): (m: seq<bool>)
    ensures |m| == |data|
    ensures forall i :: 0 <= i < |data| ==> (m[i] <==> data[i].gender == gender)
  {
    seq(|data|, i requires 0 <= i < |data| => data[i].gender == gender)
  }

  /**
   * `f[mask]`: the rows whose index selects `True` in the mask, in order. Pandas raises
   * when the mask has no entry for an index of the frame; callers here never do that.
   */
  function Where(f: seq<Row>, mask: seq<bool>): (r: seq<Row>)
    requires forall row :: row in f ==> row.index < |mask|
    ensures forall row :: row in r <==> row in f && mask[row.index]
    ensures |r| <= |f|
  {
    if f == [] then []
    else
      var tail := f[1..];
      var rest := Where(tail, mask);
      assert forall row :: row in f <==> row == f[0] || row in tail;
      if mask[f[0].index] then
        var r := [f[0]] + rest;
        r
      else
        rest
  }

  /** Selection keeps the frame's order: ascending index labels stay ascending. */
  lemma {:induction false} WhereAscending(f: seq<Row>, mask: seq<bool>)
    requires forall row :: row in f ==> row.index < |mask|
    requires Ascending(f)
    ensures Ascending(Where(f, mask))
  {
    if f != [] {
      var tail := f[1..];
      AscendingTail(f);
      WhereAscending(tail, mask);
      var rest := Where(tail, mask);
      if mask[f[0].index] {
        forall row | row in rest ensures f[0].index < row.index {
          var j :| 0 <= j < |tail| && tail[j] == row;
          assert f[j + 1] == row;
        }
        ConsAscending(f[0], rest);
      }
    }
  }

  lemma AscendingTail(f: seq<Row>)
    requires f != [] && Ascending(f)
    ensures Ascending(f[1..])
  {
    forall k, l | 0 <= k < l < |f| - 1 ensures f[1..][k].index < f[1..][l].index {
      assert f[1..][k] == f[k + 1] && f[1..][l] == f[l + 1];
    }
  }

  lemma ConsAscending(x: Row, s: seq<Row>)
    requires Ascending(s) && forall row :: row in s ==> x.index < row.index
    ensures Ascending([x] + s)
  {
    var r := [x] + s;
    forall k, l | 0 <= k < l < |r| ensures r[k].index < r[l].index {
      assert r[l] == s[l - 1] && r[l] in s;
      if k > 0 {
        assert r[k] == s[k - 1];
      }
    }
  }

  /** A mask that selects no row of the frame leaves it empty. */
  lemma {:induction false} WhereNoneSelected(f: seq<Row>, mask: seq<bool>)
    requires forall row :: row in f ==> row.index < |mask| && !mask[row.index]
    ensures Where(f, mask) == []
  {
    if f != [] {
      WhereNoneSelected(f[1..], mask);
    }
  }

  /** A mask that selects every row of the frame changes nothing. */
  lemma {:induction false} WhereAllSelected(f: seq<Row>, mask: seq<bool>)
    requires forall row :: row in f ==> row.index < |mask| && mask[row.index]
    ensures Where(f, mask) == f
  {
    if f != [] {
      WhereAllSelected(f[1..], mask);
    }
  }

  /** Whether the dashboard keeps a record for the gender choice and the ticked age ranges. */
  predicate Keep(gender: string, selected: seq<string>, r: Record)
  {
    InSelection(selected, r) && (gender == "Both" || r.gender == gender)
  }

  /**
   * The filter of `update_graph1` to `update_graph4`: the age-range mask alone for
   * 'Both', otherwise the gender mask and then the age-range mask, both computed on
   * the whole dataset. The result is an order-preserving selection of the dataset's
   * rows with their original index labels, and a row is in it exactly when Keep holds.
   */
  function Filtered(data: seq<Record>, gender: string, selected: seq<string>): (r: seq<Row>)
    ensures Ascending(r)
    ensures |r| <= |data|
    ensures forall row :: row in r <==>
      row.index < |data| && row.rec == data[row.index] && Keep(gender, selected, row.rec)
  {
    var frame := Frame(data);
    var isin := IsinMask(data, selected);
    assert forall row :: row in frame <==> row.index < |data| && row.rec == data[row.index] by {
      forall row ensures row in frame <==> row.index < |data| && row.rec == data[row.index] {
        if row.index < |data| && row.rec == data[row.index] {
          assert frame[row.index] == row;
        }
      }
    }
    assert Ascending(frame);
    if gender == "Both" then
      WhereAscending(frame, isin);
      Where(frame, isin)
    else
      var byGender := Where(frame, GenderMask(data, gender));
      WhereAscending(frame, GenderMask(data, gender));
      WhereAscending(byGender, isin);
      Where(byGender, isin)
  }

  /** With 'Both', a row survives exactly when its Age Range is ticked. */
  lemma FilterBoth(data: seq<Record>, selected: seq<string>, i: nat)
    requires i < |data|
    ensures Row(i, data[i]) in Filtered(data, "Both", selected) <==> InSelection(selected, data[i])
  {
  }

  /** Any other gender value: a row survives exactly when both its gender and its Age Range match. */
  lemma FilterGender(data: seq<Record>, gender: string, selected: seq<string>, i: nat)
    requires gender != "Both" && i < |data|
    ensures Row(i, data[i]) in Filtered(data, gender, selected) <==>
      data[i].gender == gender && InSelection(selected, data[i])
  {
  }

  /** When no record qualifies, the filter yields no rows. */
  lemma NoneKept(data: seq<Record>, gender: string, selected: seq<string>)
    requires forall i :: 0 <= i < |data| ==> !Keep(gender, selected, data[i])
    ensures Filtered(data, gender, selected) == []
  {
    var isin := IsinMask(data, selected);
    if gender == "Both" {
      WhereNoneSelected(Frame(data), isin);
    } else {
      WhereNoneSelected(Where(Frame(data), GenderMask(data, gender)), isin);
    }
  }

  /** Nothing ticked: no rows. */
  lemma EmptySelection(data: seq<Record>, gender: string)
    ensures Filtered(data, gender, []) == []
  {
    NoneKept(data, gender, []);
  }

  /** A gender that no row carries: no rows. */
  lemma AbsentGender(data: seq<Record>, gender: string, selected: seq<string>)
    requires gender != "Both"
    requires forall i :: 0 <= i < |data| ==> data[i].gender != gender
    ensures Filtered(data, gender, selected) == []
  {
    NoneKept(data, gender, selected);
  }

  /** 'Both' with every row's Age Range ticked keeps the whole dataset, in order. */
  lemma {:induction false} AllSelected(data: seq<Record>, selected: seq<string>)
    requires forall i :: 0 <= i < |data| ==> InSelection(selected, data[i])
    ensures Filtered(data, "Both", selected) == Frame(data)
    ensures RecordsOf(Filtered(data, "Both", selected)) == data
  {
    WhereAllSelected(Frame(data), IsinMask(data, selected));
  }
}
