/**
 * The preprocessing script: `pd.cut(df['Age'], bins, labels, right=False)` with the
 * literal edges 18, 28, ..., 78 and six labels, stored as the new Age Range column.
 */
module AgeBuckets {
  import opened Wrappers
  import opened Sequences
  import opened Records

  const Bins: seq<int> := [18, 28, 38, 48, 58, 68, 78]
  const Labels: seq<string> := ["18-27", "28-37", "38-47", "48-57", "58-67", "68-77"]

  predicate StrictlyIncreasing(s: seq<int>)
  {
    forall i, j :: 0 <= i < j < |s| ==> s[i] < s[j]
  }

  /**
   * `edges.searchsorted(x, side='right')`: the position after the last edge that is
   * at or below `x`, found by scanning the edges from the left.
   */
  function SearchSortedRight(edges: seq<int>, x: int): (k: nat)
    ensures k <= |edges|
    ensures forall i :: 0 <= i < k ==> edges[i] <= x
    ensures StrictlyIncreasing(edges) ==> forall i :: k <= i < |edges| ==> x < edges[i]
  {
    if edges == [] || x < edges[0] then 0
    else 1 + SearchSortedRight(edges[1..], x)
  }

  /**
   * The bin that `pd.cut(..., right=False)` gives `x`: the searchsorted position minus
   * one, or missing when that position is 0 (below the first edge) or the number of
   * edges (at or above the last edge).
   */
  function BinIndex(edges: seq<int>, x: int): (r: Option<nat>)
    requires StrictlyIncreasing(edges)
    ensures r.Some? ==> r.value + 1 < |edges| && edges[r.value] <= x < edges[r.value + 1]
    ensures forall i :: 0 <= i && i + 1 < |edges| && edges[i] <= x < edges[i + 1] ==> r == Some(i)
    ensures r.None? <==> |edges| < 2 || x < edges[0] || edges[|edges| - 1] <= x
  {
    var k := SearchSortedRight(edges, x);
    if k == 0 || k == |edges| then None else Some(k - 1)
  }

  lemma BinsAreValid()
    ensures StrictlyIncreasing(Bins)
    ensures |Labels| == |Bins| - 1
    ensures NoDuplicates(Labels)
  {
  }

  /**
   * The Age Range label of an age (`None` is pandas' NaN): the label of the bin that
   * holds it, and missing outside [first edge, last edge).
   */
  function AgeRange(age: int): (r: Option<string>)
    ensures forall i :: 0 <= i < |Labels| && Bins[i] <= age < Bins[i + 1] ==> r == Some(Labels[i])
    ensures r.None? <==> age < Bins[0] || Bins[|Bins| - 1] <= age
  {
    BinsAreValid();
    match BinIndex(Bins, age)
    case None => None
    case Some(i) => Some(Labels[i])
  }

  /** Bins are half-open: an age gets label i exactly when Bins[i] <= age < Bins[i + 1]. */
  lemma AgeRangeLabel(age: int, i: nat)
    requires i < |Labels|
    ensures AgeRange(age) == Some(Labels[i]) <==> Bins[i] <= age < Bins[i + 1]
  {
    BinsAreValid();
    var r := BinIndex(Bins, age);
    if r.Some? && Labels[r.value] == Labels[i] {
      assert r.value == i;
    }
  }

  /** An age inside bin `i` carries label `i`. */
  lemma AgeRangeIn(age: int, i: nat)
    requires i < |Labels| && Bins[i] <= age < Bins[i + 1]
    ensures AgeRange(age) == Some(Labels[i])
  {
    BinsAreValid();
  }

  /** Every age in [18, 78) lies in exactly one bin, and carries that bin's label. */
  lemma AgeRangeExactlyOne(age: int)
    requires 18 <= age < 78
    ensures exists i :: 0 <= i < |Labels| && Bins[i] <= age < Bins[i + 1] && AgeRange(age) == Some(Labels[i])
    ensures forall i, j ::
      0 <= i < |Labels| && 0 <= j < |Labels| && Bins[i] <= age < Bins[i + 1] && Bins[j] <= age < Bins[j + 1]
      ==> i == j
  {
    BinsAreValid();
    var i := BinIndex(Bins, age).value;
    assert Bins[i] <= age < Bins[i + 1] && AgeRange(age) == Some(Labels[i]);
  }

  /** Ages below 18, or 78 and above, get no label. */
  lemma AgeRangeMissing(age: int)
    ensures AgeRange(age).None? <==> age < 18 || 78 <= age
    ensures AgeRange(age).Some? ==> AgeRange(age).value in Labels
  {
    BinsAreValid();
  }

  /**
   * The edges themselves: each bin's left edge is in the bin, the age just below its
   * right edge too (so 18 and 27 are "18-27", 28 is "28-37"); below the first edge and
   * from the last edge on there is no label (17 and 78).
   */
  lemma AgeRangeEdges()
    ensures forall i :: 0 <= i < |Labels| ==>
      AgeRange(Bins[i]) == Some(Labels[i]) && AgeRange(Bins[i + 1] - 1) == Some(Labels[i])
    ensures AgeRange(Bins[0] - 1) == None && AgeRange(Bins[|Bins| - 1]) == None
  {
    forall i | 0 <= i < |Labels|
      ensures AgeRange(Bins[i]) == Some(Labels[i]) && AgeRange(Bins[i + 1] - 1) == Some(Labels[i])
    {
      AgeRangeIn(Bins[i], i);
      AgeRangeIn(Bins[i + 1] - 1, i);
    }
  }

  /** The searchsorted position never decreases as `x` grows. */
  lemma {:induction false} SearchSortedRightMonotone(edges: seq<int>, x: int, y: int)
    requires x <= y
    ensures SearchSortedRight(edges, x) <= SearchSortedRight(edges, y)
    decreases |edges|
  {
    if edges != [] && edges[0] <= x {
      SearchSortedRightMonotone(edges[1..], x, y);
    }
  }

  /** Labelling is monotone: an older customer never falls in an earlier bin. */
  lemma AgeBinMonotone(a: int, b: int)
    requires a <= b
    requires BinIndex(Bins, a).Some? && BinIndex(Bins, b).Some?
    ensures BinIndex(Bins, a).value <= BinIndex(Bins, b).value
  {
    SearchSortedRightMonotone(Bins, a, b);
  }

  /** The row with the Age Range column added. */
  function WithAgeRange(row: SurveyRow): Record
  {
    Record(row.gender, row.age, AgeRange(row.age), row.subscription, row.color, row.season, row.size)
  }

  /** `df['Age Range'] = pd.cut(...)`: one label per row; rows and other columns unchanged. */
  function AddAgeRange(rows: seq<SurveyRow>): (r: seq<Record>)
    ensures |r| == |rows|
    ensures forall i :: 0 <= i < |rows| ==>
      && r[i].ageRange == AgeRange(rows[i].age)
      && r[i].gender == rows[i].gender && r[i].age == rows[i].age
      && r[i].subscription == rows[i].subscription && r[i].color == rows[i].color
      && r[i].season == rows[i].season && r[i].size == rows[i].size
  {
    seq(|rows|, i requires 0 <= i < |rows| => WithAgeRange(rows[i]))
  }
}
