/** Generic sequence facts used by the pandas operations of the dashboard. */
module Sequences {

  /** No element occurs twice. */
  predicate NoDuplicates<T(==)>(s: seq<T>)
  {
    forall i, j :: 0 <= i < j < |s| ==> s[i] != s[j]
  }

  /** `a` occurs in `s` before the first occurrence of `b`. */
  predicate AppearsBefore<T(==)>(s: seq<T>, a: T, b: T)
  {
    exists k :: 0 <= k < |s| && s[k] == a && b !in s[..k + 1]
  }

  /** Some occurrence of `a` in `s` comes strictly before some occurrence of `b`. */
  predicate Precedes<T(==)>(s: seq<T>, a: T, b: T)
  {
    exists p, q :: 0 <= p < q < |s| && s[p] == a && s[q] == b
  }

  /** An order that holds in the tail of a sequence holds in the whole sequence. */
  lemma PrecedesTail<T>(s: seq<T>, a: T, b: T)
    requires s != [] && Precedes(s[1..], a, b)
    ensures Precedes(s, a, b)
  {
    var p, q :| 0 <= p < q < |s[1..]| && s[1..][p] == a && s[1..][q] == b;
    assert s[p + 1] == a && s[q + 1] == b;
  }

  /**
   * `Series.unique()`: the distinct values, in order of first appearance: of two
   * values of the result, the earlier one occurs in `s` before the later one first does.
   */
  function Distinct<T(==,!new)>(s: seq<T>): (d: seq<T>)
    ensures forall x :: x in d <==> x in s
    ensures NoDuplicates(d)
    ensures |d| <= |s|
    ensures forall i, j :: 0 <= i < j < |d| ==> AppearsBefore(s, d[i], d[j])
  {
    if s == [] then []
    else
      var init := s[..|s| - 1];
      var d := Distinct(init);
      var x := s[|s| - 1];
      assert s == init + [x];
      var r := if x in d then d else d + [x];
      assert forall i, j :: 0 <= i < j < |r| ==> AppearsBefore(s, r[i], r[j]) by {
        forall i, j | 0 <= i < j < |r| ensures AppearsBefore(s, r[i], r[j]) {
          if j < |d| {
            assert AppearsBefore(init, d[i], d[j]);
            var k :| 0 <= k < |init| && init[k] == d[i] && d[j] !in init[..k + 1];
            assert s[..k + 1] == init[..k + 1];
            assert s[k] == r[i] && r[j] !in s[..k + 1];
          } else {
            assert d[i] in init;
            var k :| 0 <= k < |init| && init[k] == d[i];
            assert s[..k + 1] == init[..k + 1];
            assert s[k] == r[i] && r[j] !in s[..k + 1];
          }
        }
      }
      r
  }

  /** The position of the first occurrence of `x` in `s`. */
  lemma {:induction false} FirstOccurrence<T>(s: seq<T>, x: T) returns (k: nat)
    requires x in s
    ensures k < |s| && s[k] == x && x !in s[..k]
  {
    if s[0] == x {
      k := 0;
    } else {
      var k' := FirstOccurrence(s[1..], x);
      k := k' + 1;
      assert s[..k] == [s[0]] + s[1..][..k'];
    }
  }
}
