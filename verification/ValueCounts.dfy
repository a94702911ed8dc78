/**
 * `Series.value_counts()`: one entry per distinct value with the number of rows that
 * hold it, most frequent first. Values are tallied in order of first appearance and
 * then ordered by a stable sort on descending count.
 */
module ValueCounts {

  datatype Entry = Entry(value: string, count: nat)

  /** The values listed in a table. */
  function Keys(t: seq<Entry>): set<string>
  {
    if t == [] then {} else {t[0].value} + Keys(t[1..])
  }

  /** No value is listed twice. */
  predicate DistinctKeys(t: seq<Entry>)
  {
    t == [] || (t[0].value !in Keys(t[1..]) && DistinctKeys(t[1..]))
  }

  predicate Positive(t: seq<Entry>)
  {
    forall e :: e in t ==> e.count >= 1
  }

  predicate NonIncreasing(t: seq<Entry>)
  {
    forall i, j :: 0 <= i < j < |t| ==> t[i].count >= t[j].count
  }

  /** The sum of the Count column. */
  function Sum(t: seq<Entry>): nat
  {
    if t == [] then 0 else t[0].count + Sum(t[1..])
  }

  /** The count listed for `v`, or 0 when `v` is not listed. */
  function CountOf(t: seq<Entry>, v: string): nat
  {
    if t == [] then 0 else if t[0].value == v then t[0].count else CountOf(t[1..], v)
  }

  lemma {:induction false} KeysMembership(t: seq<Entry>, v: string)
    ensures v in Keys(t) <==> exists e :: e in t && e.value == v
  {
    if t != [] {
      KeysMembership(t[1..], v);
      assert forall e :: e in t <==> e == t[0] || e in t[1..];
    }
  }

  /** Tallies one more occurrence of `v`. */
  function Add(t: seq<Entry>, v: string): (r: seq<Entry>)
    ensures Keys(r) == Keys(t) + {v}
    ensures Sum(r) == Sum(t) + 1
    ensures forall w :: CountOf(r, w) == CountOf(t, w) + (if w == v then 1 else 0)
  {
    if t == [] then [Entry(v, 1)]
    else if t[0].value == v then [Entry(v, t[0].count + 1)] + t[1..]
    else [t[0]] + Add(t[1..], v)
  }

  lemma {:induction false} AddDistinctPositive(t: seq<Entry>, v: string)
    requires DistinctKeys(t) && Positive(t)
    ensures DistinctKeys(Add(t, v)) && Positive(Add(t, v))
  {
    if t != [] && t[0].value != v {
      AddDistinctPositive(t[1..], v);
      var r := Add(t, v);
      assert r[1..] == Add(t[1..], v);
    }
  }

  /** The counts of `xs` before sorting, in order of first appearance. */
  function Tally(xs: seq<string>): (t: seq<Entry>)
    ensures Keys(t) == set x | x in xs
    ensures Sum(t) == |xs|
    ensures forall w :: CountOf(t, w) == multiset(xs)[w]
  {
    if xs == [] then []
    else
      var init := xs[..|xs| - 1];
      assert xs == init + [xs[|xs| - 1]];
      Add(Tally(init), xs[|xs| - 1])
  }

  lemma {:induction false} TallyDistinctPositive(xs: seq<string>)
    ensures DistinctKeys(Tally(xs)) && Positive(Tally(xs))
  {
    if xs != [] {
      TallyDistinctPositive(xs[..|xs| - 1]);
      AddDistinctPositive(Tally(xs[..|xs| - 1]), xs[|xs| - 1]);
    }
  }

  /** With distinct keys, CountOf finds each entry's own count. */
  lemma {:induction false} CountOfEntry(t: seq<Entry>, e: Entry)
    requires DistinctKeys(t) && e in t
    ensures CountOf(t, e.value) == e.count
  {
    if t[0] != e {
      assert e in t[1..];
      KeysMembership(t[1..], e.value);
      CountOfEntry(t[1..], e);
    }
  }

  /** Places `e` after every entry with at least its count (stable for equal counts). */
  function Insert(s: seq<Entry>, e: Entry): (r: seq<Entry>)
    ensures |r| == |s| + 1
    ensures forall x :: x in r <==> x == e || x in s
    ensures Keys(r) == Keys(s) + {e.value}
    ensures Sum(r) == Sum(s) + e.count
    ensures multiset(r) == multiset(s) + multiset{e}
  {
    if s == [] then [e]
    else if s[0].count >= e.count then
      assert s == [s[0]] + s[1..];
      [s[0]] + Insert(s[1..], e)
    else [e] + s
  }

  lemma {:induction false} InsertDistinct(s: seq<Entry>, e: Entry)
    requires DistinctKeys(s) && e.value !in Keys(s)
    ensures DistinctKeys(Insert(s, e))
  {
    if s != [] && s[0].count >= e.count {
      InsertDistinct(s[1..], e);
      assert Insert(s, e)[1..] == Insert(s[1..], e);
    }
  }

  lemma {:induction false} InsertNonIncreasing(s: seq<Entry>, e: Entry)
    requires NonIncreasing(s)
    ensures NonIncreasing(Insert(s, e))
  {
    if s != [] {
      forall x | x in s[1..] ensures x.count <= s[0].count {
        var j :| 0 <= j < |s[1..]| && s[1..][j] == x;
        assert s[j + 1] == x;
      }
      NonIncreasingTail(s);
      if s[0].count >= e.count {
        InsertNonIncreasing(s[1..], e);
        ConsNonIncreasing(s[0], Insert(s[1..], e));
      } else {
        ConsNonIncreasing(e, s);
      }
    }
  }

  lemma NonIncreasingTail(t: seq<Entry>)
    requires t != [] && NonIncreasing(t)
    ensures NonIncreasing(t[1..])
  {
    forall i, j | 0 <= i < j < |t| - 1 ensures t[1..][i].count >= t[1..][j].count {
      assert t[1..][i] == t[i + 1] && t[1..][j] == t[j + 1];
    }
  }

  lemma ConsNonIncreasing(x: Entry, t: seq<Entry>)
    requires NonIncreasing(t) && forall y :: y in t ==> y.count <= x.count
    ensures NonIncreasing([x] + t)
  {
    var r := [x] + t;
    forall i, j | 0 <= i < j < |r| ensures r[i].count >= r[j].count {
      assert r[j] == t[j - 1] && r[j] in t;
      if i > 0 {
        assert r[i] == t[i - 1];
      }
    }
  }

  /** Insertion sort by descending count. */
  function SortByCount(t: seq<Entry>): (r: seq<Entry>)
    ensures |r| == |t|
    ensures forall x :: x in r <==> x in t
    ensures Keys(r) == Keys(t)
    ensures Sum(r) == Sum(t)
    ensures multiset(r) == multiset(t)
  {
    if t == [] then []
    else
      var init := t[..|t| - 1];
      var last := t[|t| - 1];
      assert t == init + [last];
      SumAppend(init, last);
      KeysAppend(init, last);
      Insert(SortByCount(init), last)
  }

  lemma {:induction false} SumAppend(t: seq<Entry>, e: Entry)
    ensures Sum(t + [e]) == Sum(t) + e.count
  {
    if t != [] {
      assert (t + [e])[1..] == t[1..] + [e];
      SumAppend(t[1..], e);
    }
  }

  lemma {:induction false} KeysAppend(t: seq<Entry>, e: Entry)
    ensures Keys(t + [e]) == Keys(t) + {e.value}
  {
    if t != [] {
      assert (t + [e])[1..] == t[1..] + [e];
      KeysAppend(t[1..], e);
    }
  }

  lemma {:induction false} DistinctAppend(t: seq<Entry>, e: Entry)
    requires DistinctKeys(t + [e])
    ensures DistinctKeys(t) && e.value !in Keys(t)
  {
    if t != [] {
      assert (t + [e])[1..] == t[1..] + [e];
      KeysAppend(t[1..], e);
      DistinctAppend(t[1..], e);
    }
  }

  lemma {:induction false} SortByCountOrdered(t: seq<Entry>)
    ensures NonIncreasing(SortByCount(t))
    ensures DistinctKeys(t) ==> DistinctKeys(SortByCount(t))
  {
    if t != [] {
      var init := t[..|t| - 1];
      var last := t[|t| - 1];
      assert t == init + [last];
      SortByCountOrdered(init);
      InsertNonIncreasing(SortByCount(init), last);
      if DistinctKeys(t) {
        DistinctAppend(init, last);
        InsertDistinct(SortByCount(init), last);
      }
    }
  }

  /**
   * `value_counts()` of a column: every listed value occurs in it and is listed once,
   * with the number of its occurrences (at least one); every value of the column is
   * listed; the counts add up to the column's length; the most frequent come first.
   */
  function Count(xs: seq<string>): (r: seq<Entry>)
    ensures forall e :: e in r ==> e.count == multiset(xs)[e.value] && e.count >= 1
    ensures Keys(r) == set x | x in xs
    ensures DistinctKeys(r)
    ensures Sum(r) == |xs|
    ensures NonIncreasing(r)
  {
    var t := Tally(xs);
    TallyDistinctPositive(xs);
    SortByCountOrdered(t);
    var r := SortByCount(t);
    assert forall e :: e in r ==> e.count == multiset(xs)[e.value] by {
      forall e | e in r ensures e.count == multiset(xs)[e.value] {
        CountOfEntry(t, e);
      }
    }
    r
  }

  /** An empty column gives an empty table. */
  lemma CountEmpty()
    ensures Count([]) == []
  {
  }
}
