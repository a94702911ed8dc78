/**
 * The colour map of the colour chart: the distinct item colours, without 'Charcoal'
 * and 'Peach', each looked up by its lower-case name in a name-to-colour table
 * (matplotlib's CSS4 table, a parameter here), then the two fixed overrides added.
 */
module ColorMap {
  import opened Wrappers
  import opened Sequences
  import opened PyStrings
  import opened Records

  const Charcoal: string := "Charcoal"
  const Peach: string := "Peach"
  const CharcoalRgb: string := "rgb(54, 69, 79)"
  const PeachRgb: string := "rgb(255, 218, 185)"

  /** `list.remove` raises ValueError; a dictionary lookup raises KeyError. */
  datatype ColorError = NotInList(name: string) | UnknownColor(key: string)

  /** `xs.remove(x)`: `None` when `x` does not occur, else `xs` without its first `x`. */
  function RemoveFirst(xs: seq<string>, x: string): (r: Option<seq<string>>)
    ensures r.None? <==> x !in xs
    ensures r.Some? ==> |r.value| + 1 == |xs|
  {
    if xs == [] then None
    else if xs[0] == x then Some(xs[1..])
    else
      match RemoveFirst(xs[1..], x)
      case None => None
      case Some(rest) => Some([xs[0]] + rest)
  }

  /** Removal cuts out the first occurrence: the one at `i` when no earlier element is `x`. */
  lemma {:induction false} RemoveFirstAt(xs: seq<string>, x: string, i: nat)
    requires i < |xs| && xs[i] == x && x !in xs[..i]
    ensures RemoveFirst(xs, x) == Some(xs[..i] + xs[i + 1..])
  {
    if i == 0 {
      assert xs[..i] + xs[i + 1..] == xs[1..];
    } else {
      var tail := xs[1..];
      assert xs[..i] == [xs[0]] + tail[..i - 1];
      RemoveFirstAt(tail, x, i - 1);
      assert xs[i + 1..] == tail[i..];
      assert xs[..i] + xs[i + 1..] == [xs[0]] + (tail[..i - 1] + tail[i..]);
    }
  }

  /** On a list without repetitions, removal leaves exactly the other elements. */
  lemma RemoveFirstElements(xs: seq<string>, x: string)
    requires NoDuplicates(xs) && x in xs
    ensures RemoveFirst(xs, x).Some?
    ensures NoDuplicates(RemoveFirst(xs, x).value)
    ensures forall y :: y in RemoveFirst(xs, x).value <==> y in xs && y != x
  {
    var i := FirstOccurrence(xs, x);
    RemoveFirstAt(xs, x, i);
    var r := xs[..i] + xs[i + 1..];
    forall p | 0 <= p < |r| ensures r[p] == xs[if p < i then p else p + 1] {
      RemovedAt(xs, i, p);
    }
    forall p, q | 0 <= p < q < |r| ensures r[p] != r[q] {
      assert r[p] == xs[if p < i then p else p + 1];
      assert r[q] == xs[if q < i then q else q + 1];
    }
    forall y | y in r ensures y in xs && y != x {
      var p :| 0 <= p < |r| && r[p] == y;
      assert r[p] == xs[if p < i then p else p + 1];
    }
    forall y | y in xs && y != x ensures y in r {
      var k :| 0 <= k < |xs| && xs[k] == y;
      var p := if k < i then k else k - 1;
      assert r[p] == xs[k];
    }
  }

  /**
   * `{name: css4[name.lower()] for name in names}`, built left to right; the first
   * name whose lower-case form is not in the table raises KeyError.
   */
  function LookupAll(names: seq<string>, css4: map<string, string>): (r: Result<map<string, string>, ColorError>)
    ensures r.Failure? ==> r.error.UnknownColor? && r.error.key !in css4
  {
    if names == [] then Success(map[])
    else
      var init := names[..|names| - 1];
      var last := names[|names| - 1];
      assert names == init + [last];
      match LookupAll(init, css4)
      case Failure(e) => Failure(e)
      case Success(m) =>
        if Lower(last) in css4 then Success(m[last := css4[Lower(last)]])
        else Failure(UnknownColor(Lower(last)))
  }

  lemma {:induction false} LookupAllSpec(names: seq<string>, css4: map<string, string>)
    ensures LookupAll(names, css4).Success? <==> forall n :: n in names ==> Lower(n) in css4
    ensures LookupAll(names, css4).Success? ==> LookupAll(names, css4).value.Keys == set n | n in names
    ensures LookupAll(names, css4).Success? ==>
      forall n :: n in names ==> LookupAll(names, css4).value[n] == css4[Lower(n)]
  {
    if names != [] {
      var init := names[..|names| - 1];
      assert names == init + [names[|names| - 1]];
      LookupAllSpec(init, css4);
    }
  }

  /**
   * The comprehension raises for the first name, in list order, whose lower-case form
   * is not in the table: every earlier name was found.
   */
  lemma {:induction false} LookupAllFirstMissing(names: seq<string>, css4: map<string, string>)
    requires LookupAll(names, css4).Failure?
    ensures exists k ::
      && 0 <= k < |names|
      && LookupAll(names, css4).error == UnknownColor(Lower(names[k]))
      && Lower(names[k]) !in css4
      && forall j :: 0 <= j < k ==> Lower(names[j]) in css4
  {
    var init := names[..|names| - 1];
    var last := names[|names| - 1];
    assert names == init + [last];
    if LookupAll(init, css4).Failure? {
      LookupAllFirstMissing(init, css4);
      var k :| 0 <= k < |init| && LookupAll(init, css4).error == UnknownColor(Lower(init[k])) &&
        Lower(init[k]) !in css4 && forall j :: 0 <= j < k ==> Lower(init[j]) in css4;
      assert names[k] == init[k];
      assert forall j :: 0 <= j < k ==> names[j] == init[j];
    } else {
      LookupAllSpec(init, css4);
      var k := |names| - 1;
      assert forall j :: 0 <= j < k ==> names[j] in init;
    }
  }

  /** Removing an element keeps the others in their order. */
  lemma RemoveFirstOrder(xs: seq<string>, x: string, s: seq<string>)
    requires x in xs
    requires forall i, j :: 0 <= i < j < |xs| ==> AppearsBefore(s, xs[i], xs[j])
    ensures RemoveFirst(xs, x).Some?
    ensures forall i, j :: 0 <= i < j < |RemoveFirst(xs, x).value| ==>
      AppearsBefore(s, RemoveFirst(xs, x).value[i], RemoveFirst(xs, x).value[j])
  {
    var i := FirstOccurrence(xs, x);
    RemoveFirstAt(xs, x, i);
    var r := xs[..i] + xs[i + 1..];
    forall p, q | 0 <= p < q < |r| ensures AppearsBefore(s, r[p], r[q]) {
      var p' := if p < i then p else p + 1;
      var q' := if q < i then q else q + 1;
      RemovedAt(xs, i, p);
      RemovedAt(xs, i, q);
      assert AppearsBefore(s, xs[p'], xs[q']);
    }
  }

  /** Cutting out position `i` shifts the later elements down by one. */
  lemma RemovedAt(xs: seq<string>, i: nat, p: nat)
    requires i < |xs| && p < |xs| - 1
    ensures (xs[..i] + xs[i + 1..])[p] == xs[if p < i then p else p + 1]
  {
    if p < i {
      assert (xs[..i] + xs[i + 1..])[p] == xs[..i][p];
    } else {
      assert (xs[..i] + xs[i + 1..])[p] == xs[i + 1..][p - i];
    }
  }

  /**
   * The colours of the dataset, `shopping_df['Color'].unique().tolist()`: each once, in
   * order of first appearance in the colour column.
   */
  function DatasetColors(data: seq<Record>): (cs: seq<string>)
    ensures NoDuplicates(cs)
    ensures forall c :: c in cs <==> c in Column(data, Color)
    ensures forall i, j :: 0 <= i < j < |cs| ==> AppearsBefore(Column(data, Color), cs[i], cs[j])
  {
    Distinct(Column(data, Color))
  }

  /**
   * What building `color_mapping` yields: the mapping, in which the two overrides win,
   * or the exception raised, which names an override the dataset lacks or a lower-case
   * name the table lacks.
   */
  function ColorMapping(data: seq<Record>, css4: map<string, string>): (r: Result<map<string, string>, ColorError>)
    ensures r.Success? ==>
      && Charcoal in r.value && r.value[Charcoal] == CharcoalRgb
      && Peach in r.value && r.value[Peach] == PeachRgb
    ensures r.Failure? ==>
      || (r.error.NotInList? && r.error.name !in Column(data, Color))
      || (r.error.UnknownColor? && r.error.key !in css4)
  {
    var colors := DatasetColors(data);
    assert Charcoal in colors && Peach !in RemoveFirst(colors, Charcoal).value ==> Peach !in colors by {
      if Charcoal in colors {
        RemoveFirstElements(colors, Charcoal);
      }
    }
    match RemoveFirst(colors, Charcoal)
    case None => Failure(NotInList(Charcoal))
    case Some(withoutCharcoal) =>
      match RemoveFirst(withoutCharcoal, Peach)
      case None => Failure(NotInList(Peach))
      case Some(rest) =>
        match LookupAll(rest, css4)
        case Failure(e) => Failure(e)
        case Success(m) => Success(m[Charcoal := CharcoalRgb][Peach := PeachRgb])
  }

  /** `colors.remove(x)` on the list being built: the scan for the first `x`. */
  method Remove(xs: seq<string>, x: string) returns (r: Option<seq<string>>)
    ensures r == RemoveFirst(xs, x)
  {
    var i := 0;
    while i < |xs| && xs[i] != x
      invariant 0 <= i <= |xs|
      invariant x !in xs[..i]
    {
      assert xs[..i + 1] == xs[..i] + [xs[i]];
      i := i + 1;
    }
    if i == |xs| {
      assert xs[..i] == xs;
      return None;
    }
    RemoveFirstAt(xs, x, i);
    r := Some(xs[..i] + xs[i + 1..]);
  }

  /**
   * The dictionary comprehension, name by name: the first name whose lower-case form is
   * missing from the table raises KeyError.
   */
  method LookupEach(names: seq<string>, css4: map<string, string>)
    returns (r: Result<map<string, string>, ColorError>)
    ensures r == LookupAll(names, css4)
  {
    var mapping: map<string, string> := map[];
    var i := 0;
    while i < |names|
      invariant 0 <= i <= |names|
      invariant LookupAll(names[..i], css4) == Success(mapping)
    {
      var name := names[i];
      assert names[..i + 1] == names[..i] + [name];
      assert names[..i + 1][..i] == names[..i];
      if Lower(name) !in css4 {
        LookupAllFailurePersists(names, i + 1, css4);
        return Failure(UnknownColor(Lower(name)));
      }
      mapping := mapping[name := css4[Lower(name)]];
      i := i + 1;
    }
    assert names[..i] == names;
    r := Success(mapping);
  }

  /**
   * Builds `color_mapping` as app.py does at start-up: the two `remove` calls, the
   * dictionary comprehension, then `update` with the two overrides.
   */
  method BuildColorMapping(data: seq<Record>, css4: map<string, string>)
    returns (r: Result<map<string, string>, ColorError>)
    ensures r == ColorMapping(data, css4)
  {
    var colors := DatasetColors(data);
    var removed := Remove(colors, Charcoal);
    if removed.None? {
      return Failure(NotInList(Charcoal));
    }
    colors := removed.value;
    removed := Remove(colors, Peach);
    if removed.None? {
      return Failure(NotInList(Peach));
    }
    colors := removed.value;
    var looked := LookupEach(colors, css4);
    if looked.Failure? {
      return Failure(looked.error);
    }
    var mapping := looked.value;
    mapping := mapping[Charcoal := CharcoalRgb];
    mapping := mapping[Peach := PeachRgb];
    r := Success(mapping);
  }

  /** Once the comprehension has raised on a prefix, it raises the same on the whole list. */
  lemma {:induction false} LookupAllFailurePersists(names: seq<string>, k: nat, css4: map<string, string>)
    requires k <= |names| && LookupAll(names[..k], css4).Failure?
    ensures LookupAll(names, css4) == LookupAll(names[..k], css4)
    decreases |names| - k
  {
    if k < |names| {
      assert names[..k + 1][..k] == names[..k];
      LookupAllFailurePersists(names, k + 1, css4);
    } else {
      assert names[..k] == names;
    }
  }

  /** Every colour of the dataset gets an entry, and nothing else does. */
  lemma ColorMappingComplete(data: seq<Record>, css4: map<string, string>)
    requires ColorMapping(data, css4).Success?
    ensures ColorMapping(data, css4).value.Keys == set c | c in Column(data, Color)
  {
    var colors := DatasetColors(data);
    RemoveFirstElements(colors, Charcoal);
    var c1 := RemoveFirst(colors, Charcoal).value;
    RemoveFirstElements(c1, Peach);
    LookupAllSpec(RemoveFirst(c1, Peach).value, css4);
  }

  /** The overrides win; every other colour gets the table's entry for its lower-case name. */
  lemma ColorMappingValues(data: seq<Record>, css4: map<string, string>, c: string)
    requires ColorMapping(data, css4).Success?
    requires c in Column(data, Color)
    ensures c in ColorMapping(data, css4).value
    ensures c == Charcoal ==> ColorMapping(data, css4).value[c] == CharcoalRgb
    ensures c == Peach ==> ColorMapping(data, css4).value[c] == PeachRgb
    ensures c != Charcoal && c != Peach ==>
      Lower(c) in css4 && ColorMapping(data, css4).value[c] == css4[Lower(c)]
  {
    var colors := DatasetColors(data);
    RemoveFirstElements(colors, Charcoal);
    var c1 := RemoveFirst(colors, Charcoal).value;
    RemoveFirstElements(c1, Peach);
    LookupAllSpec(RemoveFirst(c1, Peach).value, css4);
  }

  /**
   * The build succeeds exactly when both override names occur among the dataset's
   * colours and every other colour's lower-case name is in the table.
   */
  lemma ColorMappingSucceeds(data: seq<Record>, css4: map<string, string>)
    ensures ColorMapping(data, css4).Success? <==>
      && Charcoal in Column(data, Color)
      && Peach in Column(data, Color)
      && forall c :: c in Column(data, Color) && c != Charcoal && c != Peach ==> Lower(c) in css4
  {
    var colors := DatasetColors(data);
    if Charcoal in colors {
      RemoveFirstElements(colors, Charcoal);
      var c1 := RemoveFirst(colors, Charcoal).value;
      if Peach in c1 {
        RemoveFirstElements(c1, Peach);
        LookupAllSpec(RemoveFirst(c1, Peach).value, css4);
      }
    }
  }

  /** 'Charcoal' is removed first: without it the build raises for 'Charcoal', else without 'Peach' for 'Peach'. */
  lemma ColorMappingMissingOverride(data: seq<Record>, css4: map<string, string>)
    ensures Charcoal !in Column(data, Color) ==> ColorMapping(data, css4) == Failure(NotInList(Charcoal))
    ensures Charcoal in Column(data, Color) && Peach !in Column(data, Color) ==>
      ColorMapping(data, css4) == Failure(NotInList(Peach))
  {
    var colors := DatasetColors(data);
    if Charcoal in colors {
      RemoveFirstElements(colors, Charcoal);
    }
  }

  /** A colour the build can resolve: one of the two overrides, or a name found in the table. */
  predicate Resolves(css4: map<string, string>, c: string)
  {
    c == Charcoal || c == Peach || Lower(c) in css4
  }

  /**
   * Of names kept in order of first appearance in `column`, the first unresolvable one
   * (`rest[m]`) first appears after every row whose colour is unresolvable.
   */
  lemma FirstUnresolvedRow(column: seq<string>, rest: seq<string>, css4: map<string, string>, m: nat)
    returns (k: nat)
    requires forall i, j :: 0 <= i < j < |rest| ==> AppearsBefore(column, rest[i], rest[j])
    requires forall c :: c in column && !Resolves(css4, c) ==> c in rest
    requires m < |rest| && rest[m] in column
    requires forall j :: 0 <= j < m ==> Lower(rest[j]) in css4
    ensures k < |column| && column[k] == rest[m]
    ensures forall j :: 0 <= j < k ==> Resolves(css4, column[j])
  {
    var c := rest[m];
    k := FirstOccurrence(column, c);
    forall j | 0 <= j < k ensures Resolves(css4, column[j]) {
      assert column[..k][j] == column[j];
      NotBefore(column, c, k, j);
    }
  }

  /** A value at a position before the first occurrence of `c` does not come after `c`. */
  lemma NotBefore(column: seq<string>, c: string, k: nat, j: nat)
    requires k < |column| && column[k] == c && c !in column[..k] && j < k
    ensures !AppearsBefore(column, c, column[j])
  {
    forall k' | 0 <= k' < |column| && column[k'] == c ensures column[j] in column[..k' + 1] {
      assert forall i :: 0 <= i < k ==> column[..k][i] == column[i];
      assert k <= k';
      assert column[..k' + 1][j] == column[j];
    }
  }

  /**
   * With both overrides present, the KeyError names the colour of the first row, in
   * file order, whose colour the build cannot resolve.
   */
  lemma ColorMappingFirstUnknown(data: seq<Record>, css4: map<string, string>)
    requires Charcoal in Column(data, Color) && Peach in Column(data, Color)
    requires ColorMapping(data, css4).Failure?
    ensures exists k ::
      && 0 <= k < |data|
      && !Resolves(css4, data[k].color)
      && ColorMapping(data, css4).error == UnknownColor(Lower(data[k].color))
      && forall j :: 0 <= j < k ==> Resolves(css4, data[j].color)
  {
    var column := Column(data, Color);
    var colors := DatasetColors(data);
    RemoveFirstElements(colors, Charcoal);
    RemoveFirstOrder(colors, Charcoal, column);
    var c1 := RemoveFirst(colors, Charcoal).value;
    RemoveFirstElements(c1, Peach);
    RemoveFirstOrder(c1, Peach, column);
    var rest := RemoveFirst(c1, Peach).value;
    assert LookupAll(rest, css4).Failure?;
    LookupAllFirstMissing(rest, css4);
    var m :|
      && 0 <= m < |rest|
      && LookupAll(rest, css4).error == UnknownColor(Lower(rest[m]))
      && Lower(rest[m]) !in css4
      && forall j :: 0 <= j < m ==> Lower(rest[j]) in css4;
    assert rest[m] in rest;
    var k := FirstUnresolvedRow(column, rest, css4, m);
    assert forall j :: 0 <= j < k ==> data[j].color == column[j];
    assert data[k].color == rest[m];
  }
}
