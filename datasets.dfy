/**
 * Dataset transformations as the corpus scripts use them, on a dataset seen
 * as the sequence of its rows: `filter` with a predicate that may raise,
 * `map` with a function that may raise, and `remove_columns`.
 */
module Datasets {
  import opened Py

  /** `ds.filter(keep)`: the rows `keep` accepts, in order; the first row it
      raises on aborts the whole filter. */
  function Filter(ds: seq<Record>, keep: Record -> Result<bool>): (r: Result<seq<Record>>)
    ensures r.Ok? ==> |r.value| <= |ds| && forall x :: x in r.value ==> x in ds && keep(x) == Ok(true)
    ensures r.Err? ==> exists k :: 0 <= k < |ds| && keep(ds[k]) == Err(r.error)
  {
    if ds == [] then Ok([])
    else
      match keep(ds[0])
      case Err(e) => Err(e)
      case Ok(b) =>
        match Filter(ds[1..], keep)
        case Err(e) => assert forall k :: 0 <= k < |ds| - 1 ==> ds[1..][k] == ds[k + 1]; Err(e)
        case Ok(rest) => Ok(if b then [ds[0]] + rest else rest)
  }

  /** `filter` raises exactly when the predicate raises on some row, and
      otherwise keeps every row the predicate accepts. */
  lemma {:induction false} FilterOkIff(ds: seq<Record>, keep: Record -> Result<bool>)
    ensures Filter(ds, keep).Ok? <==> forall k :: 0 <= k < |ds| ==> keep(ds[k]).Ok?
    ensures Filter(ds, keep).Ok? ==> forall k :: 0 <= k < |ds| && keep(ds[k]) == Ok(true) ==> ds[k] in Filter(ds, keep).value
  {
    if ds != [] {
      FilterOkIff(ds[1..], keep);
      assert forall k :: 0 < k < |ds| ==> ds[k] == ds[1..][k - 1];
    }
  }

  /** `ds.map(f)`: every row replaced by its image, in order; the first row `f`
      raises on aborts the whole map. */
  function Map(ds: seq<Record>, f: Record -> Result<Record>): (r: Result<seq<Record>>)
    ensures r.Ok? ==> |r.value| == |ds| && forall k :: 0 <= k < |ds| ==> f(ds[k]) == Ok(r.value[k])
    ensures r.Err? ==> exists k :: 0 <= k < |ds| && f(ds[k]) == Err(r.error)
  {
    if ds == [] then Ok([])
    else
      match f(ds[0])
      case Err(e) => Err(e)
      case Ok(y) =>
        match Map(ds[1..], f)
        case Err(e) => assert forall k :: 0 <= k < |ds| - 1 ==> ds[1..][k] == ds[k + 1]; Err(e)
        case Ok(rest) => Ok([y] + rest)
  }

  /** `ds.remove_columns(columns)` */
  function RemoveColumns(ds: seq<Record>, columns: set<string>): (r: seq<Record>)
    ensures |r| == |ds| && forall k :: 0 <= k < |ds| ==> r[k] == ds[k] - columns
  {
    seq(|ds|, k requires 0 <= k < |ds| => ds[k] - columns)
  }

  /** A filter, then a map, then a second filter, then a column removal. */
  function FilterMapFilter(ds: seq<Record>, first: Record -> Result<bool>, f: Record -> Result<Record>,
                           second: Record -> Result<bool>, columns: set<string>): Result<seq<Record>>
  {
    match Filter(ds, first)
    case Err(e) => Err(e)
    case Ok(kept1) =>
      match Map(kept1, f)
      case Err(e) => Err(e)
      case Ok(mapped) =>
        match Filter(mapped, second)
        case Err(e) => Err(e)
        case Ok(kept2) => Ok(RemoveColumns(kept2, columns))
  }

  /** What one input row contributes, all stages applied to it alone. */
  function Contribution(x: Record, first: Record -> Result<bool>, f: Record -> Result<Record>,
                        second: Record -> Result<bool>, columns: set<string>): Result<seq<Record>>
  {
    match first(x)
    case Err(e) => Err(e)
    case Ok(keep1) =>
      if !keep1 then Ok([])
      else
        match f(x)
        case Err(e) => Err(e)
        case Ok(y) =>
          match second(y)
          case Err(e) => Err(e)
          case Ok(keep2) => Ok(if keep2 then [y - columns] else [])
  }

  /** One row passes the stages without raising exactly when the first filter
      accepts or rejects it, and, if it accepts, the map and then the second
      filter do not raise. */
  lemma ContributionOk(x: Record, first: Record -> Result<bool>, f: Record -> Result<Record>,
                       second: Record -> Result<bool>, columns: set<string>)
    ensures Contribution(x, first, f, second, columns).Ok? <==>
              first(x).Ok? && (first(x).value ==> f(x).Ok? && second(f(x).value).Ok?)
  {
  }

  /** A row that both filters accept contributes its image without the columns. */
  lemma ContributionKept(x: Record, first: Record -> Result<bool>, f: Record -> Result<Record>,
                         second: Record -> Result<bool>, columns: set<string>)
    requires first(x) == Ok(true) && f(x).Ok? && second(f(x).value) == Ok(true)
    ensures Contribution(x, first, f, second, columns) == Ok([f(x).value - columns])
  {
  }

  /** The rows the stages keep, one input row at a time. */
  function Kept(ds: seq<Record>, first: Record -> Result<bool>, f: Record -> Result<Record>,
                second: Record -> Result<bool>, columns: set<string>): seq<Record>
  {
    if ds == [] then []
    else
      var c := Contribution(ds[0], first, f, second, columns);
      (if c.Ok? then c.value else []) + Kept(ds[1..], first, f, second, columns)
  }

  lemma FilterCons(x: Record, rest: seq<Record>, keep: Record -> Result<bool>)
    requires keep(x).Ok? && Filter(rest, keep).Ok?
    ensures Filter([x] + rest, keep) == Ok((if keep(x).value then [x] else []) + Filter(rest, keep).value)
  {
    var ds := [x] + rest;
    assert ds[0] == x && ds[1..] == rest;
    var tail := Filter(rest, keep).value;
    if keep(x).value {
      assert Filter(ds, keep) == Ok([x] + tail);
    } else {
      assert Filter(ds, keep) == Ok(tail);
      assert [] + tail == tail;
    }
  }

  lemma MapCons(x: Record, rest: seq<Record>, f: Record -> Result<Record>)
    requires f(x).Ok? && Map(rest, f).Ok?
    ensures Map([x] + rest, f) == Ok([f(x).value] + Map(rest, f).value)
  {
    assert ([x] + rest)[0] == x && ([x] + rest)[1..] == rest;
  }

  lemma FilterMapFilterCons(x: Record, rest: seq<Record>, first: Record -> Result<bool>, f: Record -> Result<Record>,
                            second: Record -> Result<bool>, columns: set<string>)
    requires Contribution(x, first, f, second, columns).Ok? && FilterMapFilter(rest, first, f, second, columns).Ok?
    ensures FilterMapFilter([x] + rest, first, f, second, columns)
            == Ok(Contribution(x, first, f, second, columns).value + FilterMapFilter(rest, first, f, second, columns).value)
  {
    var kept1 := Filter(rest, first).value;
    var mapped := Map(kept1, f).value;
    var kept2 := Filter(mapped, second).value;
    FilterCons(x, rest, first);
    if first(x).value {
      var y := f(x).value;
      assert Filter([x] + rest, first) == Ok([x] + kept1);
      MapCons(x, kept1, f);
      assert Map([x] + kept1, f) == Ok([y] + mapped);
      FilterCons(y, mapped, second);
      if second(y).value {
        assert Filter([y] + mapped, second) == Ok([y] + kept2);
        assert RemoveColumns([y] + kept2, columns) == [y - columns] + RemoveColumns(kept2, columns);
      } else {
        assert Filter([y] + mapped, second) == Ok([] + kept2);
        assert [] + kept2 == kept2;
        assert [] + RemoveColumns(kept2, columns) == RemoveColumns(kept2, columns);
      }
    } else {
      assert [] + kept1 == kept1;
      assert Contribution(x, first, f, second, columns) == Ok([]);
      assert [] + RemoveColumns(kept2, columns) == RemoveColumns(kept2, columns);
    }
  }

  lemma FilterConsOk(x: Record, rest: seq<Record>, keep: Record -> Result<bool>)
    ensures Filter([x] + rest, keep).Ok? <==> keep(x).Ok? && Filter(rest, keep).Ok?
  {
    assert ([x] + rest)[0] == x && ([x] + rest)[1..] == rest;
  }

  lemma MapConsOk(x: Record, rest: seq<Record>, f: Record -> Result<Record>)
    ensures Map([x] + rest, f).Ok? <==> f(x).Ok? && Map(rest, f).Ok?
  {
    assert ([x] + rest)[0] == x && ([x] + rest)[1..] == rest;
  }

  lemma FilterMapFilterConsOk(x: Record, rest: seq<Record>, first: Record -> Result<bool>, f: Record -> Result<Record>,
                              second: Record -> Result<bool>, columns: set<string>)
    ensures FilterMapFilter([x] + rest, first, f, second, columns).Ok?
            <==> Contribution(x, first, f, second, columns).Ok? && FilterMapFilter(rest, first, f, second, columns).Ok?
  {
    FilterConsOk(x, rest, first);
    if first(x).Ok? && Filter(rest, first).Ok? {
      var kept1 := Filter(rest, first).value;
      FilterCons(x, rest, first);
      if first(x).value {
        assert Filter([x] + rest, first) == Ok([x] + kept1);
        MapConsOk(x, kept1, f);
        if f(x).Ok? && Map(kept1, f).Ok? {
          var y := f(x).value;
          var mapped := Map(kept1, f).value;
          MapCons(x, kept1, f);
          assert Map([x] + kept1, f) == Ok([y] + mapped);
          FilterConsOk(y, mapped, second);
        }
      } else {
        assert [] + kept1 == kept1;
      }
    }
  }

  /** The staged pipeline raises exactly when some single row makes a stage
      raise: one bad row aborts the whole load. */
  lemma {:induction false} FilterMapFilterOkIff(ds: seq<Record>, first: Record -> Result<bool>, f: Record -> Result<Record>,
                                                second: Record -> Result<bool>, columns: set<string>)
    ensures FilterMapFilter(ds, first, f, second, columns).Ok?
            <==> forall k :: 0 <= k < |ds| ==> Contribution(ds[k], first, f, second, columns).Ok?
  {
    if ds != [] {
      assert forall k :: 0 <= k < |ds| - 1 ==> ds[1..][k] == ds[k + 1];
      FilterMapFilterOkIff(ds[1..], first, f, second, columns);
      FilterMapFilterConsOk(ds[0], ds[1..], first, f, second, columns);
      assert [ds[0]] + ds[1..] == ds;
      if forall k :: 0 <= k < |ds| ==> Contribution(ds[k], first, f, second, columns).Ok? {
        assert Contribution(ds[0], first, f, second, columns).Ok?;
      }
    }
  }

  /** Staged or one row at a time, the same rows come out in the same order,
      and nothing raises when no single row makes a stage raise. */
  lemma {:induction false} FilterMapFilterRows(ds: seq<Record>, first: Record -> Result<bool>, f: Record -> Result<Record>,
                                               second: Record -> Result<bool>, columns: set<string>)
    requires forall k :: 0 <= k < |ds| ==> Contribution(ds[k], first, f, second, columns).Ok?
    ensures FilterMapFilter(ds, first, f, second, columns) == Ok(Kept(ds, first, f, second, columns))
  {
    if ds != [] {
      assert forall k :: 0 <= k < |ds| - 1 ==> ds[1..][k] == ds[k + 1];
      FilterMapFilterRows(ds[1..], first, f, second, columns);
      assert Contribution(ds[0], first, f, second, columns).Ok?;
      FilterMapFilterCons(ds[0], ds[1..], first, f, second, columns);
      assert [ds[0]] + ds[1..] == ds;
    }
  }

  /** A row is kept exactly when it is what the stages make of some input row
      that both filters accept. */
  lemma {:induction false} KeptMeaning(ds: seq<Record>, first: Record -> Result<bool>, f: Record -> Result<Record>,
                                       second: Record -> Result<bool>, columns: set<string>, y: Record)
    requires forall k :: 0 <= k < |ds| ==> Contribution(ds[k], first, f, second, columns).Ok?
    ensures y in Kept(ds, first, f, second, columns) <==>
              exists x :: x in ds && first(x) == Ok(true) && f(x).Ok? && second(f(x).value) == Ok(true)
                          && y == f(x).value - columns
  {
    if ds != [] {
      assert forall k :: 0 <= k < |ds| - 1 ==> ds[1..][k] == ds[k + 1];
      KeptMeaning(ds[1..], first, f, second, columns, y);
      var x := ds[0];
      assert Contribution(x, first, f, second, columns).Ok?;
      assert forall z :: z in ds <==> z == x || z in ds[1..];
    }
  }
}
