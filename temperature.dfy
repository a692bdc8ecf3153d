/** Q1 of globleclimate.py: the first and last year of the table and the
    mean temperature recorded in each. */
module Temperature {
  import opened Table

  /** [int(r["Year"]) for r in rows if r["Year"] != ""] */
  function Years(rows: seq<Record>): seq<int> {
    if rows == [] then []
    else
      var r := rows[|rows| - 1];
      Years(rows[..|rows| - 1]) + (if r.year.Some? then [r.year.value] else [])
  }

  /** Python's min() of a non-empty list. */
  function MinOf(xs: seq<int>): (m: int)
    requires xs != []
    ensures m in xs
    ensures forall x :: x in xs ==> m <= x
  {
    if |xs| == 1 then xs[0]
    else
      var m := MinOf(xs[1..]);
      assert xs == [xs[0]] + xs[1..];
      if xs[0] <= m then xs[0] else m
  }

  /** Python's max() of a non-empty list. */
  function MaxOf(xs: seq<int>): (m: int)
    requires xs != []
    ensures m in xs
    ensures forall x :: x in xs ==> x <= m
  {
    if |xs| == 1 then xs[0]
    else
      var m := MaxOf(xs[1..]);
      assert xs == [xs[0]] + xs[1..];
      if m <= xs[0] then xs[0] else m
  }

  /** Some row is of year `y`. */
  predicate HasYear(rows: seq<Record>, y: int) {
    exists i :: 0 <= i < |rows| && rows[i].year == Some(y)
  }

  /** `first` and `last` are the smallest and the largest non-blank Year of the table. */
  predicate IsSpan(rows: seq<Record>, first: int, last: int) {
    && HasYear(rows, first)
    && HasYear(rows, last)
    && forall i :: 0 <= i < |rows| && rows[i].year.Some? ==> first <= rows[i].year.value <= last
  }

  lemma {:induction false} YearsMembership(rows: seq<Record>, y: int)
    ensures y in Years(rows) <==> HasYear(rows, y)
  {
    if rows != [] {
      var init := rows[..|rows| - 1];
      YearsMembership(init, y);
      if HasYear(rows, y) {
        var i :| 0 <= i < |rows| && rows[i].year == Some(y);
        if i < |init| {
          assert init[i] == rows[i];
        }
      }
      if HasYear(init, y) {
        var i :| 0 <= i < |init| && init[i].year == Some(y);
        assert rows[i] == init[i];
      }
    }
  }

  /** first = min(years); last = max(years).  None where min() would raise:
      no row has a Year. */
  function YearSpan(rows: seq<Record>): (span: Option<(int, int)>)
    ensures span.None? <==> forall i :: 0 <= i < |rows| ==> rows[i].year.None?
    ensures span.Some? ==> IsSpan(rows, span.value.0, span.value.1)
  {
    var years := Years(rows);
    forall y ensures y in years <==> HasYear(rows, y) {
      YearsMembership(rows, y);
    }
    assert forall i :: 0 <= i < |rows| && rows[i].year.Some? ==> rows[i].year.value in years by {
      forall i | 0 <= i < |rows| && rows[i].year.Some? ensures rows[i].year.value in years {
        assert HasYear(rows, rows[i].year.value);
      }
    }
    if years == [] then None
    else
      Some((MinOf(years), MaxOf(years)))
  }

  /** The span is determined by the table. */
  lemma SpanUnique(rows: seq<Record>, a: int, b: int, a': int, b': int)
    requires IsSpan(rows, a, b) && IsSpan(rows, a', b')
    ensures a == a' && b == b'
  {
    var i :| 0 <= i < |rows| && rows[i].year == Some(a);
    var i' :| 0 <= i' < |rows| && rows[i'].year == Some(a');
    var j :| 0 <= j < |rows| && rows[j].year == Some(b);
    var j' :| 0 <= j' < |rows| && rows[j'].year == Some(b');
  }

  /** [float(r[temperature]) for r in rows if r["Year"] != "" and
      int(r["Year"]) == y and r[temperature] != ""] */
  function TempsIn(rows: seq<Record>, y: int): seq<real> {
    if rows == [] then []
    else
      var r := rows[|rows| - 1];
      TempsIn(rows[..|rows| - 1], y)
        + (if r.year == Some(y) && r.temperature.Some? then [r.temperature.value] else [])
  }

  /** The list holds exactly the temperatures of the rows of year `y`. */
  lemma {:induction false} TempsInMembership(rows: seq<Record>, y: int, x: real)
    ensures x in TempsIn(rows, y) <==>
              exists i :: 0 <= i < |rows| && rows[i].year == Some(y) && rows[i].temperature == Some(x)
  {
    if rows != [] {
      var init := rows[..|rows| - 1];
      TempsInMembership(init, y, x);
      if exists i :: 0 <= i < |rows| && rows[i].year == Some(y) && rows[i].temperature == Some(x) {
        var i :| 0 <= i < |rows| && rows[i].year == Some(y) && rows[i].temperature == Some(x);
        if i < |init| {
          assert init[i] == rows[i];
        }
      }
    }
  }

  datatype Change = Change(first: int, last: int, firstMean: real, lastMean: real)

  /** Q1.  Ok when there is a year and both the first and the last year have
      a temperature; otherwise the exception the script raises. */
  function TemperatureChange(rows: seq<Record>): (r: Result<Change>)
    ensures r == Err(EmptySequence) <==> forall i :: 0 <= i < |rows| ==> rows[i].year.None?
    ensures r == Err(DivisionByZero) <==>
              exists first, last :: IsSpan(rows, first, last) && (TempsIn(rows, first) == [] || TempsIn(rows, last) == [])
    ensures r.Ok? ==> && IsSpan(rows, r.value.first, r.value.last)
                      && TempsIn(rows, r.value.first) != []
                      && TempsIn(rows, r.value.last) != []
                      && r.value.firstMean == Mean(TempsIn(rows, r.value.first))
                      && r.value.lastMean == Mean(TempsIn(rows, r.value.last))
  {
    match YearSpan(rows)
    case None => Err(EmptySequence)
    case Some((first, last)) =>
      var firstTemps, lastTemps := TempsIn(rows, first), TempsIn(rows, last);
      assert forall a, b :: IsSpan(rows, a, b) ==> a == first && b == last by {
        forall a, b | IsSpan(rows, a, b) ensures a == first && b == last {
          SpanUnique(rows, a, b, first, last);
        }
      }
      if firstTemps == [] || lastTemps == [] then Err(DivisionByZero)
      else Ok(Change(first, last, Mean(firstTemps), Mean(lastTemps)))
  }
}
