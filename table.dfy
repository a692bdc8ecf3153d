/** The parsed climate table: one Record per CSV row, in file order.
    A blank numeric cell is None; a blank Country cell is the empty string. */
module Table {

  datatype Option<+T> = None | Some(value: T) {
    /** The value, or `default` when there is none. */
    function GetOr(default: T): T {
      match this
      case Some(v) => v
      case None => default
    }
  }

  /** The exceptions the script raises while computing a query. */
  datatype Error =
    | EmptySequence   // min()/max() of an empty list (ValueError)
    | DivisionByZero  // sum(xs)/len(xs) of an empty list (ZeroDivisionError)

  datatype Result<+T> = Ok(value: T) | Err(error: Error)

  /** One row of the dataset. */
  datatype Record = Record(
    country: string,
    year: Option<int>,
    temperature: Option<real>,
    co2: Option<real>,
    renewable: Option<real>,
    forest: Option<real>,
    population: Option<real>,
    rainfall: Option<real>,
    extremeEvents: Option<real>,
    seaLevelRise: Option<real>)

  /** The numeric columns other than Year. */
  datatype Field =
    | Temperature | Co2 | Renewable | Forest | Population | Rainfall | ExtremeEvents | SeaLevelRise

  function Get(r: Record, f: Field): Option<real> {
    match f
    case Temperature => r.temperature
    case Co2 => r.co2
    case Renewable => r.renewable
    case Forest => r.forest
    case Population => r.population
    case Rainfall => r.rainfall
    case ExtremeEvents => r.extremeEvents
    case SeaLevelRise => r.seaLevelRise
  }

  /** The cell of column `f` is non-blank. */
  predicate Has(r: Record, f: Field) {
    Get(r, f).Some?
  }

  function Min(a: int, b: int): int {
    if a <= b then a else b
  }

  /** Python's xs[:n]. */
  /** The script's one size: every ranking, sample and list it prints
      keeps at most five entries. */
  const Top: nat := 5

  function Take<T>(xs: seq<T>, n: nat): seq<T> {
    if |xs| <= n then xs else xs[..n]
  }

  /** Python's xs[-n:] for n > 0: the last min(n, |xs|) elements. */
  function TakeLast<T>(xs: seq<T>, n: nat): seq<T>
    requires n > 0
  {
    if |xs| <= n then xs else xs[|xs| - n..]
  }

  /** Python's list(zip(xs, ys)): stops at the shorter list. */
  function Zip<A, B>(xs: seq<A>, ys: seq<B>): seq<(A, B)> {
    seq(Min(|xs|, |ys|), i requires 0 <= i < Min(|xs|, |ys|) => (xs[i], ys[i]))
  }

  function Sum(xs: seq<real>): real {
    if xs == [] then 0.0 else xs[0] + Sum(xs[1..])
  }

  /** sum(xs)/len(xs); the script only divides where it has checked, or
      the grouping guarantees, that the list is non-empty. */
  function Mean(xs: seq<real>): real
    requires xs != []
  {
    Sum(xs) / (|xs| as real)
  }

  /** The row is country `c`'s and its column `f` is non-blank. */
  predicate IsReading(r: Record, c: string, f: Field) {
    r.country == c && Has(r, f)
  }

  /** [float(r[f]) for r in rows if r["Country"] == c and r[f] != ""]:
      country `c`'s non-blank readings of column `f`, in table order. */
  function Readings(rows: seq<Record>, c: string, f: Field): seq<real> {
    if rows == [] then []
    else
      var r := rows[|rows| - 1];
      Readings(rows[..|rows| - 1], c, f) + (if IsReading(r, c, f) then [Get(r, f).value] else [])
  }

  /** [float(r[f]) for r in rows if r[f] != "" and r[g] != ""]: column `f`
      of the rows where both `f` and `g` are non-blank, in table order. */
  function Values(rows: seq<Record>, f: Field, g: Field): seq<real> {
    if rows == [] then []
    else
      var r := rows[|rows| - 1];
      Values(rows[..|rows| - 1], f, g) + (if Has(r, f) && Has(r, g) then [Get(r, f).value] else [])
  }

  /** The reference for the pair samples: the (f, g) pairs of the rows where
      both cells are non-blank, in table order. */
  function Pairs(rows: seq<Record>, f: Field, g: Field): seq<(real, real)> {
    if rows == [] then []
    else
      var r := rows[|rows| - 1];
      Pairs(rows[..|rows| - 1], f, g)
        + (if Has(r, f) && Has(r, g) then [(Get(r, f).value, Get(r, g).value)] else [])
  }

  /** One more row extends a country's readings by that row's cell, if it is one of its readings. */
  lemma ReadingsStep(rows: seq<Record>, i: nat, c: string, f: Field)
    requires i < |rows|
    ensures Readings(rows[..i + 1], c, f)
            == Readings(rows[..i], c, f) + (if IsReading(rows[i], c, f) then [Get(rows[i], f).value] else [])
  {
    assert rows[..i + 1][..i] == rows[..i];
  }

  lemma {:induction false} ReadingsAppend(a: seq<Record>, b: seq<Record>, c: string, f: Field)
    ensures Readings(a + b, c, f) == Readings(a, c, f) + Readings(b, c, f)
    decreases |b|
  {
    if b == [] {
      assert a + b == a;
    } else {
      var b' := b[..|b| - 1];
      assert (a + b)[..|a + b| - 1] == a + b';
      ReadingsAppend(a, b', c, f);
    }
  }

  /** A row that is not a reading of (c, f), inserted anywhere, changes nothing:
      blank cells are skipped, never counted as zero. */
  lemma {:induction false} ReadingsIgnoreOtherRow(rows: seq<Record>, i: nat, r: Record, c: string, f: Field)
    requires i <= |rows|
    requires !IsReading(r, c, f)
    ensures Readings(rows[..i] + [r] + rows[i..], c, f) == Readings(rows, c, f)
  {
    var a, b := rows[..i], rows[i..];
    ReadingsAppend(a + [r], b, c, f);
    ReadingsAppend(a, [r], c, f);
    assert Readings([r], c, f) == [] by {
      assert [r][..0] == [];
      assert Readings([r][..0], c, f) == [];
    }
    ReadingsAppend(a, b, c, f);
    assert a + b == rows;
  }

  /** Every value of Readings(rows, c, f) is the f-cell of one of c's rows, and back. */
  lemma {:induction false} ReadingsMembership(rows: seq<Record>, c: string, f: Field, x: real)
    ensures x in Readings(rows, c, f) <==>
              exists i :: 0 <= i < |rows| && IsReading(rows[i], c, f) && Get(rows[i], f) == Some(x)
  {
    if rows != [] {
      var init := rows[..|rows| - 1];
      ReadingsMembership(init, c, f, x);
      if exists i :: 0 <= i < |rows| && IsReading(rows[i], c, f) && Get(rows[i], f) == Some(x) {
        var i :| 0 <= i < |rows| && IsReading(rows[i], c, f) && Get(rows[i], f) == Some(x);
        if i < |init| {
          assert init[i] == rows[i];
        }
      }
    }
  }

  /** The first reading is the f-cell of c's earliest row that has one: the
      first in table order, whatever the years say. */
  lemma {:induction false} ReadingsFirst(rows: seq<Record>, c: string, f: Field)
    requires Readings(rows, c, f) != []
    ensures exists i :: 0 <= i < |rows| && IsReading(rows[i], c, f)
                        && Get(rows[i], f).value == Readings(rows, c, f)[0]
                        && forall j :: 0 <= j < i ==> !IsReading(rows[j], c, f)
  {
    var init := rows[..|rows| - 1];
    var r := rows[|rows| - 1];
    if Readings(init, c, f) != [] {
      ReadingsFirst(init, c, f);
      var i :| 0 <= i < |init| && IsReading(init[i], c, f)
               && Get(init[i], f).value == Readings(init, c, f)[0]
               && forall j :: 0 <= j < i ==> !IsReading(init[j], c, f);
      assert rows[i] == init[i];
      assert forall j :: 0 <= j < i ==> rows[j] == init[j];
    } else {
      NoReadings(init, c, f);
      assert forall j :: 0 <= j < |init| ==> rows[j] == init[j];
    }
  }

  /** The last reading is the f-cell of c's latest row that has one. */
  lemma {:induction false} ReadingsLast(rows: seq<Record>, c: string, f: Field)
    requires Readings(rows, c, f) != []
    ensures exists i :: 0 <= i < |rows| && IsReading(rows[i], c, f)
                        && Get(rows[i], f).value == Readings(rows, c, f)[|Readings(rows, c, f)| - 1]
                        && forall j :: i < j < |rows| ==> !IsReading(rows[j], c, f)
  {
    var init := rows[..|rows| - 1];
    var r := rows[|rows| - 1];
    if !IsReading(r, c, f) {
      ReadingsLast(init, c, f);
      var i :| 0 <= i < |init| && IsReading(init[i], c, f)
               && Get(init[i], f).value == Readings(init, c, f)[|Readings(init, c, f)| - 1]
               && forall j :: i < j < |init| ==> !IsReading(init[j], c, f);
      assert rows[i] == init[i];
      assert forall j :: i < j < |init| ==> rows[j] == init[j];
    }
  }

  /** No readings means no row of c has a non-blank f-cell. */
  lemma {:induction false} NoReadings(rows: seq<Record>, c: string, f: Field)
    requires Readings(rows, c, f) == []
    ensures forall j :: 0 <= j < |rows| ==> !IsReading(rows[j], c, f)
  {
    if rows != [] {
      var init := rows[..|rows| - 1];
      NoReadings(init, c, f);
      assert forall j :: 0 <= j < |init| ==> rows[j] == init[j];
    }
  }

  /** The two comprehensions of a sample line up with the reference pairs. */
  lemma {:induction false} ValuesArePairs(rows: seq<Record>, f: Field, g: Field)
    ensures |Values(rows, f, g)| == |Pairs(rows, f, g)| == |Values(rows, g, f)|
    ensures forall i :: 0 <= i < |Pairs(rows, f, g)| ==>
              Pairs(rows, f, g)[i] == (Values(rows, f, g)[i], Values(rows, g, f)[i])
  {
    if rows != [] {
      ValuesArePairs(rows[..|rows| - 1], f, g);
    }
  }

  /** zip(xs[:n], ys[:n]) of the two columns is the first min(n, |pairs|) pairs. */
  lemma SampleIsPairsPrefix(rows: seq<Record>, f: Field, g: Field, n: nat)
    ensures Zip(Take(Values(rows, f, g), n), Take(Values(rows, g, f), n)) == Take(Pairs(rows, f, g), n)
  {
    ValuesArePairs(rows, f, g);
  }

  lemma {:induction false} PairsAppend(a: seq<Record>, b: seq<Record>, f: Field, g: Field)
    ensures Pairs(a + b, f, g) == Pairs(a, f, g) + Pairs(b, f, g)
    decreases |b|
  {
    if b == [] {
      assert a + b == a;
    } else {
      var b' := b[..|b| - 1];
      assert (a + b)[..|a + b| - 1] == a + b';
      PairsAppend(a, b', f, g);
    }
  }

  /** A row with a blank f- or g-cell, inserted anywhere, never contributes a pair. */
  lemma {:induction false} PairsIgnoreBlankRow(rows: seq<Record>, i: nat, r: Record, f: Field, g: Field)
    requires i <= |rows|
    requires !Has(r, f) || !Has(r, g)
    ensures Pairs(rows[..i] + [r] + rows[i..], f, g) == Pairs(rows, f, g)
  {
    var a, b := rows[..i], rows[i..];
    PairsAppend(a + [r], b, f, g);
    PairsAppend(a, [r], f, g);
    assert Pairs([r], f, g) == [] by {
      assert [r][..0] == [];
      assert Pairs([r][..0], f, g) == [];
    }
    PairsAppend(a, b, f, g);
    assert a + b == rows;
  }
}
