/** Q3, Q6 and Q9 of globleclimate.py: the first five value pairs of two
    columns, taken from the rows where both cells are non-blank. */
module Samples {
  import opened Table

  /** The loops of globleclimate.py:28-31 and :52-55: append both cells of
      every row where both are non-blank. */
  method CollectPairs(rows: seq<Record>, f: Field, g: Field) returns (xs: seq<real>, ys: seq<real>)
    ensures xs == Values(rows, f, g)
    ensures ys == Values(rows, g, f)
  {
    xs, ys := [], [];
    var i := 0;
    while i < |rows|
      invariant 0 <= i <= |rows|
      invariant xs == Values(rows[..i], f, g)
      invariant ys == Values(rows[..i], g, f)
    {
      var r := rows[i];
      assert rows[..i + 1][..i] == rows[..i];
      if Get(r, f).Some? && Get(r, g).Some? {
        xs := xs + [Get(r, f).value];
        ys := ys + [Get(r, g).value];
      }
      i := i + 1;
    }
    assert rows[..i] == rows;
  }

  /** `if x and y: list(zip(x[:5], y[:5]))` over the two collected columns;
      None where the script prints nothing. */
  function GuardedSample(xs: seq<real>, ys: seq<real>): Option<seq<(real, real)>> {
    if xs != [] && ys != [] then Some(Zip(Take(xs, Top), Take(ys, Top))) else None
  }

  /** Q3: printed exactly when some row has both Renewable and CO2, and then
      the first five such (renewable, co2) pairs in table order. */
  function RenewableVsCo2Sample(rows: seq<Record>): (sample: Option<seq<(real, real)>>)
    ensures sample.Some? <==> Pairs(rows, Renewable, Co2) != []
    ensures sample.Some? ==> sample.value == Take(Pairs(rows, Renewable, Co2), Top)
  {
    ValuesArePairs(rows, Renewable, Co2);
    SampleIsPairsPrefix(rows, Renewable, Co2, Top);
    GuardedSample(Values(rows, Renewable, Co2), Values(rows, Co2, Renewable))
  }

  /** Q6: the same for (rainfall, extreme weather events). */
  function RainfallVsEventsSample(rows: seq<Record>): (sample: Option<seq<(real, real)>>)
    ensures sample.Some? <==> Pairs(rows, Rainfall, ExtremeEvents) != []
    ensures sample.Some? ==> sample.value == Take(Pairs(rows, Rainfall, ExtremeEvents), Top)
  {
    ValuesArePairs(rows, Rainfall, ExtremeEvents);
    SampleIsPairsPrefix(rows, Rainfall, ExtremeEvents, Top);
    GuardedSample(Values(rows, Rainfall, ExtremeEvents), Values(rows, ExtremeEvents, Rainfall))
  }

  /** Q9: two comprehensions over the same filter, zipped after slicing;
      always printed, possibly empty. */
  function Co2VsTemperatureSample(rows: seq<Record>): (sample: seq<(real, real)>)
    ensures sample == Take(Pairs(rows, Co2, Temperature), Top)
    ensures |sample| == Min(Top, |Pairs(rows, Co2, Temperature)|)
  {
    SampleIsPairsPrefix(rows, Co2, Temperature, Top);
    Zip(Take(Values(rows, Co2, Temperature), Top), Take(Values(rows, Temperature, Co2), Top))
  }

  /** A row with a blank cell in either column, inserted anywhere, leaves a
      sample unchanged. */
  lemma SampleIgnoresBlankRow(rows: seq<Record>, i: nat, r: Record, f: Field, g: Field)
    requires i <= |rows|
    requires !Has(r, f) || !Has(r, g)
    ensures Zip(Take(Values(rows[..i] + [r] + rows[i..], f, g), Top),
                Take(Values(rows[..i] + [r] + rows[i..], g, f), Top))
         == Zip(Take(Values(rows, f, g), Top), Take(Values(rows, g, f), Top))
  {
    var rows' := rows[..i] + [r] + rows[i..];
    SampleIsPairsPrefix(rows', f, g, Top);
    SampleIsPairsPrefix(rows, f, g, Top);
    PairsIgnoreBlankRow(rows, i, r, f, g);
  }
}
