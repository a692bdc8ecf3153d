/** Q2, Q4, Q5 and Q10 of globleclimate.py: per-country CO2 means, the top
    emitters, forest against CO2, population and CO2 trends of the top
    emitters, and renewable share of top emitters against the rest. */
module Emitters {
  import opened Table
  import opened Grouping
  import opened Ranking

  /** The keys of the `co2` dictionary, in insertion order. */
  function Co2Keys(rows: seq<Record>): seq<string> {
    Keys(rows, Reading(Co2))
  }

  /** `avg_co2.items()`: each key of `co2` with the mean of its readings. */
  function Averages(rows: seq<Record>): seq<Entry> {
    var keys := Co2Keys(rows);
    ColumnKeys(rows, Co2);
    seq(|keys|, i requires 0 <= i < |keys| => (keys[i], Mean(Readings(rows, keys[i], Co2))))
  }

  /** The mean CO2 of every country with a reading, each country once. */
  lemma AveragesExactly(rows: seq<Record>)
    ensures Names(Averages(rows)) == Co2Keys(rows)
    ensures Distinct(Names(Averages(rows)))
    ensures forall c :: c in Names(Averages(rows)) <==> c != "" && Readings(rows, c, Co2) != []
    ensures forall i :: 0 <= i < |Averages(rows)| ==>
              Readings(rows, Averages(rows)[i].0, Co2) != []
              && Averages(rows)[i].1 == Mean(Readings(rows, Averages(rows)[i].0, Co2))
  {
    ColumnKeys(rows, Co2);
    KeysDistinct(rows, Reading(Co2));
  }

  /** Q2 (and `top_emitters` of Q5): sorted(avg_co2.items(), key=mean, reverse=True)[:5]. */
  function TopEmitters(rows: seq<Record>): seq<Entry> {
    TopK(Averages(rows), Top)
  }

  /** The top emitters are min(5, #countries) countries with their true
      means, by non-increasing mean. */
  lemma TopEmittersEntries(rows: seq<Record>)
    ensures |TopEmitters(rows)| == Min(Top, |Co2Keys(rows)|)
    ensures NonIncreasing(TopEmitters(rows))
    ensures forall i :: 0 <= i < |TopEmitters(rows)| ==>
              var c := TopEmitters(rows)[i].0;
              c in Co2Keys(rows) && Readings(rows, c, Co2) != []
              && TopEmitters(rows)[i].1 == Mean(Readings(rows, c, Co2))
  {
    var avg, top := Averages(rows), TopEmitters(rows);
    AveragesExactly(rows);
    TopKSpec(avg, Top);
    forall i | 0 <= i < |top|
      ensures top[i].0 in Co2Keys(rows) && Readings(rows, top[i].0, Co2) != []
              && top[i].1 == Mean(Readings(rows, top[i].0, Co2))
    {
      assert top[i] in multiset(top);
      var k :| 0 <= k < |avg| && avg[k] == top[i];
      assert Names(avg)[k] == top[i].0;
    }
  }

  /** Every country left out of the top emitters has a mean no larger than
      any mean shown. */
  lemma TopEmittersLeftOut(rows: seq<Record>, c: string)
    requires c in Co2Keys(rows) && c !in Names(TopEmitters(rows))
    ensures Readings(rows, c, Co2) != []
    ensures forall j :: 0 <= j < |TopEmitters(rows)| ==> Mean(Readings(rows, c, Co2)) <= TopEmitters(rows)[j].1
  {
    var avg, top := Averages(rows), TopEmitters(rows);
    AveragesExactly(rows);
    TopKSpec(avg, Top);
    var k :| 0 <= k < |avg| && Names(avg)[k] == c;
    var x := avg[k];
    assert x !in multiset(top) by {
      forall m | 0 <= m < |top| ensures top[m] != x {
        assert Names(top)[m] == top[m].0;
      }
    }
    assert x in multiset(avg) - multiset(top);
  }

  /** Among equal means, the top emitters keep the first-encountered
      countries, in first-encounter order. */
  lemma TopEmittersTies(rows: seq<Record>, v: real)
    ensures WithValue(TopEmitters(rows), v) <= WithValue(Averages(rows), v)
  {
    TopKStable(Averages(rows), Top, v);
  }

  /** A row without a CO2 reading, inserted anywhere, leaves the top emitters as they were. */
  lemma TopEmittersIgnoreBlankRow(rows: seq<Record>, i: nat, r: Record)
    requires i <= |rows|
    requires !Has(r, Co2)
    ensures TopEmitters(rows[..i] + [r] + rows[i..]) == TopEmitters(rows)
  {
    var rows' := rows[..i] + [r] + rows[i..];
    KeysIgnoreSkippedRow(rows[..i], r, rows[i..], Reading(Co2));
    assert rows[..i] + [r] + rows[i..] == rows';
    assert rows[..i] + rows[i..] == rows;
    forall c ensures Readings(rows', c, Co2) == Readings(rows, c, Co2) {
      ReadingsIgnoreOtherRow(rows, i, r, c, Co2);
    }
    assert Averages(rows') == Averages(rows);
  }

  /** One entry of the Q4 sample: country, mean forest area, mean CO2 if any. */
  datatype ForestRow = ForestRow(country: string, forestMean: real, co2Mean: Option<real>)

  /** Q4: the first five keys of the `forest` dictionary, each with its
      mean forest share and, when it is a key of `co2`, its mean CO2. */
  function ForestVsCo2(rows: seq<Record>): (sample: seq<ForestRow>)
    ensures |sample| == Min(Top, |Keys(rows, Reading(Forest))|)
    ensures forall i :: 0 <= i < |sample| ==>
              && sample[i].country == Keys(rows, Reading(Forest))[i]
              && Readings(rows, sample[i].country, Forest) != []
              && sample[i].forestMean == Mean(Readings(rows, sample[i].country, Forest))
    ensures forall i :: 0 <= i < |sample| ==>
              (sample[i].co2Mean.None? <==> Readings(rows, sample[i].country, Co2) == [])
    ensures forall i :: 0 <= i < |sample| && sample[i].co2Mean.Some? ==>
              && Readings(rows, sample[i].country, Co2) != []
              && sample[i].co2Mean.value == Mean(Readings(rows, sample[i].country, Co2))
  {
    var keys := Take(Keys(rows, Reading(Forest)), Top);
    ColumnKeys(rows, Forest);
    ColumnKeys(rows, Co2);
    seq(|keys|, i requires 0 <= i < |keys| =>
      var c := keys[i];
      ForestRow(c, Mean(Readings(rows, c, Forest)),
                if c in Co2Keys(rows) then Some(Mean(Readings(rows, c, Co2))) else None))
  }

  /** One line of Q5: a country's first and last population and CO2 readings. */
  datatype Trend = Trend(country: string, firstPopulation: real, lastPopulation: real, firstCo2: real, lastCo2: real)

  /** `if pops and co2vals:` the first and last of each list; None otherwise. */
  function TrendOf(rows: seq<Record>, c: string): Option<Trend> {
    var pops, co2s := Readings(rows, c, Population), Readings(rows, c, Co2);
    if pops != [] && co2s != [] then
      Some(Trend(c, pops[0], pops[|pops| - 1], co2s[0], co2s[|co2s| - 1]))
    else None
  }

  /** A reported trend takes its values from the earliest and the latest
      rows, in table order, holding that country's readings. */
  lemma TrendInTableOrder(rows: seq<Record>, c: string)
    requires TrendOf(rows, c).Some?
    ensures var t := TrendOf(rows, c).value;
      && (exists i :: 0 <= i < |rows| && IsReading(rows[i], c, Population) && rows[i].population == Some(t.firstPopulation)
                    && forall j :: 0 <= j < i ==> !IsReading(rows[j], c, Population))
      && (exists i :: 0 <= i < |rows| && IsReading(rows[i], c, Population) && rows[i].population == Some(t.lastPopulation)
                    && forall j :: i < j < |rows| ==> !IsReading(rows[j], c, Population))
      && (exists i :: 0 <= i < |rows| && IsReading(rows[i], c, Co2) && rows[i].co2 == Some(t.firstCo2)
                    && forall j :: 0 <= j < i ==> !IsReading(rows[j], c, Co2))
      && (exists i :: 0 <= i < |rows| && IsReading(rows[i], c, Co2) && rows[i].co2 == Some(t.lastCo2)
                    && forall j :: i < j < |rows| ==> !IsReading(rows[j], c, Co2))
  {
    ReadingsFirst(rows, c, Population);
    ReadingsLast(rows, c, Population);
    ReadingsFirst(rows, c, Co2);
    ReadingsLast(rows, c, Co2);
  }

  /** The Q5 loop over the given countries, as the lines it prints. */
  function Trends(rows: seq<Record>, names: seq<string>): (trends: seq<Trend>)
    ensures forall k :: 0 <= k < |trends| ==>
              trends[k].country in names && TrendOf(rows, trends[k].country) == Some(trends[k])
    ensures forall c :: c in names && TrendOf(rows, c).Some? ==>
              exists k :: 0 <= k < |trends| && trends[k].country == c
  {
    if names == [] then []
    else
      var c := names[|names| - 1];
      var prev := Trends(rows, names[..|names| - 1]);
      var trends := prev + (match TrendOf(rows, c) case Some(t) => [t] case None => []);
      assert forall x :: x in names && TrendOf(rows, x).Some? ==>
               exists k :: 0 <= k < |trends| && trends[k].country == x by {
        forall x | x in names && TrendOf(rows, x).Some?
          ensures exists k :: 0 <= k < |trends| && trends[k].country == x
        {
          if x == c {
            assert trends[|prev|].country == x;
          } else {
            assert x in names[..|names| - 1] by {
              var i :| 0 <= i < |names| && names[i] == x;
              assert names[..|names| - 1][i] == x;
            }
            var k :| 0 <= k < |prev| && prev[k].country == x;
            assert trends[k] == prev[k];
          }
        }
      }
      trends
  }

  /** The lines are printed name by name: the lines for the first n names
      are a prefix of all lines. */
  lemma {:induction false} TrendsPrefix(rows: seq<Record>, names: seq<string>, n: nat)
    requires n <= |names|
    ensures Trends(rows, names[..n]) <= Trends(rows, names)
  {
    if n < |names| {
      var init := names[..|names| - 1];
      TrendsPrefix(rows, init, n);
      assert init[..n] == names[..n];
    } else {
      assert names[..n] == names;
    }
  }

  /** Distinct names give at most one line per country. */
  lemma {:induction false} TrendsDistinct(rows: seq<Record>, names: seq<string>)
    requires Distinct(names)
    ensures forall k1, k2 :: 0 <= k1 < k2 < |Trends(rows, names)| ==>
              Trends(rows, names)[k1].country != Trends(rows, names)[k2].country
  {
    if names != [] {
      var init, c := names[..|names| - 1], names[|names| - 1];
      assert forall i :: 0 <= i < |init| ==> init[i] == names[i];
      TrendsDistinct(rows, init);
      assert c !in init;
    }
  }

  /** Of two printed names, the one listed earlier is printed earlier. */
  lemma TrendsInNameOrder(rows: seq<Record>, names: seq<string>)
    requires Distinct(names)
    ensures forall i, j, a, b ::
              && 0 <= i < j < |names|
              && 0 <= a < |Trends(rows, names)| && 0 <= b < |Trends(rows, names)|
              && Trends(rows, names)[a].country == names[i] && Trends(rows, names)[b].country == names[j]
              ==> a < b
  {
    var all := Trends(rows, names);
    forall i, j, a, b | && 0 <= i < j < |names| && 0 <= a < |all| && 0 <= b < |all|
                        && all[a].country == names[i] && all[b].country == names[j]
      ensures a < b
    {
      TrendsOrderOne(rows, names, i, j, a, b);
    }
  }

  lemma TrendsOrderOne(rows: seq<Record>, names: seq<string>, i: int, j: int, a: int, b: int)
    requires Distinct(names) && 0 <= i < j < |names|
    requires 0 <= a < |Trends(rows, names)| && 0 <= b < |Trends(rows, names)|
    requires Trends(rows, names)[a].country == names[i] && Trends(rows, names)[b].country == names[j]
    ensures a < b
  {
    TrendsPrefix(rows, names, j);
    TrendBefore(rows, names, i, j, a);
    TrendAfter(rows, names, j, b);
  }

  /** A line for a name before position j lies within the lines of the first j names. */
  lemma TrendBefore(rows: seq<Record>, names: seq<string>, i: int, j: int, a: int)
    requires Distinct(names) && 0 <= i < j <= |names|
    requires 0 <= a < |Trends(rows, names)| && Trends(rows, names)[a].country == names[i]
    requires Trends(rows, names[..j]) <= Trends(rows, names)
    ensures a < |Trends(rows, names[..j])|
  {
    var all, front := Trends(rows, names), Trends(rows, names[..j]);
    TrendsDistinct(rows, names);
    assert names[..j][i] == names[i];
    var a' :| 0 <= a' < |front| && front[a'].country == names[i];
    assert all[a'] == front[a'];
  }

  /** The line for name j lies after the lines of the first j names. */
  lemma TrendAfter(rows: seq<Record>, names: seq<string>, j: int, b: int)
    requires Distinct(names) && 0 <= j < |names|
    requires 0 <= b < |Trends(rows, names)| && Trends(rows, names)[b].country == names[j]
    requires Trends(rows, names[..j]) <= Trends(rows, names)
    ensures b >= |Trends(rows, names[..j])|
  {
    var all, front := Trends(rows, names), Trends(rows, names[..j]);
    assert names[j] !in names[..j];
    assert forall k :: 0 <= k < |front| ==> front[k].country in names[..j];
    assert forall k :: 0 <= k < |front| ==> all[k] == front[k];
  }

  /** An entry whose names are distinct occurs at most once. */
  lemma {:induction false} DistinctNamesOnce(s: seq<Entry>, x: Entry)
    requires Distinct(Names(s))
    ensures multiset(s)[x] <= 1
  {
    if s != [] {
      var init, last := s[..|s| - 1], s[|s| - 1];
      assert forall i :: 0 <= i < |init| ==> Names(init)[i] == Names(s)[i];
      DistinctNamesOnce(init, x);
      assert s == init + [last];
      assert forall k :: 0 <= k < |init| ==> init[k].0 != last.0 by {
        assert forall k :: 0 <= k < |init| ==> Names(s)[k] == init[k].0 && Names(s)[|s| - 1] == last.0;
      }
    }
  }

  /** An entry occurring at most once is not at two places. */
  lemma OnceApart(r: seq<Entry>, a: int, b: int)
    requires 0 <= a < b < |r| && multiset(r)[r[a]] <= 1
    ensures r[a] != r[b]
  {
    assert r == r[..b] + r[b..];
    assert r[..b][a] == r[a] && r[b..][0] == r[b];
    assert multiset(r) == multiset(r[..b]) + multiset(r[b..]);
  }

  /** Each top emitter is listed once. */
  lemma TopEmittersDistinct(rows: seq<Record>)
    ensures Distinct(Names(TopEmitters(rows)))
  {
    var avg, top := Averages(rows), TopEmitters(rows);
    AveragesExactly(rows);
    TopKSpec(avg, Top);
    forall a, b | 0 <= a < b < |top| ensures Names(top)[a] != Names(top)[b] {
      assert top[a] in multiset(avg) && top[b] in multiset(avg);
      var i :| 0 <= i < |avg| && avg[i] == top[a];
      var j :| 0 <= j < |avg| && avg[j] == top[b];
      assert Names(avg)[i] == top[a].0 && Names(avg)[j] == top[b].0;
      DistinctNamesOnce(avg, top[a]);
      OnceApart(top, a, b);
    }
  }

  /** Q5: one line per top emitter that has both population and CO2
      readings, that country's trend, in ranking order. */
  function PopulationVsCo2(rows: seq<Record>): (lines: seq<Trend>)
    ensures forall k :: 0 <= k < |lines| ==>
              lines[k].country in Names(TopEmitters(rows)) && TrendOf(rows, lines[k].country) == Some(lines[k])
    ensures forall c :: c in Names(TopEmitters(rows)) && TrendOf(rows, c).Some? ==>
              exists k :: 0 <= k < |lines| && lines[k].country == c
    ensures forall k1, k2 :: 0 <= k1 < k2 < |lines| ==> lines[k1].country != lines[k2].country
    ensures forall i, j, a, b ::
              && 0 <= i < j < |TopEmitters(rows)| && 0 <= a < |lines| && 0 <= b < |lines|
              && lines[a].country == TopEmitters(rows)[i].0 && lines[b].country == TopEmitters(rows)[j].0
              ==> a < b
  {
    var names := Names(TopEmitters(rows));
    TopEmittersDistinct(rows);
    TrendsDistinct(rows, names);
    TrendsInNameOrder(rows, names);
    assert forall i :: 0 <= i < |names| ==> names[i] == TopEmitters(rows)[i].0;
    Trends(rows, names)
  }

  /** [float(r[renewable]) for r in rows if (r["Country"] in names) == inTop and r[renewable] != ""] */
  function RenewableWhere(rows: seq<Record>, names: seq<string>, inTop: bool): seq<real> {
    if rows == [] then []
    else
      var r := rows[|rows| - 1];
      RenewableWhere(rows[..|rows| - 1], names, inTop)
        + (if (r.country in names) == inTop && r.renewable.Some? then [r.renewable.value] else [])
  }

  /** Every non-blank renewable cell of the table. */
  function RenewableColumn(rows: seq<Record>): seq<real> {
    if rows == [] then []
    else
      var r := rows[|rows| - 1];
      RenewableColumn(rows[..|rows| - 1]) + (if r.renewable.Some? then [r.renewable.value] else [])
  }

  /** The two lists of Q10 split the renewable column between the rows of
      the named countries and all other rows (blank Country included). */
  lemma {:induction false} RenewablePartition(rows: seq<Record>, names: seq<string>)
    ensures multiset(RenewableWhere(rows, names, true)) + multiset(RenewableWhere(rows, names, false))
            == multiset(RenewableColumn(rows))
  {
    if rows != [] {
      RenewablePartition(rows[..|rows| - 1], names);
    }
  }

  /** Each Q10 list holds exactly the renewable values of its side's rows. */
  lemma {:induction false} RenewableWhereMembership(rows: seq<Record>, names: seq<string>, inTop: bool, x: real)
    ensures x in RenewableWhere(rows, names, inTop) <==>
              exists i :: 0 <= i < |rows| && (rows[i].country in names) == inTop && rows[i].renewable == Some(x)
  {
    if rows != [] {
      var init := rows[..|rows| - 1];
      RenewableWhereMembership(init, names, inTop, x);
      if exists i :: 0 <= i < |rows| && (rows[i].country in names) == inTop && rows[i].renewable == Some(x) {
        var i :| 0 <= i < |rows| && (rows[i].country in names) == inTop && rows[i].renewable == Some(x);
        if i < |init| {
          assert init[i] == rows[i];
        }
      }
    }
  }

  /** Q10: mean renewable share of the rows of the top emitters and of all
      other rows; a side with no value makes the division raise. */
  function RenewableTopVsRest(rows: seq<Record>): (r: Result<(real, real)>)
    ensures var top := Names(TopEmitters(rows));
      && (r.Ok? <==> RenewableWhere(rows, top, true) != [] && RenewableWhere(rows, top, false) != [])
      && (r.Ok? ==> r.value == (Mean(RenewableWhere(rows, top, true)), Mean(RenewableWhere(rows, top, false))))
      && (r.Err? ==> r.error == DivisionByZero)
  {
    var top := Names(TopEmitters(rows));
    var topRen, restRen := RenewableWhere(rows, top, true), RenewableWhere(rows, top, false);
    if topRen == [] || restRen == [] then Err(DivisionByZero) else Ok((Mean(topRen), Mean(restRen)))
  }
}
