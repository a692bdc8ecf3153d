# Global Climate EDA: the twelve queries

`globleclimate.py` reads a CSV file of climate indicators with one row per
country and year. It then prints twelve answers (Q1–Q12) computed from those rows:

- the temperature change between the first and the last year;
- the top CO2 emitters;
- samples of value pairs from two columns;
- per-country first and last readings;
- countries that meet three thresholds at once;
- the renewable share of the top emitters against everyone else;
- the largest gains in renewable share;
- the best and worst countries by a composite score.

This project models those computations over the parsed rows and proves what
each answer means.

- `Table` (table.dfy). A row is a `Record`. A blank numeric cell is `None`
  and a blank Country is `""`. This module also holds the list
  comprehensions the script repeats: one country's readings of a column,
  and the paired columns of rows where both cells are non-blank.
- `Grouping` (grouping.dfy). The script's `setdefault` dictionaries are
  insertion-ordered. `Keys` gives first-encounter order. `GroupBy` is the
  loop that builds the `co2` and `forest` dictionaries, proved equal to
  `Keys` and `Groups`.
- `Ranking` (ranking.dfy). `sorted(..., key=value, reverse=True)` is a stable
  descending sort. Its `[:5]` and `[-5:]` slices are `TopK` and `BottomK`.
  The sort is proved to be a permutation, non-increasing, and stable: the
  entries of each value stay in input order. `TopKSpec` and `BottomKSpec`
  prove that TopK keeps the largest values and BottomK the smallest.
- `Temperature` (temperature.dfy): Q1.
- `Samples` (samples.dfy): Q3, Q6 and Q9.
- `Emitters` (emitters.dfy): Q2, Q4, Q5 and Q10.
- `Profiles` (profiles.dfy): Q7, Q8 and Q12.
- `Improvement` (improvement.dfy): Q11.

Where the script would raise, the query returns `Err`:

- `min()` of no years gives `EmptySequence`.
- A mean of an empty list gives `DivisionByZero`.
- Each query is modelled on its own (see "Left out").

## Model

| member | source | states |
|---|---|---|
| Table.ReadingsMembership | globleclimate.py:46-47 | a value is among a country's readings of a column exactly when some row of that country has that non-blank cell |
| Table.ReadingsFirst | globleclimate.py:46-49 | `pops[0]` is the cell of the earliest row, in table order, that holds one of the country's readings |
| Table.ReadingsLast | globleclimate.py:46-49 | `pops[-1]` is the cell of the latest row that holds one of the country's readings |
| Table.ReadingsIgnoreOtherRow | globleclimate.py:22-23 | a row that is not a reading of (country, column), inserted anywhere, leaves the readings unchanged; blank cells are skipped, not counted as zero |
| Table.ValuesArePairs | globleclimate.py:28-31 | the two lists the loop appends to have equal length and, index by index, are the columns of the non-blank pairs |
| Table.SampleIsPairsPrefix | globleclimate.py:32-33 | `zip(x[:n], y[:n])` is the first min(n, #pairs) non-blank pairs in table order |
| Table.PairsIgnoreBlankRow | globleclimate.py:29-31 | a row with a blank cell in either column never contributes a pair |
| Grouping.KeysDistinct | globleclimate.py:20-23 | a dictionary key is listed once |
| Grouping.KeysMembership | globleclimate.py:20-23 | a country is a key exactly when some selected row belongs to it |
| Grouping.KeysPrefix | globleclimate.py:20-23 | keys are only appended: the keys after a prefix of the rows are a prefix of the final keys |
| Grouping.KeysHaveReadings | globleclimate.py:20-24 | a country is a key of `co2` (or `forest`) exactly when it is non-blank and has a reading, so every mean at :24 divides by a non-zero length |
| Grouping.KeysIgnoreSkippedRow | globleclimate.py:21-23 | a row the filter rejects does not change the keys or their order |
| Grouping.GroupBy | globleclimate.py:20-23 | the setdefault/append loop yields the keys in first-encounter order, each mapped to its readings in table order |
| Ranking.SortDescPermutes | globleclimate.py:25 | sorting returns the same items, as a multiset |
| Ranking.SortDescSorted | globleclimate.py:25 | the sorted items are by non-increasing value |
| Ranking.SortDescStable | globleclimate.py:25 | items of equal value keep their input order (Python's sort is stable with reverse=True) |
| Ranking.TopKSpec | globleclimate.py:25 | `[:k]` has min(k, n) items, non-increasing, drawn from the input, and every item left out is no larger than any kept |
| Ranking.BottomKSpec | globleclimate.py:109 | for k > 0, `[-k:]` has min(k, n) items, non-increasing, drawn from the input, and every item left out is no smaller than any kept |
| Ranking.TopKStable | globleclimate.py:25 | among items of one value, `[:k]` keeps the earliest ones of the input, in order |
| Ranking.BottomKStable | globleclimate.py:109 | among items of one value, `[-k:]` keeps the latest ones of the input, in order |
| Ranking.TopKIsFront | globleclimate.py:107-108 | the best list is the front of the one descending ranking |
| Ranking.BottomKIsBack | globleclimate.py:107-109 | the worst list is the back of the same ranking |
| Ranking.TopBottomCover | globleclimate.py:107-109 | with at most 2k items, every item is in `[:k]` or in `[-k:]` |
| Ranking.TopBottomApart | globleclimate.py:107-109 | with at least 2k items, `[:k]` and `[-k:]` share no item occurrence and no bottom value exceeds a top value |
| Temperature.MinOf | globleclimate.py:13 | `min(years)` is a member of the list and no larger than any |
| Temperature.MaxOf | globleclimate.py:14 | `max(years)` is a member of the list and no smaller than any |
| Temperature.YearsMembership | globleclimate.py:12 | `years` holds exactly the non-blank Years of the table |
| Temperature.YearSpan | globleclimate.py:12-14 | no span exactly when no row has a Year; otherwise first and last are attained Years that bound every Year |
| Temperature.SpanUnique | globleclimate.py:13-14 | first and last are determined by the table |
| Temperature.TempsInMembership | globleclimate.py:15-16 | `first_temps` holds exactly the non-blank temperatures of the rows of that year |
| Temperature.TemperatureChange | globleclimate.py:11-17 | Q1: `min()` raises exactly when no row has a Year; the division raises exactly when the first or last year has no temperature; otherwise the two years and the means of their temperatures |
| Samples.CollectPairs | globleclimate.py:28-31 | the loop appends exactly the two columns of the rows where both cells are non-blank |
| Samples.RenewableVsCo2Sample | globleclimate.py:27-33 | Q3 prints exactly when some row has both cells, and then the first five (renewable, CO2) pairs in table order |
| Samples.RainfallVsEventsSample | globleclimate.py:51-57 | Q6, the same for (rainfall, extreme events) |
| Samples.Co2VsTemperatureSample | globleclimate.py:79-82 | Q9 is the first min(5, #pairs) (CO2, temperature) pairs, printed even when empty |
| Samples.SampleIgnoresBlankRow | globleclimate.py:79-82 | a row with a blank cell in either column, inserted anywhere, leaves a sample unchanged |
| Emitters.AveragesExactly | globleclimate.py:24 | `avg_co2` lists each non-blank country with a CO2 reading exactly once, in first-encounter order, with the mean of its readings |
| Emitters.TopEmittersEntries | globleclimate.py:25 | Q2 lists min(5, #countries) countries with their true means, by non-increasing mean |
| Emitters.TopEmittersLeftOut | globleclimate.py:25 | every country left out of Q2 has a mean no larger than any shown |
| Emitters.TopEmittersTies | globleclimate.py:25 | among equal means, Q2 keeps the first-encountered countries, in that order |
| Emitters.TopEmittersIgnoreBlankRow | globleclimate.py:21-25 | a row without a CO2 reading, inserted anywhere, does not change Q2 |
| Emitters.ForestVsCo2 | globleclimate.py:35-41 | Q4 holds the first five `forest` keys in order, each with its mean forest share and, exactly when it has CO2 readings, its mean CO2 |
| Emitters.TrendInTableOrder | globleclimate.py:46-49 | a Q5 line shows the population and CO2 of the country's earliest and latest rows holding each reading |
| Emitters.Trends | globleclimate.py:44-49 | Q5 prints a line for a listed country exactly when it has both population and CO2 readings, and each line is that country's trend |
| Emitters.TrendsPrefix | globleclimate.py:45-49 | the lines for the first n names are a prefix of all lines |
| Emitters.TrendsDistinct | globleclimate.py:45-49 | with distinct names, each country gets at most one line |
| Emitters.TrendsInNameOrder | globleclimate.py:45-49 | of two printed names, the one listed earlier is printed earlier |
| Emitters.TopEmittersDistinct | globleclimate.py:44 | each top emitter is listed once |
| Emitters.PopulationVsCo2 | globleclimate.py:44-49 | Q5 prints exactly one line for each top emitter with both population and CO2 readings, that country's trend, in ranking order |
| Emitters.RenewablePartition | globleclimate.py:86-87 | the two Q10 lists split the renewable column between top-emitter rows and all other rows, blank Country included |
| Emitters.RenewableWhereMembership | globleclimate.py:86-87 | each Q10 list holds exactly the renewable values of its side's rows |
| Emitters.RenewableTopVsRest | globleclimate.py:84-88 | Q10 is the two means when both sides have a value, and the division error otherwise |
| Profiles.Classified | globleclimate.py:60-66 | a country is picked exactly when it is a key with both renewable and forest readings whose means meet the thresholds |
| Profiles.ClassifiedPrefix | globleclimate.py:60-67 | the countries picked from a prefix of the keys are a prefix of the full list, so `[:5]` shows the earliest qualifying keys |
| Profiles.Classify | globleclimate.py:60-66 | the loop appends exactly the qualifying keys, in key order |
| Profiles.ClassifiedDistinct | globleclimate.py:60-66 | each key of `co2` is appended at most once |
| Profiles.ClassifiedInKeyOrder | globleclimate.py:60-66 | of two picked keys, the one earlier in `co2` is picked earlier |
| Profiles.Listed | globleclimate.py:59-77 | Q7 and Q8: min(5, #qualifying) distinct countries, each a qualifying key; all qualifying keys when fewer than five are listed; every qualifying key before a listed one is listed; listed in `co2` key order |
| Profiles.ChallengedAndLeadersDisjoint | globleclimate.py:65-75 | no country appears in both Q7 and Q8 |
| Profiles.Scores | globleclimate.py:101-106 | `score` has exactly the keys with renewable and forest readings, each scored as renewable + forest - CO2 means |
| Profiles.ScoresDistinct | globleclimate.py:101-106 | each key of `co2` is scored at most once |
| Profiles.ScoresPrefix | globleclimate.py:101-107 | the scores of the first n keys are a prefix of all scores, so `score.items()` is in `co2` key order, the order `sorted` keeps for equal scores |
| Profiles.ScoreCountries | globleclimate.py:101-106 | the loop builds exactly those scores in key order |
| Profiles.BestAndWorstCoverAll | globleclimate.py:107-109 | with ten or fewer scored countries, Q12's two lists together show all of them |
| Profiles.BestAndWorstApart | globleclimate.py:107-109 | with ten or more, the two lists are disjoint and no worst score exceeds a best score |
| Improvement.LastAtIsLast | globleclimate.py:95-96 | a slot ends with the share of the country's last row of that year, and stays unset when there is none |
| Improvement.SlotKeys | globleclimate.py:92-96 | a country is a key of `growth` exactly when it is non-blank and has a renewable reading in the first or the last year |
| Improvement.GrowthSlots | globleclimate.py:91-96 | the loop yields those keys in first-encounter order, each with its first- and last-year share, 0 where unset |
| Improvement.Diffs | globleclimate.py:97 | a key is kept exactly when both slots are non-zero, with the last slot minus the first |
| Improvement.ImprovementsExactly | globleclimate.py:92-97 | a country is listed exactly when it has non-zero shares in both years, each once, with last minus first; a share recorded as 0 is dropped like a missing one |
| Improvement.DiffsDistinct | globleclimate.py:97 | `diffs` lists each country at most once |
| Improvement.DiffsPrefix | globleclimate.py:97 | the diffs of the first n keys of `growth` are a prefix of all diffs, so `diffs` follows `growth` key order, the order `sorted` keeps for equal improvements |
| Improvement.RenewableImprovers | globleclimate.py:90-98 | Q11 raises, and only with the `min()` error, exactly when no row has a Year; otherwise at most five improvements, non-increasing, drawn from `diffs`, none left out larger than one shown, and equal improvements in `diffs` order |

## Left out

- Reading the file and `csv.DictReader` (globleclimate.py:4-6) are left out. The model starts from parsed rows.
- The `int()` and `float()` conversions are left out. A malformed cell, which would raise `ValueError`, cannot be expressed in a `Record`.
- The printed lines are left out: `print`, `round(..., 2)` and the header line.
- Numbers are exact reals, not IEEE doubles, so rounding in `sum()` and in `/` is not modelled.
- `-0.0` and NaN are not distinguished from other values in the Q11 truthiness test.
- The script stops at its first exception, so a crash in Q1 prevents Q2–Q12 from printing. The model computes each query independently. Q5, Q10 and Q11 take `top_emitters` and the Q1 years from their own computations.
- Q11 re-derives the first and last year through `YearSpan`, without Q1's temperature division. In the script, a failing Q1 division would already have stopped the run.
- Ranking.BottomK: models `[-k:]` only for k > 0. For k = 0 Python returns the whole list, but the script only slices with 5.
- The Sea Level Rise column is carried in `Record` but no query reads it.
- main.py is left out. It is a separate Streamlit dashboard that loads the same CSV with pandas and draws charts. It is not part of this model.
- Improvement.GrowthSlots keeps both slots as reals. The script's untouched slot is the integer `0` of `[0, 0]`, which the truthiness filter treats like `0.0`, so no printed result differs.
