/** Grouping rows by country into an insertion-ordered dictionary, as the
    script does with `d.setdefault(country, ...)`: a key enters the first time
    a qualifying row of that country is met, and keeps that place. */
module Grouping {
  import opened Table

  /** Which rows create a key.  Every grouping loop of the script also skips
      rows whose Country is blank. */
  datatype Selector =
    | Reading(field: Field)                // r[field] != "" (the co2 and forest dictionaries)
    | RenewableIn(first: int, last: int)   // Year and Renewable non-blank, Year is first or last (growth)

  predicate Selects(s: Selector, r: Record) {
    r.country != "" &&
    match s
    case Reading(f) => Has(r, f)
    case RenewableIn(first, last) =>
      r.year.Some? && Has(r, Renewable) && (r.year.value == first || r.year.value == last)
  }

  /** The keys of the dictionary after the loop: countries of the selected
      rows, each once, in order of first encounter. */
  function Keys(rows: seq<Record>, s: Selector): seq<string> {
    if rows == [] then []
    else
      var keys := Keys(rows[..|rows| - 1], s);
      var r := rows[|rows| - 1];
      if Selects(s, r) && r.country !in keys then keys + [r.country] else keys
  }

  /** The co2 / forest dictionary after the loop: each key maps to the
      country's readings in table order. */
  function Groups(rows: seq<Record>, f: Field): map<string, seq<real>> {
    map c | c in Keys(rows, Reading(f)) :: Readings(rows, c, f)
  }

  predicate Distinct(keys: seq<string>) {
    forall i, j :: 0 <= i < j < |keys| ==> keys[i] != keys[j]
  }

  lemma {:induction false} KeysDistinct(rows: seq<Record>, s: Selector)
    ensures Distinct(Keys(rows, s))
  {
    if rows != [] {
      KeysDistinct(rows[..|rows| - 1], s);
    }
  }

  /** A country is a key exactly when some selected row belongs to it. */
  lemma {:induction false} KeysMembership(rows: seq<Record>, s: Selector, c: string)
    ensures c in Keys(rows, s) <==>
              exists i :: 0 <= i < |rows| && Selects(s, rows[i]) && rows[i].country == c
  {
    if rows != [] {
      var init := rows[..|rows| - 1];
      KeysMembership(init, s, c);
      if exists i :: 0 <= i < |rows| && Selects(s, rows[i]) && rows[i].country == c {
        var i :| 0 <= i < |rows| && Selects(s, rows[i]) && rows[i].country == c;
        if i < |init| {
          assert init[i] == rows[i];
        }
      }
    }
  }

  /** Keys are only ever appended: the keys after the first n rows are a
      prefix of the final keys, so keys stand in order of first encounter. */
  lemma {:induction false} KeysPrefix(rows: seq<Record>, s: Selector, n: nat)
    requires n <= |rows|
    ensures Keys(rows[..n], s) <= Keys(rows, s)
  {
    if n < |rows| {
      var init := rows[..|rows| - 1];
      KeysPrefix(init, s, n);
      assert init[..n] == rows[..n];
    } else {
      assert rows[..n] == rows;
    }
  }

  /** For a column grouping: a country is a key exactly when it is non-blank
      and has at least one reading, so every mean over a group is defined. */
  lemma {:induction false} KeysHaveReadings(rows: seq<Record>, f: Field, c: string)
    ensures c in Keys(rows, Reading(f)) <==> c != "" && Readings(rows, c, f) != []
  {
    if rows != [] {
      KeysHaveReadings(rows[..|rows| - 1], f, c);
    }
  }

  /** KeysHaveReadings for every country at once. */
  lemma ColumnKeys(rows: seq<Record>, f: Field)
    ensures forall c :: c in Keys(rows, Reading(f)) <==> c != "" && Readings(rows, c, f) != []
  {
    forall c {
      KeysHaveReadings(rows, f, c);
    }
  }

  /** A row that the selector skips, inserted anywhere, leaves the keys as they were. */
  lemma {:induction false} KeysIgnoreSkippedRow(a: seq<Record>, r: Record, b: seq<Record>, s: Selector)
    requires !Selects(s, r)
    ensures Keys(a + [r] + b, s) == Keys(a + b, s)
    decreases |b|
  {
    if b == [] {
      assert (a + [r] + b)[..|a + [r] + b| - 1] == a;
      assert a + b == a;
    } else {
      var b' := b[..|b| - 1];
      KeysIgnoreSkippedRow(a, r, b', s);
      assert (a + [r] + b)[..|a + [r] + b| - 1] == a + [r] + b';
      assert (a + b)[..|a + b| - 1] == a + b';
    }
  }

  /** What `keys` and `groups` hold after the first i rows. */
  ghost predicate GroupedUpTo(rows: seq<Record>, i: nat, f: Field, keys: seq<string>, groups: map<string, seq<real>>)
    requires i <= |rows|
  {
    && keys == Keys(rows[..i], Reading(f))
    && (forall c :: c in groups <==> c in keys)
    && "" !in groups
    && forall c :: c in groups ==> groups[c] == Readings(rows[..i], c, f)
  }

  /** A row without a country or without an f-cell changes no group. */
  lemma GroupSkip(rows: seq<Record>, i: nat, f: Field, keys: seq<string>, groups: map<string, seq<real>>)
    requires i < |rows| && GroupedUpTo(rows, i, f, keys, groups)
    requires rows[i].country == "" || Get(rows[i], f).None?
    ensures GroupedUpTo(rows, i + 1, f, keys, groups)
  {
    assert rows[..i + 1][..i] == rows[..i];
    forall c | c in groups {
      ReadingsStep(rows, i, c, f);
    }
  }

  /** A reading of a country already in `groups` is appended to its group. */
  lemma GroupAppend(rows: seq<Record>, i: nat, f: Field, keys: seq<string>, groups: map<string, seq<real>>)
    requires i < |rows| && GroupedUpTo(rows, i, f, keys, groups)
    requires rows[i].country in groups && Get(rows[i], f).Some?
    ensures GroupedUpTo(rows, i + 1, f, keys, groups[rows[i].country := groups[rows[i].country] + [Get(rows[i], f).value]])
  {
    assert rows[..i + 1][..i] == rows[..i];
    forall c | c in groups {
      ReadingsStep(rows, i, c, f);
    }
  }

  /** The first reading of a country opens its group, and its key is appended. */
  lemma GroupOpen(rows: seq<Record>, i: nat, f: Field, keys: seq<string>, groups: map<string, seq<real>>)
    requires i < |rows| && GroupedUpTo(rows, i, f, keys, groups)
    requires rows[i].country != "" && rows[i].country !in groups && Get(rows[i], f).Some?
    ensures var g := groups[rows[i].country := []];
            GroupedUpTo(rows, i + 1, f, keys + [rows[i].country], g[rows[i].country := g[rows[i].country] + [Get(rows[i], f).value]])
  {
    var c := rows[i].country;
    assert rows[..i + 1][..i] == rows[..i];
    forall d | d in groups {
      ReadingsStep(rows, i, d, f);
    }
    ReadingsStep(rows, i, c, f);
    KeysHaveReadings(rows[..i], f, c);
  }

  /** The loop of globleclimate.py:20-23 and :36-39:
      `d.setdefault(r["Country"], []).append(float(r[f]))` for every row with a
      non-blank Country and a non-blank f-cell. */
  method GroupBy(rows: seq<Record>, f: Field) returns (keys: seq<string>, groups: map<string, seq<real>>)
    ensures keys == Keys(rows, Reading(f))
    ensures groups == Groups(rows, f)
  {
    keys, groups := [], map[];
    var i := 0;
    while i < |rows|
      invariant 0 <= i <= |rows|
      invariant GroupedUpTo(rows, i, f, keys, groups)
    {
      var r := rows[i];
      if r.country != "" && Get(r, f).Some? {
        if r.country !in groups {
          GroupOpen(rows, i, f, keys, groups);
          keys := keys + [r.country];
          groups := groups[r.country := []];
        } else {
          GroupAppend(rows, i, f, keys, groups);
        }
        groups := groups[r.country := groups[r.country] + [Get(r, f).value]];
      } else {
        GroupSkip(rows, i, f, keys, groups);
      }
      i := i + 1;
    }
    assert rows[..i] == rows;
  }
}
