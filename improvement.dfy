/** Q11 of globleclimate.py: for every country, its renewable share in the
    first and in the last year of the table, and the countries whose share
    rose the most between the two. */
module Improvement {
  import opened Table
  import opened Grouping
  import opened Ranking
  import opened Temperature
  import opened Emitters

  /** Row `r` is a renewable reading of country `c` in year `y`. */
  predicate RenewableAt(r: Record, c: string, y: int) {
    r.country == c && r.year == Some(y) && r.renewable.Some?
  }

  /** The renewable share of the last row of country `c` and year `y`: the
      value the slot holds once every row has overwritten it; None when
      there is no such row. */
  function LastAt(rows: seq<Record>, c: string, y: int): Option<real> {
    if rows == [] then None
    else
      var r := rows[|rows| - 1];
      if RenewableAt(r, c, y) then r.renewable else LastAt(rows[..|rows| - 1], c, y)
  }

  /** LastAt is None exactly when there is no such row, and otherwise the
      share of a matching row that no later row matches. */
  lemma LastAtIsLast(rows: seq<Record>, c: string, y: int)
    ensures LastAt(rows, c, y).None? <==> forall i :: 0 <= i < |rows| ==> !RenewableAt(rows[i], c, y)
    ensures LastAt(rows, c, y).Some? ==>
              exists i :: && 0 <= i < |rows| && RenewableAt(rows[i], c, y) && rows[i].renewable == LastAt(rows, c, y)
                          && forall j :: i < j < |rows| ==> !RenewableAt(rows[j], c, y)
  {
    LastAtNone(rows, c, y);
    if LastAt(rows, c, y).Some? {
      var i := LastAtIndex(rows, c, y);
    }
  }

  lemma {:induction false} LastAtNone(rows: seq<Record>, c: string, y: int)
    ensures LastAt(rows, c, y).None? <==> forall i :: 0 <= i < |rows| ==> !RenewableAt(rows[i], c, y)
  {
    if rows != [] {
      var init := rows[..|rows| - 1];
      LastAtNone(init, c, y);
      assert forall i :: 0 <= i < |init| ==> init[i] == rows[i];
    }
  }

  /** The index of the row LastAt reads. */
  lemma {:induction false} LastAtIndex(rows: seq<Record>, c: string, y: int) returns (i: nat)
    requires LastAt(rows, c, y).Some?
    ensures i < |rows| && RenewableAt(rows[i], c, y) && rows[i].renewable == LastAt(rows, c, y)
    ensures forall j :: i < j < |rows| ==> !RenewableAt(rows[j], c, y)
  {
    var n := |rows| - 1;
    if RenewableAt(rows[n], c, y) {
      i := n;
    } else {
      var init := rows[..n];
      i := LastAtIndex(init, c, y);
      assert init[i] == rows[i];
      assert forall j :: i < j < n ==> init[j] == rows[j];
    }
  }

  /** One more row changes LastAt only for its own country and year. */
  lemma LastAtStep(rows: seq<Record>, i: nat, c: string, y: int)
    requires i < |rows|
    ensures LastAt(rows[..i + 1], c, y) == if RenewableAt(rows[i], c, y) then rows[i].renewable else LastAt(rows[..i], c, y)
  {
    assert rows[..i + 1][..i] == rows[..i];
  }

  /** The `growth` dictionary after the loop: for each key, the renewable
      share in the first and in the last year, 0 where the country has no
      such reading (the `[0, 0]` of `setdefault`). */
  function Slots(rows: seq<Record>, first: int, last: int): map<string, (real, real)> {
    map c | c in Keys(rows, RenewableIn(first, last)) ::
      (LastAt(rows, c, first).GetOr(0.0), LastAt(rows, c, last).GetOr(0.0))
  }

  /** A country is a key of `growth` exactly when it is non-blank and has a
      renewable reading in the first or in the last year. */
  lemma {:induction false} SlotKeys(rows: seq<Record>, first: int, last: int, c: string)
    ensures c in Keys(rows, RenewableIn(first, last)) <==>
              c != "" && (LastAt(rows, c, first).Some? || LastAt(rows, c, last).Some?)
  {
    if rows != [] {
      SlotKeys(rows[..|rows| - 1], first, last, c);
    }
  }

  /** The loop of globleclimate.py:92-96. */
  method GrowthSlots(rows: seq<Record>, first: int, last: int) returns (keys: seq<string>, growth: map<string, (real, real)>)
    ensures keys == Keys(rows, RenewableIn(first, last))
    ensures growth == Slots(rows, first, last)
  {
    keys, growth := [], map[];
    var i := 0;
    while i < |rows|
      invariant 0 <= i <= |rows|
      invariant keys == Keys(rows[..i], RenewableIn(first, last))
      invariant forall c :: c in growth <==> c in keys
      invariant "" !in growth
      invariant forall c :: c in growth ==>
                  growth[c] == (LastAt(rows[..i], c, first).GetOr(0.0), LastAt(rows[..i], c, last).GetOr(0.0))
    {
      var r := rows[i];
      assert rows[..i + 1][..i] == rows[..i];
      forall c, y {
        LastAtStep(rows, i, c, y);
      }
      if r.year.Some? && r.renewable.Some? && r.country != "" {
        var y, c, v := r.year.value, r.country, r.renewable.value;
        if c !in growth && (y == first || y == last) {
          SlotKeys(rows[..i], first, last, c);
          keys := keys + [c];
          growth := growth[c := (0.0, 0.0)];
        }
        if y == first {
          growth := growth[c := (v, growth[c].1)];
        }
        if y == last {
          growth := growth[c := (growth[c].0, v)];
        }
      }

      i := i + 1;
    }
    assert rows[..i] == rows;
  }

  /** `[(c, growth[c][1] - growth[c][0]) for c in growth if growth[c][0] and growth[c][1]]`:
      a slot is truthy when it is not zero. */
  function Diffs(keys: seq<string>, growth: map<string, (real, real)>): (d: seq<Entry>)
    requires forall c :: c in keys ==> c in growth
    ensures forall c :: c in Names(d) <==> c in keys && growth[c].0 != 0.0 && growth[c].1 != 0.0
    ensures forall k :: 0 <= k < |d| ==>
              d[k].0 in keys && d[k].1 == growth[d[k].0].1 - growth[d[k].0].0
  {
    if keys == [] then []
    else
      var c, init := keys[|keys| - 1], keys[..|keys| - 1];
      assert forall x :: x in keys <==> x in init || x == c;
      var prev := Diffs(init, growth);
      var d := prev + (if growth[c].0 != 0.0 && growth[c].1 != 0.0 then [(c, growth[c].1 - growth[c].0)] else []);
      assert Names(d) == Names(prev) + (if growth[c].0 != 0.0 && growth[c].1 != 0.0 then [c] else []);
      d
  }

  /** `diffs` for a given first and last year. */
  function Improvements(rows: seq<Record>, first: int, last: int): seq<Entry> {
    Diffs(Keys(rows, RenewableIn(first, last)), Slots(rows, first, last))
  }

  /** A country has an improvement exactly when it is non-blank and has a
      non-zero renewable share in both years, and the improvement is the
      last-year share minus the first-year share.  A share recorded as 0 in
      either year leaves the country out, as a missing one does. */
  lemma ImprovementsExactly(rows: seq<Record>, first: int, last: int)
    ensures forall c :: c in Names(Improvements(rows, first, last)) <==>
              && c != ""
              && LastAt(rows, c, first).Some? && LastAt(rows, c, first).value != 0.0
              && LastAt(rows, c, last).Some? && LastAt(rows, c, last).value != 0.0
    ensures forall k :: 0 <= k < |Improvements(rows, first, last)| ==>
              && LastAt(rows, Improvements(rows, first, last)[k].0, first).Some?
              && LastAt(rows, Improvements(rows, first, last)[k].0, last).Some?
              && Improvements(rows, first, last)[k].1
                 == LastAt(rows, Improvements(rows, first, last)[k].0, last).value
                    - LastAt(rows, Improvements(rows, first, last)[k].0, first).value
    ensures Distinct(Names(Improvements(rows, first, last)))
  {
    var keys, slots := Keys(rows, RenewableIn(first, last)), Slots(rows, first, last);
    var d := Improvements(rows, first, last);
    forall c ensures c in keys <==> c != "" && (LastAt(rows, c, first).Some? || LastAt(rows, c, last).Some?) {
      SlotKeys(rows, first, last, c);
    }
    forall c | c in keys
      ensures slots[c] == (LastAt(rows, c, first).GetOr(0.0), LastAt(rows, c, last).GetOr(0.0))
    {
    }
    forall k | 0 <= k < |d|
      ensures LastAt(rows, d[k].0, first).Some? && LastAt(rows, d[k].0, last).Some?
      ensures d[k].1 == LastAt(rows, d[k].0, last).value - LastAt(rows, d[k].0, first).value
    {
      assert Names(d)[k] == d[k].0;
    }
    KeysDistinct(rows, RenewableIn(first, last));
    DiffsDistinct(keys, slots);
  }

  /** The names of `Diffs` are a subsequence of distinct keys, hence distinct. */
  lemma {:induction false} DiffsDistinct(keys: seq<string>, growth: map<string, (real, real)>)
    requires forall c :: c in keys ==> c in growth
    requires Distinct(keys)
    ensures Distinct(Names(Diffs(keys, growth)))
  {
    if keys != [] {
      var c, init := keys[|keys| - 1], keys[..|keys| - 1];
      DiffsDistinct(init, growth);
      var prev := Diffs(init, growth);
      assert c !in init;
      assert c !in Names(prev);
      var d := Diffs(keys, growth);
      assert Names(d) == Names(prev) + (if growth[c].0 != 0.0 && growth[c].1 != 0.0 then [c] else []);
    }
  }

  /** The comprehension walks `growth` in key order: the diffs of the first
      n keys are a prefix of all diffs, so `diffs` lists countries in the
      order `growth` received them, the order `sorted` keeps for equal
      improvements. */
  lemma {:induction false} DiffsPrefix(keys: seq<string>, growth: map<string, (real, real)>, n: nat)
    requires forall c :: c in keys ==> c in growth
    requires n <= |keys|
    ensures Diffs(keys[..n], growth) <= Diffs(keys, growth)
  {
    if n < |keys| {
      var init := keys[..|keys| - 1];
      DiffsPrefix(init, growth, n);
      assert init[..n] == keys[..n];
    } else {
      assert keys[..n] == keys;
    }
  }

  /** Q11: the five largest improvements between the first and the last
      year of the table; the exception of `min(years)` when no row has a
      Year. */
  function RenewableImprovers(rows: seq<Record>): (r: Result<seq<Entry>>)
    ensures r == Err(EmptySequence) <==> forall i :: 0 <= i < |rows| ==> rows[i].year.None?
    ensures r.Err? ==> r == Err(EmptySequence)
    ensures r.Ok? ==>
              exists first, last ::
                && IsSpan(rows, first, last)
                && |r.value| == Min(Top, |Improvements(rows, first, last)|)
                && NonIncreasing(r.value)
                && multiset(r.value) <= multiset(Improvements(rows, first, last))
                && (forall x, j :: x in multiset(Improvements(rows, first, last)) - multiset(r.value) && 0 <= j < |r.value| ==>
                      x.1 <= r.value[j].1)
                && forall v :: WithValue(r.value, v) <= WithValue(Improvements(rows, first, last), v)
  {
    match YearSpan(rows)
    case None => Err(EmptySequence)
    case Some((first, last)) =>
      var diffs := Improvements(rows, first, last);
      TopKSpec(diffs, Top);
      TopKStableAll(diffs, Top);
      Ok(TopK(diffs, Top))
  }
}
