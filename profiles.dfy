/** Q7, Q8 and Q12 of globleclimate.py: countries judged on their mean CO2,
    renewable share and forest share together. */
module Profiles {
  import opened Table
  import opened Grouping
  import opened Ranking
  import opened Emitters

  /** A country's three means. */
  datatype Profile = Profile(co2: real, renewable: real, forest: real)

  /** Every listed country has a CO2 reading, as every key of `co2` has. */
  predicate HaveCo2(rows: seq<Record>, keys: seq<string>) {
    forall c :: c in keys ==> Readings(rows, c, Co2) != []
  }

  /** `if ren and fo:` the country's means; None when it has no renewable or
      no forest reading. */
  function ProfileOf(rows: seq<Record>, c: string): Option<Profile>
    requires Readings(rows, c, Co2) != []
  {
    var ren, fo := Readings(rows, c, Renewable), Readings(rows, c, Forest);
    if ren != [] && fo != [] then Some(Profile(Mean(Readings(rows, c, Co2)), Mean(ren), Mean(fo))) else None
  }

  datatype Verdict = TripleChallenge | ClimateLeader

  /** The thresholds of globleclimate.py:65 and :75. */
  predicate Meets(v: Verdict, p: Profile) {
    match v
    case TripleChallenge => p.co2 > 50.0 && p.renewable < 20.0 && p.forest < 30.0
    case ClimateLeader => p.co2 < 20.0 && p.renewable > 40.0 && p.forest > 40.0
  }

  predicate Qualifies(rows: seq<Record>, c: string, v: Verdict)
    requires Readings(rows, c, Co2) != []
  {
    ProfileOf(rows, c).Some? && Meets(v, ProfileOf(rows, c).value)
  }

  /** The listed countries that qualify, in list order. */
  function Classified(rows: seq<Record>, keys: seq<string>, v: Verdict): (picked: seq<string>)
    requires HaveCo2(rows, keys)
    ensures forall c :: c in picked <==> c in keys && Qualifies(rows, c, v)
  {
    if keys == [] then []
    else
      var c := keys[|keys| - 1];
      var init := keys[..|keys| - 1];
      assert forall x :: x in keys <==> x in init || x == c;
      Classified(rows, init, v) + (if Qualifies(rows, c, v) then [c] else [])
  }

  /** Classifying is done one key at a time, in key order: what the first n
      keys give is a prefix of the whole result. */
  lemma {:induction false} ClassifiedPrefix(rows: seq<Record>, keys: seq<string>, v: Verdict, n: nat)
    requires HaveCo2(rows, keys) && n <= |keys|
    ensures Classified(rows, keys[..n], v) <= Classified(rows, keys, v)
  {
    if n < |keys| {
      var init := keys[..|keys| - 1];
      ClassifiedPrefix(rows, init, v, n);
      assert init[..n] == keys[..n];
    } else {
      assert keys[..n] == keys;
    }
  }

  /** The loops of globleclimate.py:60-66 and :70-76. */
  method Classify(rows: seq<Record>, keys: seq<string>, v: Verdict) returns (picked: seq<string>)
    requires HaveCo2(rows, keys)
    ensures picked == Classified(rows, keys, v)
  {
    picked := [];
    var i := 0;
    while i < |keys|
      invariant 0 <= i <= |keys|
      invariant picked == Classified(rows, keys[..i], v)
    {
      var c := keys[i];
      ClassifiedStep(rows, keys, v, i);
      var ren := Readings(rows, c, Renewable);
      var fo := Readings(rows, c, Forest);
      if ren != [] && fo != [] {
        if Meets(v, Profile(Mean(Readings(rows, c, Co2)), Mean(ren), Mean(fo))) {
          picked := picked + [c];
        }
      }
      i := i + 1;
    }
    assert keys[..i] == keys;
  }

  /** One more key extends the result by that key, if it qualifies. */
  lemma ClassifiedStep(rows: seq<Record>, keys: seq<string>, v: Verdict, i: nat)
    requires HaveCo2(rows, keys) && i < |keys|
    ensures HaveCo2(rows, keys[..i]) && HaveCo2(rows, keys[..i + 1])
    ensures Classified(rows, keys[..i + 1], v)
            == Classified(rows, keys[..i], v) + (if Qualifies(rows, keys[i], v) then [keys[i]] else [])
  {
    assert forall c :: c in keys[..i + 1] ==> c in keys;
    assert keys[..i + 1][..i] == keys[..i];
  }

  lemma Co2KeysHaveCo2(rows: seq<Record>)
    ensures HaveCo2(rows, Co2Keys(rows))
  {
    ColumnKeys(rows, Co2);
  }

  /** Distinct keys give a list with each country once. */
  lemma {:induction false} ClassifiedDistinct(rows: seq<Record>, keys: seq<string>, v: Verdict)
    requires HaveCo2(rows, keys) && Distinct(keys)
    ensures Distinct(Classified(rows, keys, v))
  {
    if keys != [] {
      var init, c := keys[..|keys| - 1], keys[|keys| - 1];
      assert forall i :: 0 <= i < |init| ==> init[i] == keys[i];
      ClassifiedDistinct(rows, init, v);
      assert c !in init;
    }
  }

  /** The picked countries come in key order: of two picked keys, the
      earlier key is picked earlier. */
  lemma ClassifiedInKeyOrder(rows: seq<Record>, keys: seq<string>, v: Verdict)
    requires HaveCo2(rows, keys) && Distinct(keys)
    ensures forall i, j, a, b ::
              && 0 <= i < j < |keys|
              && 0 <= a < |Classified(rows, keys, v)| && 0 <= b < |Classified(rows, keys, v)|
              && Classified(rows, keys, v)[a] == keys[i] && Classified(rows, keys, v)[b] == keys[j]
              ==> a < b
  {
    forall i, j, a, b | && 0 <= i < j < |keys|
                        && 0 <= a < |Classified(rows, keys, v)| && 0 <= b < |Classified(rows, keys, v)|
                        && Classified(rows, keys, v)[a] == keys[i] && Classified(rows, keys, v)[b] == keys[j]
      ensures a < b
    {
      ClassifiedOrderOne(rows, keys, v, i, j, a, b);
    }
  }

  /** ClassifiedInKeyOrder for one pair of keys. */
  lemma ClassifiedOrderOne(rows: seq<Record>, keys: seq<string>, v: Verdict, i: nat, j: nat, a: nat, b: nat)
    requires HaveCo2(rows, keys) && Distinct(keys)
    requires i < j < |keys| && a < |Classified(rows, keys, v)| && b < |Classified(rows, keys, v)|
    requires Classified(rows, keys, v)[a] == keys[i] && Classified(rows, keys, v)[b] == keys[j]
    ensures a < b
  {
    var all, front := Classified(rows, keys, v), Classified(rows, keys[..j], v);
    ClassifiedDistinct(rows, keys, v);
    ClassifiedPrefix(rows, keys, v, j);
    assert keys[..j][i] == keys[i];
    assert keys[i] in front;
    var a' :| 0 <= a' < |front| && front[a'] == keys[i];
    assert all[a'] == keys[i];
    assert keys[j] !in keys[..j];
    assert b >= |front| by {
      assert forall k :: 0 <= k < |front| ==> all[k] == front[k] && front[k] != keys[j];
    }
  }

  /** Q7 for TripleChallenge (`triple[:5]`) and Q8 for ClimateLeader
      (`leaders[:5]`): the first five qualifying keys of `co2`, in key order. */
  function Listed(rows: seq<Record>, v: Verdict): (r: seq<string>)
    ensures HaveCo2(rows, Co2Keys(rows))
    ensures |r| == Min(Top, |Classified(rows, Co2Keys(rows), v)|)
    ensures forall c :: c in r ==> c in Co2Keys(rows) && Qualifies(rows, c, v)
    ensures |r| < Top ==> forall c :: c in Co2Keys(rows) && Qualifies(rows, c, v) ==> c in r
    ensures forall i, j :: && 0 <= i < j < |Co2Keys(rows)| && Co2Keys(rows)[j] in r
                           && Qualifies(rows, Co2Keys(rows)[i], v)
                           ==> Co2Keys(rows)[i] in r
    ensures forall i, j, a, b :: && 0 <= i < j < |Co2Keys(rows)| && 0 <= a < |r| && 0 <= b < |r|
                                 && r[a] == Co2Keys(rows)[i] && r[b] == Co2Keys(rows)[j]
                                 ==> a < b
    ensures Distinct(r)
  {
    var keys := Co2Keys(rows);
    Co2KeysHaveCo2(rows);
    KeysDistinct(rows, Reading(Co2));
    var all := Classified(rows, keys, v);
    ClassifiedInKeyOrder(rows, keys, v);
    ClassifiedDistinct(rows, keys, v);
    var r := Take(all, Top);
    assert forall a :: 0 <= a < |r| ==> r[a] == all[a];
    forall i, j | && 0 <= i < j < |keys| && keys[j] in r && Qualifies(rows, keys[i], v)
      ensures keys[i] in r
    {
      var b :| 0 <= b < |r| && r[b] == keys[j];
      var a :| 0 <= a < |all| && all[a] == keys[i];
      assert r[a] == keys[i];
    }
    r
  }

  /** Q7: `triple[:5]`. */
  function TripleChallengeCountries(rows: seq<Record>): seq<string> {
    Listed(rows, TripleChallenge)
  }

  /** Q8: `leaders[:5]`. */
  function ClimateLeaders(rows: seq<Record>): seq<string> {
    Listed(rows, ClimateLeader)
  }

  /** No country is both a triple-challenge country and a climate leader: a
      mean CO2 above 50 is not below 20. */
  lemma ChallengedAndLeadersDisjoint(rows: seq<Record>)
    ensures forall c :: !(c in TripleChallengeCountries(rows) && c in ClimateLeaders(rows))
  {
  }

  /** The composite score of globleclimate.py:106. */
  function Score(p: Profile): real {
    -p.co2 + p.renewable + p.forest
  }

  /** The `score` dictionary's items in insertion order. */
  function Scores(rows: seq<Record>, keys: seq<string>): (scored: seq<Entry>)
    requires HaveCo2(rows, keys)
    ensures forall c :: c in Names(scored) <==> c in keys && ProfileOf(rows, c).Some?
    ensures forall k :: 0 <= k < |scored| ==>
              var c := scored[k].0;
              c in keys && ProfileOf(rows, c).Some? && scored[k].1 == Score(ProfileOf(rows, c).value)
  {
    if keys == [] then []
    else
      var c := keys[|keys| - 1];
      var init := keys[..|keys| - 1];
      assert forall x :: x in keys <==> x in init || x == c;
      var prev := Scores(rows, init);
      var scored := prev + (match ProfileOf(rows, c) case Some(p) => [(c, Score(p))] case None => []);
      assert Names(scored) == Names(prev) + (if ProfileOf(rows, c).Some? then [c] else []);
      scored
  }

  /** Distinct keys are scored once each. */
  lemma {:induction false} ScoresDistinct(rows: seq<Record>, keys: seq<string>)
    requires HaveCo2(rows, keys) && Distinct(keys)
    ensures Distinct(Names(Scores(rows, keys)))
  {
    if keys != [] {
      var init, c := keys[..|keys| - 1], keys[|keys| - 1];
      assert forall i :: 0 <= i < |init| ==> init[i] == keys[i];
      ScoresDistinct(rows, init);
      assert c !in init;
      var prev := Scores(rows, init);
      assert Names(Scores(rows, keys)) == Names(prev) + (if ProfileOf(rows, c).Some? then [c] else []);
    }
  }

  /** Scoring goes key by key, in key order: the scores of the first n keys
      are a prefix of all scores, which is the order `sorted` falls back on
      for equal scores. */
  lemma {:induction false} ScoresPrefix(rows: seq<Record>, keys: seq<string>, n: nat)
    requires HaveCo2(rows, keys) && n <= |keys|
    ensures Scores(rows, keys[..n]) <= Scores(rows, keys)
  {
    if n < |keys| {
      var init := keys[..|keys| - 1];
      ScoresPrefix(rows, init, n);
      assert init[..n] == keys[..n];
    } else {
      assert keys[..n] == keys;
    }
  }

  /** One more key adds its score, if it has renewable and forest readings. */
  lemma ScoresStep(rows: seq<Record>, keys: seq<string>, i: nat)
    requires HaveCo2(rows, keys) && i < |keys|
    ensures HaveCo2(rows, keys[..i]) && HaveCo2(rows, keys[..i + 1])
    ensures var c := keys[i];
            var ren, fo := Readings(rows, c, Renewable), Readings(rows, c, Forest);
            Scores(rows, keys[..i + 1])
            == Scores(rows, keys[..i])
               + (if ren != [] && fo != [] then [(c, Score(Profile(Mean(Readings(rows, c, Co2)), Mean(ren), Mean(fo))))] else [])
  {
    var front := keys[..i + 1];
    assert forall x :: x in front ==> x in keys;
    assert front[..i] == keys[..i];
  }

  /** The loop of globleclimate.py:101-106. */
  method ScoreCountries(rows: seq<Record>, keys: seq<string>) returns (scored: seq<Entry>)
    requires HaveCo2(rows, keys)
    ensures scored == Scores(rows, keys)
  {
    scored := [];
    var i := 0;
    while i < |keys|
      invariant 0 <= i <= |keys|
      invariant scored == Scores(rows, keys[..i])
    {
      var c := keys[i];
      ScoresStep(rows, keys, i);
      var ren := Readings(rows, c, Renewable);
      var fo := Readings(rows, c, Forest);
      if ren != [] && fo != [] {
        scored := scored + [(c, Score(Profile(Mean(Readings(rows, c, Co2)), Mean(ren), Mean(fo))))];
      }
      i := i + 1;
    }
    assert keys[..i] == keys;
  }

  /** `score.items()` after the loop over the keys of `co2`. */
  function AllScores(rows: seq<Record>): seq<Entry> {
    Co2KeysHaveCo2(rows);
    Scores(rows, Co2Keys(rows))
  }

  /** Q12: the first five and the last five of the descending score ranking. */
  function BestAndWorst(rows: seq<Record>): (seq<Entry>, seq<Entry>) {
    (TopK(AllScores(rows), Top), BottomK(AllScores(rows), Top))
  }

  /** With ten or fewer scored countries, best and worst together show all of them. */
  lemma BestAndWorstCoverAll(rows: seq<Record>)
    requires |AllScores(rows)| <= 2 * Top
    ensures forall x :: x in AllScores(rows) ==> x in BestAndWorst(rows).0 || x in BestAndWorst(rows).1
  {
    TopBottomCover(AllScores(rows), Top);
  }

  /** With ten or more scored countries, best and worst are disjoint and no
      worst score exceeds a best score. */
  lemma BestAndWorstApart(rows: seq<Record>)
    requires |AllScores(rows)| >= 2 * Top
    ensures multiset(BestAndWorst(rows).0) + multiset(BestAndWorst(rows).1) <= multiset(AllScores(rows))
    ensures forall i, j :: 0 <= i < |BestAndWorst(rows).0| && 0 <= j < |BestAndWorst(rows).1| ==>
              BestAndWorst(rows).0[i].1 >= BestAndWorst(rows).1[j].1
  {
    TopBottomApart(AllScores(rows), Top);
  }
}
