/** `sorted(items, key=lambda x: x[1], reverse=True)` and the slices taken of
    it.  Python's sort is stable also with reverse=True: entries with equal
    keys keep their order in the input.  The model sorts by insertion, which
    has the same result. */
module Ranking {
  import opened Table

  /** A (country, value) item of one of the script's dictionaries. */
  type Entry = (string, real)

  predicate NonIncreasing(s: seq<Entry>) {
    forall i, j :: 0 <= i < j < |s| ==> s[i].1 >= s[j].1
  }

  /** The entries of `s` whose value is `v`, in order. */
  function WithValue(s: seq<Entry>, v: real): seq<Entry> {
    if s == [] then [] else (if s[0].1 == v then [s[0]] else []) + WithValue(s[1..], v)
  }

  function Names(s: seq<Entry>): seq<string> {
    seq(|s|, i requires 0 <= i < |s| => s[i].0)
  }

  /** Puts `e` after every entry whose value is at least e's. */
  function Insert(s: seq<Entry>, e: Entry): seq<Entry> {
    if s == [] then [e]
    else if s[0].1 >= e.1 then [s[0]] + Insert(s[1..], e)
    else [e] + s
  }

  /** The stable descending sort of `s` by value. */
  function SortDesc(s: seq<Entry>): seq<Entry> {
    if s == [] then [] else Insert(SortDesc(s[..|s| - 1]), s[|s| - 1])
  }

  predicate AtMost(s: seq<Entry>, v: real) {
    forall i :: 0 <= i < |s| ==> s[i].1 <= v
  }

  lemma {:induction false} InsertPermutes(s: seq<Entry>, e: Entry)
    ensures multiset(Insert(s, e)) == multiset(s) + multiset{e}
  {
    if s != [] && s[0].1 >= e.1 {
      InsertPermutes(s[1..], e);
      assert s == [s[0]] + s[1..];
    }
  }

  lemma {:induction false} InsertAtMost(s: seq<Entry>, e: Entry, v: real)
    requires AtMost(s, v) && e.1 <= v
    ensures AtMost(Insert(s, e), v)
  {
    if s != [] && s[0].1 >= e.1 {
      InsertAtMost(s[1..], e, v);
    }
  }

  lemma {:induction false} InsertSorted(s: seq<Entry>, e: Entry)
    requires NonIncreasing(s)
    ensures NonIncreasing(Insert(s, e))
  {
    if s != [] && s[0].1 >= e.1 {
      InsertSorted(s[1..], e);
      InsertAtMost(s[1..], e, s[0].1);
    }
  }

  /** The sort returns a permutation of its input. */
  lemma {:induction false} SortDescPermutes(s: seq<Entry>)
    ensures multiset(SortDesc(s)) == multiset(s)
  {
    if s != [] {
      SortDescPermutes(s[..|s| - 1]);
      InsertPermutes(SortDesc(s[..|s| - 1]), s[|s| - 1]);
      assert s == s[..|s| - 1] + [s[|s| - 1]];
    }
  }

  /** The sort returns its entries by non-increasing value. */
  lemma {:induction false} SortDescSorted(s: seq<Entry>)
    ensures NonIncreasing(SortDesc(s))
  {
    if s != [] {
      SortDescSorted(s[..|s| - 1]);
      InsertSorted(SortDesc(s[..|s| - 1]), s[|s| - 1]);
    }
  }

  lemma {:induction false} WithValueAppend(a: seq<Entry>, b: seq<Entry>, v: real)
    ensures WithValue(a + b, v) == WithValue(a, v) + WithValue(b, v)
  {
    if a != [] {
      assert (a + b)[1..] == a[1..] + b;
      WithValueAppend(a[1..], b, v);
    } else {
      assert a + b == b;
    }
  }

  lemma {:induction false} WithValueNone(s: seq<Entry>, v: real)
    requires forall i :: 0 <= i < |s| ==> s[i].1 != v
    ensures WithValue(s, v) == []
  {
    if s != [] {
      WithValueNone(s[1..], v);
    }
  }

  lemma {:induction false} InsertStable(s: seq<Entry>, e: Entry, v: real)
    requires NonIncreasing(s)
    ensures WithValue(Insert(s, e), v) == WithValue(s, v) + (if e.1 == v then [e] else [])
  {
    if s == [] {
      assert WithValue([e], v) == (if e.1 == v then [e] else []) + WithValue([], v);
    } else if s[0].1 >= e.1 {
      assert NonIncreasing(s[1..]) by {
        forall i, j | 0 <= i < j < |s[1..]| ensures s[1..][i].1 >= s[1..][j].1 {
          assert s[1..][i] == s[i + 1] && s[1..][j] == s[j + 1];
        }
      }
      InsertStable(s[1..], e, v);
      InsertBehind(s, e, v);
    } else {
      if e.1 == v {
        NoneAboveFirst(s, v);
      }
      InsertInFront(s, e, v);
    }
  }

  /** InsertStable when `e` goes behind the first entry, given the result for the rest. */
  lemma InsertBehind(s: seq<Entry>, e: Entry, v: real)
    requires s != [] && s[0].1 >= e.1
    requires WithValue(Insert(s[1..], e), v) == WithValue(s[1..], v) + (if e.1 == v then [e] else [])
    ensures WithValue(Insert(s, e), v) == WithValue(s, v) + (if e.1 == v then [e] else [])
  {
    var head, rest, tail := if s[0].1 == v then [s[0]] else [], WithValue(s[1..], v), if e.1 == v then [e] else [];
    WithValueAppend([s[0]], Insert(s[1..], e), v);
    assert [s[0]][1..] == [];
    assert WithValue([s[0]], v) == head;
    assert head + (rest + tail) == (head + rest) + tail;
  }

  /** InsertStable when `e` goes in front, given that no entry of `s` has e's value. */
  lemma InsertInFront(s: seq<Entry>, e: Entry, v: real)
    requires s != [] && s[0].1 < e.1
    requires e.1 == v ==> WithValue(s, v) == []
    ensures WithValue(Insert(s, e), v) == WithValue(s, v) + (if e.1 == v then [e] else [])
  {
    assert Insert(s, e) == [e] + s;
    WithValueAppend([e], s, v);
    assert [e][1..] == [];
  }

  /** A non-increasing list has no entry of a value above its first one. */
  lemma NoneAboveFirst(s: seq<Entry>, v: real)
    requires NonIncreasing(s) && s != [] && s[0].1 < v
    ensures WithValue(s, v) == []
  {
    forall i | 0 <= i < |s| ensures s[i].1 != v {
      assert s[0].1 >= s[i].1;
    }
    WithValueNone(s, v);
  }

  /** Stability: the entries of any one value come out in the order they went in. */
  lemma {:induction false} SortDescStable(s: seq<Entry>, v: real)
    ensures WithValue(SortDesc(s), v) == WithValue(s, v)
  {
    if s != [] {
      var init, last := s[..|s| - 1], s[|s| - 1];
      SortDescStable(init, v);
      SortDescSorted(init);
      InsertStable(SortDesc(init), last, v);
      WithValueAppend(init, [last], v);
      assert s == init + [last];
    }
  }

  /** Cutting a non-increasing list in two: nothing in the back part is
      larger than anything in the front part. */
  lemma SplitBound(t: seq<Entry>, n: nat)
    requires NonIncreasing(t) && n <= |t|
    ensures multiset(t) == multiset(t[..n]) + multiset(t[n..])
    ensures forall x, j :: x in multiset(t[n..]) && 0 <= j < n ==> x.1 <= t[..n][j].1
    ensures forall x, j :: x in multiset(t[..n]) && 0 <= j < |t| - n ==> x.1 >= t[n..][j].1
  {
    assert t == t[..n] + t[n..];
    forall x, j | x in multiset(t[n..]) && 0 <= j < n ensures x.1 <= t[..n][j].1 {
      assert x in t[n..];
      var k :| 0 <= k < |t| - n && t[n..][k] == x;
      assert t[n + k] == x;
    }
    forall x, j | x in multiset(t[..n]) && 0 <= j < |t| - n ensures x.1 >= t[n..][j].1 {
      assert x in t[..n];
      var i :| 0 <= i < n && t[..n][i] == x;
      assert t[i] == x && t[n..][j] == t[n + j];
    }
  }

  /** sorted(...)[:k]. */
  function TopK(s: seq<Entry>, k: nat): seq<Entry> {
    Take(SortDesc(s), k)
  }

  /** sorted(...)[-k:] for k > 0.  (For k = 0 Python's [-0:] is the whole
      list; the script slices with 5 only.) */
  function BottomK(s: seq<Entry>, k: nat): seq<Entry>
    requires k > 0
  {
    TakeLast(SortDesc(s), k)
  }

  /** The top k are the k entries of largest value. */
  lemma TopKSpec(s: seq<Entry>, k: nat)
    ensures |TopK(s, k)| == Min(k, |s|)
    ensures NonIncreasing(TopK(s, k))
    ensures multiset(TopK(s, k)) <= multiset(s)
    ensures forall x, j :: x in multiset(s) - multiset(TopK(s, k)) && 0 <= j < |TopK(s, k)| ==> x.1 <= TopK(s, k)[j].1
  {
    var sorted := SortDesc(s);
    SortDescFacts(s);
    SplitBound(sorted, Min(k, |s|));
    assert TopK(s, k) == sorted[..Min(k, |s|)];
  }

  /** The bottom k are the k entries of smallest value. */
  lemma BottomKSpec(s: seq<Entry>, k: nat)
    requires k > 0
    ensures |BottomK(s, k)| == Min(k, |s|)
    ensures NonIncreasing(BottomK(s, k))
    ensures multiset(BottomK(s, k)) <= multiset(s)
    ensures forall x, j :: x in multiset(s) - multiset(BottomK(s, k)) && 0 <= j < |BottomK(s, k)| ==> x.1 >= BottomK(s, k)[j].1
  {
    var sorted := SortDesc(s);
    SortDescFacts(s);
    SplitBound(sorted, |s| - Min(k, |s|));
    BottomKIsBack(s, k);
  }

  /** Ties in the top slice: of the entries with one value, the top k keeps
      the earliest ones of the input, in input order. */
  lemma TopKStable(s: seq<Entry>, k: nat, v: real)
    ensures WithValue(TopK(s, k), v) <= WithValue(s, v)
  {
    var sorted := SortDesc(s);
    SortDescPermutes(s);
    assert |sorted| == |multiset(sorted)| == |s|;
    var n := Min(k, |s|);
    assert sorted == sorted[..n] + sorted[n..];
    WithValueAppend(sorted[..n], sorted[n..], v);
    SortDescStable(s, v);
  }

  /** TopKStable for every value at once. */
  lemma TopKStableAll(s: seq<Entry>, k: nat)
    ensures forall v :: WithValue(TopK(s, k), v) <= WithValue(s, v)
  {
    forall v ensures WithValue(TopK(s, k), v) <= WithValue(s, v) {
      TopKStable(s, k, v);
    }
  }

  /** Ties in the bottom slice: it keeps the latest entries of each value, in input order. */
  lemma BottomKStable(s: seq<Entry>, k: nat, v: real)
    requires k > 0
    ensures exists front :: WithValue(s, v) == front + WithValue(BottomK(s, k), v)
  {
    var sorted := SortDesc(s);
    SortDescPermutes(s);
    assert |sorted| == |multiset(sorted)| == |s|;
    var n := |s| - Min(k, |s|);
    assert sorted == sorted[..n] + sorted[n..];
    WithValueAppend(sorted[..n], sorted[n..], v);
    SortDescStable(s, v);
    assert WithValue(s, v) == WithValue(sorted[..n], v) + WithValue(BottomK(s, k), v);
  }

  /** The length and the content of the sort. */
  lemma SortDescFacts(s: seq<Entry>)
    ensures |SortDesc(s)| == |s|
    ensures multiset(SortDesc(s)) == multiset(s)
    ensures NonIncreasing(SortDesc(s))
  {
    SortDescPermutes(s);
    SortDescSorted(s);
    assert |SortDesc(s)| == |multiset(SortDesc(s))| == |s|;
  }

  /** The top k is the front of the sort. */
  lemma TopKIsFront(s: seq<Entry>, k: nat)
    ensures |SortDesc(s)| == |s|
    ensures TopK(s, k) == SortDesc(s)[..Min(k, |s|)]
  {
    SortDescFacts(s);
  }

  /** The bottom k is the back of the sort. */
  lemma BottomKIsBack(s: seq<Entry>, k: nat)
    requires k > 0
    ensures |SortDesc(s)| == |s|
    ensures BottomK(s, k) == SortDesc(s)[|s| - Min(k, |s|)..]
  {
    var t := SortDesc(s);
    SortDescFacts(s);
    assert BottomK(s, k) == TakeLast(t, k);
    if |t| <= k {
      assert t[0..] == t;
    }
  }

  /** The first m and the last m entries of a list of at most 2m entries hold all of it. */
  lemma EndsCover(t: seq<Entry>, m: nat)
    requires m <= |t| <= 2 * m
    ensures forall x :: x in t ==> x in t[..m] || x in t[|t| - m..]
  {
    forall x | x in t ensures x in t[..m] || x in t[|t| - m..] {
      var i :| 0 <= i < |t| && t[i] == x;
      if i < m {
        assert t[..m][i] == x;
      } else {
        assert t[|t| - m..][i - (|t| - m)] == x;
      }
    }
  }

  /** The first m and the last m entries of a non-increasing list of at least
      2m entries do not overlap, and no value in the back exceeds one in the front. */
  lemma EndsApart(t: seq<Entry>, m: nat, front: seq<Entry>, back: seq<Entry>)
    requires NonIncreasing(t) && 2 * m <= |t|
    requires front == t[..m] && back == t[|t| - m..]
    ensures multiset(front) + multiset(back) <= multiset(t)
    ensures forall i, j :: 0 <= i < |front| && 0 <= j < |back| ==> front[i].1 >= back[j].1
  {
    var n := |t|;
    assert t == front + t[m..n - m] + back;
    assert multiset(t) == multiset(front) + multiset(t[m..n - m]) + multiset(back);
    forall i, j | 0 <= i < |front| && 0 <= j < |back| ensures front[i].1 >= back[j].1 {
      assert front[i] == t[i] && back[j] == t[n - m + j];
    }
  }

  /** With at most 2k entries, the top k and the bottom k together hold every entry. */
  lemma TopBottomCover(s: seq<Entry>, k: nat)
    requires 0 < k && |s| <= 2 * k
    ensures forall x :: x in s ==> x in TopK(s, k) || x in BottomK(s, k)
  {
    SortDescFacts(s);
    TopKIsFront(s, k);
    BottomKIsBack(s, k);
    var t := SortDesc(s);
    var m := Min(k, |s|);
    EndsCover(t, m);
    forall x | x in s ensures x in t {
      assert x in multiset(s);
    }
  }

  /** With at least k entries, the top k and the bottom k are the first k
      and the last k entries of the sort. */
  lemma EndsOfSort(s: seq<Entry>, k: nat)
    requires 0 < k <= |s|
    ensures NonIncreasing(SortDesc(s)) && |SortDesc(s)| == |s|
    ensures TopK(s, k) == SortDesc(s)[..k]
    ensures BottomK(s, k) == SortDesc(s)[|s| - k..]
  {
    SortDescFacts(s);
    TopKIsFront(s, k);
    BottomKIsBack(s, k);
    assert Min(k, |s|) == k;
  }

  /** With at least 2k entries, the top k and the bottom k share nothing and
      every top value is at least every bottom value. */
  lemma TopBottomApart(s: seq<Entry>, k: nat)
    requires 0 < k && 2 * k <= |s|
    ensures multiset(TopK(s, k)) + multiset(BottomK(s, k)) <= multiset(s)
    ensures forall i, j :: 0 <= i < |TopK(s, k)| && 0 <= j < |BottomK(s, k)| ==> TopK(s, k)[i].1 >= BottomK(s, k)[j].1
  {
    EndsOfSort(s, k);
    SortedEndsApart(s, k, TopK(s, k), BottomK(s, k));
  }

  /** EndsApart on the sort of `s`, stated against `s` itself. */
  lemma SortedEndsApart(s: seq<Entry>, k: nat, top: seq<Entry>, bottom: seq<Entry>)
    requires 2 * k <= |s| == |SortDesc(s)|
    requires top == SortDesc(s)[..k] && bottom == SortDesc(s)[|s| - k..]
    ensures multiset(top) + multiset(bottom) <= multiset(s)
    ensures forall i, j :: 0 <= i < |top| && 0 <= j < |bottom| ==> top[i].1 >= bottom[j].1
  {
    SortDescFacts(s);
    EndsApart(SortDesc(s), k, top, bottom);
  }
}
