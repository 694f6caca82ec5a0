/** src/util/bounded_priority.ts and the streaming selection of src/routing/finder.ts. */
module BoundedPriority {

  predicate SortedBy<T>(s: seq<T>, w: T -> int) {
    forall i, j :: 0 <= i < j < |s| ==> w(s[i]) <= w(s[j])
  }

  function Take<T>(s: seq<T>, n: nat): seq<T> {
    if |s| <= n then s else s[..n]
  }

  // Insert after every element that weighs no more: equal weights keep their order of arrival.
  function Insert<T>(s: seq<T>, x: T, w: T -> int): seq<T> {
    if s == [] then [x]
    else if w(x) < w(s[0]) then [x] + s
    else [s[0]] + Insert(s[1..], x, w)
  }

  // The stable sort of everything.
  function StableSort<T>(items: seq<T>, w: T -> int): seq<T> {
    if items == [] then [] else Insert(StableSort(items[..|items| - 1], w), items[|items| - 1], w)
  }

  // What a bounded selection holds after seeing the items one by one.
  function TopN<T>(items: seq<T>, n: nat, w: T -> int): (r: seq<T>)
    ensures |r| <= n
  {
    if items == [] then [] else Take(Insert(TopN(items[..|items| - 1], n, w), items[|items| - 1], w), n)
  }

  // --- The stable sort is one ---

  lemma {:induction false} InsertAdds<T>(s: seq<T>, x: T, w: T -> int)
    ensures multiset(Insert(s, x, w)) == multiset(s) + multiset{x}
    ensures |Insert(s, x, w)| == |s| + 1
    ensures forall y :: y in Insert(s, x, w) ==> y in s || y == x
  {
    if s != [] {
      assert s == [s[0]] + s[1..];
      InsertAdds(s[1..], x, w);
    }
  }

  lemma {:induction false} InsertSorts<T>(s: seq<T>, x: T, w: T -> int)
    requires SortedBy(s, w)
    ensures SortedBy(Insert(s, x, w), w)
  {
    if s != [] {
      InsertSorts(s[1..], x, w);
      InsertAdds(s[1..], x, w);
      assert forall y :: y in s[1..] ==> w(s[0]) <= w(y);
    }
  }

  lemma {:induction false} StableSortSorts<T>(items: seq<T>, w: T -> int)
    ensures SortedBy(StableSort(items, w), w)
    ensures multiset(StableSort(items, w)) == multiset(items)
    ensures |StableSort(items, w)| == |items|
  {
    if items != [] {
      var rest, last := items[..|items| - 1], items[|items| - 1];
      StableSortSorts(rest, w);
      InsertSorts(StableSort(rest, w), last, w);
      InsertAdds(StableSort(rest, w), last, w);
      assert items == rest + [last];
    }
  }

  // The elements of one weight, in order.
  function OfWeight<T>(s: seq<T>, k: int, w: T -> int): seq<T> {
    if s == [] then []
    else if w(s[0]) == k then [s[0]] + OfWeight(s[1..], k, w)
    else OfWeight(s[1..], k, w)
  }

  lemma {:induction false} OfWeightSnoc<T>(s: seq<T>, x: T, k: int, w: T -> int)
    ensures OfWeight(s + [x], k, w) == OfWeight(s, k, w) + (if w(x) == k then [x] else [])
  {
    if s != [] {
      assert (s + [x])[1..] == s[1..] + [x];
      OfWeightSnoc(s[1..], x, k, w);
    }
  }

  lemma {:induction false} HeavierHaveNot<T>(s: seq<T>, k: int, w: T -> int)
    requires forall y :: y in s ==> k < w(y)
    ensures OfWeight(s, k, w) == []
  {
    if s != [] {
      HeavierHaveNot(s[1..], k, w);
    }
  }

  lemma {:induction false} InsertKeepsArrival<T>(s: seq<T>, x: T, k: int, w: T -> int)
    requires SortedBy(s, w)
    ensures OfWeight(Insert(s, x, w), k, w) == OfWeight(s + [x], k, w)
  {
    OfWeightSnoc(s, x, k, w);
    if s != [] {
      if w(x) < w(s[0]) {
        assert ([x] + s)[1..] == s;
        if w(x) == k {
          HeavierHaveNot(s, k, w);
        }
      } else {
        assert ([s[0]] + Insert(s[1..], x, w))[1..] == Insert(s[1..], x, w);
        InsertKeepsArrival(s[1..], x, k, w);
        OfWeightSnoc(s[1..], x, k, w);
      }
    }
  }

  // Equal weights stay in order of arrival.
  lemma {:induction false} StableSortIsStable<T>(items: seq<T>, k: int, w: T -> int)
    ensures OfWeight(StableSort(items, w), k, w) == OfWeight(items, k, w)
  {
    if items != [] {
      var rest, last := items[..|items| - 1], items[|items| - 1];
      StableSortIsStable(rest, k, w);
      StableSortSorts(rest, w);
      InsertKeepsArrival(StableSort(rest, w), last, k, w);
      OfWeightSnoc(StableSort(rest, w), last, k, w);
      OfWeightSnoc(rest, last, k, w);
      assert items == rest + [last];
    }
  }

  // --- Bounded selection is sorting and cutting ---

  // Cutting first loses nothing the cut result needs.
  lemma {:induction false} InsertIntoCut<T>(s: seq<T>, x: T, n: nat, w: T -> int)
    ensures Take(Insert(Take(s, n), x, w), n) == Take(Insert(s, x, w), n)
  {
    if n > 0 && s != [] && w(x) >= w(s[0]) {
      InsertIntoCut(s[1..], x, n - 1, w);
      assert Take(s, n)[1..] == Take(s[1..], n - 1);
    }
  }

  lemma {:induction false} TopNIsSortedPrefix<T>(items: seq<T>, n: nat, w: T -> int)
    ensures TopN(items, n, w) == Take(StableSort(items, w), n)
  {
    if items != [] {
      var rest := items[..|items| - 1];
      TopNIsSortedPrefix(rest, n, w);
      InsertIntoCut(StableSort(rest, w), items[|items| - 1], n, w);
    }
  }

  lemma {:induction false} InsertLast<T>(s: seq<T>, x: T, w: T -> int)
    requires forall y :: y in s ==> w(y) <= w(x)
    ensures Insert(s, x, w) == s + [x]
  {
    if s != [] {
      InsertLast(s[1..], x, w);
    }
  }

  lemma {:induction false} TopNOfSorted<T>(s: seq<T>, n: nat, w: T -> int)
    requires SortedBy(s, w) && |s| <= n
    ensures TopN(s, n, w) == s
  {
    hide Insert;
    if s != [] {
      var rest, last := s[..|s| - 1], s[|s| - 1];
      assert forall y :: y in rest ==> w(y) <= w(last);
      TopNOfSorted(rest, n, w);
      InsertLast(rest, last, w);
      assert s == rest + [last];
    }
  }

  lemma TopNIsSorted<T>(items: seq<T>, n: nat, w: T -> int)
    ensures SortedBy(TopN(items, n, w), w)
  {
    TopNIsSortedPrefix(items, n, w);
    StableSortSorts(items, w);
  }

  // Selecting again from a selection changes nothing.
  lemma TopNTwice<T>(items: seq<T>, n: nat, w: T -> int)
    ensures TopN(TopN(items, n, w), n, w) == TopN(items, n, w)
  {
    TopNIsSorted(items, n, w);
    TopNOfSorted(TopN(items, n, w), n, w);
  }

  lemma {:induction false} InsertAt<T>(s: seq<T>, x: T, k: nat, w: T -> int)
    requires k <= |s|
    requires forall i :: 0 <= i < k ==> w(s[i]) <= w(x)
    requires k < |s| ==> w(x) < w(s[k])
    ensures Insert(s, x, w) == s[..k] + [x] + s[k..]
  {
    if k == 0 {
      assert s[..0] == [] && s[0..] == s;
    } else {
      InsertAt(s[1..], x, k - 1, w);
      assert Insert(s, x, w) == [s[0]] + Insert(s[1..], x, w);
      assert s[..k] == [s[0]] + s[1..][..k - 1];
      assert s[k..] == s[1..][k - 1..];
    }
  }

  // Where the elements of a stable sort came from: each position exactly once, lighter elements first,
  // and equal weights in the order of their positions.
  ghost predicate Ranks<T>(at: seq<nat>, sorted: seq<T>, items: seq<T>, w: T -> int) {
    && |at| == |sorted| == |items|
    && (forall i :: 0 <= i < |at| ==> at[i] < |items| && sorted[i] == items[at[i]])
    && (forall k: nat :: k < |items| ==> k in at)
    && (forall i, j :: 0 <= i < j < |at| ==>
          at[i] != at[j] && (w(sorted[i]) < w(sorted[j]) || (w(sorted[i]) == w(sorted[j]) && at[i] < at[j])))
  }

  lemma {:induction false} StableSortRanks<T>(items: seq<T>, w: T -> int) returns (at: seq<nat>)
    ensures |at| == |StableSort(items, w)| && Ranks(at, StableSort(items, w), items, w)
  {
    hide Insert, Ranks;
    at := [];
    if items == [] {
      NothingRanks(items, w);
    } else {
      var rest, x := items[..|items| - 1], items[|items| - 1];
      var before := StableSortRanks(rest, w);
      var sorted := StableSort(rest, w);
      StableSortSorts(rest, w);
      var k := PlaceFor(sorted, x, w);
      InsertAt(sorted, x, k, w);
      at := before[..k] + [|rest|] + before[k..];
      assert items == rest + [x];
      RanksInsert(before, sorted, rest, x, k, w);
    }
  }

  lemma NothingRanks<T>(items: seq<T>, w: T -> int)
    requires items == []
    ensures Ranks([], StableSort(items, w), items, w)
  {
  }

  lemma RanksInsert<T>(at: seq<nat>, sorted: seq<T>, items: seq<T>, x: T, k: nat, w: T -> int)
    requires Ranks(at, sorted, items, w) && k <= |sorted|
    requires forall i :: 0 <= i < k ==> w(sorted[i]) <= w(x)
    requires forall i :: k <= i < |sorted| ==> w(x) < w(sorted[i])
    ensures Ranks(at[..k] + [|items|] + at[k..], sorted[..k] + [x] + sorted[k..], items + [x], w)
  {
    Inserted(at, |items|, k);
    Inserted(sorted, x, k);
    ReachedAgain(at, |items|, k);
    RanksShift(at, at[..k] + [|items|] + at[k..], sorted, sorted[..k] + [x] + sorted[k..], items, x, k, w);
  }

  lemma Inserted<T>(s: seq<T>, x: T, k: nat)
    requires k <= |s|
    ensures IsInserted(s, s[..k] + [x] + s[k..], x, k)
  {
  }

  predicate IsInserted<T(==)>(s: seq<T>, r: seq<T>, x: T, k: nat) {
    && |r| == |s| + 1 && k <= |s| && r[k] == x
    && (forall i :: 0 <= i < k ==> r[i] == s[i])
    && (forall i {:trigger r[i]} :: k < i < |r| ==> r[i] == s[i - 1])
  }

  lemma RanksShift<T>(at: seq<nat>, at2: seq<nat>, sorted: seq<T>, sorted2: seq<T>, items: seq<T>, x: T, k: nat, w: T -> int)
    requires Ranks(at, sorted, items, w) && k <= |sorted|
    requires IsInserted(at, at2, |items|, k) && IsInserted(sorted, sorted2, x, k)
    requires forall i :: 0 <= i < k ==> w(sorted[i]) <= w(x)
    requires forall i :: k <= i < |sorted| ==> w(x) < w(sorted[i])
    requires forall m: nat :: m < |items| + 1 ==> m in at2
    ensures Ranks(at2, sorted2, items + [x], w)
  {
    forall i | 0 <= i < |at2|
      ensures at2[i] < |items + [x]| && sorted2[i] == (items + [x])[at2[i]]
    {
      var o := if i < k then i else i - 1;
      assert i != k ==> at2[i] == at[o] && sorted2[i] == sorted[o];
    }
    forall i, j | 0 <= i < j < |at2|
      ensures at2[i] != at2[j]
      ensures w(sorted2[i]) < w(sorted2[j]) || (w(sorted2[i]) == w(sorted2[j]) && at2[i] < at2[j])
    {
      var a, b := if i < k then i else i - 1, if j < k then j else j - 1;
      assert i != k ==> at2[i] == at[a] && sorted2[i] == sorted[a];
      assert j != k ==> at2[j] == at[b] && sorted2[j] == sorted[b];
    }
  }

  lemma ReachedAgain(at: seq<nat>, n: nat, k: nat)
    requires k <= |at| && forall m: nat :: m < n ==> m in at
    ensures forall m: nat :: m < n + 1 ==> m in at[..k] + [n] + at[k..]
  {
    var at2 := at[..k] + [n] + at[k..];
    assert at2[k] == n;
    forall m: nat | m < n
      ensures m in at2
    {
      assert m in at;
      var i :| 0 <= i < |at| && at[i] == m;
      assert at2[if i < k then i else i + 1] == m;
    }
  }

  lemma PlaceFor<T>(s: seq<T>, x: T, w: T -> int) returns (k: nat)
    requires forall i, j :: 0 <= i < j < |s| ==> w(s[i]) <= w(s[j])
    ensures k <= |s| && (forall i :: 0 <= i < k ==> w(s[i]) <= w(x)) && (forall i :: k <= i < |s| ==> w(x) < w(s[i]))
  {
    k := 0;
    while k < |s| && w(s[k]) <= w(x)
      invariant k <= |s| && forall i :: 0 <= i < k ==> w(s[i]) <= w(x)
    {
      k := k + 1;
    }
  }

  // Binary insertion into a bounded list.
  method TakeTopNBy<T>(items: seq<T>, limit: nat, w: T -> int) returns (selected: seq<T>)
    ensures selected == TopN(items, limit, w)
  {
    hide Insert;
    selected := [];
    if limit == 0 {
      NothingSelected(items, w);
      return;
    }
    for i := 0 to |items|
      invariant selected == TopN(items[..i], limit, w)
    {
      assert items[..i + 1][..i] == items[..i];
      TopNIsSorted(items[..i], limit, w);
      var item := items[i];
      var lo, hi := 0, |selected|;
      while lo < hi
        invariant 0 <= lo <= hi <= |selected|
        invariant forall k :: 0 <= k < lo ==> w(selected[k]) <= w(item)
        invariant forall k :: hi <= k < |selected| ==> w(item) < w(selected[k])
      {
        var mid := (lo + hi) / 2;
        if w(item) < w(selected[mid]) {
          hi := mid;
        } else {
          lo := mid + 1;
        }
      }
      InsertAt(selected, item, lo, w);
      if lo >= limit {
        continue;
      }
      selected := selected[..lo] + [item] + selected[lo..];
      if |selected| > limit {
        selected := selected[..|selected| - 1];
      }
    }
    assert items[..|items|] == items;
  }

  lemma {:induction false} NothingSelected<T>(items: seq<T>, w: T -> int)
    ensures TopN(items, 0, w) == []
  {
  }

  // Push, and cut back to the limit once the buffer has grown past twice the limit.
  method PushTopPath<T>(paths: seq<T>, path: T, limit: nat, w: T -> int) returns (r: seq<T>)
    ensures Take(StableSort(r, w), limit) == Take(StableSort(paths + [path], w), limit)
    ensures |paths| <= 2 * limit ==> |r| <= 2 * limit
  {
    hide StableSort, TopN;
    if limit == 0 {
      return paths;
    }
    r := paths + [path];
    if |r| > limit * 2 {
      TopNTwice(r, limit, w);
      TopNIsSortedPrefix(r, limit, w);
      r := TakeTopNBy(r, limit, w);
      TopNIsSortedPrefix(r, limit, w);
    }
  }

  // Pushing with truncation along the way and cutting at the end selects what sorting every path
  // ever pushed and cutting would select, ties included.
  method SelectStreaming<T>(stream: seq<T>, limit: nat, w: T -> int) returns (r: seq<T>)
    ensures r == Take(StableSort(stream, w), limit)
  {
    hide StableSort, Insert, Take;
    var paths := [];
    for i := 0 to |stream|
      invariant TopN(paths, limit, w) == TopN(stream[..i], limit, w) && |paths| <= 2 * limit
    {
      SamePush(paths, stream[..i], stream[i], limit, w);
      paths := PushTopPath(paths, stream[i], limit, w);
      TopNIsSortedPrefix(paths, limit, w);
      assert stream[..i] + [stream[i]] == stream[..i + 1];
    }
    r := TakeTopNBy(paths, limit, w);
    assert stream[..|stream|] == stream;
    TopNIsSortedPrefix(stream, limit, w);
  }

  // A buffer that selects like the whole history is, after one more push, worth that history's selection.
  lemma SamePush<T>(a: seq<T>, b: seq<T>, x: T, n: nat, w: T -> int)
    requires TopN(a, n, w) == TopN(b, n, w)
    ensures Take(StableSort(a + [x], w), n) == TopN(b + [x], n, w)
  {
    TopNIsSortedPrefix(a + [x], n, w);
  }
}
