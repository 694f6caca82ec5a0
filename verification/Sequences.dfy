/** Concatenating the results of a search, and lists without repetition. */
module Sequences {

  predicate Distinct<T(==)>(s: seq<T>) {
    forall i, j :: 0 <= i < j < |s| ==> s[i] != s[j]
  }

  // The results for each element in turn, one after the other.
  function FlatMap<A, B>(s: seq<A>, f: A -> seq<B>): seq<B> {
    if s == [] then [] else FlatMap(s[..|s| - 1], f) + f(s[|s| - 1])
  }

  lemma FlatMapEnds<A, B>(s: seq<A>, f: A -> seq<B>)
    ensures FlatMap(s[..0], f) == [] && FlatMap(s[..|s|], f) == FlatMap(s, f)
  {
    assert s[..|s|] == s;
  }

  lemma FlatMapSnoc<A, B>(s: seq<A>, i: nat, f: A -> seq<B>)
    requires i < |s|
    ensures FlatMap(s[..i + 1], f) == FlatMap(s[..i], f) + f(s[i])
  {
    assert s[..i + 1][..i] == s[..i];
  }

  lemma {:induction false} FlatMapIn<A, B>(s: seq<A>, f: A -> seq<B>, b: B)
    ensures b in FlatMap(s, f) <==> exists a :: a in s && b in f(a)
  {
    if s != [] {
      var rest, last := s[..|s| - 1], s[|s| - 1];
      FlatMapIn(rest, f, b);
      assert forall a :: a in s <==> a in rest || a == last;
      if b in FlatMap(s, f) {
        if b !in f(last) {
          var a :| a in rest && b in f(a);
          assert a in s;
        }
      }
    }
  }

  lemma DistinctConcat<T>(a: seq<T>, b: seq<T>)
    requires Distinct(a) && Distinct(b) && forall x :: x in a ==> x !in b
    ensures Distinct(a + b)
  {
    var c := a + b;
    forall i, j | 0 <= i < j < |c|
      ensures c[i] != c[j]
    {
      assert i < |a| <= j ==> c[i] in a && c[j] in b;
    }
  }

  // Lists without repetition that share no element concatenate to one without repetition.
  lemma {:induction false} FlatMapDistinct<A, B>(s: seq<A>, f: A -> seq<B>)
    requires Distinct(s)
    requires forall a :: a in s ==> Distinct(f(a))
    requires forall a, c, b :: a in s && c in s && b in f(a) && b in f(c) ==> a == c
    ensures Distinct(FlatMap(s, f))
  {
    if s != [] {
      var rest, last := s[..|s| - 1], s[|s| - 1];
      assert last !in rest;
      FlatMapDistinct(rest, f);
      forall b | b in FlatMap(rest, f)
        ensures b !in f(last)
      {
        FlatMapIn(rest, f, b);
      }
      DistinctConcat(FlatMap(rest, f), f(last));
    }
  }

  lemma {:induction false} FlatMapConcat<A, B>(s: seq<A>, t: seq<A>, f: A -> seq<B>)
    ensures FlatMap(s + t, f) == FlatMap(s, f) + FlatMap(t, f)
  {
    if t == [] {
      assert s + t == s;
    } else {
      assert (s + t)[..|s + t| - 1] == s + t[..|t| - 1];
      FlatMapConcat(s, t[..|t| - 1], f);
    }
  }

  // Where the results come from when every element has at most one.
  lemma {:induction false} FlatMapPositions<A, B>(s: seq<A>, f: A -> seq<B>) returns (from: seq<nat>)
    requires forall a :: a in s ==> |f(a)| <= 1
    ensures |from| == |FlatMap(s, f)|
    ensures forall i :: 0 <= i < |from| ==> from[i] < |s| && f(s[from[i]]) == [FlatMap(s, f)[i]]
    ensures forall i, j :: 0 <= i < j < |from| ==> from[i] < from[j]
    ensures forall p :: 0 <= p < |s| ==> (p in from <==> f(s[p]) != [])
  {
    from := [];
    if s != [] {
      var rest, last := s[..|s| - 1], s[|s| - 1];
      assert s == rest + [last];
      var before := FlatMapPositions(rest, f);
      if f(last) == [] {
        from := before;
      } else {
        from := before + [|rest|];
        assert f(last) == [f(last)[0]];
      }
    }
  }

  // One pass over the results of another is one pass.
  lemma {:induction false} FlatMapNested<A, B, C>(s: seq<A>, f: A -> seq<B>, g: B -> seq<C>, h: A -> seq<C>)
    requires forall a :: a in s ==> FlatMap(f(a), g) == h(a)
    ensures FlatMap(FlatMap(s, f), g) == FlatMap(s, h)
  {
    if s != [] {
      FlatMapNested(s[..|s| - 1], f, g, h);
      FlatMapConcat(FlatMap(s[..|s| - 1], f), f(s[|s| - 1]), g);
    }
  }

  lemma FlatMapOne<A, B>(a: A, f: A -> seq<B>)
    ensures FlatMap([a], f) == f(a)
  {
  }

  // Replacing an element by one with more results adds just those results.
  lemma FlatMapReplace<A, B>(s: seq<A>, k: nat, a: A, more: seq<B>, f: A -> seq<B>)
    requires k < |s| && multiset(f(a)) == multiset(f(s[k])) + multiset(more)
    ensures multiset(FlatMap(s[k := a], f)) == multiset(FlatMap(s, f)) + multiset(more)
  {
    assert s == s[..k] + [s[k]] + s[k + 1..];
    assert s[k := a] == s[..k] + [a] + s[k + 1..];
    FlatMapConcat(s[..k] + [s[k]], s[k + 1..], f);
    FlatMapConcat(s[..k], [s[k]], f);
    FlatMapConcat(s[..k] + [a], s[k + 1..], f);
    FlatMapConcat(s[..k], [a], f);
    FlatMapOne(a, f);
    FlatMapOne(s[k], f);
  }

  // The results, order aside, depend only on the elements, order aside.
  lemma {:induction false} FlatMapPermutes<A, B>(s: seq<A>, t: seq<A>, f: A -> seq<B>)
    requires multiset(s) == multiset(t)
    ensures multiset(FlatMap(s, f)) == multiset(FlatMap(t, f))
    decreases |s|
  {
    hide FlatMap;
    if s == [] {
      assert |multiset(t)| == |t|;
    } else {
      var rest, last := s[..|s| - 1], s[|s| - 1];
      assert s == rest + [last];
      assert last in multiset(t);
      var j :| 0 <= j < |t| && t[j] == last;
      var less := t[..j] + t[j + 1..];
      assert t == t[..j] + [last] + t[j + 1..];
      assert multiset(t) == multiset(t[..j]) + multiset{last} + multiset(t[j + 1..]);
      assert multiset(rest) == multiset(s) - multiset{last};
      FlatMapPermutes(rest, less, f);
      FlatMapConcat(rest, [last], f);
      FlatMapConcat(t[..j] + [last], t[j + 1..], f);
      FlatMapConcat(t[..j], [last], f);
      FlatMapConcat(t[..j], t[j + 1..], f);
      FlatMapOne(last, f);
    }
  }
}
