/** The ranking: `[...rated].sort((a, b) => b.rating - a.rating)`. The
    comparator puts higher ratings first, and the sort of the language is
    stable, so players with equal ratings keep their input order. The sort is
    modelled as a stable insertion sort. */
module Ranking {
  import Ratings

  /** Ratings never increase along `s`. */
  predicate Descending(s: seq<Ratings.Rated>)
  {
    forall i, j :: 0 <= i < j < |s| ==> s[i].rating >= s[j].rating
  }

  /** Inserts `x` after every element rated at least as high as it. */
  function Insert(x: Ratings.Rated, s: seq<Ratings.Rated>): seq<Ratings.Rated>
  {
    if s == [] then [x]
    else if s[0].rating < x.rating then [x] + s
    else [s[0]] + Insert(x, s[1..])
  }

  /** The sorted copy of `rated`: each element in turn is inserted into the
      sorted copy of the ones before it. */
  function Sort(rated: seq<Ratings.Rated>): seq<Ratings.Rated>
  {
    if rated == [] then []
    else Insert(rated[|rated| - 1], Sort(rated[..|rated| - 1]))
  }

  /** The elements of `s` rated exactly `v`, in order. */
  function RatedAt(s: seq<Ratings.Rated>, v: real): seq<Ratings.Rated>
  {
    if s == [] then []
    else (if s[0].rating == v then [s[0]] else []) + RatedAt(s[1..], v)
  }

  // ---------------------------------------------------------------------------
  // Insertion

  lemma {:induction false} InsertPermutes(x: Ratings.Rated, s: seq<Ratings.Rated>)
    ensures multiset(Insert(x, s)) == multiset(s) + multiset{x}
  {
    if s != [] && s[0].rating >= x.rating {
      InsertPermutes(x, s[1..]);
      assert s == [s[0]] + s[1..];
    }
  }

  /** Every element of `Insert(x, s)` is `x` or comes from `s`. */
  lemma InsertMembers(x: Ratings.Rated, s: seq<Ratings.Rated>)
    ensures forall y :: y in Insert(x, s) <==> y == x || y in s
  {
    InsertPermutes(x, s);
    forall y
      ensures y in Insert(x, s) <==> y == x || y in s
    {
      assert y in Insert(x, s) <==> y in multiset(Insert(x, s));
      assert y in s <==> y in multiset(s);
    }
  }

  lemma {:induction false} InsertDescending(x: Ratings.Rated, s: seq<Ratings.Rated>)
    requires Descending(s)
    ensures Descending(Insert(x, s))
  {
    if s == [] {
    } else if s[0].rating < x.rating {
      var r := [x] + s;
      forall i, j | 0 <= i < j < |r|
        ensures r[i].rating >= r[j].rating
      {
        if i == 0 {
          assert r[j] == s[j - 1];
          assert s[0].rating >= s[j - 1].rating || j - 1 == 0;
        }
      }
    } else {
      var t := s[1..];
      assert Descending(t);
      InsertDescending(x, t);
      InsertMembers(x, t);
      var r := [s[0]] + Insert(x, t);
      forall i, j | 0 <= i < j < |r|
        ensures r[i].rating >= r[j].rating
      {
        if i == 0 {
          var y := r[j];
          assert y in Insert(x, t);
          if y != x {
            var k :| 0 <= k < |t| && t[k] == y;
            assert s[k + 1] == y;
          }
        }
      }
    }
  }

  /** In a descending sequence that starts below `v`, nothing is rated `v`. */
  lemma {:induction false} NoneRatedAbove(s: seq<Ratings.Rated>, v: real)
    requires Descending(s) && s != [] && s[0].rating < v
    ensures RatedAt(s, v) == []
  {
    if |s| > 1 {
      assert s[1].rating <= s[0].rating;
      assert Descending(s[1..]);
      NoneRatedAbove(s[1..], v);
    }
  }

  /** Inserting `x` puts it after the elements of `s` with the same rating. */
  lemma {:induction false} InsertStable(x: Ratings.Rated, s: seq<Ratings.Rated>, v: real)
    requires Descending(s)
    ensures RatedAt(Insert(x, s), v) == RatedAt(s, v) + RatedAt([x], v)
  {
    assert RatedAt([x], v) == (if x.rating == v then [x] else []) + RatedAt([], v);
    if s == [] {
    } else if s[0].rating < x.rating {
      assert ([x] + s)[1..] == s;
      if x.rating == v {
        NoneRatedAbove(s, v);
      }
    } else {
      assert Descending(s[1..]);
      InsertStable(x, s[1..], v);
      assert ([s[0]] + Insert(x, s[1..]))[1..] == Insert(x, s[1..]);
    }
  }

  lemma {:induction false} RatedAtAppend(a: seq<Ratings.Rated>, b: seq<Ratings.Rated>, v: real)
    ensures RatedAt(a + b, v) == RatedAt(a, v) + RatedAt(b, v)
  {
    if a == [] {
      assert a + b == b;
    } else {
      var h := if a[0].rating == v then [a[0]] else [];
      assert (a + b)[0] == a[0];
      assert (a + b)[1..] == a[1..] + b;
      assert RatedAt(a + b, v) == h + RatedAt(a[1..] + b, v);
      RatedAtAppend(a[1..], b, v);
      assert RatedAt(a, v) == h + RatedAt(a[1..], v);
    }
  }

  // ---------------------------------------------------------------------------
  // The sort

  /** The ranking is ordered by rating, highest first. */
  lemma {:induction false} SortDescending(rated: seq<Ratings.Rated>)
    ensures Descending(Sort(rated))
  {
    if rated != [] {
      SortDescending(rated[..|rated| - 1]);
      InsertDescending(rated[|rated| - 1], Sort(rated[..|rated| - 1]));
    }
  }

  /** The ranking holds the same players, each as often as in the input. */
  lemma {:induction false} SortPermutes(rated: seq<Ratings.Rated>)
    ensures multiset(Sort(rated)) == multiset(rated)
    ensures |Sort(rated)| == |rated|
  {
    if rated != [] {
      var init := rated[..|rated| - 1];
      var x := rated[|rated| - 1];
      SortPermutes(init);
      InsertPermutes(x, Sort(init));
      LastSplit(rated);
      assert |Sort(rated)| == |multiset(Sort(rated))|;
    }
  }

  lemma LastSplit(rated: seq<Ratings.Rated>)
    requires rated != []
    ensures multiset(rated) == multiset(rated[..|rated| - 1]) + multiset{rated[|rated| - 1]}
  {
    assert rated == rated[..|rated| - 1] + [rated[|rated| - 1]];
  }

  /** The sort is stable: players with the same rating appear in the ranking
      in the order they had in the input. */
  lemma {:induction false} SortStable(rated: seq<Ratings.Rated>, v: real)
    ensures RatedAt(Sort(rated), v) == RatedAt(rated, v)
  {
    if rated != [] {
      var init := rated[..|rated| - 1];
      var x := rated[|rated| - 1];
      SortStable(init, v);
      SortDescending(init);
      InsertStable(x, Sort(init), v);
      assert rated == init + [x];
      RatedAtAppend(init, [x], v);
    }
  }

  /** The first of the ranking is rated at least as high as every player, and
      (the self-check of the application) at least as high as the last. */
  lemma TopIsBest(rated: seq<Ratings.Rated>)
    requires rated != []
    ensures var sorted := Sort(rated);
      |sorted| == |rated| &&
      (forall x :: x in rated ==> sorted[0].rating >= x.rating) &&
      sorted[0].rating >= sorted[|sorted| - 1].rating
  {
    var sorted := Sort(rated);
    SortDescending(rated);
    SortPermutes(rated);
    forall x | x in rated
      ensures sorted[0].rating >= x.rating
    {
      assert x in multiset(rated);
      assert x in multiset(sorted);
      var k :| 0 <= k < |sorted| && sorted[k] == x;
      assert k == 0 || sorted[0].rating >= sorted[k].rating;
    }
    assert |sorted| - 1 == 0 || sorted[0].rating >= sorted[|sorted| - 1].rating;
  }
}
