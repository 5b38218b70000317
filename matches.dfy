/** Matches produced by the cross-checked Hamming matcher, the distance sort
    applied to them, and the top-K truncation used when drawing them. */
module Matches {

  /** One correspondence: an index into the query's descriptors, an index into
      the candidate's descriptors, and their Hamming distance. */
  datatype Match = Match(queryIdx: nat, trainIdx: nat, distance: nat)

  /** How many matches are drawn for every processed candidate. */
  const PerCandidateLimit: nat := 20

  /** How many matches are drawn for the best candidate. */
  const BestLimit: nat := 30

  /** Non-decreasing distance order. */
  predicate Sorted(ms: seq<Match>)
  {
    forall i, j :: 0 <= i < j < |ms| ==> ms[i].distance <= ms[j].distance
  }

  /** The subsequence of `ms` whose distance is `d`, in the order of `ms`.
      A sort is stable exactly when it keeps every such subsequence. */
  function WithDistance(ms: seq<Match>, d: nat): seq<Match>
  {
    if ms == [] then []
    else (if ms[0].distance == d then [ms[0]] else []) + WithDistance(ms[1..], d)
  }

  /** Every match indexes a real query descriptor and a real candidate descriptor. */
  predicate IndicesValid(ms: seq<Match>, queryCount: nat, trainCount: nat)
  {
    forall i :: 0 <= i < |ms| ==> ms[i].queryIdx < queryCount && ms[i].trainIdx < trainCount
  }

  /** Inserts `m` in front of the first element of `s` that is not closer than it,
      so `m` stays ahead of every element of `s` with the same distance. */
  function Insert(m: Match, s: seq<Match>): (r: seq<Match>)
    ensures multiset(r) == multiset(s) + multiset{m}
    ensures |r| == |s| + 1
    ensures r[0] == if s == [] || m.distance <= s[0].distance then m else s[0]
  {
    if s == [] then [m]
    else if m.distance <= s[0].distance then [m] + s
    else
      assert s == [s[0]] + s[1..];
      [s[0]] + Insert(m, s[1..])
  }

  lemma {:induction false} InsertKeepsSorted(m: Match, s: seq<Match>)
    requires Sorted(s)
    ensures Sorted(Insert(m, s))
  {
    if s == [] {
    } else if m.distance <= s[0].distance {
      SortedCons(m, s);
    } else {
      assert Sorted(s[1..]);
      InsertKeepsSorted(m, s[1..]);
      SortedCons(s[0], Insert(m, s[1..]));
    }
  }

  lemma SortedCons(x: Match, r: seq<Match>)
    requires Sorted(r) && (r != [] ==> x.distance <= r[0].distance)
    ensures Sorted([x] + r)
  {
  }

  /** `sorted(matches, key=lambda x: x.distance)`: a stable sort by ascending distance. */
  function SortByDistance(ms: seq<Match>): (r: seq<Match>)
    ensures Sorted(r)
    ensures multiset(r) == multiset(ms)
    ensures |r| == |ms|
  {
    if ms == [] then []
    else
      var rest := SortByDistance(ms[1..]);
      InsertKeepsSorted(ms[0], rest);
      assert ms == [ms[0]] + ms[1..];
      Insert(ms[0], rest)
  }

  lemma WithDistanceCons(x: Match, s: seq<Match>, d: nat)
    ensures WithDistance([x] + s, d) == (if x.distance == d then [x] else []) + WithDistance(s, d)
  {
  }

  lemma {:induction false} InsertKeepsEqualDistanceOrder(m: Match, s: seq<Match>, d: nat)
    ensures WithDistance(Insert(m, s), d) == WithDistance([m] + s, d)
  {
    if s != [] && m.distance > s[0].distance {
      var first, tail := s[0], s[1..];
      var hm := if m.distance == d then [m] else [];
      var hf := if first.distance == d then [first] else [];
      assert hf + hm == hm + hf;
      assert s == [first] + tail;
      calc {
        WithDistance(Insert(m, s), d);
        WithDistance([first] + Insert(m, tail), d);
        { WithDistanceCons(first, Insert(m, tail), d); }
        hf + WithDistance(Insert(m, tail), d);
        { InsertKeepsEqualDistanceOrder(m, tail, d); WithDistanceCons(m, tail, d); }
        hf + (hm + WithDistance(tail, d));
        (hm + hf) + WithDistance(tail, d);
        { WithDistanceCons(first, tail, d); }
        hm + WithDistance(s, d);
        { WithDistanceCons(m, s, d); }
        WithDistance([m] + s, d);
      }
    }
  }

  /** The sort is stable: matches of equal distance keep the matcher's order. */
  lemma {:induction false} SortIsStable(ms: seq<Match>, d: nat)
    ensures WithDistance(SortByDistance(ms), d) == WithDistance(ms, d)
  {
    if ms != [] {
      SortIsStable(ms[1..], d);
      InsertKeepsEqualDistanceOrder(ms[0], SortByDistance(ms[1..]), d);
      WithDistanceCons(ms[0], SortByDistance(ms[1..]), d);
      WithDistanceCons(ms[0], ms[1..], d);
      assert ms == [ms[0]] + ms[1..];
    }
  }

  lemma {:induction false} WithDistanceMembers(ms: seq<Match>, d: nat, k: nat)
    requires k < |ms| && ms[k].distance == d
    ensures WithDistance(ms, d) != []
  {
    if k > 0 {
      WithDistanceMembers(ms[1..], d, k - 1);
    }
  }

  lemma {:induction false} WithDistanceAbsent(ms: seq<Match>, d: nat)
    requires forall k :: 0 <= k < |ms| ==> ms[k].distance != d
    ensures WithDistance(ms, d) == []
  {
    if ms != [] {
      WithDistanceAbsent(ms[1..], d);
    }
  }

  /** Sortedness and stability determine the result: two sorted sequences with
      the same matches at every distance, in the same order, are equal. */
  lemma {:induction false} SortedStableUnique(s: seq<Match>, t: seq<Match>)
    requires Sorted(s) && Sorted(t)
    requires forall d :: WithDistance(s, d) == WithDistance(t, d)
    ensures s == t
  {
    if s != [] {
      WithDistanceMembers(s, s[0].distance, 0);
    }
    if t != [] {
      WithDistanceMembers(t, t[0].distance, 0);
    }
    if s != [] && t != [] {
      if s[0].distance < t[0].distance {
        WithDistanceAbsent(t, s[0].distance);
        assert false;
      }
      if t[0].distance < s[0].distance {
        WithDistanceAbsent(s, t[0].distance);
        assert false;
      }
      assert s == [s[0]] + s[1..] && t == [t[0]] + t[1..];
      WithDistanceCons(s[0], s[1..], s[0].distance);
      WithDistanceCons(t[0], t[1..], s[0].distance);
      assert WithDistance(s, s[0].distance)[0] == s[0];
      assert WithDistance(t, s[0].distance)[0] == t[0];
      assert s[0] == t[0];
      forall d ensures WithDistance(s[1..], d) == WithDistance(t[1..], d) {
        var h := if s[0].distance == d then [s[0]] else [];
        WithDistanceCons(s[0], s[1..], d);
        WithDistanceCons(t[0], t[1..], d);
        assert h + WithDistance(s[1..], d) == h + WithDistance(t[1..], d);
        assert (h + WithDistance(s[1..], d))[|h|..] == WithDistance(s[1..], d);
        assert (h + WithDistance(t[1..], d))[|h|..] == WithDistance(t[1..], d);
      }
      SortedStableUnique(s[1..], t[1..]);
    }
  }

  /** SortByDistance is the one stable sort by distance: any sorted rearrangement
      that keeps the order among equal distances is exactly its result. */
  lemma SortByDistanceIsTheStableSort(ms: seq<Match>, s: seq<Match>)
    requires Sorted(s)
    requires forall d :: WithDistance(s, d) == WithDistance(ms, d)
    ensures s == SortByDistance(ms)
  {
    forall d ensures WithDistance(s, d) == WithDistance(SortByDistance(ms), d) {
      SortIsStable(ms, d);
    }
    SortedStableUnique(s, SortByDistance(ms));
  }

  /** Sorting only rearranges, so indices that were valid stay valid. */
  lemma SortKeepsIndicesValid(ms: seq<Match>, queryCount: nat, trainCount: nat)
    requires IndicesValid(ms, queryCount, trainCount)
    ensures IndicesValid(SortByDistance(ms), queryCount, trainCount)
  {
    var r := SortByDistance(ms);
    forall i | 0 <= i < |r|
      ensures r[i].queryIdx < queryCount && r[i].trainIdx < trainCount
    {
      assert r[i] in multiset(r);
      assert r[i] in multiset(ms);
      var k :| 0 <= k < |ms| && ms[k] == r[i];
    }
  }

  /** Python's `ms[:k]`: the first `k` elements, or all of them when there are
      fewer, with no padding and no error. */
  function Take(ms: seq<Match>, k: nat): (r: seq<Match>)
    ensures |r| == if |ms| < k then |ms| else k
    ensures r == ms[..|r|]
  {
    if k <= |ms| then ms[..k] else ms
  }

  /** The matches drawn from a sorted list are the closest ones: none of them is
      farther than a match that was cut off. */
  lemma TakeKeepsClosest(ms: seq<Match>, k: nat, i: nat, j: nat)
    requires Sorted(ms)
    requires i < |Take(ms, k)| <= j < |ms|
    ensures Take(ms, k)[i].distance <= ms[j].distance
  {
  }

  /** The guarded slice used for the best candidate,
      `best[:30] if len(best) >= 30 else best`, is plain `best[:30]`. */
  function BestDrawn(best: seq<Match>): (r: seq<Match>)
    ensures r == Take(best, BestLimit)
  {
    if |best| >= BestLimit then best[..BestLimit] else best
  }
}
