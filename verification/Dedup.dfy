/** Keeping the first occurrence of each element. */
module Dedup {
  import opened Wrappers

  /** Each element once, in the order of first occurrence. */
  function FirstOccurrences<T(==)>(s: seq<T>): seq<T> {
    if s == [] then []
    else
      var front := FirstOccurrences(s[..|s| - 1]);
      if s[|s| - 1] in front then front else front + [s[|s| - 1]]
  }

  lemma FirstOccurrencesSnoc<T>(s: seq<T>, x: T)
    ensures var r := FirstOccurrences(s);
            FirstOccurrences(s + [x]) == if x in r then r else r + [x]
  {
    assert (s + [x])[..|s|] == s;
  }

  /** Where each kept element stands: at its first occurrence, in increasing order. */
  ghost predicate FirstPlaces<T(!new)>(s: seq<T>, r: seq<T>, places: seq<nat>) {
    && |places| == |r|
    && (forall i, j :: 0 <= i < j < |places| ==> places[i] < places[j])
    && forall i :: 0 <= i < |places| ==> places[i] < |s| && s[places[i]] == r[i] && r[i] !in s[..places[i]]
  }

  lemma {:induction false} KeepsFirstOccurrences<T(!new)>(s: seq<T>) returns (places: seq<nat>)
    ensures var r := FirstOccurrences(s);
            && Distinct(r) && FirstPlaces(s, r, places) && (forall x :: x in s <==> x in r)
  {
    if s == [] {
      places := [];
    } else {
      var front, x := s[..|s| - 1], s[|s| - 1];
      places := KeepsFirstOccurrences(front);
      forall i | 0 <= i < |places|
        ensures s[places[i]] == front[places[i]] && s[..places[i]] == front[..places[i]]
      {
      }
      assert s == front + [x];
      if x !in FirstOccurrences(front) {
        places := places + [|s| - 1];
      }
    }
  }

  /** On a list without repetition nothing changes. */
  lemma {:induction false} DistinctStays<T(!new)>(s: seq<T>)
    requires Distinct(s)
    ensures FirstOccurrences(s) == s
  {
    if s != [] {
      var front, x := s[..|s| - 1], s[|s| - 1];
      DistinctStays(front);
      assert x !in front;
      assert s == front + [x];
    }
  }
}
