/** Outcast selection: among a list of WordNet nouns, the noun whose summed
    distance to the other entries is largest. The WordNet distance is a
    parameter. */
module OutcastSelection {
  import opened Base

  /** The inner loop's `distance`: the sum of `dist(noun, other)` over the
      entries `other` that differ from `noun`; copies of `noun` add nothing. */
  function Score(noun: string, others: seq<string>, dist: (string, string) -> int): (r: int)
    ensures |others| == 0 ==> r == 0
  {
    if |others| == 0 then 0
    else
      var last := others[|others| - 1];
      Score(noun, others[..|others| - 1], dist) + (if last != noun then dist(noun, last) else 0)
  }

  /** The score of the noun at position k against the whole list. */
  function ScoreAt(nouns: seq<string>, k: nat, dist: (string, string) -> int): int
    requires k < |nouns|
  {
    Score(nouns[k], nouns, dist)
  }

  /** The list without the copies of `noun`. */
  function Without(s: seq<string>, noun: string): (r: seq<string>)
    ensures forall k :: 0 <= k < |r| ==> r[k] != noun && r[k] in s
    ensures forall x :: x in s && x != noun ==> x in r
  {
    if |s| == 0 then []
    else Without(s[..|s| - 1], noun) + (if s[|s| - 1] != noun then [s[|s| - 1]] else [])
  }

  /** Independent definition of the score: the plain sum of distances to the
      entries that are not `noun`. */
  function SumOfDistances(noun: string, others: seq<string>, dist: (string, string) -> int): int {
    if |others| == 0 then 0 else dist(noun, others[0]) + SumOfDistances(noun, others[1..], dist)
  }

  lemma {:induction false} SumOfDistancesAppend(noun: string, a: seq<string>, b: seq<string>, dist: (string, string) -> int)
    ensures SumOfDistances(noun, a + b, dist) == SumOfDistances(noun, a, dist) + SumOfDistances(noun, b, dist)
  {
    if |a| > 0 {
      assert (a + b)[1..] == a[1..] + b;
      SumOfDistancesAppend(noun, a[1..], b, dist);
    } else {
      assert a + b == b;
    }
  }

  /** A score is the sum of the distances to the other entries: copies of
      the noun itself are skipped. */
  lemma {:induction false} ScoreSkipsCopies(noun: string, others: seq<string>, dist: (string, string) -> int)
    ensures Score(noun, others, dist) == SumOfDistances(noun, Without(others, noun), dist)
  {
    if |others| > 0 {
      var init, last := others[..|others| - 1], others[|others| - 1];
      ScoreSkipsCopies(noun, init, dist);
      var tail := if last != noun then [last] else [];
      SumOfDistancesAppend(noun, Without(init, noun), tail, dist);
      if last != noun {
        assert SumOfDistances(noun, tail, dist) == dist(noun, last) + SumOfDistances(noun, [], dist);
      }
    }
  }

  /** `outcast(nouns)`: the first noun whose score is strictly greater than
      every earlier score and than 0; None (Java `null`) when no score is
      positive, including for an empty list. */
  method Outcast(nouns: seq<string>, dist: (string, string) -> int) returns (r: Option<string>)
    ensures r.None? <==> forall k :: 0 <= k < |nouns| ==> ScoreAt(nouns, k, dist) <= 0
    ensures r.Some? ==>
      exists i :: 0 <= i < |nouns| && nouns[i] == r.value
        && ScoreAt(nouns, i, dist) > 0
        && (forall k :: 0 <= k < |nouns| ==> ScoreAt(nouns, k, dist) <= ScoreAt(nouns, i, dist))
        && (forall k :: 0 <= k < i ==> ScoreAt(nouns, k, dist) < ScoreAt(nouns, i, dist))
  {
    var outcast: Option<string> := None;
    var max := 0;
    ghost var best := 0;
    var i := 0;
    while i < |nouns|
      invariant 0 <= i <= |nouns|
      invariant max >= 0
      invariant outcast.None? ==> max == 0
      invariant outcast.None? <==> forall k :: 0 <= k < i ==> ScoreAt(nouns, k, dist) <= 0
      invariant forall k :: 0 <= k < i ==> ScoreAt(nouns, k, dist) <= max
      invariant outcast.Some? ==>
        && 0 <= best < i && nouns[best] == outcast.value && max == ScoreAt(nouns, best, dist) && max > 0
        && forall k :: 0 <= k < best ==> ScoreAt(nouns, k, dist) < max
    {
      var noun := nouns[i];
      var distance := 0;
      var j := 0;
      while j < |nouns|
        invariant 0 <= j <= |nouns|
        invariant distance == Score(noun, nouns[..j], dist)
      {
        assert nouns[..j + 1][..j] == nouns[..j];
        if noun != nouns[j] {
          distance := distance + dist(noun, nouns[j]);
        }
        j := j + 1;
      }
      assert nouns[..j] == nouns;
      assert distance == ScoreAt(nouns, i, dist);
      if distance > max {
        max := distance;
        outcast := Some(noun);
        best := i;
      }
      i := i + 1;
    }
    return outcast;
  }
}
