/** Helpers of the classifier evaluation: the context window of a word in a
    tokenised scenario, the integer median, and the count of entity names. */
module Evaluation {
  import opened Common
  import opened ContextFeatures

  /** The positions `lo..hi` without `skip`, ascending. */
  function Positions(lo: int, hi: int, skip: int): (ps: seq<int>)
    ensures forall k | 0 <= k < |ps| :: lo <= ps[k] <= hi
    decreases hi - lo
  {
    if lo > hi then []
    else Positions(lo, hi - 1, skip) + (if hi == skip then [] else [hi])
  }

  /** `Positions` lists exactly the positions of the range other than `skip`,
      each once and in ascending order. */
  lemma {:induction false} PositionsMeaning(lo: int, hi: int, skip: int)
    ensures var ps := Positions(lo, hi, skip);
      && (forall k | 0 <= k < |ps| :: lo <= ps[k] <= hi && ps[k] != skip)
      && (forall k, l | 0 <= k < l < |ps| :: ps[k] < ps[l])
      && (forall p | lo <= p <= hi && p != skip :: p in ps)
      && |ps| == if lo > hi then 0 else if lo <= skip <= hi then hi - lo else hi - lo + 1
    decreases hi - lo
  {
    if lo <= hi {
      PositionsMeaning(lo, hi - 1, skip);
      var ps := Positions(lo, hi, skip);
      var init := Positions(lo, hi - 1, skip);
      assert hi != skip ==> ps == init + [hi];
      forall p | lo <= p <= hi && p != skip ensures p in ps {
        if p < hi { assert p in init; }
      }
    }
  }

  /** The features of the scenario tokens at positions `ps`. */
  function FeaturesAt(szenario: seq<string>, ps: seq<int>): (fs: seq<ContextFeature>)
    requires forall k | 0 <= k < |ps| :: 0 <= ps[k] < |szenario|
    ensures |fs| == |ps|
    ensures forall k | 0 <= k < |ps| :: fs[k] == ContextFeature(ENVIRONMENTSTRING, Some(szenario[ps[k]]))
  {
    seq(|ps|, k requires 0 <= k < |ps| => ContextFeature(ENVIRONMENTSTRING, Some(szenario[ps[k]])))
  }

  /** First and last position of the window around `wordPos`. */
  function WindowStart(wordPos: int, before: int): int { Max(0, wordPos - before) }

  function WindowEnd(szenario: seq<string>, wordPos: int, after: int): int { Min(|szenario| - 1, wordPos + after) }

  /** What `getContextFeatures(wordPos, before, after)` returns: the tokens
      from `max(0, wordPos - before)` to `min(length - 1, wordPos + after)`,
      without the word itself, in position order. */
  function ContextWindow(szenario: seq<string>, wordPos: int, before: int, after: int): seq<ContextFeature>
  {
    var ps := Positions(WindowStart(wordPos, before), WindowEnd(szenario, wordPos, after), wordPos);
    PositionsMeaning(WindowStart(wordPos, before), WindowEnd(szenario, wordPos, after), wordPos);
    FeaturesAt(szenario, ps)
  }

  /** `getContextFeatures(wordPos, before, after)` over the scenario's tokens. */
  method GetContextFeatures(szenario: seq<string>, wordPos: int, before: int, after: int) returns (features: seq<ContextFeature>)
    ensures features == ContextWindow(szenario, wordPos, before, after)
  {
    var start := Max(0, wordPos - before);
    var end := Min(|szenario| - 1, wordPos + after);
    features := [];
    var i := start;
    while i <= end
      invariant 0 <= start <= i && (i <= end + 1 || i == start) && end < |szenario|
      invariant features == FeaturesAt(szenario, Positions(start, i - 1, wordPos))
      decreases end - i
    {
      if i != wordPos {
        features := features + [ContextFeature(ENVIRONMENTSTRING, Some(szenario[i]))];
      }
      i := i + 1;
    }
    assert start > end ==> Positions(start, i - 1, wordPos) == [] == Positions(start, end, wordPos);
  }

  /** With the word inside the scenario, the window holds at most
      `before + after` features, and exactly that many when it does not
      reach an end of the scenario. */
  lemma ContextWindowSize(szenario: seq<string>, wordPos: int, before: nat, after: nat)
    requires 0 <= wordPos < |szenario|
    ensures |ContextWindow(szenario, wordPos, before, after)| <= before + after
    ensures before <= wordPos && wordPos + after < |szenario| ==>
      |ContextWindow(szenario, wordPos, before, after)| == before + after
  {
    PositionsMeaning(WindowStart(wordPos, before), WindowEnd(szenario, wordPos, after), wordPos);
  }

  ghost predicate Sorted(s: seq<int32>)
  {
    forall k, l | 0 <= k < l < |s| :: s[k] <= s[l]
  }

  /** The first element of a sorted sequence is at most every value in it. */
  lemma SortedHeadIsLeast(a: seq<int32>, x: int32)
    requires Sorted(a) && x in multiset(a)
    ensures a[0] <= x
  {
    var i :| 0 <= i < |a| && a[i] == x;
  }

  /** Removing equal heads from equal multisets leaves equal multisets. */
  lemma TailMultiset(a: seq<int32>, b: seq<int32>)
    requires a != [] && b != [] && a[0] == b[0] && multiset(a) == multiset(b)
    ensures multiset(a[1..]) == multiset(b[1..])
  {
    assert a == [a[0]] + a[1..] && b == [b[0]] + b[1..];
    assert multiset(a[1..]) == multiset(a) - multiset{a[0]};
    assert multiset(b[1..]) == multiset(b) - multiset{b[0]};
  }

  /** Two sorted arrangements of the same values are the same sequence: the
      median does not depend on how the values were sorted. */
  lemma {:induction false} SortedUnique(a: seq<int32>, b: seq<int32>)
    requires Sorted(a) && Sorted(b) && multiset(a) == multiset(b)
    ensures a == b
  {
    if a != [] {
      assert |b| == |multiset(b)| == |multiset(a)| == |a|;
      assert a[0] in multiset(a) && b[0] in multiset(b);
      SortedHeadIsLeast(a, b[0]);
      SortedHeadIsLeast(b, a[0]);
      TailMultiset(a, b);
      SortedUnique(a[1..], b[1..]);
      assert a == [a[0]] + a[1..] && b == [b[0]] + b[1..];
    }
  }

  /** `Arrays.sort(values)`: sorts the array in place (by insertion). */
  method Sort(a: array<int32>)
    modifies a
    ensures Sorted(a[..]) && multiset(a[..]) == multiset(old(a[..]))
  {
    var i := 0;
    while i < a.Length
      invariant 0 <= i <= a.Length
      invariant Sorted(a[..i]) && multiset(a[..]) == multiset(old(a[..]))
    {
      InsertNext(a, i);
      i := i + 1;
    }
    assert a[..] == a[..i];
  }

  /** One pass of the insertion sort: moves `a[i]` down into the sorted prefix. */
  method InsertNext(a: array<int32>, i: nat)
    requires i < a.Length && Sorted(a[..i])
    modifies a
    ensures Sorted(a[..i + 1]) && multiset(a[..]) == multiset(old(a[..]))
  {
    var j := i;
    while j > 0 && a[j - 1] > a[j]
      invariant 0 <= j <= i
      invariant forall k, l | 0 <= k < l <= i && k != j && l != j :: a[k] <= a[l]
      invariant forall l | j < l <= i :: a[j] < a[l]
      invariant multiset(a[..]) == multiset(old(a[..]))
    {
      a[j - 1], a[j] := a[j], a[j - 1];
      j := j - 1;
    }
  }

  /** The median of a sorted sequence: the middle element for an odd length,
      the mean of the two middle ones for an even length, their sum taken in
      `int`; an empty sequence reads index -1. */
  function MedianOf(s: seq<int32>): (r: Result<real>)
  {
    if |s| % 2 != 0 then Success(s[|s| / 2] as real)
    else if |s| == 0 then Failure(IndexOutOfBoundsException)
    else Success(Wrap32(s[|s| / 2 - 1] as int + s[|s| / 2] as int) as real / 2.0)
  }

  /** For an odd number of values the median has as many values at or below
      it as at or above it, the middle one included. */
  lemma MedianSplits(s: seq<int32>)
    requires Sorted(s) && |s| % 2 == 1
    ensures var m := MedianOf(s).value;
      && (forall k | 0 <= k <= |s| / 2 :: s[k] as real <= m)
      && (forall k | |s| / 2 <= k < |s| :: m <= s[k] as real)
      && |s| / 2 + 1 == |s| - |s| / 2
  {
  }

  /** `median(values)`: sorts `values` in place, then reads the middle. */
  method Median(values: array<int32>) returns (r: Result<real>)
    modifies values
    ensures Sorted(values[..]) && multiset(values[..]) == multiset(old(values[..]))
    ensures r == MedianOf(values[..])
  {
    Sort(values);
    var n := values.Length;
    if n % 2 != 0 {
      return Success(values[n / 2] as real);
    }
    if n == 0 {
      return Failure(IndexOutOfBoundsException);
    }
    return Success(Wrap32(values[n / 2 - 1] as int + values[n / 2] as int) as real / 2.0);
  }

  /** The counting loop of `printEntityDistribution`: for each entity name
      among the map's values (in its iteration order), one more occurrence. */
  method CountEntities(values: seq<string>) returns (entities: map<string, int>)
    ensures entities.Keys == set e | e in values
    ensures forall e | e in entities :: entities[e] == multiset(values)[e]
  {
    entities := map[];
    for i := 0 to |values|
      invariant entities.Keys == set e | e in values[..i]
      invariant forall e | e in entities :: entities[e] == multiset(values[..i])[e]
    {
      var e := values[i];
      assert values[..i + 1] == values[..i] + [e];
      if e !in entities {
        entities := entities[e := 0];
      }
      entities := entities[e := entities[e] + 1];
    }
    assert values[..|values|] == values;
  }
}
