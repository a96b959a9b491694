/** `BayesClassifier` of the `proposalComputer` package: naive Bayes over the
    counts kept by its superclass `Classifier`, a distribution of the
    categories sorted by probability, and a single-slot cache of the last
    distribution that every learning step invalidates. */
module Bayes {
  import opened Common
  import opened Classifications
  import ComputerClassifications

  /** A sequence without repeated elements: the iteration order of a `Set`. */
  type DistinctSeq<K(==)> = s: seq<K> | forall i, j | 0 <= i < j < |s| :: s[i] != s[j] witness []

  /** What the classifier uses of its superclass, whose source is not part of
      this model: the categories, the counts, the weighed feature average and
      the learning steps, all over the superclass state `S`. */
  datatype Superclass<!S, !T, !K(==)> = Superclass(
    categories: S -> DistinctSeq<K>,
    categoryCount: (S, K) -> int,
    categoriesTotal: S -> int,
    featureWeighedAverage: (S, T, K) -> real,
    learn: (S, K, seq<T>) -> S,
    learnClassification: (S, Classification<seq<T>, K>) -> S,
    setMemoryCapacity: (S, int32) -> S)

  /** `categoryCount / getCategoriesTotal` as a ratio of reals (see README for a zero total). */
  function Ratio(count: int, total: int): real
  {
    if total == 0 then 0.0 else count as real / total as real
  }

  /** The product of the weighed averages of `features` for `category`, in
      the order the features are visited. */
  function FeaturesProduct<S, T, K>(sup: Superclass<S, T, K>, st: S, features: seq<T>, category: K): real
  {
    if features == [] then 1.0
    else FeaturesProduct(sup, st, features[..|features| - 1], category) *
         sup.featureWeighedAverage(st, features[|features| - 1], category)
  }

  /** The product over a concatenation is the product of the products. */
  lemma {:induction false} FeaturesProductAppend<S, T, K>(sup: Superclass<S, T, K>, st: S, a: seq<T>, b: seq<T>, category: K)
    ensures FeaturesProduct(sup, st, a + b, category) ==
            FeaturesProduct(sup, st, a, category) * FeaturesProduct(sup, st, b, category)
    decreases |b|
  {
    if b != [] {
      var b' := b[..|b| - 1];
      assert (a + b)[..|a + b| - 1] == a + b';
      FeaturesProductAppend(sup, st, a, b', category);
    } else {
      assert a + b == a;
    }
  }

  /** `categoryProbability(features, category)`: P(category) times the
      product of the feature probabilities. */
  function CategoryProbability<S, T, K>(sup: Superclass<S, T, K>, st: S, features: seq<T>, category: K): real
  {
    Ratio(sup.categoryCount(st, category), sup.categoriesTotal(st)) * FeaturesProduct(sup, st, features, category)
  }

  /** The classification `categoryProbabilities` creates for `category`. */
  function Scored<S, T, K>(sup: Superclass<S, T, K>, st: S, features: seq<T>, category: K): Classification<seq<T>, K>
  {
    Classification(features, category, CategoryProbability(sup, st, features, category))
  }

  /** The comparator of the distribution: by probability, and -1 for equal
      probabilities of different categories. */
  function Compare<F, K(==)>(a: Classification<F, K>, b: Classification<F, K>): (r: int)
  {
    if a.probability < b.probability then -1
    else if a.probability > b.probability then 1
    else if a.category != b.category then -1
    else 0
  }

  /** The comparator merges two classifications only when both their
      probability and their category agree. */
  lemma CompareZero<F, K>(a: Classification<F, K>, b: Classification<F, K>)
    ensures Compare(a, b) == 0 <==> a.probability == b.probability && a.category == b.category
    ensures Compare(a, b) > 0 <==> a.probability > b.probability
  {
  }

  ghost predicate Sorted<F, K>(s: seq<Classification<F, K>>)
  {
    forall i, j | 0 <= i < j < |s| :: s[i].probability <= s[j].probability
  }

  /** `TreeSet.add(x)` with the comparator above, as the in-order sequence
      of the tree: the search treats `x` as just below every element of the
      same probability, so `x` lands before the first element whose
      probability is at least its own. */
  function Insert<F, K>(s: seq<Classification<F, K>>, x: Classification<F, K>): (r: seq<Classification<F, K>>)
    ensures |r| == |s| + 1
  {
    if s == [] || x.probability <= s[0].probability then [x] + s
    else [s[0]] + Insert(s[1..], x)
  }

  /** The number of elements `Insert` puts before `x`. */
  function Position<F, K>(s: seq<Classification<F, K>>, x: Classification<F, K>): (k: nat)
    ensures k <= |s|
  {
    if s == [] || x.probability <= s[0].probability then 0 else 1 + Position(s[1..], x)
  }

  /** `Insert` puts `x` at `Position(s, x)` and leaves the rest in order. */
  lemma {:induction false} InsertAt<F, K>(s: seq<Classification<F, K>>, x: Classification<F, K>)
    ensures Insert(s, x) == s[..Position(s, x)] + [x] + s[Position(s, x)..]
  {
    if s != [] && x.probability > s[0].probability {
      InsertAt(s[1..], x);
      assert s[..Position(s, x)] == [s[0]] + s[1..][..Position(s[1..], x)];
      assert s[Position(s, x)..] == s[1..][Position(s[1..], x)..];
    }
  }

  /** The position `Insert` picks is the one the comparator's tree search
      reaches: after everything `x` compares above, before everything it
      compares below; nothing is merged when no element has `x`'s category. */
  lemma {:induction false} InsertFollowsComparator<F, K>(s: seq<Classification<F, K>>, x: Classification<F, K>)
    requires Sorted(s) && forall y | y in s :: y.category != x.category
    ensures forall i | 0 <= i < Position(s, x) :: Compare(x, s[i]) > 0
    ensures forall i | Position(s, x) <= i < |s| :: Compare(x, s[i]) < 0
  {
    if s != [] && x.probability > s[0].probability {
      InsertFollowsComparator(s[1..], x);
      forall i | 0 <= i < Position(s, x) ensures Compare(x, s[i]) > 0 {
        if i > 0 { assert s[i] == s[1..][i - 1]; }
      }
      forall i | Position(s, x) <= i < |s| ensures Compare(x, s[i]) < 0 {
        assert s[i] == s[1..][i - 1];
      }
    } else {
      forall i | 0 <= i < |s| ensures Compare(x, s[i]) < 0 {
        assert s[i] in s;
      }
    }
  }

  /** Everything before the insertion point is below `x`; the element at it is not. */
  lemma {:induction false} PositionBounds<F, K>(s: seq<Classification<F, K>>, x: Classification<F, K>)
    ensures forall i | 0 <= i < Position(s, x) :: s[i].probability < x.probability
    ensures Position(s, x) < |s| ==> x.probability <= s[Position(s, x)].probability
  {
    if s != [] && x.probability > s[0].probability {
      PositionBounds(s[1..], x);
      forall i | 0 <= i < Position(s, x) ensures s[i].probability < x.probability {
        if i > 0 { assert s[i] == s[1..][i - 1]; }
      }
    }
  }

  /** Splicing an element between a lower and a higher part keeps order. */
  lemma SortedSplice<F, K>(lo: seq<Classification<F, K>>, x: Classification<F, K>, hi: seq<Classification<F, K>>)
    requires Sorted(lo + hi)
    requires forall i | 0 <= i < |lo| :: lo[i].probability < x.probability
    requires hi != [] ==> x.probability <= hi[0].probability
    ensures Sorted(lo + [x] + hi)
  {
    var r := lo + [x] + hi;
    forall i, j | 0 <= i < j < |r| ensures r[i].probability <= r[j].probability {
      var k := |lo|;
      if j < k {
        assert r[i] == (lo + hi)[i] && r[j] == (lo + hi)[j];
      } else if j == k {
        assert r[i] == lo[i];
      } else if i < k {
        assert r[i] == (lo + hi)[i] && r[j] == (lo + hi)[j - 1];
      } else if i == k {
        assert r[j] == (lo + hi)[j - 1] && hi[0] == (lo + hi)[k];
      } else {
        assert r[i] == (lo + hi)[i - 1] && r[j] == (lo + hi)[j - 1];
      }
    }
  }

  /** `Insert` adds exactly `x` and keeps the sequence sorted. */
  lemma InsertSorted<F, K>(s: seq<Classification<F, K>>, x: Classification<F, K>)
    requires Sorted(s)
    ensures multiset(Insert(s, x)) == multiset(s) + multiset{x}
    ensures Sorted(Insert(s, x))
  {
    var k := Position(s, x);
    InsertAt(s, x);
    PositionBounds(s, x);
    assert s == s[..k] + s[k..];
    SortedSplice(s[..k], x, s[k..]);
  }

  /** The greatest element stays last unless `x` beats it. */
  lemma {:induction false} InsertLast<F, K>(s: seq<Classification<F, K>>, x: Classification<F, K>)
    requires Sorted(s) && s != []
    ensures Insert(s, x)[|s|] == if x.probability > s[|s| - 1].probability then x else s[|s| - 1]
  {
    if x.probability <= s[0].probability {
    } else if |s| > 1 {
      InsertLast(s[1..], x);
    }
  }

  /** `categoryProbabilities(features)`: each category in turn, scored and
      added to the sorted set. */
  function Distribution<S, T, K>(sup: Superclass<S, T, K>, st: S, features: seq<T>, cats: seq<K>): seq<Classification<seq<T>, K>>
  {
    if cats == [] then []
    else Insert(Distribution(sup, st, features, cats[..|cats| - 1]), Scored(sup, st, features, cats[|cats| - 1]))
  }

  /** The distribution has one element per category, in ascending order of probability. */
  lemma {:induction false} DistributionSorted<S, T, K>(sup: Superclass<S, T, K>, st: S, features: seq<T>, cats: seq<K>)
    ensures |Distribution(sup, st, features, cats)| == |cats|
    ensures Sorted(Distribution(sup, st, features, cats))
  {
    if cats != [] {
      DistributionSorted(sup, st, features, cats[..|cats| - 1]);
      InsertSorted(Distribution(sup, st, features, cats[..|cats| - 1]), Scored(sup, st, features, cats[|cats| - 1]));
    }
  }

  /** The categories' classifications in the order the categories are visited. */
  function ScoredAll<S, T, K>(sup: Superclass<S, T, K>, st: S, features: seq<T>, cats: seq<K>): (r: seq<Classification<seq<T>, K>>)
    ensures |r| == |cats| && forall i | 0 <= i < |cats| :: r[i] == Scored(sup, st, features, cats[i])
  {
    if cats == [] then []
    else ScoredAll(sup, st, features, cats[..|cats| - 1]) + [Scored(sup, st, features, cats[|cats| - 1])]
  }

  /** The distribution is a permutation of the categories' classifications,
      each scored for the query's features. */
  lemma {:induction false} DistributionContents<S, T, K>(sup: Superclass<S, T, K>, st: S, features: seq<T>, cats: seq<K>)
    ensures multiset(Distribution(sup, st, features, cats)) == multiset(ScoredAll(sup, st, features, cats))
  {
    if cats != [] {
      var init := cats[..|cats| - 1];
      DistributionContents(sup, st, features, init);
      DistributionSorted(sup, st, features, init);
      InsertSorted(Distribution(sup, st, features, init), Scored(sup, st, features, cats[|cats| - 1]));
    }
  }

  /** Every category has its scored classification in the distribution,
      and the distribution holds nothing else. */
  lemma DistributionCategories<S, T, K>(sup: Superclass<S, T, K>, st: S, features: seq<T>, cats: seq<K>)
    ensures forall c | c in Distribution(sup, st, features, cats) :: c.category in cats && c == Scored(sup, st, features, c.category)
    ensures forall k | k in cats :: Scored(sup, st, features, k) in Distribution(sup, st, features, cats)
  {
    var d := Distribution(sup, st, features, cats);
    var all := ScoredAll(sup, st, features, cats);
    DistributionContents(sup, st, features, cats);
    forall c | c in d ensures c.category in cats && c == Scored(sup, st, features, c.category) {
      assert c in multiset(all);
      var i :| 0 <= i < |all| && all[i] == c;
    }
    forall k | k in cats ensures Scored(sup, st, features, k) in d {
      var i :| 0 <= i < |cats| && cats[i] == k;
      assert all[i] in multiset(d);
    }
  }

  /** The greatest probability among the categories. */
  function MaxProbability<S, T, K>(sup: Superclass<S, T, K>, st: S, features: seq<T>, cats: seq<K>): real
    requires cats != []
  {
    var p := CategoryProbability(sup, st, features, cats[|cats| - 1]);
    if |cats| == 1 then p
    else
      var m := MaxProbability(sup, st, features, cats[..|cats| - 1]);
      if p > m then p else m
  }

  /** No category scores above the maximum. */
  lemma {:induction false} MaxProbabilityBounds<S, T, K>(sup: Superclass<S, T, K>, st: S, features: seq<T>, cats: seq<K>)
    requires cats != []
    ensures forall i | 0 <= i < |cats| :: CategoryProbability(sup, st, features, cats[i]) <= MaxProbability(sup, st, features, cats)
  {
    if |cats| > 1 {
      var init := cats[..|cats| - 1];
      MaxProbabilityBounds(sup, st, features, init);
      forall i | 0 <= i < |cats| - 1 ensures cats[i] == init[i] { }
    }
  }

  /** The first position whose category reaches the maximum, as `classify`
      breaks ties: the earliest category in the order they are visited. */
  ghost predicate FirstMax<S, T, K>(sup: Superclass<S, T, K>, st: S, features: seq<T>, cats: seq<K>, i: int)
    requires cats != []
  {
    && 0 <= i < |cats|
    && CategoryProbability(sup, st, features, cats[i]) == MaxProbability(sup, st, features, cats)
    && forall j | 0 <= j < i :: CategoryProbability(sup, st, features, cats[j]) < MaxProbability(sup, st, features, cats)
  }

  /** The last classification of the distribution is the one of the first
      category that reaches the greatest probability. */
  lemma {:induction false} DistributionTop<S, T, K>(sup: Superclass<S, T, K>, st: S, features: seq<T>, cats: seq<K>)
    requires cats != []
    ensures var d := Distribution(sup, st, features, cats);
      |d| == |cats| && exists i | FirstMax(sup, st, features, cats, i) :: d[|cats| - 1] == Scored(sup, st, features, cats[i])
  {
    var x := Scored(sup, st, features, cats[|cats| - 1]);
    var init := cats[..|cats| - 1];
    DistributionSorted(sup, st, features, cats);
    if |cats| == 1 {
      assert FirstMax(sup, st, features, cats, 0);
    } else {
      DistributionTop(sup, st, features, init);
      DistributionSorted(sup, st, features, init);
      var d0 := Distribution(sup, st, features, init);
      InsertLast(d0, x);
      var m0 := MaxProbability(sup, st, features, init);
      var i0 :| FirstMax(sup, st, features, init, i0) && d0[|init| - 1] == Scored(sup, st, features, init[i0]);
      if x.probability > m0 {
        MaxProbabilityBounds(sup, st, features, init);
        forall j | 0 <= j < |cats| - 1 ensures CategoryProbability(sup, st, features, cats[j]) < x.probability {
          assert cats[j] == init[j];
        }
        assert FirstMax(sup, st, features, cats, |cats| - 1);
      } else {
        forall j | 0 <= j < i0 ensures cats[j] == init[j] { }
        assert cats[i0] == init[i0];
        assert FirstMax(sup, st, features, cats, i0);
      }
    }
  }

  /** `classify` on a distribution: its last (greatest) element, or null when it is empty. */
  function Top<F, K>(d: seq<Classification<F, K>>): Option<Classification<F, K>>
  {
    if |d| > 0 then Some(d[|d| - 1]) else None
  }

  class BayesClassifier<S, T, K(==)> {
    /** The superclass's operations. */
    const sup: Superclass<S, T, K>
    /** The superclass's state. */
    var state: S
    var cacheValid: bool
    var cache: seq<Classification<seq<T>, K>>
    /** The features of the query that last filled the cache. */
    ghost var cachedFeatures: seq<T>

    /** A valid cache holds the distribution of the current state for the
        features of the query that filled it. */
    ghost predicate Valid()
      reads this
    {
      cacheValid ==> cache == Distribution(sup, state, cachedFeatures, sup.categories(state))
    }

    constructor (superclass: Superclass<S, T, K>, initial: S)
      ensures Valid() && sup == superclass && state == initial && !cacheValid
    {
      sup := superclass;
      state := initial;
      cacheValid := false;
      cache := [];
      cachedFeatures := [];
    }

    /** `featuresProbabilityProduct(features, category)`. */
    method FeaturesProbabilityProduct(features: seq<T>, category: K) returns (product: real)
      ensures product == FeaturesProduct(sup, state, features, category)
    {
      product := 1.0;
      for i := 0 to |features|
        invariant product == FeaturesProduct(sup, state, features[..i], category)
      {
        assert features[..i + 1][..i] == features[..i];
        product := product * sup.featureWeighedAverage(state, features[i], category);
      }
      assert features[..|features|] == features;
    }

    /** `categoryProbability(features, category)`. */
    method CategoryProbabilityOf(features: seq<T>, category: K) returns (p: real)
      ensures p == CategoryProbability(sup, state, features, category)
    {
      var product := FeaturesProbabilityProduct(features, category);
      p := Ratio(sup.categoryCount(state, category), sup.categoriesTotal(state)) * product;
    }

    /** `categoryProbabilities(features)`: the categories scored and added in turn. */
    method CategoryProbabilities(features: seq<T>) returns (d: seq<Classification<seq<T>, K>>)
      ensures d == Distribution(sup, state, features, sup.categories(state))
    {
      var cats := sup.categories(state);
      d := [];
      for i := 0 to |cats|
        invariant d == Distribution(sup, state, features, cats[..i])
      {
        assert cats[..i + 1][..i] == cats[..i];
        var p := CategoryProbabilityOf(features, cats[i]);
        d := Insert(d, Classification(features, cats[i], p));
      }
      assert cats[..|cats|] == cats;
    }

    /** `cachedCategoryProbabilities(features)`: recomputes only when the
        cache is invalid; a valid cache is returned whatever the features. */
    method CachedCategoryProbabilities(features: seq<T>) returns (d: seq<Classification<seq<T>, K>>)
      requires Valid()
      modifies this
      ensures Valid() && cacheValid && d == cache
      ensures state == old(state)
      ensures old(cacheValid) ==> cache == old(cache) && cachedFeatures == old(cachedFeatures)
      ensures !old(cacheValid) ==> cache == Distribution(sup, state, features, sup.categories(state)) && cachedFeatures == features
    {
      if !cacheValid {
        cache := CategoryProbabilities(features);
        cacheValid := true;
        cachedFeatures := features;
      }
      d := cache;
    }

    /** `classify(features)`: the most probable classification of the
        (possibly cached) distribution, or null when there are no categories. */
    method Classify(features: seq<T>) returns (r: Option<Classification<seq<T>, K>>)
      requires Valid()
      modifies this
      ensures Valid() && cacheValid && state == old(state)
      ensures r == Top(cache)
      ensures old(cacheValid) ==> cache == old(cache)
      ensures !old(cacheValid) ==> cachedFeatures == features
      ensures r.None? <==> sup.categories(state) == []
      ensures r.Some? ==> exists i | FirstMax(sup, state, cachedFeatures, sup.categories(state), i) ::
                            r.value == Scored(sup, state, cachedFeatures, sup.categories(state)[i])
    {
      var d := CachedCategoryProbabilities(features);
      DistributionSorted(sup, state, cachedFeatures, sup.categories(state));
      if |d| > 0 {
        DistributionTop(sup, state, cachedFeatures, sup.categories(state));
        return Some(d[|d| - 1]);
      }
      return None;
    }

    /** `classifyDetailed(features)`: a detailed classification carrying the
        query's features and the (possibly cached) distribution. */
    method ClassifyDetailed(features: seq<T>) returns (dc: ComputerClassifications.DetailedClassification<seq<T>, K>)
      requires Valid()
      modifies this
      ensures Valid() && cacheValid && state == old(state)
      ensures old(cacheValid) ==> cache == old(cache)
      ensures fresh(dc) && dc.Valid() && dc.featureset == features && dc.classifications == cache
    {
      var d := CachedCategoryProbabilities(features);
      dc := new ComputerClassifications.DetailedClassification(features, d);
    }

    /** `setMemoryCapacity(memoryCapacity)`. */
    method SetMemoryCapacity(memoryCapacity: int32)
      modifies this
      ensures !cacheValid && state == sup.setMemoryCapacity(old(state), memoryCapacity)
      ensures Valid() && cache == old(cache)
    {
      cacheValid := false;
      state := sup.setMemoryCapacity(state, memoryCapacity);
    }

    /** `learn(category, features)`. */
    method Learn(category: K, features: seq<T>)
      modifies this
      ensures !cacheValid && state == sup.learn(old(state), category, features)
      ensures Valid() && cache == old(cache)
    {
      cacheValid := false;
      state := sup.learn(state, category, features);
    }

    /** `learn(classification)`. */
    method LearnClassification(classification: Classification<seq<T>, K>)
      modifies this
      ensures !cacheValid && state == sup.learnClassification(old(state), classification)
      ensures Valid() && cache == old(cache)
    {
      cacheValid := false;
      state := sup.learnClassification(state, classification);
    }
  }

  /** Two queries with no learning in between return the same distribution,
      whatever the second one's features: the cached one if the cache was
      valid, otherwise the one the first query computes for its features. */
  method TwoQueries<S, T, K(==)>(c: BayesClassifier<S, T, K>, f1: seq<T>, f2: seq<T>)
    returns (d1: seq<Classification<seq<T>, K>>, d2: seq<Classification<seq<T>, K>>)
    requires c.Valid()
    modifies c
    ensures d1 == d2 && c.Valid() && c.cacheValid && c.state == old(c.state)
    ensures old(c.cacheValid) ==> d1 == old(c.cache)
    ensures !old(c.cacheValid) ==> d1 == Distribution(c.sup, c.state, f1, c.sup.categories(c.state))
  {
    d1 := c.CachedCategoryProbabilities(f1);
    d2 := c.CachedCategoryProbabilities(f2);
  }
}
