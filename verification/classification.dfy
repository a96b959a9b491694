/** Classification results of the `proposals` package: `Classification`, one
    category with its probability for a feature collection, and
    `DetailedClassification`, the probabilities of many categories for the
    same features. Java `float` probabilities are reals here. */
module Classifications {

  /** A classification; no field changes after construction. `F` stands for
      the feature collection, which is handed back as it was given. */
  datatype Classification<F, K> = Classification(featureset: F, category: K, probability: real)

  /** The two-argument constructor: a classification with probability 0. */
  function Unscored<F, K>(features: F, cat: K): (c: Classification<F, K>)
    ensures c.featureset == features && c.category == cat && c.probability == 0.0
  {
    Classification(features, cat, 0.0)
  }

  /** The table the constructor of `DetailedClassification` fills: each
      classification in turn puts its category with its probability, so a
      later classification of a category overwrites an earlier one. */
  function ProbabilityTable<F, K>(cs: seq<Classification<F, K>>): map<K, real>
  {
    if cs == [] then map[]
    else ProbabilityTable(cs[..|cs| - 1])[cs[|cs| - 1].category := cs[|cs| - 1].probability]
  }

  /** The position of the last classification of `cat` in `cs`. */
  ghost predicate LastOf<F, K>(cs: seq<Classification<F, K>>, cat: K, i: int)
  {
    0 <= i < |cs| && cs[i].category == cat && forall j | i < j < |cs| :: cs[j].category != cat
  }

  /** The table holds exactly the categories of `cs`, each with the
      probability of its last classification. */
  lemma {:induction false} ProbabilityTableMeaning<F, K>(cs: seq<Classification<F, K>>, cat: K)
    ensures cat in ProbabilityTable(cs) <==> exists c | c in cs :: c.category == cat
    ensures forall i | LastOf(cs, cat, i) :: cat in ProbabilityTable(cs) && ProbabilityTable(cs)[cat] == cs[i].probability
  {
    if cs != [] {
      var init := cs[..|cs| - 1];
      ProbabilityTableMeaning(init, cat);
      assert cs == init + [cs[|cs| - 1]];
      forall i | LastOf(cs, cat, i) ensures cat in ProbabilityTable(cs) && ProbabilityTable(cs)[cat] == cs[i].probability {
        if i < |cs| - 1 {
          assert LastOf(init, cat, i);
        }
      }
    }
  }

  /** `DetailedClassification` of the `proposals` package. */
  class DetailedClassification<F, K(==)> {
    const featureset: F
    const categoryProbabilities: map<K, real>
    /** The classifications the table was built from. */
    ghost const classifications: seq<Classification<F, K>>

    ghost predicate Valid()
    {
      categoryProbabilities == ProbabilityTable(classifications)
    }

    constructor (features: F, cs: seq<Classification<F, K>>)
      ensures Valid() && featureset == features && classifications == cs
    {
      featureset := features;
      classifications := cs;
      var table := map[];
      for i := 0 to |cs|
        invariant table == ProbabilityTable(cs[..i])
      {
        assert cs[..i + 1][..i] == cs[..i];
        table := table[cs[i].category := cs[i].probability];
      }
      assert cs[..|cs|] == cs;
      categoryProbabilities := table;
    }

    /** `getProbabilityFor(category)`: the probability of the last
        classification of `category`, or 0 when there is none. */
    function GetProbabilityFor(category: K): (p: real)
      requires Valid()
      ensures (forall c | c in classifications :: c.category != category) ==> p == 0.0
      ensures forall i | LastOf(classifications, category, i) :: p == classifications[i].probability
    {
      ProbabilityTableMeaning(classifications, category);
      if category in categoryProbabilities then categoryProbabilities[category] else 0.0
    }
  }
}
