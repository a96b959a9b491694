/** `DetailedClassification` of the `proposalComputer` package: built like
    the one of the `proposals` package, but its lookup unboxes the table entry
    without a null check. */
module ComputerClassifications {
  import opened Common
  import opened Classifications

  class DetailedClassification<F, K(==)> {
    const featureset: F
    const categoryProbabilities: map<K, real>
    /** The classifications the table was built from. */
    ghost const classifications: seq<Classification<F, K>>

    ghost predicate Valid()
    {
      categoryProbabilities == ProbabilityTable(classifications)
    }

    constructor (features: F, cs: seq<Classification<F, K>>)
      ensures Valid() && featureset == features && classifications == cs
    {
      featureset := features;
      classifications := cs;
      var table := map[];
      for i := 0 to |cs|
        invariant table == ProbabilityTable(cs[..i])
      {
        assert cs[..i + 1][..i] == cs[..i];
        table := table[cs[i].category := cs[i].probability];
      }
      assert cs[..|cs|] == cs;
      categoryProbabilities := table;
    }

    /** `getProbabilityFor(category)`: the probability of the last
        classification of `category`; for a category with no classification
        the table answers null and unboxing it throws. */
    function GetProbabilityFor(category: K): (r: Result<real>)
      requires Valid()
      ensures r.Failure? <==> forall c | c in classifications :: c.category != category
      ensures r.Failure? ==> r.error == NullPointerException
      ensures forall i | LastOf(classifications, category, i) :: r == Success(classifications[i].probability)
    {
      ProbabilityTableMeaning(classifications, category);
      if category in categoryProbabilities then Success(categoryProbabilities[category])
      else Failure(NullPointerException)
    }
  }
}
