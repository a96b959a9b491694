/** `ContextFeature` of the `proposals` package: a feature kind with a
    string value, equality on both, a hash that multiplies the value's hash
    by the kind's, and a weight looked up by the kind's ordinal. */
module ContextFeatures {
  import opened Common

  /** `ContextFeature.Feature`: the kinds of feature. */
  datatype Feature = ENVIRONMENTSTRING

  /** `Enum.ordinal()`: the position of the constant in its declaration. */
  function Ordinal(t: Feature): (n: nat)
    ensures n < |FeatureWeight|
  {
    match t
    case ENVIRONMENTSTRING => 0
  }

  /** `ContextFeature.FeatureWeight`, indexed by ordinal. */
  const FeatureWeight: seq<real> := [1.0]

  /** A feature: its kind and its (possibly null) value. Both are fixed by
      the constructor, and the getters return them. */
  datatype ContextFeature = ContextFeature(featureType: Feature, value: Option<string>)

  /** What `equals` may be handed: null, a feature, or an object of another class. */
  datatype Obj = NullObj | FeatureObj(feature: ContextFeature) | OtherObj

  /** `equals(obj)`. A reference to the same object is a feature with the
      same fields here, so the identity shortcut is covered by the field test. */
  function Equals(f: ContextFeature, obj: Obj): (r: bool)
  {
    match obj
    case NullObj => false
    case OtherObj => false
    case FeatureObj(other) =>
      if f.featureType != other.featureType then false
      else if f.value.None? then other.value.None?
      else other.value.Some? && f.value.value == other.value.value
  }

  /** Two features are equal exactly when their kinds agree and their values
      are both null or equal strings; null and other classes never are. */
  lemma EqualsMeaning(f: ContextFeature, obj: Obj)
    ensures Equals(f, obj) <==> obj == FeatureObj(f)
  {
    if obj.FeatureObj? && Equals(f, obj) {
      assert obj.feature.value == f.value;
    }
  }

  /** `equals` is an equivalence on features. */
  lemma EqualsEquivalence(f: ContextFeature, g: ContextFeature, h: ContextFeature)
    ensures Equals(f, FeatureObj(f))
    ensures Equals(f, FeatureObj(g)) ==> Equals(g, FeatureObj(f))
    ensures Equals(f, FeatureObj(g)) && Equals(g, FeatureObj(h)) ==> Equals(f, FeatureObj(h))
  {
    EqualsMeaning(f, FeatureObj(g));
    EqualsMeaning(g, FeatureObj(h));
  }

  /** `String.hashCode()`: `h = 31 * h + c` over the characters, in `int`. */
  function StringHash(s: string): int32
  {
    if s == [] then 0
    else Wrap32(31 * StringHash(s[..|s| - 1]) as int + s[|s| - 1] as int)
  }

  /** `hashCode()`: the value's hash times the kind's hash, in `int`. The
      kind's hash is the enum constant's identity hash, a parameter here. A
      null value makes the call throw. */
  function HashCode(f: ContextFeature, typeHash: int32): (r: Result<int32>)
    ensures r.Failure? <==> f.value.None?
    ensures r.Failure? ==> r.error == NullPointerException
  {
    if f.value.None? then Failure(NullPointerException)
    else Success(Wrap32(StringHash(f.value.value) as int * typeHash as int))
  }

  /** Equal features with non-null values hash alike, and a feature equal to
      one with a null value cannot be hashed at all. */
  lemma HashAgreesWithEquals(f: ContextFeature, g: ContextFeature, typeHash: int32)
    requires Equals(f, FeatureObj(g))
    ensures f.value.Some? ==> HashCode(f, typeHash).Success? && HashCode(f, typeHash) == HashCode(g, typeHash)
    ensures f.value.None? ==> HashCode(f, typeHash).Failure? && HashCode(g, typeHash).Failure?
  {
    EqualsMeaning(f, FeatureObj(g));
  }

  /** `getWeight()`: the weight at the kind's ordinal; an environment string weighs 1. */
  function GetWeight(f: ContextFeature): (w: real)
    ensures w == FeatureWeight[Ordinal(f.featureType)]
    ensures f.featureType == ENVIRONMENTSTRING ==> w == 1.0
  {
    FeatureWeight[Ordinal(f.featureType)]
  }
}
