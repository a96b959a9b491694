/** The entity wrapper stored in the proposal trie (`WrappedOWLEntity`):
    its type tag, the derivation of its short ID, and the string-keyed cache
    that hands out one shared instance per ID. */
module Entities {
  import opened Common
  import opened JavaStrings

  datatype EntityType =
    | OWLClass
    | OWLNamedIndividual
    | OWLDataProperty
    | OWLDataType
    | OWLObjectProperty
    | OWLAnnotationProperty
    | OWLOntology
    | Other

  /** The short form of an entity ID: the text after its last `'#'`, or the
      whole ID when it has none. */
  function GenerateShortID(id: string): (r: string)
    ensures '#' !in r
    ensures '#' !in id ==> r == id
    ensures '#' in id ==> |r| < |id| && id[|id| - |r| - 1] == '#' && r == id[|id| - |r|..]
  {
    if '#' in id then
      id[LastIndexOf(id, '#') + 1..]
    else id
  }

  /** The short ID is the longest `'#'`-free suffix of the ID. */
  lemma ShortIDIsLongestHashFreeSuffix(id: string, n: nat)
    requires n <= |id| && '#' !in id[|id| - n..]
    ensures n <= |GenerateShortID(id)|
  {
  }

  /** Shortening is idempotent: a short ID is its own short ID. */
  lemma GenerateShortIDIdempotent(id: string)
    ensures GenerateShortID(GenerateShortID(id)) == GenerateShortID(id)
  {
  }

  /** The short ID of an ontology: the text after the last `'/'` of its ID,
      without the ID's final character; `None` where `substring` throws. */
  function OntologyShortID(ontologyID: string): (r: Option<string>)
    ensures r.None? <==> ontologyID == [] || ontologyID[|ontologyID| - 1] == '/'
    ensures r.Some? ==> '/' !in r.value
    ensures r.Some? ==> |r.value| < |ontologyID|
    ensures r.Some? ==> ontologyID[|ontologyID| - 1 - |r.value|..|ontologyID| - 1] == r.value
    ensures r.Some? && '/' !in ontologyID ==> r.value == ontologyID[..|ontologyID| - 1]
  {
    var begin := LastIndexOf(ontologyID, '/') + 1;
    var end := |ontologyID| - 1;
    if begin <= end then
      assert forall i :: 0 <= i < end - begin ==> ontologyID[begin..end][i] == ontologyID[begin + i];
      Some(ontologyID[begin..end])
    else None
  }

  /** What the wrapper reads from an OWL API entity: its string ID and its kind. */
  datatype OwlEntity = OwlEntity(
    stringID: string,
    isClass: bool,
    isDataProperty: bool,
    isDatatype: bool,
    isNamedIndividual: bool,
    isObjectProperty: bool,
    isAnnotationProperty: bool)

  /** The type tag chosen for an OWL API entity: the first kind test that
      holds, in the order class, data property, datatype, named individual,
      object property, annotation property. */
  function TypeOf(entity: OwlEntity): (t: EntityType)
    ensures t != OWLOntology
    ensures t == OWLClass <==> entity.isClass
    ensures t == OWLDataProperty <==> !entity.isClass && entity.isDataProperty
    ensures t == OWLDataType <==> !entity.isClass && !entity.isDataProperty && entity.isDatatype
    ensures t == OWLNamedIndividual <==>
      !entity.isClass && !entity.isDataProperty && !entity.isDatatype && entity.isNamedIndividual
    ensures t == OWLObjectProperty <==>
      !entity.isClass && !entity.isDataProperty && !entity.isDatatype && !entity.isNamedIndividual &&
      entity.isObjectProperty
    ensures t == OWLAnnotationProperty <==>
      !entity.isClass && !entity.isDataProperty && !entity.isDatatype && !entity.isNamedIndividual &&
      !entity.isObjectProperty && entity.isAnnotationProperty
    ensures t == Other <==>
      (!entity.isClass && !entity.isDataProperty && !entity.isDatatype &&
       !entity.isNamedIndividual && !entity.isObjectProperty && !entity.isAnnotationProperty)
  {
    if entity.isClass then OWLClass
    else if entity.isDataProperty then OWLDataProperty
    else if entity.isDatatype then OWLDataType
    else if entity.isNamedIndividual then OWLNamedIndividual
    else if entity.isObjectProperty then OWLObjectProperty
    else if entity.isAnnotationProperty then OWLAnnotationProperty
    else Other
  }

  /** A wrapped entity. Its fields are set once by a constructor and only read
      afterwards; identity is reference identity, as `equals` is not overridden. */
  class Entity {
    const ID: string
    const ShortID: string
    const Type: EntityType

    constructor (entityID: string, entityType: EntityType)
      ensures ID == entityID && ShortID == GenerateShortID(entityID) && Type == entityType
    {
      ID := entityID;
      ShortID := GenerateShortID(entityID);
      Type := entityType;
    }

    constructor FromOwl(entity: OwlEntity)
      ensures ID == entity.stringID && ShortID == GenerateShortID(entity.stringID)
      ensures Type == TypeOf(entity)
    {
      ID := entity.stringID;
      ShortID := GenerateShortID(entity.stringID);
      Type := TypeOf(entity);
    }

    constructor FromOntology(ontologyID: string)
      requires OntologyShortID(ontologyID).Some?
      ensures ID == ontologyID && ShortID == OntologyShortID(ontologyID).value
      ensures Type == OWLOntology
    {
      ID := ontologyID;
      ShortID := OntologyShortID(ontologyID).value;
      Type := OWLOntology;
    }

    predicate IsType(entityType: EntityType)
      ensures IsType(entityType) <==> Type == entityType
    {
      Type == entityType
    }
  }

  /** The process-wide interning table of wrapped entities, keyed by string ID. */
  class EntityCache {
    var cache: map<string, Entity>

    constructor ()
      ensures cache == map[]
    {
      cache := map[];
    }

    /** The cached wrapper for the entity's string ID, created and stored on a miss. */
    method GetEntityFor(entity: OwlEntity) returns (e: Entity)
      modifies this
      ensures entity.stringID in old(cache) ==> e == old(cache)[entity.stringID] && cache == old(cache)
      ensures entity.stringID !in old(cache) ==>
        && fresh(e)
        && e.ID == entity.stringID && e.ShortID == GenerateShortID(entity.stringID)
        && e.Type == TypeOf(entity)
        && cache == old(cache)[entity.stringID := e]
    {
      if entity.stringID in cache {
        e := cache[entity.stringID];
      } else {
        e := new Entity.FromOwl(entity);
        cache := cache[entity.stringID := e];
      }
    }

    /** The cached wrapper for an ontology ID; on a miss a new one is created,
        which fails (and caches nothing) when the ID ends in `'/'` or is empty. */
    method GetEntityForOntology(ontologyID: string) returns (r: Result<Entity>)
      modifies this
      ensures ontologyID in old(cache) ==> r == Success(old(cache)[ontologyID]) && cache == old(cache)
      ensures ontologyID !in old(cache) && OntologyShortID(ontologyID).None? ==>
        r == Failure(IndexOutOfBoundsException) && cache == old(cache)
      ensures ontologyID !in old(cache) && OntologyShortID(ontologyID).Some? ==>
        && r.Success? && fresh(r.value)
        && r.value.ID == ontologyID && r.value.ShortID == OntologyShortID(ontologyID).value
        && r.value.Type == OWLOntology
        && cache == old(cache)[ontologyID := r.value]
    {
      if ontologyID in cache {
        r := Success(cache[ontologyID]);
      } else if OntologyShortID(ontologyID).None? {
        r := Failure(IndexOutOfBoundsException);
      } else {
        var e := new Entity.FromOntology(ontologyID);
        cache := cache[ontologyID := e];
        r := Success(e);
      }
    }

    method ClearCache()
      modifies this
      ensures cache == map[]
    {
      cache := map[];
    }
  }
}
