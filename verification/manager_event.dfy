/** `WrappedOWLOntologyManagerEvent`: the ontologies added to and removed
    from the manager, as two arrays that are never null. */
module ManagerEvents {
  import opened Common

  class ManagerEvent<S, T> {
    /** The event source kept by `EventObject`. */
    const source: S
    const added: array<T>
    const removed: array<T>

    /** The one-argument constructor: an event with nothing added or removed. */
    constructor (src: S)
      ensures source == src
      ensures fresh(added) && added.Length == 0
      ensures fresh(removed) && removed.Length == 0
    {
      source := src;
      added := new T[0];
      removed := new T[0];
    }

    /** The three-argument constructor: a null array becomes a new empty
        one, any other is kept as the same reference. */
    constructor WithObjects(src: S, addedObjects: Option<array<T>>, removedObjects: Option<array<T>>)
      ensures source == src
      ensures addedObjects.Some? ==> added == addedObjects.value
      ensures addedObjects.None? ==> fresh(added) && added.Length == 0
      ensures removedObjects.Some? ==> removed == removedObjects.value
      ensures removedObjects.None? ==> fresh(removed) && removed.Length == 0
    {
      source := src;
      added := new T[0];
      removed := new T[0];
      if addedObjects.Some? {
        added := addedObjects.value;
      }
      if removedObjects.Some? {
        removed := removedObjects.value;
      }
    }

    /** `getAdded()`: the added objects, never null. */
    function GetAdded(): (a: array<T>)
      ensures a == added
    {
      added
    }

    /** `getRemoved()`: the removed objects, never null. */
    function GetRemoved(): (a: array<T>)
      ensures a == removed
    {
      removed
    }
  }
}
