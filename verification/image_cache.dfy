/** `ImageCache`: a lazy table from image descriptors to the images created
    from them. Creating and disposing an image belong to the widget toolkit
    and are not modelled: the image `createImage` would return is a
    parameter, and the cache keeps ghost logs of the descriptors it created
    images for and of the images it disposed. */
module ImageCaches {
  import opened Common

  /** One `getImage` call on a table: the image returned, the new table, and
      whether `createImage` was called. */
  datatype Lookup<D, I> = Lookup(image: Option<I>, table: map<D, Option<I>>, created: bool)

  /** `getImage(descriptor)` on `table`, where `newImage` is what
      `descriptor.createImage()` would return. A null descriptor yields null;
      a stored non-null image is returned as it is; otherwise an image is
      created and stored, also over a stored null. */
  function GetImageStep<D, I>(table: map<D, Option<I>>, descriptor: Option<D>, newImage: Option<I>): (l: Lookup<D, I>)
  {
    match descriptor
    case None => Lookup(None, table, false)
    case Some(d) =>
      if d in table && table[d].Some? then Lookup(table[d], table, false)
      else Lookup(newImage, table[d := newImage], true)
  }

  /** A step only adds entries, and overwrites none that held an image. */
  lemma GetImageStepGrows<D, I>(table: map<D, Option<I>>, descriptor: Option<D>, newImage: Option<I>)
    ensures var l := GetImageStep(table, descriptor, newImage);
      && table.Keys <= l.table.Keys
      && (forall d | d in table && table[d].Some? :: l.table[d] == table[d])
      && (l.created <==> descriptor.Some? && (descriptor.value !in table || table[descriptor.value].None?))
      && (forall d | d in l.table && d !in table :: l.created && descriptor == Some(d))
  {
  }

  /** Once a descriptor has produced an image, asking again returns that very
      image, creates nothing and leaves the table alone. */
  lemma GetImageStepMemoizes<D, I>(table: map<D, Option<I>>, d: D, newImage1: Option<I>, newImage2: Option<I>)
    requires GetImageStep(table, Some(d), newImage1).image.Some?
    ensures var l1 := GetImageStep(table, Some(d), newImage1);
      var l2 := GetImageStep(l1.table, Some(d), newImage2);
      l2.image == l1.image && !l2.created && l2.table == l1.table
  {
  }

  ghost predicate Distinct<D>(order: seq<D>)
  {
    forall i, j | 0 <= i < j < |order| :: order[i] != order[j]
  }

  /** `order` lists every key of `keys` exactly once. */
  ghost predicate Enumerates<D>(order: seq<D>, keys: set<D>)
  {
    Distinct(order) && (forall k | 0 <= k < |order| :: order[k] in keys) && forall d | d in keys :: d in order
  }

  /** Every descriptor in `order` holds an image in `table`. */
  ghost predicate Stored<D, I>(table: map<D, Option<I>>, order: seq<D>)
  {
    forall k | 0 <= k < |order| :: order[k] in table && table[order[k]].Some?
  }

  lemma EnumeratesStep<D>(order: seq<D>, keys: set<D>, d: D)
    requires Enumerates(order, keys) && d !in keys
    ensures Enumerates(order + [d], keys + {d})
  {
  }

  /** A table whose keys are all enumerated with an image stores no null. */
  lemma EnumeratedAllStored<D, I>(table: map<D, Option<I>>, order: seq<D>)
    requires Enumerates(order, table.Keys) && Stored(table, order)
    ensures forall d | d in table :: table[d].Some?
  {
    forall d | d in table ensures table[d].Some? {
      var k :| 0 <= k < |order| && order[k] == d;
    }
  }

  /** The images `table` holds for `order`, in that order. */
  ghost function Images<D, I>(table: map<D, Option<I>>, order: seq<D>): seq<I>
    requires Stored(table, order)
  {
    if order == [] then [] else Images(table, order[..|order| - 1]) + [table[order[|order| - 1]].value]
  }

  class ImageCache<D(==), I> {
    var imageMap: map<D, Option<I>>
    /** The descriptors `createImage` was called on, in order. */
    ghost var createdFor: seq<D>
    /** The images disposed, in order. */
    ghost var disposed: seq<I>

    /** `new ImageCache()`: an empty table. */
    constructor ()
      ensures imageMap == map[] && createdFor == [] && disposed == []
    {
      imageMap := map[];
      createdFor := [];
      disposed := [];
    }

    /** `getImage(descriptor)`, where `newImage` is what `createImage` returns. */
    method GetImage(descriptor: Option<D>, newImage: Option<I>) returns (image: Option<I>)
      modifies this
      ensures var l := GetImageStep(old(imageMap), descriptor, newImage);
        && image == l.image && imageMap == l.table
        && createdFor == old(createdFor) + (if l.created then [descriptor.value] else [])
      ensures disposed == old(disposed)
    {
      if descriptor.None? {
        return None;
      }
      var d := descriptor.value;
      image := if d in imageMap then imageMap[d] else None;
      if image.None? {
        image := newImage;
        createdFor := createdFor + [d];
        imageMap := imageMap[d := image];
      }
    }

    /** `dispose()`: disposes the stored images in the table's iteration
        order, reported in `order`, then empties the table. Disposing a
        stored null throws, which leaves the table as it was. */
    method Dispose() returns (r: Result<()>, ghost order: seq<D>)
      modifies this
      ensures r.Success? <==> forall d | d in old(imageMap) :: old(imageMap)[d].Some?
      ensures r.Failure? ==> r.error == NullPointerException && imageMap == old(imageMap)
      ensures r.Success? ==> imageMap == map[] && Enumerates(order, old(imageMap).Keys)
      ensures Stored(old(imageMap), order) && Distinct(order)
      ensures disposed == old(disposed) + Images(old(imageMap), order)
      ensures createdFor == old(createdFor)
    {
      ghost var m0, log0 := imageMap, disposed;
      var rest := imageMap.Keys;
      order := [];
      while rest != {}
        invariant imageMap == m0 && createdFor == old(createdFor)
        invariant rest <= m0.Keys && Enumerates(order, m0.Keys - rest)
        invariant Stored(m0, order) && Distinct(order)
        invariant disposed == log0 + Images(m0, order)
        decreases rest
      {
        var d :| d in rest;
        var image := imageMap[d];
        if image.None? {
          return Failure(NullPointerException), order;
        }
        EnumeratesStep(order, m0.Keys - rest, d);
        assert m0.Keys - rest + {d} == m0.Keys - (rest - {d});
        disposed := disposed + [image.value];
        order := order + [d];
        rest := rest - {d};
      }
      assert m0.Keys - rest == m0.Keys;
      EnumeratedAllStored(m0, order);
      imageMap := map[];
      return Success(()), order;
    }
  }
}
