/** The observable state of a `TemplateProposalTrie`, as a value: every live
    key path (the characters on the edges from the root) mapped to the value
    set of the node it reaches. The trie's operations are specified here as
    functions on that value, and the properties the trie promises are lemmas
    about those functions. */
module TrieShape {
  import opened Common
  import opened JavaStrings
  import opened Entities

  type Shape = map<string, set<Entity>>

  /** A Java `Object` handed to `contains`/`remove`: null, an object of
      another class, or a wrapped entity. */
  datatype Element = NullRef | OtherObject | EntityRef(entity: Entity)

  /** The path under which `add` stores an entity: its lower-cased short ID. */
  function Key(e: Entity): string
  {
    ToLowerCase(e.ShortID)
  }

  /** The root path exists and every live path's parent path is live. */
  ghost predicate WellFormed(c: Shape)
  {
    "" in c && forall s | s in c && s != [] :: s[..|s| - 1] in c
  }

  ghost predicate IsLeaf(c: Shape, s: string)
  {
    forall t | t in c :: !(s < t)
  }

  /** Every node other than the root that has no children holds a value. */
  ghost predicate Pruned(c: Shape)
  {
    forall s | s in c && s != [] && IsLeaf(c, s) :: c[s] != {}
  }

  /** Every stored entity sits at its own key. */
  ghost predicate KeysAgree(c: Shape)
  {
    forall s, e | s in c && e in c[s] :: Key(e) == s
  }

  predicate Holds(c: Shape, k: string, e: Entity)
  {
    k in c && e in c[k]
  }

  function Prefixes(k: string): set<string>
  {
    set i | 0 <= i <= |k| :: k[..i]
  }

  /** All entities in the trie: what `postfixes()` returns at the root. */
  function AllValues(c: Shape): set<Entity>
  {
    set s, e | s in c && e in c[s] :: e
  }

  /** All entities in the subtree at path `p`: what `postfixes()` returns there. */
  function Under(c: Shape, p: string): set<Entity>
  {
    set s, e | s in c && p <= s && e in c[s] :: e
  }

  /** `postfixes(prefix)`: the subtree's entities, or nothing when the path is missing. */
  function PrefixQuery(c: Shape, prefix: string): set<Entity>
  {
    if prefix in c then Under(c, prefix) else {}
  }

  function ChildChars(c: Shape, p: string): set<char>
  {
    set s | s in c && |s| == |p| + 1 && p <= s :: s[|p|]
  }

  /** Every missing prefix of `k` becomes a node with no values. */
  function Fill(c: Shape, k: string): Shape
  {
    map s | s in c.Keys + Prefixes(k) :: if s in c then c[s] else {}
  }

  /** `add`: fills in the path of `k`, and `e` joins the value set at `k`. */
  function AddShape(c: Shape, k: string, e: Entity): Shape
  {
    var filled := Fill(c, k);
    assert k == k[..|k|];
    filled[k := filled[k] + {e}]
  }

  /** The effect of `clear()`. */
  function ClearedShape(): Shape
  {
    map["" := {}]
  }

  /** `lastEndIndex` after the first `i` steps of `remove`'s walk along `k`:
      the deepest depth below `|k| - 1` among them whose node holds values, or 0. */
  function CutFrom(c: Shape, k: string, i: nat): (r: nat)
    requires i <= |k|
    ensures r == 0 || (r < i && r < |k| - 1 && k[..r] in c && c[k[..r]] != {})
    ensures forall j :: r < j < i && j < |k| - 1 && k[..j] in c ==> c[k[..j]] == {}
  {
    if i == 0 then 0
    else
      var prev := CutFrom(c, k, i - 1);
      if i - 1 < |k| - 1 && k[..i - 1] in c && c[k[..i - 1]] != {} then i - 1 else prev
  }

  function CutDepth(c: Shape, k: string): nat
  {
    CutFrom(c, k, |k|)
  }

  /** Drops the node at path `q` together with everything below it. */
  function Prune(c: Shape, q: string): Shape
  {
    map s | s in c && !(q <= s) :: c[s]
  }

  /** `remove(o)` for an entity `o` whose key is `k`: the new state and the result. */
  function RemoveShape(c: Shape, k: string, o: Entity): (Shape, bool)
  {
    if |k| == 0 && "" in c && c[""] != {} then
      (c["" := c[""] - {o}], o in c[""])
    else if k !in c || c[k] == {} then
      (c, false)
    else
      (Prune(c, k[..CutDepth(c, k) + 1]), true)
  }

  /** `contains(o)`: walks `o`'s full ID, not its key. */
  function ContainsShape(c: Shape, o: Element): Result<bool>
  {
    match o
    case NullRef => Failure(NullPointerException)
    case OtherObject => Success(false)
    case EntityRef(e) => Success(e.ID in c && e in c[e.ID])
  }

  /** `containsAll(os)`: the `contains` checks in order, stopping at the
      first one that throws or answers false. */
  function ContainsAllShape(c: Shape, os: seq<Element>): Result<bool>
  {
    if os == [] then Success(true)
    else
      match ContainsShape(c, os[0])
      case Failure(x) => Failure(x)
      case Success(b) => if b then ContainsAllShape(c, os[1..]) else Success(false)
  }

  /** `remove(o)` on an arbitrary object. */
  function RemoveElement(c: Shape, o: Element): (Shape, Result<bool>)
  {
    match o
    case NullRef => (c, Failure(NullPointerException))
    case OtherObject => (c, Success(false))
    case EntityRef(e) =>
      var (c', b) := RemoveShape(c, Key(e), e);
      (c', Success(b))
  }

  /** `addAll(es)`: the adds in order; true iff one of them returned true. */
  function AddAllShape(c: Shape, es: seq<Entity>): (Shape, bool)
  {
    if es == [] then (c, false)
    else
      var (c', b) := AddAllShape(c, es[..|es| - 1]);
      var e := es[|es| - 1];
      (AddShape(c', Key(e), e), !Holds(c', Key(e), e) || b)
  }

  /** `removeAll(os)`: the removes in order until one of them throws. */
  function RemoveAllShape(c: Shape, os: seq<Element>): (Shape, Result<bool>)
  {
    if os == [] then (c, Success(false))
    else
      var (c', r) := RemoveAllShape(c, os[..|os| - 1]);
      if r.Failure? then (c', r)
      else
        var (c'', r') := RemoveElement(c', os[|os| - 1]);
        (c'', if r'.Failure? then r' else Success(r'.value || r.value))
  }

  // ---------------------------------------------------------------------
  // Structure

  lemma {:induction false} PrefixClosed(c: Shape, s: string, i: nat)
    requires WellFormed(c) && s in c && i <= |s|
    ensures s[..i] in c
    decreases |s| - i
  {
    if i == |s| {
      assert s[..i] == s;
    } else {
      var t := s[..|s| - 1];
      PrefixClosed(c, t, i);
      assert t[..i] == s[..i];
    }
  }

  /** The entities of the subtrees below the edges `chars` of the node at `p`. */
  function UnderEdges(c: Shape, p: string, chars: set<char>): set<Entity>
  {
    set ch, e | ch in chars && e in Under(c, p + [ch]) :: e
  }

  /** Collecting one more edge's subtree into what the node and the edges
      `chars` have given so far. */
  lemma UnderEdgesStep(c: Shape, p: string, chars: set<char>, ch: char, r: set<Entity>)
    requires p in c && r == c[p] + UnderEdges(c, p, chars)
    ensures r + Under(c, p + [ch]) == c[p] + UnderEdges(c, p, chars + {ch})
  {
    assert UnderEdges(c, p, chars + {ch}) == UnderEdges(c, p, chars) + Under(c, p + [ch]);
  }

  /** The entities of a subtree are the node's own plus those of its children's subtrees. */
  lemma UnderSplit(c: Shape, p: string)
    requires WellFormed(c) && p in c
    ensures Under(c, p) == c[p] + UnderEdges(c, p, ChildChars(c, p))
  {
    var rhs := c[p] + UnderEdges(c, p, ChildChars(c, p));
    forall x | x in Under(c, p) ensures x in rhs {
      var s :| s in c && p <= s && x in c[s];
      if s != p {
        var t := s[..|p| + 1];
        PrefixClosed(c, s, |p| + 1);
        assert t == p + [s[|p|]];
        assert s[|p|] in ChildChars(c, p);
        assert x in Under(c, t);
      }
    }
  }

  /** `postfixes("")` is `postfixes()`. */
  lemma PrefixQueryRoot(c: Shape)
    requires WellFormed(c)
    ensures PrefixQuery(c, "") == AllValues(c)
  {
  }

  /** `postfixes(p)` is exactly the set of stored entities whose key starts with `p`. */
  lemma PrefixQueryExact(c: Shape, p: string)
    requires WellFormed(c) && KeysAgree(c)
    ensures PrefixQuery(c, p) == set e | e in AllValues(c) && p <= Key(e)
  {
    forall e | e in AllValues(c) && p <= Key(e) ensures e in PrefixQuery(c, p) {
      var s :| s in c && e in c[s];
      PrefixClosed(c, s, |p|);
      assert s[..|p|] == p;
    }
  }

  /** `postfixes(p)` does not fold case: a prefix with an upper-case letter finds nothing. */
  lemma PrefixQueryIsCaseSensitive(c: Shape, p: string, i: nat)
    requires KeysAgree(c) && i < |p| && IsUpper(p[i])
    ensures PrefixQuery(c, p) == {}
  {
    forall s | s in c && c[s] != {} ensures !(p <= s) {
      var e :| e in c[s];
      if i < |s| {
        assert !IsUpper(Key(e)[i]);
      }
    }
  }

  // ---------------------------------------------------------------------
  // add

  lemma AddShapeHolds(c: Shape, k: string, e: Entity, s: string, x: Entity)
    ensures Holds(AddShape(c, k, e), s, x) <==> Holds(c, s, x) || (s == k && x == e)
  {
  }

  /** One more step of `add`'s walk creates at most the one node it reaches. */
  lemma FillStep(c: Shape, k: string, i: nat)
    requires i < |k|
    ensures k[..i + 1] in Fill(c, k[..i + 1])
    ensures k[..i + 1] in Fill(c, k[..i]) ==> Fill(c, k[..i + 1]) == Fill(c, k[..i])
    ensures k[..i + 1] !in Fill(c, k[..i]) ==> Fill(c, k[..i + 1]) == Fill(c, k[..i])[k[..i + 1] := {}]
  {
    var longer, shorter := Prefixes(k[..i + 1]), Prefixes(k[..i]);
    assert longer == shorter + {k[..i + 1]} by {
      forall s | s in longer ensures s in shorter || s == k[..i + 1] {
        var j :| 0 <= j <= i + 1 && s == k[..i + 1][..j];
        if j <= i {
          assert s == k[..i][..j];
        } else {
          assert s == k[..i + 1];
        }
      }
      forall s | s in shorter ensures s in longer {
        var j :| 0 <= j <= i && s == k[..i][..j];
        assert s == k[..i + 1][..j];
      }
      assert k[..i + 1] == k[..i + 1][..i + 1];
    }
  }

  lemma FillEmptyPath(c: Shape)
    requires "" in c
    ensures Fill(c, "") == c
  {
    assert Prefixes("") == {""} by {
      assert "" == ""[..0];
    }
  }

  /** The shape after the first `i` steps of `add`'s walk along `k`: each
      step creates the next prefix of `k` with no values if it is missing. */
  function FillTo(c: Shape, k: string, i: nat): (r: Shape)
    requires i <= |k|
    decreases i
  {
    if i == 0 then c
    else
      var f := FillTo(c, k, i - 1);
      if k[..i] in f then f else f[k[..i] := {}]
  }

  /** The walk, step by step, fills in exactly the prefixes of `k`. */
  lemma {:induction false} FillToFill(c: Shape, k: string, i: nat)
    requires "" in c && i <= |k|
    ensures FillTo(c, k, i) == Fill(c, k[..i])
    decreases i
  {
    if i == 0 {
      FillEmptyPath(c);
    } else {
      FillToFill(c, k, i - 1);
      FillStep(c, k, i - 1);
    }
  }

  /** `add` as the completed walk followed by joining `e` at the end of it. */
  lemma AddShapeByWalk(c: Shape, k: string, e: Entity)
    requires "" in c
    ensures k in FillTo(c, k, |k|)
    ensures AddShape(c, k, e) == FillTo(c, k, |k|)[k := FillTo(c, k, |k|)[k] + {e}]
    ensures Holds(c, k, e) <==> e in FillTo(c, k, |k|)[k]
  {
    FillToFill(c, k, |k|);
    assert k[..|k|] == k;
    if |k| > 0 {
      FillStep(c, k, |k| - 1);
    } else {
      FillEmptyPath(c);
    }
  }

  lemma AddShapeKeys(c: Shape, k: string, e: Entity)
    ensures AddShape(c, k, e).Keys == c.Keys + Prefixes(k)
  {
    assert k == k[..|k|];
  }

  /** `add` keeps the structure: it only adds nodes on `k`'s path. */
  lemma AddShapeInvariants(c: Shape, k: string, e: Entity)
    requires WellFormed(c) && Pruned(c)
    ensures WellFormed(AddShape(c, k, e)) && Pruned(AddShape(c, k, e))
    ensures KeysAgree(c) && k == Key(e) ==> KeysAgree(AddShape(c, k, e))
  {
    AddShapeWellFormed(c, k, e);
    AddShapePruned(c, k, e);
  }

  lemma AddShapeWellFormed(c: Shape, k: string, e: Entity)
    requires WellFormed(c)
    ensures WellFormed(AddShape(c, k, e))
  {
    var a := AddShape(c, k, e);
    AddShapeKeys(c, k, e);
    forall s | s in a && s != [] ensures s[..|s| - 1] in a {
      if s !in c {
        var i :| 0 <= i <= |k| && s == k[..i];
        assert s[..|s| - 1] == k[..i - 1];
      }
    }
  }

  lemma AddShapePruned(c: Shape, k: string, e: Entity)
    requires Pruned(c)
    ensures Pruned(AddShape(c, k, e))
  {
    var a := AddShape(c, k, e);
    AddShapeKeys(c, k, e);
    assert k in a && e in a[k];
    forall s | s in a && s != [] && IsLeaf(a, s) ensures a[s] != {} {
      if s != k && s in c {
        forall t | t in c ensures !(s < t) {
          assert t in a;
        }
      }
    }
  }

  /** `add` adds `e` to `postfixes()` and removes nothing. */
  lemma AddShapeValues(c: Shape, k: string, e: Entity)
    ensures AllValues(AddShape(c, k, e)) == AllValues(c) + {e}
  {
    var a := AddShape(c, k, e);
    AddShapeKeys(c, k, e);
    assert k in a && e in a[k];
    forall x | x in AllValues(a) ensures x in AllValues(c) + {e} {
      var s :| s in a && x in a[s];
      AddShapeHolds(c, k, e, s, x);
    }
    forall x | x in AllValues(c) ensures x in AllValues(a) {
      var s :| s in c && x in c[s];
      AddShapeHolds(c, k, e, s, x);
    }
  }

  /** A second `add` of a stored entity changes nothing. */
  lemma AddShapeIdempotent(c: Shape, k: string, e: Entity)
    requires WellFormed(c) && Holds(c, k, e)
    ensures AddShape(c, k, e) == c
  {
    var a := AddShape(c, k, e);
    AddShapeKeys(c, k, e);
    forall s | s in Prefixes(k) ensures s in c {
      var i :| 0 <= i <= |k| && s == k[..i];
      PrefixClosed(c, k, i);
    }
    assert a.Keys == c.Keys;
    forall s | s in a ensures a[s] == c[s] {
      if s == k {
        assert c[k] + {e} == c[k];
      }
    }
  }

  /** After `add(e)`, `postfixes(p)` finds `e` for every prefix `p` of its key. */
  lemma AddShapeFoundByPrefixes(c: Shape, e: Entity, i: nat)
    requires i <= |Key(e)|
    ensures e in PrefixQuery(AddShape(c, Key(e), e), Key(e)[..i])
  {
    var k := Key(e);
    var a := AddShape(c, k, e);
    AddShapeKeys(c, k, e);
    assert k[..i] in Prefixes(k);
    assert k in a && e in a[k];
  }

  /** `contains` after `add(e)` holds iff `e`'s full ID is its key or it was found before. */
  lemma ContainsAfterAdd(c: Shape, e: Entity)
    requires WellFormed(c)
    ensures ContainsShape(AddShape(c, Key(e), e), EntityRef(e)) ==
            Success(e.ID == Key(e) || Holds(c, e.ID, e))
  {
    AddShapeHolds(c, Key(e), e, e.ID, e);
  }

  /** With every entity at its own key, `contains(o)` finds `o` iff it is stored
      and its full ID equals its lower-cased short ID. */
  lemma ContainsNeedsIDEqualKey(c: Shape, o: Entity)
    requires KeysAgree(c)
    ensures ContainsShape(c, EntityRef(o)) == Success(Holds(c, Key(o), o) && o.ID == Key(o))
  {
  }

  /** An entity whose ID holds a `'#'` is never reported by `contains`. */
  lemma ContainsMissesHashIDs(c: Shape, o: Entity)
    requires KeysAgree(c) && '#' in o.ID && o.ShortID == GenerateShortID(o.ID)
    ensures ContainsShape(c, EntityRef(o)) == Success(false)
  {
    var k := Key(o);
    forall j | 0 <= j < |k| ensures k[j] != '#' {
      if !IsUpper(o.ShortID[j]) {
        assert o.ShortID[j] in o.ShortID;
      }
    }
  }

  /** `addAll` returns true iff one of its entities was not yet stored at its key. */
  lemma {:induction false} AddAllShapeContent(c: Shape, es: seq<Entity>)
    ensures forall s, x :: Holds(c, s, x) ==> Holds(AddAllShape(c, es).0, s, x)
    ensures forall s, x :: Holds(AddAllShape(c, es).0, s, x) ==>
      Holds(c, s, x) || exists i :: 0 <= i < |es| && s == Key(es[i]) && x == es[i]
    ensures forall i :: 0 <= i < |es| ==> Holds(AddAllShape(c, es).0, Key(es[i]), es[i])
  {
    if es != [] {
      var init := es[..|es| - 1];
      var e := es[|es| - 1];
      AddAllShapeContent(c, init);
      var c' := AddAllShape(c, init).0;
      forall s, x ensures Holds(AddShape(c', Key(e), e), s, x) <==> Holds(c', s, x) || (s == Key(e) && x == e) {
        AddShapeHolds(c', Key(e), e, s, x);
      }
      forall s, x | Holds(AddAllShape(c, es).0, s, x)
        ensures Holds(c, s, x) || exists i :: 0 <= i < |es| && s == Key(es[i]) && x == es[i]
      {
        if Holds(c', s, x) && !Holds(c, s, x) {
          var j :| 0 <= j < |init| && s == Key(init[j]) && x == init[j];
          assert es[j] == init[j];
        }
      }
      forall i | 0 <= i < |es| ensures Holds(AddAllShape(c, es).0, Key(es[i]), es[i]) {
        if i < |es| - 1 {
          assert init[i] == es[i];
        }
      }
    }
  }

  /** `addAll` reports a change iff one of its entities was not held before. */
  lemma {:induction false} AddAllShapeResult(c: Shape, es: seq<Entity>)
    ensures AddAllShape(c, es).1 <==> exists i :: 0 <= i < |es| && !Holds(c, Key(es[i]), es[i])
  {
    if es != [] {
      var init := es[..|es| - 1];
      var e := es[|es| - 1];
      AddAllShapeResult(c, init);
      AddAllShapeContent(c, init);
      var (c', b) := AddAllShape(c, init);
      if AddAllShape(c, es).1 && !b {
        assert !Holds(c, Key(e), e) && es[|es| - 1] == e;
      }
      if i :| 0 <= i < |es| && !Holds(c, Key(es[i]), es[i]) {
        if i < |es| - 1 {
          assert init[i] == es[i];
        } else if Holds(c', Key(e), e) {
          var j :| 0 <= j < |init| && Key(e) == Key(init[j]) && e == init[j];
          assert !Holds(c, Key(init[j]), init[j]);
        }
      }
    }
  }

  /** `addAll` adds exactly its entities to `postfixes()`. */
  lemma {:induction false} AddAllShapeValues(c: Shape, es: seq<Entity>)
    ensures AllValues(AddAllShape(c, es).0) == AllValues(c) + set e | e in es
  {
    if es != [] {
      var init := es[..|es| - 1];
      var e := es[|es| - 1];
      AddAllShapeValues(c, init);
      var (c', b) := AddAllShape(c, init);
      AddShapeValues(c', Key(e), e);
      assert es == init + [e];
      assert (set x | x in es) == (set x | x in init) + {e};
    }
  }

  // ---------------------------------------------------------------------
  // clear, isEmpty

  lemma ClearedShapeInvariants()
    ensures WellFormed(ClearedShape()) && Pruned(ClearedShape()) && KeysAgree(ClearedShape())
    ensures AllValues(ClearedShape()) == {}
  {
  }

  lemma {:induction false} LongestKey(keys: set<string>) returns (m: string)
    requires keys != {}
    ensures m in keys && forall t | t in keys :: |t| <= |m|
    decreases keys
  {
    var x :| x in keys;
    if keys == {x} {
      m := x;
    } else {
      var rest := LongestKey(keys - {x});
      m := if |x| <= |rest| then rest else x;
    }
  }

  /** In a pruned trie the root has no children and no values exactly when
      `postfixes()` is empty, so `isEmpty()` agrees with `size() == 0`. */
  lemma EmptyIffNoValues(c: Shape)
    requires WellFormed(c) && Pruned(c)
    ensures (c.Keys == {""} && c[""] == {}) <==> AllValues(c) == {}
  {
    if AllValues(c) == {} && c.Keys != {""} {
      var m := LongestKey(c.Keys);
      assert m != [];
      assert IsLeaf(c, m);
    }
  }

  // ---------------------------------------------------------------------
  // remove

  /** A `remove` that returns false leaves the trie unchanged. */
  lemma RemoveShapeFalseUnchanged(c: Shape, k: string, o: Entity)
    requires !RemoveShape(c, k, o).1
    ensures RemoveShape(c, k, o).0 == c
  {
    if |k| == 0 && "" in c && c[""] != {} {
      assert c[""] - {o} == c[""];
    }
  }

  /** When the node at `k` holds any value, `remove` returns true whether or not `o`
      is among them, and cuts the edge below the cut depth: every path through
      it disappears and every other node keeps its values. */
  lemma RemoveShapeCut(c: Shape, k: string, o: Entity)
    requires WellFormed(c) && |k| > 0 && k in c && c[k] != {}
    ensures RemoveShape(c, k, o).1
    ensures var q := k[..CutDepth(c, k) + 1];
      && k !in RemoveShape(c, k, o).0
      && (forall s :: s in RemoveShape(c, k, o).0 <==> s in c && !(q <= s))
      && (forall s | s in RemoveShape(c, k, o).0 :: RemoveShape(c, k, o).0[s] == c[s])
  {
    var q := k[..CutDepth(c, k) + 1];
    assert q <= k;
  }

  /** The cut drops every stored entity whose key runs through the cut edge,
      siblings of `o` included, and keeps all the others. */
  lemma RemoveShapeLosesSubtree(c: Shape, k: string, o: Entity, e: Entity)
    requires WellFormed(c) && KeysAgree(c) && |k| > 0 && k in c && c[k] != {}
    requires e in AllValues(c)
    ensures e in AllValues(RemoveShape(c, k, o).0) <==> !(k[..CutDepth(c, k) + 1] <= Key(e))
  {
    RemoveShapeCut(c, k, o);
    var c' := RemoveShape(c, k, o).0;
    var s :| s in c && e in c[s];
    if !(k[..CutDepth(c, k) + 1] <= Key(e)) {
      assert s in c' && e in c'[s];
    }
  }

  /** A node outside the pruned subtree that had a descendant still has one,
      unless it is the parent of the cut edge. */
  lemma PruneKeepsDescendant(c: Shape, q: string, s: string, t: string)
    requires WellFormed(c) && q != [] && q[..|q| - 1] in c
    requires s in c && !(q <= s) && s != q[..|q| - 1] && t in c && s < t
    ensures exists u :: u in Prune(c, q) && s < u
  {
    if q <= t {
      assert s == t[..|s|] && q == t[..|q|];
      if |s| < |q| {
        var r := q[..|q| - 1];
        assert r == t[..|q| - 1];
        assert s == r[..|s|];
        assert r in Prune(c, q);
      }
    } else {
      assert t in Prune(c, q);
    }
  }

  lemma PruneInvariants(c: Shape, q: string)
    requires WellFormed(c) && Pruned(c) && q != [] && q[..|q| - 1] in c
    requires q[..|q| - 1] == [] || c[q[..|q| - 1]] != {}
    ensures WellFormed(Prune(c, q)) && Pruned(Prune(c, q))
    ensures KeysAgree(c) ==> KeysAgree(Prune(c, q))
  {
    var p := Prune(c, q);
    forall s | s in p && s != [] ensures s[..|s| - 1] in p {
      if q <= s[..|s| - 1] {
        assert q <= s;
      }
    }
    forall s | s in p && s != [] && IsLeaf(p, s) ensures p[s] != {} {
      if s != q[..|q| - 1] {
        forall t | t in c ensures !(s < t) {
          if s < t {
            PruneKeepsDescendant(c, q, s, t);
          }
        }
      }
    }
  }

  /** `remove` keeps the structure, the pruning and the key placement. */
  lemma RemoveShapeInvariants(c: Shape, k: string, o: Entity)
    requires WellFormed(c) && Pruned(c)
    ensures WellFormed(RemoveShape(c, k, o).0) && Pruned(RemoveShape(c, k, o).0)
    ensures KeysAgree(c) ==> KeysAgree(RemoveShape(c, k, o).0)
  {
    if |k| == 0 && "" in c && c[""] != {} {
      var c' := c["" := c[""] - {o}];
      assert c'.Keys == c.Keys;
      forall s | s in c' && s != [] && IsLeaf(c', s) ensures c'[s] != {} {
        assert IsLeaf(c, s);
      }
    } else if k !in c || c[k] == {} {
    } else {
      var d := CutDepth(c, k);
      var q := k[..d + 1];
      PrefixClosed(c, k, d);
      assert q[..|q| - 1] == k[..d];
      PruneInvariants(c, q);
    }
  }

  /** `remove` never adds an entity. */
  lemma RemoveShapeShrinks(c: Shape, k: string, o: Entity)
    ensures AllValues(RemoveShape(c, k, o).0) <= AllValues(c)
  {
    var c' := RemoveShape(c, k, o).0;
    forall x | x in AllValues(c') ensures x in AllValues(c) {
      var s :| s in c' && x in c'[s];
      assert s in c && x in c[s];
    }
  }

  /** `remove(e)` of a stored entity returns true, and a second `remove(e)` returns false. */
  lemma RemoveTwice(c: Shape, e: Entity)
    requires WellFormed(c) && Holds(c, Key(e), e)
    ensures RemoveShape(c, Key(e), e).1
    ensures !RemoveShape(RemoveShape(c, Key(e), e).0, Key(e), e).1
  {
    if |Key(e)| > 0 {
      RemoveShapeCut(c, Key(e), e);
    }
  }

  /** `add(e)` then `remove(e)`: the remove succeeds and `e` is no longer stored at its key. */
  lemma AddThenRemove(c: Shape, e: Entity)
    requires WellFormed(c)
    ensures RemoveShape(AddShape(c, Key(e), e), Key(e), e).1
    ensures !Holds(RemoveShape(AddShape(c, Key(e), e), Key(e), e).0, Key(e), e)
  {
    var a := AddShape(c, Key(e), e);
    AddShapeHolds(c, Key(e), e, Key(e), e);
    AddShapeKeys(c, Key(e), e);
    assert WellFormed(a) by {
      forall s | s in a && s != [] ensures s[..|s| - 1] in a {
        if s !in c {
          var i :| 0 <= i <= |Key(e)| && s == Key(e)[..i];
          assert s[..|s| - 1] == Key(e)[..i - 1];
        }
      }
    }
    if |Key(e)| > 0 {
      RemoveShapeCut(a, Key(e), e);
    }
  }

  /** `removeAll` throws exactly when it meets a null, and never adds entities. */
  lemma {:induction false} RemoveAllShapeFacts(c: Shape, os: seq<Element>)
    ensures RemoveAllShape(c, os).1.Failure? <==> NullRef in os
    ensures AllValues(RemoveAllShape(c, os).0) <= AllValues(c)
  {
    if os != [] {
      var init := os[..|os| - 1];
      RemoveAllShapeFacts(c, init);
      var (c', r) := RemoveAllShape(c, init);
      assert os == init + [os[|os| - 1]];
      match os[|os| - 1]
      case NullRef =>
      case OtherObject =>
      case EntityRef(e) =>
        RemoveShapeShrinks(c', Key(e), e);
    }
  }

  lemma {:induction false} RemoveAllShapeInvariants(c: Shape, os: seq<Element>)
    requires WellFormed(c) && Pruned(c)
    ensures WellFormed(RemoveAllShape(c, os).0) && Pruned(RemoveAllShape(c, os).0)
    ensures KeysAgree(c) ==> KeysAgree(RemoveAllShape(c, os).0)
  {
    if os != [] {
      RemoveAllShapeInvariants(c, os[..|os| - 1]);
      var (c', r) := RemoveAllShape(c, os[..|os| - 1]);
      if r.Success? && os[|os| - 1].EntityRef? {
        var e := os[|os| - 1].entity;
        RemoveShapeInvariants(c', Key(e), e);
      }
    }
  }

  lemma {:induction false} AddAllShapeInvariants(c: Shape, es: seq<Entity>)
    requires WellFormed(c) && Pruned(c)
    ensures WellFormed(AddAllShape(c, es).0) && Pruned(AddAllShape(c, es).0)
    ensures KeysAgree(c) ==> KeysAgree(AddAllShape(c, es).0)
  {
    if es != [] {
      AddAllShapeInvariants(c, es[..|es| - 1]);
      var (c', b) := AddAllShape(c, es[..|es| - 1]);
      var e := es[|es| - 1];
      AddShapeInvariants(c', Key(e), e);
    }
  }

  /** One more element of `addAll`. */
  lemma AddAllShapeStep(c: Shape, es: seq<Entity>, i: nat)
    requires i < |es|
    ensures var (c', b) := AddAllShape(c, es[..i]);
      AddAllShape(c, es[..i + 1]) == (AddShape(c', Key(es[i]), es[i]), !Holds(c', Key(es[i]), es[i]) || b)
  {
    assert es[..i + 1][..i] == es[..i];
  }

  /** One more element of `removeAll`, when none before it has thrown. */
  lemma RemoveAllShapeStep(c: Shape, os: seq<Element>, i: nat)
    requires i < |os| && RemoveAllShape(c, os[..i]).1.Success?
    ensures var (c', r) := RemoveAllShape(c, os[..i]);
      var (c'', r') := RemoveElement(c', os[i]);
      RemoveAllShape(c, os[..i + 1]) == (c'', if r'.Failure? then r' else Success(r'.value || r.value))
  {
    assert os[..i + 1][..i] == os[..i];
  }

  /** `containsAll` answers true iff every element is contained. */
  lemma {:induction false} ContainsAllShapeTrue(c: Shape, os: seq<Element>)
    ensures ContainsAllShape(c, os) == Success(true) <==>
      forall i | 0 <= i < |os| :: ContainsShape(c, os[i]) == Success(true)
  {
    if os != [] {
      ContainsAllShapeTrue(c, os[1..]);
      assert forall i | 1 <= i < |os| :: os[1..][i - 1] == os[i];
    }
  }

  /** `containsAll` throws iff it meets a null before any element that is
      not contained. */
  lemma {:induction false} ContainsAllShapeThrows(c: Shape, os: seq<Element>)
    ensures ContainsAllShape(c, os).Failure? <==>
      exists i | 0 <= i < |os| :: os[i] == NullRef && forall j | 0 <= j < i :: ContainsShape(c, os[j]) == Success(true)
  {
    if os != [] {
      ContainsAllShapeThrows(c, os[1..]);
      if ContainsAllShape(c, os).Failure? && os[0] != NullRef {
        var i :| 0 <= i < |os[1..]| && os[1..][i] == NullRef &&
          forall j | 0 <= j < i :: ContainsShape(c, os[1..][j]) == Success(true);
        assert os[i + 1] == NullRef;
        assert forall j | 1 <= j < i + 1 :: os[1..][j - 1] == os[j];
      }
      if os[0] != NullRef && exists i | 0 <= i < |os| :: os[i] == NullRef && forall j | 0 <= j < i :: ContainsShape(c, os[j]) == Success(true) {
        var i :| 0 <= i < |os| && os[i] == NullRef && forall j | 0 <= j < i :: ContainsShape(c, os[j]) == Success(true);
        assert i > 0 && os[1..][i - 1] == NullRef;
        assert forall j | 0 <= j < i - 1 :: os[1..][j] == os[j + 1];
      }
    }
  }

  /** Once a `remove` of `removeAll` has thrown, the later elements are never looked at. */
  lemma {:induction false} RemoveAllShapeStops(c: Shape, os: seq<Element>, j: nat)
    requires j <= |os| && RemoveAllShape(c, os[..j]).1.Failure?
    ensures RemoveAllShape(c, os) == RemoveAllShape(c, os[..j])
    decreases |os|
  {
    if j < |os| {
      assert os[..|os| - 1][..j] == os[..j];
      RemoveAllShapeStops(c, os[..|os| - 1], j);
    } else {
      assert os[..j] == os;
    }
  }
}
