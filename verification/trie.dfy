/** `TemplateProposalTrie`: a character trie of wrapped entities, each node a
    heap object with a value set and a table of child nodes keyed by edge
    character. The trie is used through its root node, whose ghost `Pic`
    records, heap-free, which node sits at which key path and what each
    node's children and values are; `Content()` is the resulting shape, on
    which `TrieShape` specifies the operations. */
module ProposalTrie {
  import opened Common
  import opened JavaStrings
  import opened Entities
  import opened TrieShape

  type Node = TemplateProposalTrie

  /** A heap-free picture of a trie: nodes by path, paths by node, and each
      node's children table and value set. */
  datatype Picture = Picture(
    nodeAt: map<string, Node>,
    pathOf: map<Node, string>,
    kids: map<Node, map<char, Node>>,
    vals: map<Node, set<Entity>>)

  /** The picture is a tree: every live path names a node whose path is
      recorded back, every node with a children table is the node at its
      path, every edge leads to the extended path, and every prefix of a live
      path is live and reaches it by its next character. */
  ghost predicate Coherent(g: Picture)
  {
    && "" in g.nodeAt
    && (forall s | s in g.nodeAt ::
          g.nodeAt[s] in g.kids && g.nodeAt[s] in g.vals && g.nodeAt[s] in g.pathOf && g.pathOf[g.nodeAt[s]] == s)
    && (forall o {:trigger o in g.kids} | o in g.kids :: o in g.pathOf && g.pathOf[o] in g.nodeAt && g.nodeAt[g.pathOf[o]] == o)
    && (forall s, ch {:trigger ch in g.kids[g.nodeAt[s]]} | s in g.nodeAt && ch in g.kids[g.nodeAt[s]] ::
          s + [ch] in g.nodeAt && g.nodeAt[s + [ch]] == g.kids[g.nodeAt[s]][ch])
    && (forall s, i | s in g.nodeAt && 0 <= i < |s| ::
          s[..i] in g.nodeAt && s[i] in g.kids[g.nodeAt[s[..i]]])
  }

  /** The heap agrees with the picture on every node it names. */
  ghost predicate Mirrors(g: Picture)
    reads g.kids.Keys`children, g.kids.Keys`values
  {
    forall o | o in g.kids :: o.children == g.kids[o] && (o in g.vals ==> o.values == g.vals[o])
  }

  /** The observable state: every live path mapped to its node's values. */
  ghost function ContentOf(g: Picture): Shape
  {
    map s | s in g.nodeAt :: if g.nodeAt[s] in g.vals then g.vals[g.nodeAt[s]] else {}
  }

  /** The live paths at or below `p`. */
  ghost function Below(g: Picture, p: string): set<string>
  {
    set s | s in g.nodeAt && p <= s
  }

  /** The nodes at or below the path `p`. */
  ghost function Sub(g: Picture, p: string): set<Node>
  {
    set s | s in g.nodeAt && p <= s :: g.nodeAt[s]
  }

  lemma CoherentWellFormed(g: Picture)
    requires Coherent(g)
    ensures WellFormed(ContentOf(g))
  {
  }

  /** One step down a live path. */
  lemma CoherentStep(g: Picture, s: string, i: nat)
    requires Coherent(g) && i < |s| && s[..i] in g.nodeAt
    ensures s[i] in g.kids[g.nodeAt[s[..i]]] <==> s[..i + 1] in g.nodeAt
    ensures s[..i + 1] in g.nodeAt ==> g.nodeAt[s[..i + 1]] == g.kids[g.nodeAt[s[..i]]][s[i]]
  {
    TakeSnoc(s, i);
    assert s[..i + 1][..i] == s[..i];
  }

  /** A path that leaves the trie at some step is not live. */
  lemma CoherentMissing(g: Picture, s: string, i: nat)
    requires Coherent(g) && i < |s| && s[..i] in g.nodeAt && s[i] !in g.kids[g.nodeAt[s[..i]]]
    ensures s !in g.nodeAt
  {
    TakeSnoc(s, i);
  }

  /** The content at a live path is the value set of its node. */
  lemma ContentAt(g: Picture, s: string)
    requires Coherent(g) && s in g.nodeAt
    ensures s in ContentOf(g) && ContentOf(g)[s] == g.vals[g.nodeAt[s]]
  {
  }

  /** The edge table of a node is the set of one-character extensions of its path. */
  lemma CoherentChildChars(g: Picture, p: string)
    requires Coherent(g) && p in g.nodeAt
    ensures ChildChars(ContentOf(g), p) == g.kids[g.nodeAt[p]].Keys
  {
    var c := ContentOf(g);
    forall ch | ch in g.kids[g.nodeAt[p]] ensures ch in ChildChars(c, p) {
      assert (p + [ch])[|p|] == ch && p <= p + [ch];
    }
    forall ch | ch in ChildChars(c, p) ensures ch in g.kids[g.nodeAt[p]] {
      var s :| s in c && |s| == |p| + 1 && p <= s && s[|p|] == ch;
      assert s[..|p|] == p;
    }
  }

  /** The subtree of a child is strictly inside the subtree of its parent. */
  lemma BelowShrinks(g: Picture, p: string, ch: char)
    requires p in g.nodeAt
    ensures Below(g, p + [ch]) < Below(g, p)
    ensures Sub(g, p + [ch]) <= Sub(g, p)
  {
    assert p in Below(g, p) && p !in Below(g, p + [ch]);
    forall o | o in Sub(g, p + [ch]) ensures o in Sub(g, p) {
      var s :| s in g.nodeAt && p + [ch] <= s && o == g.nodeAt[s];
      assert p <= s;
    }
  }

  /** A node whose path leaves `p` by another edge lies outside the subtree
      of `p + [ch]`. */
  lemma SubApart(g: Picture, p: string, ch: char, s: string)
    requires Coherent(g) && s in g.nodeAt && !(p + [ch] <= s)
    ensures g.nodeAt[s] !in Sub(g, p + [ch])
  {
    forall t | t in g.nodeAt && p + [ch] <= t ensures g.nodeAt[t] != g.nodeAt[s] {
      assert g.pathOf[g.nodeAt[t]] == t;
    }
  }

  /** Hanging a fresh leaf `n` under the node at path `p` by edge `ch`. */
  ghost function WithLeaf(g: Picture, p: string, ch: char, n: Node): Picture
    requires p in g.nodeAt && g.nodeAt[p] in g.kids
  {
    var o := g.nodeAt[p];
    var q := p + [ch];
    Picture(g.nodeAt[q := n], g.pathOf[n := q], g.kids[o := g.kids[o][ch := n]][n := map[]], g.vals[n := {}])
  }

  lemma WithLeafCoherent(g: Picture, p: string, ch: char, n: Node)
    requires Coherent(g) && p in g.nodeAt && p + [ch] !in g.nodeAt
    requires n !in g.kids && n !in g.pathOf
    ensures Coherent(WithLeaf(g, p, ch, n))
    ensures ContentOf(WithLeaf(g, p, ch, n)) == ContentOf(g)[p + [ch] := {}]
  {
    var q := p + [ch];
    var g' := WithLeaf(g, p, ch, n);
    forall s | s in g'.nodeAt ensures g'.nodeAt[s] in g'.pathOf && g'.pathOf[g'.nodeAt[s]] == s {
      if s != q {
        assert g.nodeAt[s] != n;
      }
    }
    forall o | o in g'.kids ensures o in g'.pathOf && g'.pathOf[o] in g'.nodeAt && g'.nodeAt[g'.pathOf[o]] == o {
      if o != n {
        assert o in g.kids && g.pathOf[o] != q;
      }
    }
    WithLeafDown(g, p, ch, n);
    WithLeafUp(g, p, ch, n);
    WithLeafContent(g, p, ch, n);
  }

  lemma WithLeafContent(g: Picture, p: string, ch: char, n: Node)
    requires Coherent(g) && p in g.nodeAt && p + [ch] !in g.nodeAt
    requires n !in g.kids && n !in g.pathOf
    ensures ContentOf(WithLeaf(g, p, ch, n)) == ContentOf(g)[p + [ch] := {}]
  {
    var q := p + [ch];
    var g' := WithLeaf(g, p, ch, n);
    var a, b := ContentOf(g'), ContentOf(g)[q := {}];
    assert a.Keys == b.Keys;
    forall s | s in a ensures a[s] == b[s] {
      if s != q {
        assert g.nodeAt[s] != n && g'.nodeAt[s] == g.nodeAt[s];
      }
    }
  }

  lemma WithLeafDown(g: Picture, p: string, ch: char, n: Node)
    requires Coherent(g) && p in g.nodeAt && p + [ch] !in g.nodeAt
    requires n !in g.kids && n !in g.pathOf
    ensures var g' := WithLeaf(g, p, ch, n);
      forall s, c | s in g'.nodeAt && c in g'.kids[g'.nodeAt[s]] ::
        s + [c] in g'.nodeAt && g'.nodeAt[s + [c]] == g'.kids[g'.nodeAt[s]][c]
  {
    var o := g.nodeAt[p];
    var q := p + [ch];
    var g' := WithLeaf(g, p, ch, n);
    forall s, c | s in g'.nodeAt && c in g'.kids[g'.nodeAt[s]]
      ensures s + [c] in g'.nodeAt && g'.nodeAt[s + [c]] == g'.kids[g'.nodeAt[s]][c]
    {
      if s != q && !(s == p && c == ch) {
        assert g.nodeAt[s] != n;
        assert g.nodeAt[s] == o ==> s == p;
        assert c in g.kids[g.nodeAt[s]];
      }
    }
  }

  lemma WithLeafUp(g: Picture, p: string, ch: char, n: Node)
    requires Coherent(g) && p in g.nodeAt && p + [ch] !in g.nodeAt
    requires n !in g.kids && n !in g.pathOf
    ensures var g' := WithLeaf(g, p, ch, n);
      forall s, i | s in g'.nodeAt && 0 <= i < |s| :: s[..i] in g'.nodeAt && s[i] in g'.kids[g'.nodeAt[s[..i]]]
  {
    var q := p + [ch];
    var g' := WithLeaf(g, p, ch, n);
    forall s, i | s in g'.nodeAt && 0 <= i < |s| ensures s[..i] in g'.nodeAt && s[i] in g'.kids[g'.nodeAt[s[..i]]] {
      if s == q {
        if i == |p| {
          assert s[..i] == p;
        } else {
          assert s[..i] == p[..i] && s[i] == p[i];
          assert p[..i] in g.nodeAt && p[i] in g.kids[g.nodeAt[p[..i]]];
          assert g.nodeAt[p[..i]] != n;
        }
      } else {
        assert s[..i] in g.nodeAt && s[i] in g.kids[g.nodeAt[s[..i]]];
        assert g.nodeAt[s[..i]] != n;
      }
    }
  }

  /** Replacing the value set of the node at path `p`. */
  lemma WithValuesCoherent(g: Picture, p: string, vs: set<Entity>)
    requires Coherent(g) && p in g.nodeAt
    ensures Coherent(g.(vals := g.vals[g.nodeAt[p] := vs]))
    ensures ContentOf(g.(vals := g.vals[g.nodeAt[p] := vs])) == ContentOf(g)[p := vs]
  {
    WithValuesContent(g, p, vs);
  }

  lemma WithValuesContent(g: Picture, p: string, vs: set<Entity>)
    requires Coherent(g) && p in g.nodeAt
    ensures ContentOf(g.(vals := g.vals[g.nodeAt[p] := vs])) == ContentOf(g)[p := vs]
  {
    var g' := g.(vals := g.vals[g.nodeAt[p] := vs]);
    var a, b := ContentOf(g'), ContentOf(g)[p := vs];
    assert a.Keys == b.Keys;
    forall s | s in a ensures a[s] == b[s] {
      if s != p {
        assert g.pathOf[g.nodeAt[s]] != g.pathOf[g.nodeAt[p]];
      }
    }
  }

  /** Cutting the edge into the node at path `q`: that node and everything
      below it leave the picture. */
  ghost function PrunePic(g: Picture, q: string): Picture
    requires q != [] && q[..|q| - 1] in g.nodeAt
  {
    var par := g.nodeAt[q[..|q| - 1]];
    Picture(
      map s | s in g.nodeAt && !(q <= s) :: g.nodeAt[s],
      g.pathOf,
      map o | o in g.kids && o in g.pathOf && !(q <= g.pathOf[o]) ::
        if o == par then g.kids[o] - {q[|q| - 1]} else g.kids[o],
      g.vals)
  }

  /** The node `o` lies on the path `k` at a depth from `d` up to `i - 1`. */
  ghost predicate Along(g: Picture, k: string, d: nat, i: nat, o: Node)
  {
    o in g.pathOf && g.pathOf[o] <= k && d <= |g.pathOf[o]| < i
  }

  /** The nodes along `k`: the one at `k[..j]` for every depth `j`. */
  ghost function Route(g: Picture, k: string): (path: seq<Node>)
    requires Coherent(g) && k in g.nodeAt
    ensures |path| == |k| + 1
  {
    seq(|k| + 1, j requires 0 <= j <= |k| =>
      assert k[..j] in g.nodeAt by { if j == |k| { assert k[..j] == k; } }
      g.nodeAt[k[..j]])
  }

  /** `path` is a chain of nodes along `k`, each at the depth of its index. */
  ghost predicate RouteOK(g: Picture, k: string, path: seq<Node>)
  {
    && |path| == |k| + 1
    && (forall j | 0 <= j < |k| ::
          path[j] in g.kids && k[j] in g.kids[path[j]] && g.kids[path[j]][k[j]] == path[j + 1])
    && (forall j | 0 <= j <= |k| :: path[j] in g.pathOf && |g.pathOf[path[j]]| == j)
  }

  /** The route of a live path is a chain along it. */
  lemma RouteChain(g: Picture, k: string)
    requires Coherent(g) && k in g.nodeAt
    ensures RouteOK(g, k, Route(g, k))
    ensures forall j | 0 <= j <= |k| :: k[..j] in g.nodeAt && Route(g, k)[j] == g.nodeAt[k[..j]]
  {
    var path := Route(g, k);
    forall j | 0 <= j <= |k| ensures k[..j] in g.nodeAt && path[j] == g.nodeAt[k[..j]] {
      if j == |k| { assert k[..j] == k; }
    }
    forall j | 0 <= j < |k|
      ensures path[j] in g.kids && k[j] in g.kids[path[j]] && g.kids[path[j]][k[j]] == path[j + 1]
    {
      CoherentStep(g, k, j);
    }
  }

  /** The node `o` is the one at depth `j` of `path`, for a `j` from `d` up to `i - 1`. */
  ghost predicate Passed(g: Picture, path: seq<Node>, d: nat, i: nat, o: Node)
  {
    o in g.pathOf && d <= |g.pathOf[o]| < i && |g.pathOf[o]| < |path| && path[|g.pathOf[o]|] == o
  }

  /** The cut along `k` from depth `d` has deleted the edge `k[j]` of the
      node at every depth `j` from `d` up to `i - 1`, and nothing else. */
  ghost predicate CutSoFar(g: Picture, k: string, path: seq<Node>, d: nat, i: nat)
    reads g.kids.Keys`children
  {
    && i <= |k|
    && (forall o | o in g.kids ::
          o.children == if Passed(g, path, d, i, o) then g.kids[o] - {k[|g.pathOf[o]|]} else g.kids[o])
  }

  /** The heap agrees with the picture on the value sets. */
  ghost predicate ValuesMirror(g: Picture)
    reads g.kids.Keys`values
  {
    forall o | o in g.kids && o in g.vals :: o.values == g.vals[o]
  }

  /** Before the cut starts, it has deleted nothing. */
  lemma CutStart(g: Picture, k: string, path: seq<Node>, d: nat)
    requires Mirrors(g) && d <= |k|
    ensures CutSoFar(g, k, path, d, d) && ValuesMirror(g)
  {
  }

  /** After the whole cut along the route of `k`, the heap mirrors the
      pruned picture. */
  lemma CutDone(g: Picture, k: string, d: nat)
    requires Coherent(g) && k in g.nodeAt && d < |k|
    requires CutSoFar(g, k, Route(g, k), d, |k|) && ValuesMirror(g)
    ensures k[..d + 1][..d] == k[..d]
    ensures Mirrors(PrunePic(g, k[..d + 1]))
  {
    RouteChain(g, k);
    PassedAlong(g, k, d);
    AlongEnd(g, k, d);
  }

  /** On the route of `k`, having been passed by the whole cut is lying along `k`. */
  lemma PassedAlong(g: Picture, k: string, d: nat)
    requires Coherent(g) && k in g.nodeAt
    ensures forall o | o in g.kids :: Passed(g, Route(g, k), d, |k| , o) == Along(g, k, d, |k|, o)
  {
    var path := Route(g, k);
    RouteChain(g, k);
    forall o | o in g.kids ensures Passed(g, path, d, |k|, o) == Along(g, k, d, |k|, o) {
      var s := g.pathOf[o];
      if Along(g, k, d, |k|, o) {
        assert s == k[..|s|];
      }
    }
  }

  /** Once the cut has passed the whole of `k`, the nodes it has passed that
      remain in the pruned picture are just the one at `k[..d]`. */
  lemma AlongEnd(g: Picture, k: string, d: nat)
    requires Coherent(g) && k in g.nodeAt && d < |k|
    ensures k[..d + 1][..d] == k[..d] && k[..d] in g.nodeAt
    ensures forall o | o in PrunePic(g, k[..d + 1]).kids ::
      && o in g.kids
      && (Along(g, k, d, |k|, o) ==> PrunePic(g, k[..d + 1]).kids[o] == g.kids[o] - {k[|g.pathOf[o]|]})
      && (!Along(g, k, d, |k|, o) ==> PrunePic(g, k[..d + 1]).kids[o] == g.kids[o])
  {
    var q := k[..d + 1];
    assert q[..d] == k[..d];
    forall o | o in PrunePic(g, q).kids
      ensures (Along(g, k, d, |k|, o) ==> PrunePic(g, q).kids[o] == g.kids[o] - {k[|g.pathOf[o]|]})
      ensures (!Along(g, k, d, |k|, o) ==> PrunePic(g, q).kids[o] == g.kids[o])
    {
      var s := g.pathOf[o];
      assert s <= k && d < |s| ==> q <= s;
      assert s <= k && |s| == d ==> s == k[..d];
      assert q[|q| - 1] == k[d];
    }
  }

  /** A path outside the subtree of `q` that is extended by one character
      enters that subtree only through the cut edge. */
  lemma EnterCut(q: string, s: string, ch: char)
    requires q != [] && !(q <= s) && q <= s + [ch]
    ensures s == q[..|q| - 1] && ch == q[|q| - 1]
  {
    assert |q| == |s| + 1;
  }

  lemma PruneCoherent(g: Picture, q: string)
    requires Coherent(g) && q != [] && q[..|q| - 1] in g.nodeAt
    ensures Coherent(PrunePic(g, q))
    ensures PrunePic(g, q).nodeAt[""] == g.nodeAt[""]
    ensures PrunePic(g, q).kids.Keys <= g.kids.Keys
  {
    PruneDown(g, q);
    PruneUp(g, q);
  }

  lemma PruneDown(g: Picture, q: string)
    requires Coherent(g) && q != [] && q[..|q| - 1] in g.nodeAt
    ensures var g' := PrunePic(g, q);
      forall s, c | s in g'.nodeAt && c in g'.kids[g'.nodeAt[s]] ::
        s + [c] in g'.nodeAt && g'.nodeAt[s + [c]] == g'.kids[g'.nodeAt[s]][c]
  {
    var g' := PrunePic(g, q);
    forall s, c | s in g'.nodeAt && c in g'.kids[g'.nodeAt[s]]
      ensures s + [c] in g'.nodeAt && g'.nodeAt[s + [c]] == g'.kids[g'.nodeAt[s]][c]
    {
      assert c in g.kids[g.nodeAt[s]];
      if q <= s + [c] {
        EnterCut(q, s, c);
      }
    }
  }

  lemma PruneUp(g: Picture, q: string)
    requires Coherent(g) && q != [] && q[..|q| - 1] in g.nodeAt
    ensures var g' := PrunePic(g, q);
      forall s, i | s in g'.nodeAt && 0 <= i < |s| :: s[..i] in g'.nodeAt && s[i] in g'.kids[g'.nodeAt[s[..i]]]
  {
    var g' := PrunePic(g, q);
    forall s, i | s in g'.nodeAt && 0 <= i < |s| ensures s[..i] in g'.nodeAt && s[i] in g'.kids[g'.nodeAt[s[..i]]] {
      var t := s[..i];
      assert !(q <= t);
      TakeSnoc(s, i);
      assert !(q <= s[..i + 1]);
      assert q == q[..|q| - 1] + [q[|q| - 1]];
      assert g.pathOf[g.nodeAt[t]] == t;
    }
  }

  lemma PruneContent(g: Picture, q: string)
    requires Coherent(g) && q != [] && q[..|q| - 1] in g.nodeAt
    ensures ContentOf(PrunePic(g, q)) == Prune(ContentOf(g), q)
  {
    var a, b := ContentOf(PrunePic(g, q)), Prune(ContentOf(g), q);
    assert a.Keys == b.Keys;
  }

  /** The root has no edges and no values exactly when the trie holds no entity. */
  lemma EmptyRoot(g: Picture)
    requires Coherent(g) && Pruned(ContentOf(g))
    ensures (g.kids[g.nodeAt[""]] == map[] && g.vals[g.nodeAt[""]] == {}) <==> AllValues(ContentOf(g)) == {}
  {
    CoherentWellFormed(g);
    EmptyIffNoValues(ContentOf(g));
    RootEdges(g);
  }

  /** The live paths other than the root are exactly those below some edge of the root. */
  lemma RootEdges(g: Picture)
    requires Coherent(g)
    ensures g.kids[g.nodeAt[""]] == map[] <==> ContentOf(g).Keys == {""}
  {
    var root := g.nodeAt[""];
    forall s | s in g.nodeAt && s != "" ensures s[0] in g.kids[root] {
      assert s[..0] == "";
    }
    assert ContentOf(g).Keys == g.nodeAt.Keys;
    if g.kids[root] == map[] {
      assert forall s | s in g.nodeAt :: s == "";
    } else {
      var ch :| ch in g.kids[root];
      assert "" + [ch] == [ch];
    }
  }

  /** The picture of a lone root node with no values. */
  ghost function Seed(root: Node): Picture
  {
    Picture(map["" := root], map[root := ""], map[root := map[]], map[root := {}])
  }

  lemma SeedCoherent(root: Node)
    ensures Coherent(Seed(root)) && Seed(root).nodeAt[""] == root
    ensures ContentOf(Seed(root)) == ClearedShape()
    ensures Pruned(ClearedShape())
  {
    var g := Seed(root);
    assert g.nodeAt.Keys == {""};
  }

  /** Once the walk of `add` along `k` is complete, `e` is found at the node
      reached exactly when it was already stored, and then the walk alone
      already produced the added shape. */
  lemma AddFound(c0: Shape, g: Picture, k: string, e: Entity)
    requires Coherent(g) && k in g.nodeAt && ContentOf(g) == FillTo(c0, k, |k|)
    requires "" in c0
    ensures g.nodeAt[k] in g.vals
    ensures e in g.vals[g.nodeAt[k]] <==> Holds(c0, k, e)
    ensures e in g.vals[g.nodeAt[k]] ==> ContentOf(g) == AddShape(c0, k, e)
  {
    AddShapeByWalk(c0, k, e);
    var f := FillTo(c0, k, |k|);
    if e in g.vals[g.nodeAt[k]] {
      assert f[k] + {e} == f[k];
      assert f[k := f[k] + {e}] == f;
    }
  }

  /** Joining `e` at the end of the completed walk yields the added shape. */
  lemma AddJoin(c0: Shape, g: Picture, k: string, e: Entity)
    requires Coherent(g) && k in g.nodeAt && ContentOf(g) == FillTo(c0, k, |k|)
    requires WellFormed(c0) && Pruned(c0)
    ensures g.nodeAt[k] in g.vals
    ensures var g' := g.(vals := g.vals[g.nodeAt[k] := g.vals[g.nodeAt[k]] + {e}]);
      Coherent(g') && ContentOf(g') == AddShape(c0, k, e)
    ensures Pruned(AddShape(c0, k, e))
  {
    AddShapeByWalk(c0, k, e);
    WithValuesCoherent(g, k, g.vals[g.nodeAt[k]] + {e});
    AddShapeInvariants(c0, k, e);
  }

  /** The cut of `remove`: pruning the picture at `k[..CutDepth + 1]` is
      `RemoveShape` on the content, and keeps the trie's invariants. */
  lemma RemoveCut(g: Picture, k: string, o: Entity)
    requires Coherent(g) && k in g.nodeAt && |k| > 0 && ContentOf(g)[k] != {}
    requires Pruned(ContentOf(g))
    ensures var q := k[..CutDepth(ContentOf(g), k) + 1];
      && q[..|q| - 1] in g.nodeAt
      && Coherent(PrunePic(g, q)) && PrunePic(g, q).nodeAt[""] == g.nodeAt[""]
      && PrunePic(g, q).kids.Keys <= g.kids.Keys
      && ContentOf(PrunePic(g, q)) == RemoveShape(ContentOf(g), k, o).0
      && RemoveShape(ContentOf(g), k, o).1
      && Pruned(ContentOf(PrunePic(g, q)))
  {
    var c := ContentOf(g);
    var d := CutDepth(c, k);
    var q := k[..d + 1];
    assert q[..|q| - 1] == k[..d];
    PruneCoherent(g, q);
    PruneContent(g, q);
    CoherentWellFormed(g);
    RemoveShapeInvariants(c, k, o);
  }

  class TemplateProposalTrie {
    /** This node's values; Java's null set is the empty set here. */
    var values: set<Entity>
    var children: map<char, TemplateProposalTrie>
    /** Meaningful on the node the trie is used through. */
    ghost var Pic: Picture

    ghost predicate Valid()
      reads this, Pic.kids.Keys
    {
      && Coherent(Pic) && Pic.nodeAt[""] == this
      && Mirrors(Pic)
      && Pruned(ContentOf(Pic))
    }

    ghost function Content(): Shape
      reads this
    {
      ContentOf(Pic)
    }

    ghost function Repr(): set<object>
      reads this
    {
      Pic.kids.Keys
    }

    constructor ()
      ensures Valid() && Content() == ClearedShape()
      ensures fresh(Repr())
      ensures children == map[] && values == {}
    {
      values := {};
      children := map[];
      new;
      Pic := Seed(this);
      SeedCoherent(this);
    }

    predicate Flagged()
      reads this
    {
      values != {}
    }

    method AddEdge(ch: char)
      modifies this`children
      ensures ch in children && fresh(children[ch])
      ensures children[ch].values == {} && children[ch].children == map[]
      ensures children == old(children)[ch := children[ch]]
    {
      var node := new TemplateProposalTrie();
      children := children[ch := node];
    }

    /** Hangs a fresh empty child under `node`, the node at path `p` of the
        picture `g`, by edge `ch`, which `node` does not have yet. */
    static method Grow(node: Node, ghost g: Picture, ghost p: string, ch: char) returns (n: Node, ghost g': Picture)
      requires Coherent(g) && Mirrors(g) && p in g.nodeAt && node == g.nodeAt[p] && ch !in node.children
      modifies node`children
      ensures fresh(n) && g' == WithLeaf(g, p, ch, n)
      ensures Coherent(g') && Mirrors(g') && g'.nodeAt[""] == g.nodeAt[""]
      ensures ContentOf(g') == ContentOf(g)[p + [ch] := {}]
    {
      assert (p + [ch])[..|p|] == p;
      CoherentMissing(g, p + [ch], |p|);
      node.AddEdge(ch);
      n := node.children[ch];
      g' := WithLeaf(g, p, ch, n);
      forall o | o in g'.kids
        ensures o.children == g'.kids[o] && (o in g'.vals ==> o.values == g'.vals[o])
      {
        if o != n && o != node {
          assert o in g.kids && old(o.children) == g.kids[o];
        }
      }
      WithLeafCoherent(g, p, ch, n);
    }

    /** One step of `add`'s walk along `k`: from `node`, the node at
        `k[..i]`, to the node at `k[..i + 1]`, hanging a fresh empty one if
        the edge is missing. */
    static method Step(node: Node, k: string, i: nat, ghost g: Picture) returns (next: Node, ghost g': Picture)
      requires Coherent(g) && Mirrors(g)
      requires i < |k| && k[..i] in g.nodeAt && node == g.nodeAt[k[..i]]
      modifies node`children
      ensures Coherent(g') && Mirrors(g') && g'.nodeAt[""] == g.nodeAt[""]
      ensures k[..i + 1] in g'.nodeAt && next == g'.nodeAt[k[..i + 1]]
      ensures k[..i + 1] in ContentOf(g) ==> ContentOf(g') == ContentOf(g)
      ensures k[..i + 1] !in ContentOf(g) ==> ContentOf(g') == ContentOf(g)[k[..i + 1] := {}]
      ensures g.kids.Keys <= g'.kids.Keys && forall o | o in g'.kids && o !in g.kids :: fresh(o)
    {
      TakeSnoc(k, i);
      var ch := k[i];
      if ch !in node.children {
        next, g' := Grow(node, g, k[..i], ch);
      } else {
        CoherentStep(g, k, i);
        next := node.children[ch];
        g' := g;
      }
    }

    /** The walk of `add`: follows `k` from this root, hanging a fresh empty
        node wherever an edge is missing, and returns the node at `k`. */
    method Reach(k: string, ghost g0: Picture) returns (node: Node, ghost g: Picture)
      requires Coherent(g0) && Mirrors(g0) && g0.nodeAt[""] == this
      modifies g0.kids.Keys`children
      ensures Coherent(g) && Mirrors(g) && g.nodeAt[""] == this
      ensures k in g.nodeAt && node == g.nodeAt[k]
      ensures ContentOf(g) == FillTo(ContentOf(g0), k, |k|)
      ensures g0.kids.Keys <= g.kids.Keys
      ensures forall o | o in g.kids && o !in g0.kids :: fresh(o)
    {
      node := this;
      g := g0;
      var i := 0;
      while i < |k|
        invariant 0 <= i <= |k|
        invariant Coherent(g) && Mirrors(g) && g.nodeAt[""] == this
        invariant k[..i] in g.nodeAt && node == g.nodeAt[k[..i]]
        invariant ContentOf(g) == FillTo(ContentOf(g0), k, i)
        invariant g0.kids.Keys <= g.kids.Keys
        invariant forall o | o in g.kids && o !in g0.kids :: fresh(o)
      {
        node, g := Step(node, k, i, g);
        i := i + 1;
      }
      assert k[..|k|] == k;
    }

    /** Replaces the value set of `node` in the heap and in the picture `g`. */
    static method SetValues(node: Node, ghost g: Picture, vs: set<Entity>) returns (ghost g': Picture)
      requires Mirrors(g)
      modifies node`values
      ensures node.values == vs
      ensures g' == g.(vals := g.vals[node := vs]) && Mirrors(g')
    {
      node.values := vs;
      g' := g.(vals := g.vals[node := vs]);
    }

    /** Records the picture `g` of a valid trie rooted here. */
    ghost method Install(g: Picture)
      requires Coherent(g) && g.nodeAt[""] == this && Mirrors(g) && Pruned(ContentOf(g))
      modifies this`Pic
      ensures Pic == g && Valid()
    {
      Pic := g;
    }

    /** Records `g`, which the heap already mirrors, as the picture of this root. */
    ghost method Commit(g: Picture)
      requires Mirrors(g)
      modifies this`Pic
      ensures Pic == g && Mirrors(Pic)
    {
      Pic := g;
    }

    /** `add(e)`: walks `e`'s key, creating the missing nodes, and adds `e`
        to the value set at its end; true iff `e` was not there yet. */
    method Add(e: Entity) returns (added: bool)
      requires Valid()
      modifies this, Repr()
      ensures Valid()
      ensures Content() == AddShape(old(Content()), Key(e), e)
      ensures added <==> !Holds(old(Content()), Key(e), e)
      ensures old(Repr()) <= Repr() && forall o | o in Repr() && o !in old(Repr()) :: fresh(o)
    {
      var eID := ToLowerCase(e.ShortID);
      CoherentWellFormed(Pic);
      ghost var c := Content();
      var node;
      ghost var g;
      node, g := Reach(eID, Pic);
      AddFound(c, g, eID, e);
      AddJoin(c, g, eID, e);
      added := e !in node.values;
      if added {
        ghost var g0 := g;
        g := SetValues(node, g, node.values + {e});
        assert g == g0.(vals := g0.vals[g0.nodeAt[eID] := g0.vals[g0.nodeAt[eID]] + {e}]);
      }
      assert Coherent(g) && ContentOf(g) == AddShape(c, eID, e);
      Commit(g);
    }

    /** `contains(o)`: walks `o`'s full ID (not its key) from this root and
        looks for `o` itself at the node reached. */
    method Contains(o: Element) returns (r: Result<bool>)
      requires Valid()
      ensures r == ContainsShape(Content(), o)
    {
      if o.NullRef? {
        return Failure(NullPointerException);
      }
      if o.OtherObject? {
        return Success(false);
      }
      var id := o.entity.ID;
      var node := this;
      var i := 0;
      while i < |id|
        invariant 0 <= i <= |id|
        invariant id[..i] in Pic.nodeAt && node == Pic.nodeAt[id[..i]]
      {
        if id[i] !in node.children {
          CoherentMissing(Pic, id, i);
          return Success(false);
        }
        CoherentStep(Pic, id, i);
        node := node.children[id[i]];
        i := i + 1;
      }
      assert id[..|id|] == id;
      r := Success(if node.Flagged() then o.entity in node.values else false);
    }

    /** `remove(o)`: a null throws, a non-entity is not there. An entity
        with the empty key is taken out of the root's values when the root
        holds any. Otherwise the walk along the key remembers the deepest
        node above the last step that holds values; if the node reached
        holds values, every edge along the key from that node down is
        deleted and the answer is true, whether or not `o` was among them. */
    method Remove(o: Element) returns (r: Result<bool>)
      requires Valid()
      modifies this, Repr()
      ensures Valid()
      ensures (Content(), r) == RemoveElement(old(Content()), o)
      ensures Repr() <= old(Repr())
    {
      if o.NullRef? {
        return Failure(NullPointerException);
      }
      if o.OtherObject? {
        return Success(false);
      }
      var e := o.entity;
      var k := ToLowerCase(e.ShortID);
      ghost var c := Content();
      ContentAt(Pic, "");
      if |k| == 0 && Flagged() {
        r := Success(e in values);
        CoherentWellFormed(Pic);
        RemoveShapeInvariants(c, k, e);
        WithValuesCoherent(Pic, "", values - {e});
        ghost var g := SetValues(this, Pic, values - {e});
        assert ContentOf(g) == RemoveShape(c, k, e).0;
        Install(g);
        return;
      }
      var found, lastEndNode, lastEndIndex := FindCut(this, k, Pic);
      if found {
        assert k == "" ==> Flagged();
        Detach(k, e, lastEndNode, lastEndIndex);
        r := Success(true);
      } else {
        r := Success(false);
      }
    }

    /** The deletions of `remove` once the node at `k` is known to hold
        values: the edges along `k` from the node at depth `d` down. */
    method Detach(k: string, ghost e: Entity, top: Node, d: nat)
      requires Valid() && |k| > 0 && k in Content() && Content()[k] != {}
      requires d == CutDepth(Content(), k) && k[..d] in Pic.nodeAt && top == Pic.nodeAt[k[..d]]
      modifies Repr()
      ensures Valid() && Repr() <= old(Repr())
      ensures (Content(), true) == RemoveShape(old(Content()), k, e)
    {
      ghost var g := Pic;
      RemoveCut(g, k, e);
      RouteChain(g, k);
      Cut(top, k, d, g, Route(g, k));
      CutDone(g, k, d);
      Install(PrunePic(g, k[..d + 1]));
    }

    /** The walk of `remove` along `k` from this root: whether the node at
        `k` is there and holds values, and the deepest node strictly above
        the last step that holds values (the root when none does). */
    static method FindCut(root: Node, k: string, ghost g: Picture)
      returns (found: bool, lastEndNode: Node, lastEndIndex: nat)
      requires Coherent(g) && Mirrors(g) && root == g.nodeAt[""]
      ensures found <==> k in ContentOf(g) && ContentOf(g)[k] != {}
      ensures found ==> lastEndIndex == CutDepth(ContentOf(g), k) && k[..lastEndIndex] in g.nodeAt
      ensures found ==> lastEndNode == g.nodeAt[k[..lastEndIndex]]
    {
      ghost var c := ContentOf(g);
      var node := root;
      lastEndNode := root;
      lastEndIndex := 0;
      var i := 0;
      while i < |k|
        invariant 0 <= i <= |k|
        invariant k[..i] in g.nodeAt && node == g.nodeAt[k[..i]]
        invariant lastEndIndex == CutFrom(c, k, i) && k[..lastEndIndex] in g.nodeAt
        invariant lastEndNode == g.nodeAt[k[..lastEndIndex]]
      {
        ContentAt(g, k[..i]);
        if node.Flagged() && i < |k| - 1 {
          lastEndNode := node;
          lastEndIndex := i;
        }
        if k[i] !in node.children {
          CoherentMissing(g, k, i);
          return false, lastEndNode, lastEndIndex;
        }
        CoherentStep(g, k, i);
        node := node.children[k[i]];
        i := i + 1;
      }
      assert k[..|k|] == k;
      found := node.Flagged();
    }

    /** `addAll(es)`: adds the entities in order and answers whether any
        of the adds changed the trie. */
    method AddAll(es: seq<Entity>) returns (changed: bool)
      requires Valid()
      modifies this, Repr()
      ensures Valid()
      ensures (Content(), changed) == AddAllShape(old(Content()), es)
      ensures old(Repr()) <= Repr() && forall o | o in Repr() && o !in old(Repr()) :: fresh(o)
    {
      ghost var c0, r0 := Content(), Repr();
      changed := false;
      var i := 0;
      while i < |es|
        invariant 0 <= i <= |es| && Valid()
        invariant Content() == AddAllShape(c0, es[..i]).0 && changed == AddAllShape(c0, es[..i]).1
        invariant r0 <= Repr() && forall o | o in Repr() && o !in r0 :: fresh(o)
      {
        AddAllShapeStep(c0, es, i);
        var added := Add(es[i]);
        changed := added || changed;
        i := i + 1;
      }
      assert es[..i] == es;
    }

    /** `containsAll(os)`: the `contains` checks in order; the first false
        answers false and a null throws. */
    method ContainsAll(os: seq<Element>) returns (r: Result<bool>)
      requires Valid()
      ensures r == ContainsAllShape(Content(), os)
    {
      var i := 0;
      while i < |os|
        invariant 0 <= i <= |os|
        invariant ContainsAllShape(Content(), os) == ContainsAllShape(Content(), os[i..])
      {
        assert os[i..][1..] == os[i + 1..];
        var b := Contains(os[i]);
        if b.Failure? || !b.value {
          return b;
        }
        i := i + 1;
      }
      r := Success(true);
    }

    /** `removeAll(os)`: removes the elements in order and answers whether
        any of the removes answered true; a null throws, after the removes
        before it have taken effect. */
    method RemoveAll(os: seq<Element>) returns (r: Result<bool>)
      requires Valid()
      modifies this, Repr()
      ensures Valid()
      ensures (Content(), r) == RemoveAllShape(old(Content()), os)
      ensures Repr() <= old(Repr())
    {
      ghost var c0, r0 := Content(), Repr();
      var changed := false;
      var i := 0;
      while i < |os|
        invariant 0 <= i <= |os| && Valid()
        invariant (Content(), Success(changed)) == RemoveAllShape(c0, os[..i])
        invariant Repr() <= r0
      {
        RemoveAllShapeStep(c0, os, i);
        var removed := Remove(os[i]);
        if removed.Failure? {
          RemoveAllShapeStops(c0, os, i + 1);
          return removed;
        }
        changed := removed.value || changed;
        i := i + 1;
      }
      assert os[..i] == os;
      r := Success(changed);
    }

    /** `isEmpty()`: this root has no edges and no values. */
    method IsEmpty() returns (r: bool)
      requires Valid()
      ensures r <==> AllValues(Content()) == {}
    {
      r := children == map[] && values == {};
      EmptyRoot(Pic);
    }

    /** `postfixes()` on the node at path `p`: its own values together with
        the `postfixes()` of each child, collected recursively. */
    method Postfixes(ghost g: Picture, ghost p: string) returns (r: set<Entity>)
      requires Coherent(g) && Mirrors(g) && p in g.nodeAt && this == g.nodeAt[p]
      ensures r == Under(ContentOf(g), p)
      decreases Below(g, p)
    {
      ghost var c := ContentOf(g);
      r := {};
      if Flagged() {
        r := r + values;
      }
      var todo := children.Keys;
      ghost var done: set<char> := {};
      while todo != {}
        invariant todo + done == g.kids[this].Keys
        invariant r == c[p] + UnderEdges(c, p, done)
        decreases todo
      {
        var ch :| ch in todo;
        BelowShrinks(g, p, ch);
        var more := children[ch].Postfixes(g, p + [ch]);
        UnderEdgesStep(c, p, done, ch, r);
        r := r + more;
        todo := todo - {ch};
        done := done + {ch};
      }
      CoherentChildChars(g, p);
      CoherentWellFormed(g);
      UnderSplit(c, p);
    }

    /** `size()`: the number of entities `postfixes()` finds. */
    method Size() returns (n: nat)
      requires Valid()
      ensures n == |AllValues(Content())|
    {
      var all := Postfixes(Pic, "");
      CoherentWellFormed(Pic);
      PrefixQueryRoot(Content());
      n := |all|;
    }

    /** `postfixes(prefix)`: follows `prefix` as it is (no case folding) and
        collects the subtree there, or nothing when an edge is missing. */
    method PostfixesWith(prefix: string) returns (r: set<Entity>)
      requires Valid()
      ensures r == PrefixQuery(Content(), prefix)
    {
      var node := this;
      var i := 0;
      while i < |prefix|
        invariant 0 <= i <= |prefix|
        invariant prefix[..i] in Pic.nodeAt && node == Pic.nodeAt[prefix[..i]]
      {
        if prefix[i] !in node.children {
          CoherentMissing(Pic, prefix, i);
          return {};
        }
        CoherentStep(Pic, prefix, i);
        node := node.children[prefix[i]];
        i := i + 1;
      }
      assert prefix[..|prefix|] == prefix;
      r := node.Postfixes(Pic, prefix);
    }

    /** `clear()` on the node at path `p` of the picture `g`: drops its
        values, clears the subtree of every child, then drops its edges. */
    method ClearNode(ghost g: Picture, ghost p: string)
      requires Coherent(g) && p in g.nodeAt && this == g.nodeAt[p]
      requires forall s | s in Below(g, p) :: g.nodeAt[s].children == g.kids[g.nodeAt[s]]
      modifies Sub(g, p)
      ensures values == {} && children == map[]
      decreases Below(g, p)
    {
      values := {};
      var todo := children.Keys;
      while todo != {}
        invariant todo <= g.kids[this].Keys
        invariant values == {} && children == g.kids[this]
        invariant forall s | s in Below(g, p) && |p| < |s| && s[|p|] in todo ::
          g.nodeAt[s].children == g.kids[g.nodeAt[s]]
        decreases todo
      {
        var ch :| ch in todo;
        BelowShrinks(g, p, ch);
        SubApart(g, p, ch, p);
        forall s | s in Below(g, p) && |p| < |s| && s[|p|] in todo - {ch}
          ensures g.nodeAt[s] !in Sub(g, p + [ch])
        {
          SubApart(g, p, ch, s);
        }
        forall s | s in Below(g, p + [ch]) ensures p <= s && |p| < |s| && s[|p|] == ch {
        }
        children[ch].ClearNode(g, p + [ch]);
        todo := todo - {ch};
      }
      children := map[];
    }

    /** `clear()` on the trie: afterwards only the bare root is left. */
    method Clear()
      requires Valid()
      modifies Repr()
      ensures Valid() && Content() == ClearedShape()
      ensures Repr() == {this}
    {
      ClearNode(Pic, "");
      Commit(Seed(this));
      SeedCoherent(this);
    }

    /** The cut of `remove`: from `top`, the node at `k[..d]` of the picture
        `g`, deletes along `k` the edge `k[i]` of the node at every depth `i`
        from `d` on. The first deletion detaches all the others, so the heap
        then mirrors the picture pruned at `k[..d + 1]`. */
    static method Cut(top: Node, k: string, d: nat, ghost g: Picture, ghost path: seq<Node>)
      requires Mirrors(g) && RouteOK(g, k, path) && d < |k| && top == path[d]
      modifies g.kids.Keys`children
      ensures CutSoFar(g, k, path, d, |k|) && ValuesMirror(g)
    {
      CutStart(g, k, path, d);
      var node := top;
      var i := d;
      while i < |k|
        invariant d <= i <= |k| && node == path[i]
        invariant CutSoFar(g, k, path, d, i) && ValuesMirror(g)
      {
        node := CutStep(node, g, k, path, d, i);
        i := i + 1;
      }
    }

    /** One deletion of the cut, at depth `i`. */
    static method CutStep(node: Node, ghost g: Picture, k: string, ghost path: seq<Node>, d: nat, i: nat)
      returns (next: Node)
      requires RouteOK(g, k, path) && d <= i < |k| && node == path[i] && CutSoFar(g, k, path, d, i)
      modifies node`children
      ensures next == path[i + 1] && CutSoFar(g, k, path, d, i + 1)
    {
      assert node in g.kids && !Passed(g, path, d, i, node);
      next := node.children[k[i]];
      node.children := node.children - {k[i]};
    }
  }
}
