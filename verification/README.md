# Ontology autocompletion core, modelled in Dafny

The Eclipse plugin completes the names of ontology entities as the user
types. It has four cooperating parts:

- **Entities.** `WrappedOWLEntity` wraps OWL API entities. It derives a short
  ID (the text after the last `'#'`) and interns one wrapper per string ID.
- **The proposal trie.** `TemplateProposalTrie` stores every wrapped entity
  under its lower-cased short ID, one character per edge. `postfixes(prefix)`
  returns every entity whose key starts with the typed prefix.
- **Ranking.** A naive Bayes classifier (`BayesClassifier`) scores each
  category for the words around the caret. `CompletionProposalComputer.getFeatures`
  extracts those words as `ContextFeature`s. The scores come back as a
  sorted distribution of `Classification`s or as a `DetailedClassification`
  table.
- **Support classes.** `ImageCache` memoizes images per descriptor.
  `WrappedOWLOntologyManagerEvent` carries the ontologies added and removed.
  The evaluation helpers of `ClassifierEvaluation` build context windows,
  take medians and count entity names.

The trie is modelled as a class over a linked structure of nodes, and every
other stateful class as a Dafny class too. The properties are proved
against value-level specification functions:

- `TrieShape`: the trie as a map from key paths to value sets.
- `Bayes.Distribution`: the sorted set as a sequence.
- `FeatureExtraction.Extracted`.
- `ImageCaches.GetImageStep`.
- `Evaluation.ContextWindow` and `Evaluation.MedianOf`.

Java `null` is `Option.None`. A thrown runtime exception is
`Result.Failure`, and an `int` is the `int32` newtype with explicit
wrap-around. Files, one module each:

- `common.dfy`: Option, Result and the `int32` type.
- `java_strings.dfy`: `lastIndexOf`, `toLowerCase` and `split("\\W+")`.
- `entities.dfy`: `WrappedOWLEntity`.
- `trie_shape.dfy`: the trie's abstract value and its laws.
- `trie.dfy`: the trie class.
- `classification.dfy`: the `proposals` package's classification classes.
- `computer_classification.dfy`: the `DetailedClassification` of the `proposalComputer` package.
- `bayes.dfy`: `BayesClassifier`.
- `context_feature.dfy`: `ContextFeature`.
- `feature_extraction.dfy`: `getFeatures`.
- `image_cache.dfy`: `ImageCache`.
- `manager_event.dfy`: `WrappedOWLOntologyManagerEvent`.
- `evaluation.dfy`: the `ClassifierEvaluation` helpers.

## Model

| member | source | states |
|---|---|---|
| Common.Wrap32 | src/de/unipassau/im/ontoint/proposals/ContextFeature.java:67-69 | Java `int` arithmetic: the result agrees with the exact value modulo 2^32 and equals it when it fits |
| JavaStrings.LastIndexOf | src/de/unipassau/im/ontoint/model/WrappedOWLEntity.java:155-157 | the index of the last occurrence of the character, or -1 when it does not occur |
| JavaStrings.ToLowerCase | src/de/unipassau/im/ontoint/model/TemplateProposalTrie.java:45 | same length, no upper-case letter left, each upper-case letter mapped to its lower-case form and every other character kept |
| JavaStrings.ToLowerCaseIdempotent | src/de/unipassau/im/ontoint/model/TemplateProposalTrie.java:45 | lower-casing a key twice gives the same key as lower-casing it once |
| JavaStrings.Split | src/de/unipassau/im/ontoint/proposals/CompletionProposalComputer.java:73-77 | the pieces contain only word characters, none but the first is empty, and the result is empty exactly for a non-empty text without word characters |
| JavaStrings.WordRunStops | src/de/unipassau/im/ontoint/proposals/CompletionProposalComputer.java:73-77 | a maximal word run ends exactly at the first non-word character |
| JavaStrings.SeparatorRunStops | src/de/unipassau/im/ontoint/proposals/CompletionProposalComputer.java:73-77 | one `\W+` match ends exactly at the first word character |
| JavaStrings.PiecesDecompose | src/de/unipassau/im/ontoint/proposals/CompletionProposalComputer.java:73-77 | the pieces, joined with the non-empty separator runs between them, give back the text: nothing is lost or reordered |
| JavaStrings.DecompositionUnique | src/de/unipassau/im/ontoint/proposals/CompletionProposalComputer.java:73-77 | any cut of the text into word pieces and non-empty separator runs, with no empty piece inside, is the one `Pieces` finds: the pieces are the maximal word runs in text order |
| JavaStrings.SplitMeaning | src/de/unipassau/im/ontoint/proposals/CompletionProposalComputer.java:73-77 | `split("\\W+")` returns the pieces of that decomposition (a leading empty piece when the text starts with a separator) without the trailing empty ones; the empty text gives one empty piece |
| Entities.GenerateShortID | src/de/unipassau/im/ontoint/model/WrappedOWLEntity.java:153-158 | the short ID never contains `'#'`; it is the ID itself without a `'#'`, and otherwise the suffix right after a `'#'` |
| Entities.ShortIDIsLongestHashFreeSuffix | src/de/unipassau/im/ontoint/model/WrappedOWLEntity.java:155-157 | every `'#'`-free suffix of the ID is at most as long as the short ID, so the cut is at the last `'#'` |
| Entities.GenerateShortIDIdempotent | src/de/unipassau/im/ontoint/model/WrappedOWLEntity.java:155-157 | shortening a short ID changes nothing |
| Entities.OntologyShortID | src/de/unipassau/im/ontoint/model/WrappedOWLEntity.java:140-145 | the slice after the last `'/'` up to but excluding the final character; absent exactly when `substring` would throw (empty ID or a trailing `'/'`) |
| Entities.TypeOf | src/de/unipassau/im/ontoint/model/WrappedOWLEntity.java:118-132 | the type tag of an OWL entity is never the ontology tag; each kind's tag is chosen iff that kind test holds and none of the tests before it in the chain does, and `Other` iff no kind test holds |
| Entities.Entity.constructor | src/de/unipassau/im/ontoint/model/WrappedOWLEntity.java:103-108 | `getID()` is the given ID, `getShortID()` its short form and `getType()` the given type |
| Entities.Entity.FromOwl | src/de/unipassau/im/ontoint/model/WrappedOWLEntity.java:115-133 | the wrapper of an OWL entity carries its string ID, that ID's short form and the first matching type tag |
| Entities.Entity.FromOntology | src/de/unipassau/im/ontoint/model/WrappedOWLEntity.java:140-145 | the wrapper of an ontology carries its ID, the ontology short ID and the ontology tag |
| Entities.Entity.IsType | src/de/unipassau/im/ontoint/model/WrappedOWLEntity.java:193-195 | true exactly when the entity's type is the one asked for |
| Entities.EntityCache.constructor | src/de/unipassau/im/ontoint/model/WrappedOWLEntity.java:78 | the interning table starts empty |
| Entities.EntityCache.GetEntityFor | src/de/unipassau/im/ontoint/model/WrappedOWLEntity.java:232-240 | a seen string ID returns the cached instance and changes nothing; an unseen one creates a new wrapper, stores it under the ID and returns it |
| Entities.EntityCache.GetEntityForOntology | src/de/unipassau/im/ontoint/model/WrappedOWLEntity.java:249-258 | the same interning for ontology IDs; an unseen ID whose short ID cannot be cut throws and caches nothing |
| Entities.EntityCache.ClearCache | src/de/unipassau/im/ontoint/model/WrappedOWLEntity.java:264-266 | the table is empty afterwards |
| TrieShape.UnderSplit | src/de/unipassau/im/ontoint/model/TemplateProposalTrie.java:277-287 | a node's postfixes are its own values together with the postfixes of each child |
| TrieShape.PrefixQueryRoot | src/de/unipassau/im/ontoint/model/TemplateProposalTrie.java:297-306 | `postfixes("")` is `postfixes()` of the root |
| TrieShape.PrefixQueryExact | src/de/unipassau/im/ontoint/model/TemplateProposalTrie.java:297-306 | `postfixes(p)` is exactly the stored entities whose key starts with `p` |
| TrieShape.PrefixQueryIsCaseSensitive | src/de/unipassau/im/ontoint/model/TemplateProposalTrie.java:297-306 | the prefix is not case-folded: a prefix with an upper-case letter finds nothing |
| TrieShape.AddShapeHolds | src/de/unipassau/im/ontoint/model/TemplateProposalTrie.java:44-72 | after `add`, a node holds an entity iff it held it before or it is the new entity at its key |
| TrieShape.FillStep | src/de/unipassau/im/ontoint/model/TemplateProposalTrie.java:58-64 | one step of the walk creates the child for the next character only when it is missing, with no values, and changes nothing else |
| TrieShape.FillToFill | src/de/unipassau/im/ontoint/model/TemplateProposalTrie.java:58-64 | the step-by-step walk fills in exactly the missing prefixes of the key |
| TrieShape.AddShapeByWalk | src/de/unipassau/im/ontoint/model/TemplateProposalTrie.java:44-72 | `add` is the completed walk followed by joining the entity at the node reached, and the entity was already there iff it is in that node's value set |
| TrieShape.AddShapeKeys | src/de/unipassau/im/ontoint/model/TemplateProposalTrie.java:58-64 | `add` creates exactly the nodes on the key path that were missing |
| TrieShape.AddShapeInvariants | src/de/unipassau/im/ontoint/model/TemplateProposalTrie.java:44-72 | `add` keeps the trie prefix-closed, without empty leaves, and with every entity under its own key |
| TrieShape.AddShapeValues | src/de/unipassau/im/ontoint/model/TemplateProposalTrie.java:61-71 | `postfixes()` after `add(e)` is the old `postfixes()` plus `e`: nothing is lost |
| TrieShape.AddShapeIdempotent | src/de/unipassau/im/ontoint/model/TemplateProposalTrie.java:68-71 | a second `add` of a stored entity leaves the trie unchanged |
| TrieShape.AddShapeFoundByPrefixes | src/de/unipassau/im/ontoint/model/TemplateProposalTrie.java:297-306 | after `add(e)`, `postfixes(p)` finds `e` for every prefix `p` of its key |
| TrieShape.ContainsAfterAdd | src/de/unipassau/im/ontoint/model/TemplateProposalTrie.java:106-121 | after `add(e)`, `contains(e)` holds iff `e`'s full ID equals its key or `e` was already found at its ID |
| TrieShape.ContainsNeedsIDEqualKey | src/de/unipassau/im/ontoint/model/TemplateProposalTrie.java:106-121 | `contains` walks the full ID, so it finds a stored entity iff its ID equals its lower-cased short ID |
| TrieShape.ContainsMissesHashIDs | src/de/unipassau/im/ontoint/model/TemplateProposalTrie.java:106-121 | an entity whose ID contains `'#'` is never reported as contained |
| TrieShape.AddAllShapeContent | src/de/unipassau/im/ontoint/model/TemplateProposalTrie.java:86-91 | after `addAll`, every old entry and every added entity at its key is present, and nothing else |
| TrieShape.AddAllShapeResult | src/de/unipassau/im/ontoint/model/TemplateProposalTrie.java:86-91 | `addAll` returns true iff some entity was not yet stored at its key, i.e. iff some `add` returned true |
| TrieShape.AddAllShapeValues | src/de/unipassau/im/ontoint/model/TemplateProposalTrie.java:86-91 | `postfixes()` grows by exactly the added entities |
| TrieShape.AddAllShapeInvariants | src/de/unipassau/im/ontoint/model/TemplateProposalTrie.java:86-91 | `addAll` keeps the trie's structural invariants |
| TrieShape.AddAllShapeStep | src/de/unipassau/im/ontoint/model/TemplateProposalTrie.java:86-91 | one more element of `addAll` is one more `add`, with the result or-ed in |
| TrieShape.ClearedShapeInvariants | src/de/unipassau/im/ontoint/model/TemplateProposalTrie.java:96-101 | the cleared trie is well formed and `postfixes()` is empty |
| TrieShape.LongestKey | src/de/unipassau/im/ontoint/model/TemplateProposalTrie.java:139-142 | a non-empty set of key paths has a longest member (a leaf) |
| TrieShape.EmptyIffNoValues | src/de/unipassau/im/ontoint/model/TemplateProposalTrie.java:139-142 | a root with no children and no values is exactly a trie whose `postfixes()` is empty |
| TrieShape.RemoveShapeFalseUnchanged | src/de/unipassau/im/ontoint/model/TemplateProposalTrie.java:186-229 | every `remove` that returns false leaves the trie unchanged |
| TrieShape.RemoveShapeCut | src/de/unipassau/im/ontoint/model/TemplateProposalTrie.java:201-229 | when the node at the key holds values, `remove` returns true and deletes exactly the subtree below the edge after the deepest flagged ancestor at depth at most key length − 2 |
| TrieShape.RemoveShapeLosesSubtree | src/de/unipassau/im/ontoint/model/TemplateProposalTrie.java:201-229 | the cut loses every entity whose key runs through the cut edge, siblings included, and keeps all others |
| TrieShape.PruneKeepsDescendant | src/de/unipassau/im/ontoint/model/TemplateProposalTrie.java:220-229 | cutting an edge leaves every other inner node outside the cut with a descendant |
| TrieShape.PruneInvariants | src/de/unipassau/im/ontoint/model/TemplateProposalTrie.java:220-229 | cutting below a flagged node or the root keeps the structural invariants |
| TrieShape.RemoveShapeInvariants | src/de/unipassau/im/ontoint/model/TemplateProposalTrie.java:186-229 | `remove` keeps the structural invariants and every entity under its key |
| TrieShape.RemoveShapeShrinks | src/de/unipassau/im/ontoint/model/TemplateProposalTrie.java:186-229 | `remove` never adds an entity |
| TrieShape.RemoveTwice | src/de/unipassau/im/ontoint/model/TemplateProposalTrie.java:186-229 | removing a stored entity returns true, and removing it again returns false |
| TrieShape.AddThenRemove | src/de/unipassau/im/ontoint/model/TemplateProposalTrie.java:44-72 | `add(e)` then `remove(e)` returns true and `e` is no longer stored at its key |
| TrieShape.RemoveAllShapeFacts | src/de/unipassau/im/ontoint/model/TemplateProposalTrie.java:235-240 | `removeAll` throws exactly when the collection holds a null, and never adds entities |
| TrieShape.RemoveAllShapeInvariants | src/de/unipassau/im/ontoint/model/TemplateProposalTrie.java:235-240 | `removeAll` keeps the structural invariants |
| TrieShape.RemoveAllShapeStep | src/de/unipassau/im/ontoint/model/TemplateProposalTrie.java:235-240 | one more element of `removeAll` is one more `remove`, with the result or-ed in |
| TrieShape.RemoveAllShapeStops | src/de/unipassau/im/ontoint/model/TemplateProposalTrie.java:235-240 | once a `remove` has thrown, the later elements are never looked at |
| TrieShape.ContainsAllShapeTrue | src/de/unipassau/im/ontoint/model/TemplateProposalTrie.java:126-134 | `containsAll` answers true iff `contains` answers true for every element |
| TrieShape.ContainsAllShapeThrows | src/de/unipassau/im/ontoint/model/TemplateProposalTrie.java:126-134 | `containsAll` throws iff it meets a null before any element that is not contained |
| ProposalTrie.TemplateProposalTrie.constructor | src/de/unipassau/im/ontoint/model/TemplateProposalTrie.java:18-29 | a new trie is a bare root with no children and no values |
| ProposalTrie.TemplateProposalTrie.AddEdge | src/de/unipassau/im/ontoint/model/TemplateProposalTrie.java:79-81 | hangs a fresh empty node under the character and keeps the other edges |
| ProposalTrie.TemplateProposalTrie.Reach | src/de/unipassau/im/ontoint/model/TemplateProposalTrie.java:58-64 | the walk ends at the node for the key, having created exactly the missing nodes on its path, all fresh |
| ProposalTrie.TemplateProposalTrie.Add | src/de/unipassau/im/ontoint/model/TemplateProposalTrie.java:44-72 | the heap trie afterwards has the abstract value of `add`, and the result is true iff the entity was not yet stored at its key |
| ProposalTrie.TemplateProposalTrie.Contains | src/de/unipassau/im/ontoint/model/TemplateProposalTrie.java:106-121 | null throws, a non-entity is not contained, an entity is contained iff the node at its full ID holds it |
| ProposalTrie.TemplateProposalTrie.Remove | src/de/unipassau/im/ontoint/model/TemplateProposalTrie.java:186-230 | the heap trie afterwards has the abstract value of `remove`, with the same answer or exception, and owns no new nodes |
| ProposalTrie.TemplateProposalTrie.Detach | src/de/unipassau/im/ontoint/model/TemplateProposalTrie.java:201-229 | the deletion of `remove` cuts the subtree at the edge after the deepest flagged ancestor |
| ProposalTrie.TemplateProposalTrie.AddAll | src/de/unipassau/im/ontoint/model/TemplateProposalTrie.java:86-91 | the heap trie afterwards has the abstract value of `addAll`, whose answer is whether any add changed it |
| ProposalTrie.TemplateProposalTrie.ContainsAll | src/de/unipassau/im/ontoint/model/TemplateProposalTrie.java:126-134 | the answer of the `contains` checks in order, stopping at the first false or null |
| ProposalTrie.TemplateProposalTrie.RemoveAll | src/de/unipassau/im/ontoint/model/TemplateProposalTrie.java:235-240 | the heap trie afterwards has the abstract value of `removeAll`, and its answer is whether any remove returned true |
| ProposalTrie.TemplateProposalTrie.IsEmpty | src/de/unipassau/im/ontoint/model/TemplateProposalTrie.java:139-142 | true iff `postfixes()` is empty |
| ProposalTrie.TemplateProposalTrie.Postfixes | src/de/unipassau/im/ontoint/model/TemplateProposalTrie.java:277-287 | the set of entities stored anywhere in the subtree of this node |
| ProposalTrie.TemplateProposalTrie.Size | src/de/unipassau/im/ontoint/model/TemplateProposalTrie.java:254-256 | the number of distinct entities `postfixes()` finds |
| ProposalTrie.TemplateProposalTrie.PostfixesWith | src/de/unipassau/im/ontoint/model/TemplateProposalTrie.java:297-306 | nothing when an edge of the prefix is missing, otherwise every entity below the node the prefix reaches |
| ProposalTrie.TemplateProposalTrie.ClearNode | src/de/unipassau/im/ontoint/model/TemplateProposalTrie.java:96-101 | the node ends with no values and no edges |
| ProposalTrie.TemplateProposalTrie.Clear | src/de/unipassau/im/ontoint/model/TemplateProposalTrie.java:96-101 | only the bare root is left, so the trie is empty |
| Classifications.Unscored | src/de/unipassau/im/ontoint/proposals/Classification.java:44-46 | a classification of the features and category with probability 0 |
| Classifications.ProbabilityTableMeaning | src/de/unipassau/im/ontoint/proposals/DetailedClassification.java:35-41 | the table holds exactly the categories that occur, each with the probability of its last classification |
| Classifications.DetailedClassification.constructor | src/de/unipassau/im/ontoint/proposals/DetailedClassification.java:35-41 | keeps the features and fills the table from the classifications in order |
| Classifications.DetailedClassification.GetProbabilityFor | src/de/unipassau/im/ontoint/proposals/DetailedClassification.java:56-61 | 0 for a category with no classification, otherwise the probability of its last classification |
| ComputerClassifications.DetailedClassification.constructor | src/de/unipassau/im/ontoint/proposalComputer/DetailedClassification.java:31-36 | keeps the features and fills the table from the classifications in order |
| ComputerClassifications.DetailedClassification.GetProbabilityFor | src/de/unipassau/im/ontoint/proposalComputer/DetailedClassification.java:51-53 | throws exactly for a category with no classification, otherwise the probability of its last classification |
| Bayes.FeaturesProductAppend | src/de/unipassau/im/ontoint/proposalComputer/BayesClassifier.java:41-47 | the feature product over a concatenation of feature lists is the product of the two lists' products |
| Bayes.CompareZero | src/de/unipassau/im/ontoint/proposalComputer/BayesClassifier.java:89-97 | the comparator returns 0 only for equal probability and category, and a positive value iff the probability is greater |
| Bayes.Insert | src/de/unipassau/im/ontoint/proposalComputer/BayesClassifier.java:100-104 | adding to the sorted set grows it by one |
| Bayes.InsertAt | src/de/unipassau/im/ontoint/proposalComputer/BayesClassifier.java:100-104 | the new classification is spliced in at one position and the rest keep their order |
| Bayes.InsertFollowsComparator | src/de/unipassau/im/ontoint/proposalComputer/BayesClassifier.java:89-104 | with distinct categories, everything before the insertion point compares below the new element and everything after compares above, so nothing is collapsed |
| Bayes.PositionBounds | src/de/unipassau/im/ontoint/proposalComputer/BayesClassifier.java:89-104 | elements before the insertion point have a smaller probability, the one at it does not |
| Bayes.SortedSplice | src/de/unipassau/im/ontoint/proposalComputer/BayesClassifier.java:89-104 | splicing an element between its lower and higher part keeps the set ascending |
| Bayes.InsertSorted | src/de/unipassau/im/ontoint/proposalComputer/BayesClassifier.java:100-104 | adding keeps the set ascending and adds exactly the new classification |
| Bayes.InsertLast | src/de/unipassau/im/ontoint/proposalComputer/BayesClassifier.java:125-133 | the greatest element stays last unless the new one has a strictly greater probability |
| Bayes.DistributionSorted | src/de/unipassau/im/ontoint/proposalComputer/BayesClassifier.java:72-105 | one classification per category, in ascending order of probability |
| Bayes.ScoredAll | src/de/unipassau/im/ontoint/proposalComputer/BayesClassifier.java:100-104 | one scored classification per category, in the order the categories are visited |
| Bayes.DistributionContents | src/de/unipassau/im/ontoint/proposalComputer/BayesClassifier.java:100-104 | the distribution is a permutation of the categories' scored classifications, each carrying the query's features |
| Bayes.DistributionCategories | src/de/unipassau/im/ontoint/proposalComputer/BayesClassifier.java:100-104 | every category has its scored classification in the distribution and it holds nothing else |
| Bayes.MaxProbabilityBounds | src/de/unipassau/im/ontoint/proposalComputer/BayesClassifier.java:125-133 | no category scores above the maximum |
| Bayes.DistributionTop | src/de/unipassau/im/ontoint/proposalComputer/BayesClassifier.java:125-133 | the last classification is that of the first visited category reaching the greatest probability |
| Bayes.BayesClassifier.constructor | src/de/unipassau/im/ontoint/proposalComputer/BayesClassifier.java:27-32 | a new classifier starts with an invalid cache |
| Bayes.BayesClassifier.FeaturesProbabilityProduct | src/de/unipassau/im/ontoint/proposalComputer/BayesClassifier.java:41-47 | the product over the features of their weighed averages for the category |
| Bayes.BayesClassifier.CategoryProbabilityOf | src/de/unipassau/im/ontoint/proposalComputer/BayesClassifier.java:58-63 | the category's share of all categories times the feature product |
| Bayes.BayesClassifier.CategoryProbabilities | src/de/unipassau/im/ontoint/proposalComputer/BayesClassifier.java:72-105 | the sorted distribution of the current categories, scored for the features |
| Bayes.BayesClassifier.CachedCategoryProbabilities | src/de/unipassau/im/ontoint/proposalComputer/BayesClassifier.java:113-120 | recomputes and validates the cache only when it is invalid; a valid cache is returned unchanged whatever the features |
| Bayes.BayesClassifier.Classify | src/de/unipassau/im/ontoint/proposalComputer/BayesClassifier.java:125-133 | the greatest classification of the cached distribution, null iff there are no categories, ties going to the first category visited |
| Bayes.BayesClassifier.ClassifyDetailed | src/de/unipassau/im/ontoint/proposalComputer/BayesClassifier.java:138-142 | a new detailed classification of the given features over the cached distribution |
| Bayes.BayesClassifier.SetMemoryCapacity | src/de/unipassau/im/ontoint/proposalComputer/BayesClassifier.java:147-150 | invalidates the cache and delegates to the superclass |
| Bayes.BayesClassifier.Learn | src/de/unipassau/im/ontoint/proposalComputer/BayesClassifier.java:155-158 | invalidates the cache and delegates to the superclass |
| Bayes.BayesClassifier.LearnClassification | src/de/unipassau/im/ontoint/proposalComputer/BayesClassifier.java:163-166 | invalidates the cache and delegates to the superclass |
| Bayes.TwoQueries | src/de/unipassau/im/ontoint/proposalComputer/BayesClassifier.java:113-142 | two queries with nothing learned between them return the same distribution whatever the second one's features: the cached one, or the one computed for the first query's features when the cache was invalid |
| ContextFeatures.Ordinal | src/de/unipassau/im/ontoint/proposals/ContextFeature.java:22-40 | every feature kind has an entry in the weight table |
| ContextFeatures.EqualsMeaning | src/de/unipassau/im/ontoint/proposals/ContextFeature.java:74-90 | equal iff the other object is a feature with the same kind and the same (possibly null) value |
| ContextFeatures.EqualsEquivalence | src/de/unipassau/im/ontoint/proposals/ContextFeature.java:74-90 | `equals` is reflexive, symmetric and transitive on features |
| ContextFeatures.HashCode | src/de/unipassau/im/ontoint/proposals/ContextFeature.java:67-69 | throws exactly for a null value |
| ContextFeatures.HashAgreesWithEquals | src/de/unipassau/im/ontoint/proposals/ContextFeature.java:67-90 | equal features with values hash alike; a feature equal to one without a value cannot be hashed |
| ContextFeatures.GetWeight | src/de/unipassau/im/ontoint/proposals/ContextFeature.java:113-115 | the weight at the kind's ordinal, 1 for an environment string |
| FeatureExtraction.FrontCount | src/de/unipassau/im/ontoint/proposals/CompletionProposalComputer.java:78-84 | fewer front tokens than there are and than `before`, or none |
| FeatureExtraction.BehindCount | src/de/unipassau/im/ontoint/proposals/CompletionProposalComputer.java:79-87 | between 1 and `after + 1` behind tokens, never more than there are |
| FeatureExtraction.FrontTokens | src/de/unipassau/im/ontoint/proposals/CompletionProposalComputer.java:82-84 | as many tokens as the front loop reads |
| FeatureExtraction.AsFeatures | src/de/unipassau/im/ontoint/proposals/CompletionProposalComputer.java:92-100 | one environment-string feature per token, in order |
| FeatureExtraction.FillFront | src/de/unipassau/im/ontoint/proposals/CompletionProposalComputer.java:82-84 | the first slots hold the front tokens nearest the caret first, the rest stay null |
| FeatureExtraction.FillBehind | src/de/unipassau/im/ontoint/proposals/CompletionProposalComputer.java:85-87 | completes iff there is a behind token and the slots suffice, and then appends the behind tokens in text order |
| FeatureExtraction.Collect | src/de/unipassau/im/ontoint/proposals/CompletionProposalComputer.java:92-100 | the non-null slots in order, as features |
| FeatureExtraction.GetFeatures | src/de/unipassau/im/ontoint/proposals/CompletionProposalComputer.java:63-101 | the features of the window around the caret, an empty list after any out-of-bounds index, and a failure when the array size overflows |
| FeatureExtraction.ExtractedBounds | src/de/unipassau/im/ontoint/proposals/CompletionProposalComputer.java:70-100 | at most `before + after` features, each an environment string with a value |
| FeatureExtraction.WindowOrder | src/de/unipassau/im/ontoint/proposals/CompletionProposalComputer.java:78-87 | the front tokens nearest the caret first, fewer than `before` and never the first one, then 1 to `after + 1` behind tokens in text order |
| FeatureExtraction.CaretPastMiddle | src/de/unipassau/im/ontoint/proposals/CompletionProposalComputer.java:75-77 | a caret past the middle of the text yields no features, because the behind text ends at `length - caretPos` |
| FeatureExtraction.NoFrontSlotsOverrun | src/de/unipassau/im/ontoint/proposals/CompletionProposalComputer.java:85-90 | with `before == 0` and more than `after` behind tokens, the last write overruns and the result is empty |
| ImageCaches.GetImageStepGrows | src/de/unipassau/im/ontoint/ImageCache.java:37-48 | a lookup only adds the asked descriptor, keeps every stored image, and creates an image iff the entry was missing or null |
| ImageCaches.GetImageStepMemoizes | src/de/unipassau/im/ontoint/ImageCache.java:37-48 | asking again for a descriptor that produced an image returns that image and creates nothing |
| ImageCaches.EnumeratesStep | src/de/unipassau/im/ontoint/ImageCache.java:53-59 | visiting one more new key keeps the visit order an enumeration of the keys seen |
| ImageCaches.EnumeratedAllStored | src/de/unipassau/im/ontoint/ImageCache.java:53-59 | when every key was visited with an image, the table holds no null |
| ImageCaches.ImageCache.constructor | src/de/unipassau/im/ontoint/ImageCache.java:27-29 | a new cache is empty |
| ImageCaches.ImageCache.GetImage | src/de/unipassau/im/ontoint/ImageCache.java:37-48 | null for a null descriptor, the stored image if there is one, otherwise a created image that is stored; each creation is logged |
| ImageCaches.ImageCache.Dispose | src/de/unipassau/im/ontoint/ImageCache.java:53-59 | disposes each stored image once and empties the table; a stored null throws and leaves the table as it was |
| ManagerEvents.ManagerEvent.constructor | src/de/unipassau/im/ontoint/model/WrappedOWLOntologyManagerEvent.java:34-38 | an event with empty, never null, added and removed arrays |
| ManagerEvents.ManagerEvent.WithObjects | src/de/unipassau/im/ontoint/model/WrappedOWLOntologyManagerEvent.java:47-61 | a null array becomes a new empty one, any other is kept as the same array |
| ManagerEvents.ManagerEvent.GetAdded | src/de/unipassau/im/ontoint/model/WrappedOWLOntologyManagerEvent.java:68-70 | the added array |
| ManagerEvents.ManagerEvent.GetRemoved | src/de/unipassau/im/ontoint/model/WrappedOWLOntologyManagerEvent.java:77-79 | the removed array |
| Evaluation.Positions | test/de/unipassau/im/ontoint/ClassifierEvaluation.java:345-352 | the positions visited lie inside the window |
| Evaluation.PositionsMeaning | test/de/unipassau/im/ontoint/ClassifierEvaluation.java:345-352 | every position of the window but the word's own, each once and ascending |
| Evaluation.FeaturesAt | test/de/unipassau/im/ontoint/ClassifierEvaluation.java:348-351 | one environment-string feature per visited position, holding that token |
| Evaluation.GetContextFeatures | test/de/unipassau/im/ontoint/ClassifierEvaluation.java:340-354 | the tokens around the word, without the word, clipped to the scenario, in order |
| Evaluation.ContextWindowSize | test/de/unipassau/im/ontoint/ClassifierEvaluation.java:343-344 | at most `before + after` features, exactly that many when the window does not reach an end |
| Evaluation.SortedHeadIsLeast | test/de/unipassau/im/ontoint/ClassifierEvaluation.java:357 | the first of a sorted sequence is its least value |
| Evaluation.TailMultiset | test/de/unipassau/im/ontoint/ClassifierEvaluation.java:357 | dropping equal heads from equal multisets leaves equal multisets |
| Evaluation.SortedUnique | test/de/unipassau/im/ontoint/ClassifierEvaluation.java:357-361 | two sorted arrangements of the same values are equal, so the median does not depend on the sorting algorithm |
| Evaluation.Sort | test/de/unipassau/im/ontoint/ClassifierEvaluation.java:357 | the array ends sorted and a permutation of what it held |
| Evaluation.InsertNext | test/de/unipassau/im/ontoint/ClassifierEvaluation.java:357 | one more element joins the sorted prefix, as a permutation |
| Evaluation.MedianSplits | test/de/unipassau/im/ontoint/ClassifierEvaluation.java:358-359 | for an odd count, as many values lie at or below the median as at or above it |
| Evaluation.Median | test/de/unipassau/im/ontoint/ClassifierEvaluation.java:356-362 | sorts the array in place and returns its median: the middle value, the halved `int` sum of the middle two, or an index failure for no values |
| Evaluation.CountEntities | test/de/unipassau/im/ontoint/ClassifierEvaluation.java:102-106 | each entity name that occurs maps to its number of occurrences, and no other name is a key |

## Left out

- The trie's `iterator()` and `toArray()` (TemplateProposalTrie.java:148-183, 261-270) enumerate `postfixes()` in hash order. The model has the set only; `Postfixes` states its contents, and the iterator's `remove` always throws `UnsupportedOperationException`.
- `retainAll` (TemplateProposalTrie.java:247-249) always throws `UnsupportedOperationException` and changes nothing, so there is no behaviour to model.
- ProposalTrie.TemplateProposalTrie.Add: `add(null)` throws a `NullPointerException` at `e.getShortID()`; the model's `Add` takes a non-null entity, so that path is not modelled.
- ProposalTrie.TemplateProposalTrie.AddAll: a null element in the collection (a `NullPointerException` in `getShortID`) is not modelled; the collection holds entities only.
- ProposalTrie.TemplateProposalTrie.Size: returns the exact count and does not model the `int` result overflowing beyond 2^31 − 1 entities.
- The iteration order of `Hashtable`, `HashMap` and `HashSet` is not modelled. Where it shows (the edges visited by `postfixes` and `clear`, the entries disposed by `ImageCache.dispose`), the contracts hold for every order, and `Dispose` reports the order it used.
- `WrappedOWLEntity.getEntitiesFrom` (WrappedOWLEntity.java:204-223) walks an OWL API ontology's signature, which is foreign code. It is left out; each entity goes through `GetEntityFor`.
- The entity cache is static in Java; here it is an `EntityCache` object passed explicitly.
- Entities.GenerateShortID: the `Assert.isNotNull(id)` failure for a null ID is not modelled; IDs, and the IDs the `Entity` constructors receive, are non-null strings.
- Classifications.DetailedClassification.constructor: a classification with a null category makes `Hashtable.put` throw a `NullPointerException`, and `getProbabilityFor(null)` throws as well. Categories are non-null values of `K` here, so neither path is modelled. The same holds for `ComputerClassifications.DetailedClassification`.
- Java strings are sequences of UTF-16 code units, and Dafny strings are sequences of Unicode scalar values. A character outside the Basic Multilingual Plane is two trie edges, two `substring` positions and two `String.hashCode` steps in Java, but one in the model. Trie keys, `getFeatures` and `StringHash` agree with Java only on text without such characters.
- `String.toLowerCase` is modelled for ASCII letters only; locale-dependent and non-ASCII case mappings are not.
- The `Classifier` superclass of `BayesClassifier` is not part of this model. Its categories, counts, weighed averages and learning steps are function parameters (`Bayes.Superclass`), and the categories are a duplicate-free sequence in the superclass set's iteration order.
- The `Classification` of the `proposalComputer` package has the same shape as the one of the `proposals` package; one datatype models both.
- Java `float` is `real`: rounding, NaN and infinity are not modelled. `Bayes.Ratio` returns 0 for a zero category total, where Java division would give NaN or infinity. `Evaluation.Median` converts the `int` sum to `real` exactly, where Java's `float` loses precision above 2^24.
- Bayes.Insert: the `TreeSet` is modelled as a sorted sequence with insertion before the first element of at least equal probability. This agrees with the comparator only because the categories are distinct; `InsertFollowsComparator` states that agreement.
- Feature collections are values here; the reference identity of a Java `Collection` handed through `Classification` and `DetailedClassification` is not modelled.
- A `ContextFeature` value is a `Serializable` in Java. Here it is a string (or null), the only kind `getFeatures` and `getContextFeatures` create. The enum constant's identity hash is a parameter of `HashCode`.
- The `Assert.isTrue` checks of `getFeatures` (non-negative `before` and `after`) are a precondition of `GetFeatures`. A null `context` is not modelled.
- `EventObject` throws `IllegalArgumentException` for a null source; the model has no null source.
- `ImageDescriptor.createImage` and `Image.dispose` belong to the widget toolkit. The image created is a parameter of `GetImage`; creations and disposals are ghost logs.
- Evaluation.GetContextFeatures: `wordPos - before` and `wordPos + after` are computed without `int` overflow.
- Evaluation.CountEntities: counts are unbounded integers with no `int` overflow. The printing and the `TreeMap` ordering of `printEntityDistribution` are left out.
- Evaluation.Sort: `Arrays.sort` is replaced by an insertion sort with the same contract (sorted, and a permutation). By `SortedUnique` the result does not depend on the algorithm.
