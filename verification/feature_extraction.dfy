/** `CompletionProposalComputer.getFeatures(caretPos, context, before, after)`
    of the `proposals` package: the words around the caret, split on `\W+`,
    as environment-string features. */
module FeatureExtraction {
  import opened Common
  import opened JavaStrings
  import opened ContextFeatures

  /** How many tokens in front of the caret are kept: the last ones, down to
      but excluding index `max(len - before, 0)`. */
  function FrontCount(len: nat, before: nat): (n: nat)
    ensures n == 0 || (n < len && n < before)
  {
    var m := Min(before, len);
    if m >= 1 then m - 1 else 0
  }

  /** How many tokens behind the caret are read: indices `0` to
      `max(min(after, len - 1), 0)`, so always at least one. */
  function BehindCount(len: nat, after: nat): (m: nat)
    ensures 1 <= m <= after + 1
    ensures len >= 1 ==> m <= len
  {
    if len <= after then Max(len, 1) else after + 1
  }

  /** The text whose tokens lie in front of the caret. */
  function FrontText(caretPos: int, context: string): string
    requires 0 <= caretPos <= |context|
  {
    context[..caretPos]
  }

  /** The text whose tokens are read behind the caret: the substring from
      `caretPos` up to `length - caretPos`. */
  function BehindText(caretPos: int, context: string): string
    requires 0 <= caretPos && 2 * caretPos <= |context|
  {
    context[caretPos..|context| - caretPos]
  }

  /** The front tokens kept, nearest the caret first. */
  function FrontTokens(front: seq<string>, before: nat): (t: seq<string>)
    ensures |t| == FrontCount(|front|, before)
  {
    var n := FrontCount(|front|, before);
    seq(n, k requires 0 <= k < n => front[|front| - 1 - k])
  }

  /** The tokens read from two token arrays, or `None` when a read or a
      write is out of bounds: no token behind, or too few slots. */
  function WindowOf(front: seq<string>, behind: seq<string>, before: nat, after: nat): Option<seq<string>>
  {
    var n := FrontCount(|front|, before);
    var m := BehindCount(|behind|, after);
    if behind == [] || n + m > before + after then None
    else Some(FrontTokens(front, before) + behind[..m])
  }

  /** The tokens `getFeatures` turns into features, in order, or `None`
      when an index is out of bounds: a substring range that is not one, or
      one of the cases of `WindowOf`. */
  function Window(caretPos: int, context: string, before: nat, after: nat): (w: Option<seq<string>>)
  {
    if caretPos < 0 || 2 * caretPos > |context| then None
    else WindowOf(Split(FrontText(caretPos, context)), Split(BehindText(caretPos, context)), before, after)
  }

  /** Each token as an environment-string feature. */
  function AsFeatures(w: seq<string>): (fs: seq<ContextFeature>)
    ensures |fs| == |w|
    ensures forall k | 0 <= k < |w| :: fs[k] == ContextFeature(ENVIRONMENTSTRING, Some(w[k]))
  {
    seq(|w|, k requires 0 <= k < |w| => ContextFeature(ENVIRONMENTSTRING, Some(w[k])))
  }

  /** What `getFeatures` returns: the window's features; an empty list when
      an index was out of bounds; a failure when `before + after` overflows
      into a negative array size. */
  function Extracted(caretPos: int, context: string, before: nat, after: nat): Result<seq<ContextFeature>>
  {
    if before + after > 0x7FFF_FFFF then Failure(NegativeArraySizeException)
    else match Window(caretPos, context, before, after)
      case None => Success([])
      case Some(w) => Success(AsFeatures(w))
  }

  /** The array holds the tokens `w` in its first slots and nulls after them. */
  ghost predicate Filled(a: seq<Option<string>>, w: seq<string>)
  {
    |w| <= |a| && (forall k | 0 <= k < |w| :: a[k] == Some(w[k])) && forall k | |w| <= k < |a| :: a[k] == None
  }

  /** The first loop: front tokens from the last one down to the one after
      `leftBorder`, into slots `0, 1, ...`. */
  method FillFront(features: array<Option<string>>, front: seq<string>, before: nat) returns (j: nat)
    requires features.Length >= before && Filled(features[..], [])
    modifies features
    ensures j == FrontCount(|front|, before) && Filled(features[..], FrontTokens(front, before))
  {
    ghost var n := FrontCount(|front|, before);
    ghost var t := FrontTokens(front, before);
    var leftBorder := Max(|front| - before, 0);
    var i := |front| - 1;
    j := 0;
    while i > leftBorder
      invariant 0 <= j <= n && i == |front| - 1 - j
      invariant Filled(features[..], t[..j])
    {
      features[j] := Some(front[i]);
      i, j := i - 1, j + 1;
    }
    assert t[..j] == t;
  }

  /** The second loop: behind tokens `0..rightBorder` into the following
      slots; `false` when a read or a write falls out of bounds. */
  method FillBehind(features: array<Option<string>>, behind: seq<string>, after: nat, j0: nat, ghost t: seq<string>)
    returns (ok: bool)
    requires |t| == j0 && Filled(features[..], t)
    modifies features
    ensures var m := BehindCount(|behind|, after);
      ok <==> behind != [] && j0 + m <= features.Length
    ensures ok ==> Filled(features[..], t + behind[..BehindCount(|behind|, after)])
  {
    var rightBorder := Max(Min(after, |behind| - 1), 0);
    ghost var m := BehindCount(|behind|, after);
    assert rightBorder + 1 == m;
    var i := 0;
    var j := j0;
    while i <= rightBorder
      invariant 0 <= i <= rightBorder + 1 && i <= |behind| && j == j0 + i
      invariant Filled(features[..], t + behind[..i])
    {
      if i >= |behind| || j >= features.Length {
        return false;
      }
      features[j] := Some(behind[i]);
      assert behind[..i + 1] == behind[..i] + [behind[i]];
      i, j := i + 1, j + 1;
    }
    return true;
  }

  /** The final loop: every non-null slot, in order, as a feature. */
  method Collect(features: array<Option<string>>, ghost w: seq<string>) returns (fs: seq<ContextFeature>)
    requires Filled(features[..], w)
    ensures fs == AsFeatures(w)
  {
    fs := [];
    for idx := 0 to features.Length
      invariant fs == AsFeatures(w[..Min(idx, |w|)])
    {
      if features[idx].Some? {
        assert w[..idx + 1] == w[..idx] + [w[idx]];
        fs := fs + [ContextFeature(ENVIRONMENTSTRING, features[idx])];
      }
    }
    assert w[..|w|] == w;
  }

  /** `getFeatures`: fills a `before + after` array through a running index,
      front tokens first and behind tokens after, drops everything on an
      out-of-bounds index, and collects the filled slots. */
  method GetFeatures(caretPos: int32, context: string, before: int32, after: int32) returns (r: Result<seq<ContextFeature>>)
    requires before >= 0 && after >= 0
    ensures r == Extracted(caretPos as int, context, before as int, after as int)
  {
    if before as int + after as int > 0x7FFF_FFFF {
      return Failure(NegativeArraySizeException);
    }
    var features: array<Option<string>> := new Option<string>[before as int + after as int](_ => None);
    ghost var w: seq<string> := [];
    var ok := false;
    if 0 <= caretPos && caretPos as int <= |context| - caretPos as int {
      var front := Split(context[..caretPos]);
      var behind := Split(context[caretPos..|context| - caretPos as int]);
      assert front == Split(FrontText(caretPos as int, context));
      assert behind == Split(BehindText(caretPos as int, context));
      var j := FillFront(features, front, before as int);
      ok := FillBehind(features, behind, after as int, j, FrontTokens(front, before as int));
      if ok {
        w := FrontTokens(front, before as int) + behind[..BehindCount(|behind|, after as int)];
      }
    }
    if !ok {
      features := new Option<string>[0];
      w := [];
    }
    assert ok <==> Window(caretPos as int, context, before as int, after as int).Some?;
    assert ok ==> Window(caretPos as int, context, before as int, after as int) == Some(w);
    var fs := Collect(features, w);
    return Success(fs);
  }

  /** At most `before + after` features come back, every one an environment
      string with a value. */
  lemma ExtractedBounds(caretPos: int, context: string, before: nat, after: nat)
    ensures Extracted(caretPos, context, before, after).Success? ==>
      var fs := Extracted(caretPos, context, before, after).value;
      |fs| <= before + after && forall f | f in fs :: f.featureType == ENVIRONMENTSTRING && f.value.Some?
  {
  }

  /** The window reads the front tokens nearest the caret first, never the
      first front token, and fewer than `before` of them; then at least one
      and at most `after + 1` behind tokens, in text order. */
  lemma WindowOrder(front: seq<string>, behind: seq<string>, before: nat, after: nat)
    requires WindowOf(front, behind, before, after).Some?
    ensures var w := WindowOf(front, behind, before, after).value;
      exists n | 0 <= n <= |w| ::
        && (n == 0 || (n < |front| && n < before))
        && (forall k | 0 <= k < n :: w[k] == front[|front| - 1 - k])
        && w[n..] <= behind && 1 <= |w| - n <= after + 1
  {
    var w := WindowOf(front, behind, before, after).value;
    var n := FrontCount(|front|, before);
    var m := BehindCount(|behind|, after);
    assert w[..n] == FrontTokens(front, before);
    assert w[n..] == behind[..m];
  }

  /** The tokens behind the caret are read from `[caretPos, length - caretPos)`:
      a caret past the middle of the text yields no feature at all, although
      it lies inside the text. */
  lemma CaretPastMiddle(caretPos: int, context: string, before: nat, after: nat)
    requires 0 <= caretPos <= |context| && 2 * caretPos > |context|
    requires before + after <= 0x7FFF_FFFF
    ensures Extracted(caretPos, context, before, after) == Success([])
  {
  }

  /** With no slot in front, reading one token more than `after` overruns the
      array, and the whole result is dropped. */
  lemma NoFrontSlotsOverrun(caretPos: int, context: string, after: nat)
    requires 0 <= caretPos && 2 * caretPos <= |context| && after <= 0x7FFF_FFFF
    requires |Split(BehindText(caretPos, context))| > after
    ensures Extracted(caretPos, context, 0, after) == Success([])
  {
  }
}
