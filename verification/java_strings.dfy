/** The few `java.lang.String` operations the modelled code relies on:
    `lastIndexOf(char)`, `toLowerCase()` and `split("\\W+")`. */
module JavaStrings {

  /** `s.lastIndexOf(ch)`: the index of the last occurrence of `ch`, or -1. */
  function LastIndexOf(s: string, ch: char): (r: int)
    ensures -1 <= r < |s|
    ensures r >= 0 ==> s[r] == ch
    ensures forall i :: r < i < |s| ==> s[i] != ch
  {
    if s == [] then -1
    else if s[|s| - 1] == ch then |s| - 1
    else LastIndexOf(s[..|s| - 1], ch)
  }

  predicate IsUpper(c: char) { 'A' <= c <= 'Z' }

  function LowerChar(c: char): char
  {
    if IsUpper(c) then (c as int - 'A' as int + 'a' as int) as char else c
  }

  /** `s.toLowerCase()`, restricted to the ASCII letters (see README). */
  function ToLowerCase(s: string): (r: string)
    ensures |r| == |s|
    ensures forall i :: 0 <= i < |r| ==> !IsUpper(r[i])
    ensures forall i :: 0 <= i < |s| && !IsUpper(s[i]) ==> r[i] == s[i]
    ensures forall i :: 0 <= i < |s| && IsUpper(s[i]) ==> r[i] as int == s[i] as int + 32
  {
    seq(|s|, i requires 0 <= i < |s| => LowerChar(s[i]))
  }

  /** Lower-casing twice is lower-casing once. */
  lemma ToLowerCaseIdempotent(s: string)
    ensures ToLowerCase(ToLowerCase(s)) == ToLowerCase(s)
  {
    var once := ToLowerCase(s);
    var twice := ToLowerCase(once);
    assert forall i :: 0 <= i < |twice| ==> twice[i] == once[i];
  }

  /** The regular-expression class `\w` (ASCII, as Java has it by default). */
  predicate IsWordChar(c: char)
  {
    'a' <= c <= 'z' || 'A' <= c <= 'Z' || '0' <= c <= '9' || c == '_'
  }

  predicate AllWord(s: string)
  {
    forall i :: 0 <= i < |s| ==> IsWordChar(s[i])
  }

  predicate NoWord(s: string)
  {
    forall i :: 0 <= i < |s| ==> !IsWordChar(s[i])
  }

  /** Length of the longest prefix of `s` made of word characters. */
  function WordRun(s: string): (n: nat)
    ensures n <= |s| && AllWord(s[..n])
    ensures n < |s| ==> !IsWordChar(s[n])
  {
    if s == [] || !IsWordChar(s[0]) then 0 else 1 + WordRun(s[1..])
  }

  /** Length of the longest prefix of `s` made of non-word characters: one `\W+` match. */
  function SeparatorRun(s: string): (n: nat)
    ensures n <= |s| && NoWord(s[..n])
    ensures n < |s| ==> IsWordChar(s[n])
  {
    if s == [] || IsWordChar(s[0]) then 0 else 1 + SeparatorRun(s[1..])
  }

  /** The pieces between the maximal `\W+` runs of `s`, empty pieces included. */
  function Pieces(s: string): (ps: seq<string>)
    ensures |ps| >= 1
    ensures forall k :: 0 <= k < |ps| ==> AllWord(ps[k])
    ensures forall k :: 0 < k < |ps| - 1 ==> ps[k] != []
    ensures s != [] && IsWordChar(s[0]) ==> ps[0] != []
    ensures NoWord(s) && s != [] ==> ps == ["", ""]
    ensures !NoWord(s) ==> exists k :: 0 <= k < |ps| && ps[k] != []
    decreases |s|
  {
    var w := WordRun(s);
    if w == |s| then [s]
    else
      var rest := s[w..];
      var sep := SeparatorRun(rest);
      assert sep > 0;
      var tail := Pieces(rest[sep..]);
      assert w == 0 && !NoWord(s) ==> sep < |rest| && IsWordChar(rest[sep..][0]);
      assert ([s[..w]] + tail)[1] == tail[0];
      [s[..w]] + tail
  }

  /** Drops the trailing empty strings, as `split` does with a zero limit. */
  function TrimTrailingEmpty(ps: seq<string>): (r: seq<string>)
    ensures r <= ps
    ensures r != [] ==> r[|r| - 1] != []
    ensures forall k :: |r| <= k < |ps| ==> ps[k] == []
  {
    if ps != [] && ps[|ps| - 1] == [] then TrimTrailingEmpty(ps[..|ps| - 1]) else ps
  }

  /** `s.split("\\W+")`: the input itself when no separator occurs, otherwise
      the pieces between separator runs without the trailing empty ones. */
  function Split(s: string): (r: seq<string>)
    ensures forall k :: 0 <= k < |r| ==> AllWord(r[k])
    ensures forall k :: 0 < k < |r| ==> r[k] != []
    ensures r == [] <==> s != [] && NoWord(s)
  {
    if AllWord(s) then
      assert s != [] ==> IsWordChar(s[0]);
      [s]
    else
      var ps := Pieces(s);
      TrimTrailingEmpty(ps)
  }

  /** The runs of non-word characters between the pieces of `Pieces(s)`, in order. */
  function Separators(s: string): (seps: seq<string>)
    decreases |s|
  {
    var w := WordRun(s);
    if w == |s| then []
    else
      var rest := s[w..];
      var sep := SeparatorRun(rest);
      assert sep > 0;
      [rest[..sep]] + Separators(rest[sep..])
  }

  /** Pieces and separators put back together, alternating, pieces first and last. */
  function Interleave(ps: seq<string>, seps: seq<string>): string
    requires |ps| == |seps| + 1
    decreases |seps|
  {
    if seps == [] then ps[0] else ps[0] + seps[0] + Interleave(ps[1..], seps[1..])
  }

  /** `s` cut into word pieces by non-empty runs of non-word characters,
      with no empty piece except possibly the first and the last. */
  ghost predicate Decomposes(s: string, ps: seq<string>, seps: seq<string>)
  {
    && |ps| == |seps| + 1
    && (forall k | 0 <= k < |ps| :: AllWord(ps[k]))
    && (forall k | 0 < k < |ps| - 1 :: ps[k] != [])
    && (forall k | 0 <= k < |seps| :: seps[k] != [] && NoWord(seps[k]))
    && Interleave(ps, seps) == s
  }

  /** A word run stops at the first non-word character. */
  lemma {:induction false} WordRunStops(a: string, b: string)
    requires AllWord(a) && (b == [] || !IsWordChar(b[0]))
    ensures WordRun(a + b) == |a|
    decreases |a|
  {
    if a != [] {
      assert (a + b)[1..] == a[1..] + b;
      WordRunStops(a[1..], b);
    }
  }

  /** A separator run stops at the first word character. */
  lemma {:induction false} SeparatorRunStops(a: string, b: string)
    requires NoWord(a) && (b == [] || IsWordChar(b[0]))
    ensures SeparatorRun(a + b) == |a|
    decreases |a|
  {
    if a != [] {
      assert (a + b)[1..] == a[1..] + b;
      SeparatorRunStops(a[1..], b);
    }
  }

  /** One more piece and separator in front of a decomposition. */
  lemma DecomposesCons(s: string, ps: seq<string>, seps: seq<string>, p: string, sep: string)
    requires Decomposes(s, ps, seps) && AllWord(p) && sep != [] && NoWord(sep)
    requires |ps| > 1 ==> ps[0] != []
    ensures Decomposes(p + sep + s, [p] + ps, [sep] + seps)
  {
    assert ([p] + ps)[1..] == ps && ([sep] + seps)[1..] == seps;
  }

  /** A decomposition with a separator is its first piece and separator in
      front of the decomposition of the rest, which is empty or starts with
      a word character. */
  lemma DecomposesTail(s: string, ps: seq<string>, seps: seq<string>)
    requires Decomposes(s, ps, seps) && seps != []
    ensures var tail := Interleave(ps[1..], seps[1..]);
      && s == ps[0] + seps[0] + tail
      && Decomposes(tail, ps[1..], seps[1..])
      && (tail == [] || IsWordChar(tail[0]))
  {
    var tail := Interleave(ps[1..], seps[1..]);
    if |seps| > 1 {
      assert tail == ps[1] + seps[1] + Interleave(ps[2..], seps[2..]);
      assert ps[1] != [];
      assert tail[0] == ps[1][0];
    }
  }

  /** A text cut at `w` and then at `w + sep` is the three parts joined. */
  lemma CutThree<T>(s: seq<T>, w: nat, sep: nat)
    requires w + sep <= |s|
    ensures s == s[..w] + s[w..][..sep] + s[w..][sep..]
  {
  }

  /** The three parts of a joined text, read back by their lengths. */
  lemma JoinThree<T>(a: seq<T>, b: seq<T>, c: seq<T>)
    ensures (a + b + c)[..|a|] == a && (a + b + c)[|a|..] == b + c
    ensures (b + c)[..|b|] == b && (b + c)[|b|..] == c
  {
    assert a + b + c == a + (b + c);
  }

  /** One level of `Pieces` and `Separators`, for a text with a separator
      that starts at `w` and is `sep` long, followed by `tail`. */
  lemma PiecesUnfold(s: string, w: nat, sep: nat, tail: string)
    requires w == WordRun(s) < |s| && sep == SeparatorRun(s[w..]) && tail == s[w..][sep..]
    ensures sep > 0 && (tail != [] ==> IsWordChar(tail[0]))
    ensures Pieces(s) == [s[..w]] + Pieces(tail)
    ensures Separators(s) == [s[w..][..sep]] + Separators(tail)
  {
  }

  /** The pieces and the separators of a text give back the text. */
  lemma {:induction false} PiecesDecompose(s: string)
    ensures Decomposes(s, Pieces(s), Separators(s))
    decreases |s|
  {
    var w := WordRun(s);
    if w < |s| {
      var sep := SeparatorRun(s[w..]);
      var tail := s[w..][sep..];
      PiecesUnfold(s, w, sep, tail);
      PiecesDecompose(tail);
      DecomposesCons(tail, Pieces(tail), Separators(tail), s[..w], s[w..][..sep]);
      CutThree(s, w, sep);
    } else {
      assert s[..w] == s;
    }
  }

  /** The first piece and separator of a decomposition are the first ones
      `Pieces` and `Separators` cut off. */
  lemma DecompositionHead(s: string, ps: seq<string>, seps: seq<string>, tail: string)
    requires Decomposes(s, ps, seps) && seps != [] && tail == Interleave(ps[1..], seps[1..])
    ensures Decomposes(tail, ps[1..], seps[1..]) && |tail| < |s|
    ensures Pieces(s) == [ps[0]] + Pieces(tail)
    ensures Separators(s) == [seps[0]] + Separators(tail)
  {
    DecomposesTail(s, ps, seps);
    assert ps[0] + seps[0] + tail == ps[0] + (seps[0] + tail);
    WordRunStops(ps[0], seps[0] + tail);
    JoinThree(ps[0], seps[0], tail);
    SeparatorRunStops(seps[0], tail);
    PiecesUnfold(s, |ps[0]|, |seps[0]|, tail);
  }

  /** A decomposition without separators is the text as its one piece. */
  lemma DecompositionSingle(s: string, ps: seq<string>)
    requires Decomposes(s, ps, [])
    ensures ps == Pieces(s) && [] == Separators(s)
  {
    assert s == ps[0] + [];
    WordRunStops(ps[0], []);
  }

  lemma HeadTail<T>(s: seq<T>)
    requires s != []
    ensures s == [s[0]] + s[1..]
  {
  }

  /** There is only one such decomposition: its pieces are the maximal word
      runs that `Pieces` finds, and its separators the runs between them. */
  lemma {:induction false} DecompositionUnique(s: string, ps: seq<string>, seps: seq<string>)
    requires Decomposes(s, ps, seps)
    ensures ps == Pieces(s) && seps == Separators(s)
    decreases |s|
  {
    if seps == [] {
      DecompositionSingle(s, ps);
    } else {
      var tail := Interleave(ps[1..], seps[1..]);
      DecompositionHead(s, ps, seps, tail);
      DecompositionUnique(tail, ps[1..], seps[1..]);
      HeadTail(ps);
      HeadTail(seps);
    }
  }

  /** `split("\\W+")` returns the pieces of the text's decomposition without
      the trailing empty ones; only the empty text keeps its one empty piece. */
  lemma SplitMeaning(s: string, ps: seq<string>, seps: seq<string>)
    requires Decomposes(s, ps, seps)
    ensures s != [] ==> Split(s) == TrimTrailingEmpty(ps)
    ensures s == [] ==> Split(s) == [""]
  {
    DecompositionUnique(s, ps, seps);
    if AllWord(s) {
      WordRunStops(s, []);
      assert s + [] == s;
    }
  }
}
