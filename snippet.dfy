/**
 * SnippetService: the snippet shown under a search result.  The surface
 * words of the page text whose lemma is a query lemma are wrapped as
 * `<b>word</b>` wherever they stand as whole words; the bold spans of the
 * marked-up text are found with the lazy pattern `<b>(.*?)</b>`; the window
 * of 200 characters starts at the first span that has a neighbour within 30
 * characters, or else at the first span; "..." is appended.  Without any
 * span the snippet is the start of the unmarked text.
 *
 * What counts as a word character for the regex `\b` depends on the JDK, so
 * it is the parameter `wordChar`.
 */
module Snippets {
  import opened Wrappers
  import opened Seqs
  import opened Lemmatizer

  const GroupMaxDistance: int := 30
  const SnippetLength: int := 200
  const Ellipsis: string := "..."

  /** The replacement text of one word. */
  function Bold(w: string): string {
    "<b>" + w + "</b>"
  }

  // ---------------------------------------------------------------- marking up

  /** `\b` at position k of s: a word character on exactly one side. */
  predicate Boundary(s: string, k: int, wordChar: char -> bool)
    requires 0 <= k <= |s|
  {
    (k > 0 && wordChar(s[k - 1])) != (k < |s| && wordChar(s[k]))
  }

  /** The pattern `\b` + quoted word + `\b` matches at position k. */
  predicate WholeWordAt(s: string, w: string, k: int, wordChar: char -> bool)
    requires 0 <= k
  {
    k + |w| <= |s| && s[k..k + |w|] == w && Boundary(s, k, wordChar) && Boundary(s, k + |w|, wordChar)
  }

  /**
   * Matcher.replaceAll from position i: the matches are found left to right,
   * each search resuming after the previous match, and each is replaced by
   * the bold word.
   */
  function ReplaceFrom(s: string, w: string, wordChar: char -> bool, i: nat): (r: string)
    requires |w| > 0 && i <= |s|
    ensures |r| >= |s| - i
    decreases |s| - i
  {
    if i == |s| then ""
    else if WholeWordAt(s, w, i, wordChar) then Bold(w) + ReplaceFrom(s, w, wordChar, i + |w|)
    else [s[i]] + ReplaceFrom(s, w, wordChar, i + 1)
  }

  /** Matcher.replaceAll over the whole text: a text without a match is unchanged, and one without '<' comes back under Unbold. */
  function ReplaceWord(s: string, w: string, wordChar: char -> bool): (r: string)
    requires |w| > 0
    ensures |r| >= |s|
    ensures (forall k :: 0 <= k < |s| ==> !WholeWordAt(s, w, k, wordChar)) ==> r == s
    ensures '<' !in s ==> Unbold(r, w) == s
  {
    NoMatchKeepsText(s, w, wordChar, 0);
    if '<' !in s then UnboldReplaceFrom(s, w, wordChar, 0); assert s[0..] == s; ReplaceFrom(s, w, wordChar, 0)
    else ReplaceFrom(s, w, wordChar, 0)
  }

  /** The inverse markup: every `<b>w</b>`, left to right, back to w. */
  function Unbold(s: string, w: string): string
    decreases |s|
  {
    if s == [] then ""
    else if |Bold(w)| <= |s| && s[..|Bold(w)|] == Bold(w) then w + Unbold(s[|Bold(w)|..], w)
    else [s[0]] + Unbold(s[1..], w)
  }

  /** A bold word in front comes back as the word. */
  lemma UnboldBoldHead(w: string, rest: string)
    ensures Unbold(Bold(w) + rest, w) == w + Unbold(rest, w)
  {
    var b := Bold(w);
    var x := b + rest;
    assert x[..|b|] == b && x[|b|..] == rest;
  }

  /** A character other than '<' in front stays as it is. */
  lemma UnboldPlainHead(c: char, rest: string, w: string)
    requires c != '<'
    ensures Unbold([c] + rest, w) == [c] + Unbold(rest, w)
  {
    var b := Bold(w);
    var x := [c] + rest;
    assert |b| <= |x| ==> x[..|b|][0] != b[0];
    assert x[1..] == rest;
  }

  /** Without a match from position i on, nothing is replaced. */
  lemma {:induction false} NoMatchKeepsText(s: string, w: string, wordChar: char -> bool, i: nat)
    requires |w| > 0 && i <= |s|
    ensures (forall k :: i <= k < |s| ==> !WholeWordAt(s, w, k, wordChar)) ==> ReplaceFrom(s, w, wordChar, i) == s[i..]
    decreases |s| - i
  {
    if i < |s| {
      NoMatchKeepsText(s, w, wordChar, i + 1);
      assert s[i..] == [s[i]] + s[i + 1..];
    }
  }

  /**
   * Wrapping loses nothing: in a text without '<', taking the markup of one
   * word off again gives the text back.
   */
  lemma {:induction false} UnboldReplaceFrom(s: string, w: string, wordChar: char -> bool, i: nat)
    requires |w| > 0 && i <= |s| && '<' !in s
    ensures Unbold(ReplaceFrom(s, w, wordChar, i), w) == s[i..]
    decreases |s| - i
  {
    if i < |s| {
      if WholeWordAt(s, w, i, wordChar) {
        UnboldReplaceFrom(s, w, wordChar, i + |w|);
        UnboldBoldHead(w, ReplaceFrom(s, w, wordChar, i + |w|));
        assert s[i..] == s[i..i + |w|] + s[i + |w|..];
      } else {
        UnboldReplaceFrom(s, w, wordChar, i + 1);
        assert s[i] in s;
        UnboldPlainHead(s[i], ReplaceFrom(s, w, wordChar, i + 1), w);
        assert s[i..] == [s[i]] + s[i + 1..];
      }
    }
  }

  /** getCorrectedContent: one replaceAll per word, each on the result of the one before. */
  function CorrectedContent(content: string, words: seq<string>, wordChar: char -> bool): string
    requires forall k :: 0 <= k < |words| ==> |words[k]| > 0
    decreases |words|
  {
    if words == [] then content
    else ReplaceWord(CorrectedContent(content, words[..|words| - 1], wordChar), words[|words| - 1], wordChar)
  }

  method GetCorrectedContent(content: string, words: seq<string>, wordChar: char -> bool) returns (corrected: string)
    requires forall k :: 0 <= k < |words| ==> |words[k]| > 0
    ensures corrected == CorrectedContent(content, words, wordChar)
  {
    corrected := content;
    for i := 0 to |words|
      invariant corrected == CorrectedContent(content, words[..i], wordChar)
    {
      assert words[..i + 1][..i] == words[..i];
      corrected := ReplaceWord(corrected, words[i], wordChar);
    }
    assert words[..|words|] == words;
  }

  // ---------------------------------------------------------------- bold spans

  predicate OpenAt(s: string, k: nat) {
    k + 3 <= |s| && s[k..k + 3] == "<b>"
  }

  predicate CloseAt(s: string, k: nat) {
    k + 4 <= |s| && s[k..k + 4] == "</b>"
  }

  /** What the regex `.` refuses: the line terminators. */
  predicate LineTerminator(c: char) {
    c == '\n' || c == '\r' || c == '\U{0085}' || c == '\U{2028}' || c == '\U{2029}'
  }

  /**
   * The lazy `.*?</b>` from position k: the first `</b>` not preceded by a
   * line terminator on the way, if any.
   */
  function CloseFrom(s: string, k: nat): (r: Option<nat>)
    ensures r.Some? ==> k <= r.value && CloseAt(s, r.value)
    decreases |s| - k
  {
    if k >= |s| then None
    else if CloseAt(s, k) then Some(k)
    else if LineTerminator(s[k]) then None
    else CloseFrom(s, k + 1)
  }

  /** `<b>(.*?)</b>` matches at position i: the end of the match. */
  function MatchAt(s: string, i: nat): (r: Option<nat>)
    ensures r.Some? ==> i + 7 <= r.value <= |s|
  {
    if OpenAt(s, i) then
      match CloseFrom(s, i + 3)
      case None => None
      case Some(j) => Some(j + 4)
    else None
  }

  /** The start and end indices of the successive matches of matcher.find from position pos. */
  function Spans(s: string, pos: nat): (r: (seq<int>, seq<int>))
    ensures |r.0| == |r.1|
    decreases |s| - pos
  {
    if pos >= |s| then ([], [])
    else
      match MatchAt(s, pos)
      case None => Spans(s, pos + 1)
      case Some(e) =>
        var rest := Spans(s, e);
        ([pos] + rest.0, [e] + rest.1)
  }

  /** Each span is a match of the pattern, inside the text, starting at or after pos. */
  predicate SpansWithin(s: string, pos: nat, starts: seq<int>, ends: seq<int>) {
    && |starts| == |ends|
    && (forall k :: 0 <= k < |starts| ==> pos <= starts[k] && starts[k] + 7 <= ends[k] <= |s|)
    && (forall k :: 0 <= k < |starts| ==> MatchAt(s, starts[k] as nat) == Some(ends[k] as nat))
    && (forall k :: 0 <= k < |starts| - 1 ==> ends[k] <= starts[k + 1])
  }

  lemma {:induction false} SpansAreMatches(s: string, pos: nat)
    ensures SpansWithin(s, pos, Spans(s, pos).0, Spans(s, pos).1)
    decreases |s| - pos
  {
    if pos < |s| {
      match MatchAt(s, pos)
      case None =>
        SpansAreMatches(s, pos + 1);
      case Some(e) =>
        SpansAreMatches(s, e);
        var rest := Spans(s, e);
        var r := Spans(s, pos);
        assert r.0 == [pos] + rest.0 && r.1 == [e] + rest.1;
        forall k | 1 <= k < |r.0| ensures r.0[k] == rest.0[k - 1] && r.1[k] == rest.1[k - 1] {
        }
    }
  }

  /** The spans are in order and do not overlap: the start indices strictly increase. */
  lemma SpansIncrease(s: string)
    ensures var r := Spans(s, 0);
            forall i, j :: 0 <= i < j < |r.0| ==> r.1[i] <= r.0[j] && r.0[i] < r.0[j]
  {
    var r := Spans(s, 0);
    SpansAreMatches(s, 0);
    forall i, j | 0 <= i < j < |r.0| ensures r.1[i] <= r.0[j] && r.0[i] < r.0[j] {
      SpansChain(r.0, r.1, i, j);
    }
  }

  lemma {:induction false} SpansChain(starts: seq<int>, ends: seq<int>, i: int, j: int)
    requires |starts| == |ends| && 0 <= i < j < |starts|
    requires forall k :: 0 <= k < |starts| ==> starts[k] < ends[k]
    requires forall k :: 0 <= k < |starts| - 1 ==> ends[k] <= starts[k + 1]
    ensures ends[i] <= starts[j] && starts[i] < starts[j]
    decreases j - i
  {
    if j > i + 1 {
      SpansChain(starts, ends, i + 1, j);
    }
  }

  /** One step of the find loop: no match at pos moves on by one; a match is recorded and the search resumes at its end. */
  lemma SpansStep(s: string, pos: nat)
    requires pos < |s|
    ensures MatchAt(s, pos).None? ==> Spans(s, pos) == Spans(s, pos + 1)
    ensures MatchAt(s, pos).Some? ==>
              var e := MatchAt(s, pos).value;
              Spans(s, pos).0 == [pos] + Spans(s, e).0 && Spans(s, pos).1 == [e] + Spans(s, e).1
  {
  }

  lemma ConcatAssoc<T>(a: seq<T>, b: seq<T>, c: seq<T>)
    ensures a + (b + c) == (a + b) + c && [] + c == c
  {
  }

  /** The matcher.find loop of generateSnippet, collecting start and end indices. */
  method FindSpans(s: string) returns (starts: seq<int>, ends: seq<int>)
    ensures starts == Spans(s, 0).0 && ends == Spans(s, 0).1
    ensures SpansWithin(s, 0, starts, ends)
  {
    starts, ends := [], [];
    var pos := 0;
    ConcatAssoc([], [], Spans(s, 0).0);
    ConcatAssoc([], [], Spans(s, 0).1);
    while pos < |s|
      invariant 0 <= pos <= |s|
      invariant Spans(s, 0).0 == starts + Spans(s, pos).0
      invariant Spans(s, 0).1 == ends + Spans(s, pos).1
      decreases |s| - pos
    {
      SpansStep(s, pos);
      var found := MatchAt(s, pos);
      if found.Some? {
        var e := found.value;
        ConcatAssoc(starts, [pos], Spans(s, e).0);
        ConcatAssoc(ends, [e], Spans(s, e).1);
        starts, ends := starts + [pos], ends + [e];
        pos := e;
      } else {
        pos := pos + 1;
      }
    }
    assert Spans(s, pos).0 == [] && Spans(s, pos).1 == [];
    SpansAreMatches(s, 0);
  }

  // ---------------------------------------------------------------- the window

  /** Span k and span k + 1 are at most 30 characters apart. */
  predicate Close(starts: seq<int>, ends: seq<int>, k: int)
    requires |starts| == |ends| && 0 <= k < |starts| - 1
  {
    starts[k + 1] - ends[k] <= GroupMaxDistance
  }

  /** The first i with a gap of at most 30 from span i to span i + 1. */
  function GroupStart(starts: seq<int>, ends: seq<int>, i: nat): (r: Option<nat>)
    requires |starts| == |ends|
    ensures r.Some? ==> i <= r.value < |starts| - 1 && Close(starts, ends, r.value)
    ensures r.Some? ==> forall k :: i <= k < r.value ==> !Close(starts, ends, k)
    ensures r.None? ==> forall k :: i <= k < |starts| - 1 ==> !Close(starts, ends, k)
    decreases |starts| - i
  {
    if i + 1 >= |starts| then None
    else if starts[i + 1] - ends[i] <= GroupMaxDistance then Some(i)
    else GroupStart(starts, ends, i + 1)
  }

  /**
   * Where the window starts: at the first span of the first pair of
   * neighbouring spans at most 30 characters apart, or else at the first span.
   */
  function WindowStart(starts: seq<int>, ends: seq<int>): (index: int)
    requires |starts| == |ends| && starts != []
    ensures (exists k :: 0 <= k < |starts| - 1 && Close(starts, ends, k)) ==>
              exists k :: 0 <= k < |starts| - 1 && index == starts[k] && Close(starts, ends, k) &&
                          forall j :: 0 <= j < k ==> !Close(starts, ends, j)
    ensures (forall k :: 0 <= k < |starts| - 1 ==> !Close(starts, ends, k)) ==> index == starts[0]
  {
    var group := GroupStart(starts, ends, 0);
    if group.Some? then starts[group.value] else starts[0]
  }

  function Min(a: int, b: int): int { if a <= b then a else b }

  /** The snippet for given spans of the marked-up text. */
  function SnippetOf(starts: seq<int>, ends: seq<int>, content: string, corrected: string): (r: string)
    requires |starts| == |ends|
    requires forall k :: 0 <= k < |starts| ==> 0 <= starts[k] <= |corrected|
  {
    if starts == [] then content[..Min(SnippetLength, |content|)] + Ellipsis
    else
      var index := WindowStart(starts, ends);
      corrected[index..Min(|corrected|, index + SnippetLength)] + Ellipsis
  }

  /**
   * getSnippet: the loop looks for the first close pair; the window starts
   * at its first span, or at the first span when there is none, and takes at
   * most 200 characters of the marked-up text; without spans the start of
   * the unmarked text is taken.  "..." is appended in every case.
   */
  method GetSnippet(starts: seq<int>, ends: seq<int>, content: string, corrected: string) returns (r: string)
    requires |starts| == |ends|
    requires forall k :: 0 <= k < |starts| ==> 0 <= starts[k] <= |corrected|
    ensures starts == [] ==> r == content[..Min(SnippetLength, |content|)] + Ellipsis
    ensures starts != [] ==>
              var index := WindowStart(starts, ends);
              r == corrected[index..Min(|corrected|, index + SnippetLength)] + Ellipsis
  {
    var groupStartIndex := -1;
    var i := 0;
    while i < |starts| - 1
      invariant 0 <= i <= if |starts| == 0 then 0 else |starts| - 1
      invariant groupStartIndex == -1 ==> GroupStart(starts, ends, 0) == GroupStart(starts, ends, i)
      decreases |starts| - i
    {
      if starts[i + 1] - ends[i] <= GroupMaxDistance {
        groupStartIndex := starts[i];
        break;
      }
      i := i + 1;
    }
    var index: int;
    if groupStartIndex != -1 {
      index := groupStartIndex;
    } else if starts != [] {
      index := starts[0];
    } else {
      return content[..Min(SnippetLength, |content|)] + Ellipsis;
    }
    var start := if 0 <= index then index else 0;
    var end := Min(|corrected|, start + SnippetLength);
    r := corrected[start..end] + Ellipsis;
  }

  /** Every snippet ends with "..." and is at most 203 characters long. */
  lemma SnippetBounded(starts: seq<int>, ends: seq<int>, content: string, corrected: string)
    requires |starts| == |ends|
    requires forall k :: 0 <= k < |starts| ==> 0 <= starts[k] <= |corrected|
    ensures var r := SnippetOf(starts, ends, content, corrected);
            |r| <= SnippetLength + |Ellipsis| && |r| >= |Ellipsis| && r[|r| - |Ellipsis|..] == Ellipsis
  {
  }

  // ---------------------------------------------------------------- generateSnippet

  /** The words to mark: the surface words of the text whose lemma is a query lemma. */
  lemma WordsNonEmpty(m: Morph, content: string, queryLemmas: seq<string>)
    ensures var words := FindWordsWithQueryLemmas(m, content, queryLemmas);
            forall k :: 0 <= k < |words| ==> |words[k]| > 0
  {
    var words := FindWordsWithQueryLemmas(m, content, queryLemmas);
    var tokens := Tokens(NormalizeText(content));
    forall k | 0 <= k < |words| ensures |words[k]| > 0 {
      assert words[k] in tokens;
      var j :| 0 <= j < |tokens| && tokens[j] == words[k];
      assert IsWord(tokens[j]);
    }
  }

  function Marked(m: Morph, content: string, queryLemmas: seq<string>, wordChar: char -> bool): string {
    WordsNonEmpty(m, content, queryLemmas);
    CorrectedContent(content, FindWordsWithQueryLemmas(m, content, queryLemmas), wordChar)
  }

  /** The snippet of a page text for the query lemmas. */
  function Snippet(m: Morph, content: string, queryLemmas: seq<string>, wordChar: char -> bool): (r: string)
    ensures |r| <= SnippetLength + |Ellipsis| && |r| >= |Ellipsis| && r[|r| - |Ellipsis|..] == Ellipsis
  {
    var corrected := Marked(m, content, queryLemmas, wordChar);
    var spans := Spans(corrected, 0);
    SpansAreMatches(corrected, 0);
    SnippetBounded(spans.0, spans.1, content, corrected);
    SnippetOf(spans.0, spans.1, content, corrected)
  }

  /** generateSnippet: mark the words, find the bold spans, cut the window. */
  method GenerateSnippet(m: Morph, content: string, queryLemmas: seq<string>, wordChar: char -> bool) returns (r: string)
    ensures r == Snippet(m, content, queryLemmas, wordChar)
    ensures Spans(Marked(m, content, queryLemmas, wordChar), 0).0 == [] ==>
              r == content[..Min(SnippetLength, |content|)] + Ellipsis
  {
    var words := FindWordsWithQueryLemmas(m, content, queryLemmas);
    WordsNonEmpty(m, content, queryLemmas);
    var corrected := GetCorrectedContent(content, words, wordChar);
    var starts, ends := FindSpans(corrected);
    r := GetSnippet(starts, ends, content, corrected);
  }

  /** A text in which no query word occurs and no bold tag stands gets the start of the text as its snippet. */
  lemma NoMatchKeepsPlainStart(m: Morph, content: string, queryLemmas: seq<string>, wordChar: char -> bool)
    requires FindWordsWithQueryLemmas(m, content, queryLemmas) == []
    requires forall i :: 0 <= i < |content| ==> !OpenAt(content, i)
    ensures Snippet(m, content, queryLemmas, wordChar) == content[..Min(SnippetLength, |content|)] + Ellipsis
  {
    NoOpenNoSpans(content, 0);
  }

  lemma {:induction false} NoOpenNoSpans(s: string, pos: nat)
    requires forall i :: 0 <= i < |s| ==> !OpenAt(s, i)
    ensures Spans(s, pos).0 == []
    decreases |s| - pos
  {
    if pos < |s| {
      NoOpenNoSpans(s, pos + 1);
    }
  }
}
