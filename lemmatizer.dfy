/**
 * The lemmatizer: fold ё to е, split the text into runs of Cyrillic letters,
 * lowercase each run, map it to its first normal form through the morphology
 * dictionary, drop service parts of speech and short lemmas, and count.
 *
 * The Russian morphology dictionary is not modelled: it is a parameter
 * (`Morph`) with two uninterpreted lookups, `normalForms` (never empty) and
 * `morphInfo`.
 */
module Lemmatizer {
  import UrlUtils
  import opened Seqs

  datatype Morphology = Morphology(normalForms: string -> seq<string>, morphInfo: string -> seq<string>)

  /** A morphology whose `normalForms` is never empty, so `.get(0)` always succeeds. */
  type Morph = m: Morphology | forall w: string :: |m.normalForms(w)| > 0
    witness Morphology(w => [w], w => [])

  /** The parts of speech that never become lemmas: interjection, conjunction, preposition, particle. */
  const ServiceParts: seq<string> := ["МЕЖД", "СОЮЗ", "ПРЕДЛ", "ЧАСТ"]

  /** The minimum length of a kept lemma. */
  const MinLemmaLength: nat := 3

  // ---------------------------------------------------------------- text

  function FoldYo(c: char): char {
    if c == 'ё' then 'е' else if c == 'Ё' then 'Е' else c
  }

  /** normalizeText: every ё becomes е and every Ё becomes Е; nothing else changes. */
  function NormalizeText(s: string): (r: string)
    ensures |r| == |s|
    ensures forall i :: 0 <= i < |s| ==> r[i] == FoldYo(s[i])
    ensures forall i :: 0 <= i < |r| ==> r[i] != 'ё' && r[i] != 'Ё'
    decreases |s|
  {
    if s == [] then [] else [FoldYo(s[0])] + NormalizeText(s[1..])
  }

  /** The character class [а-яА-ЯёЁ] of the word pattern. */
  predicate IsWordChar(c: char) {
    ('а' <= c <= 'я') || ('А' <= c <= 'Я') || c == 'ё' || c == 'Ё'
  }

  predicate IsWord(w: string) {
    |w| > 0 && forall i :: 0 <= i < |w| ==> IsWordChar(w[i])
  }

  /** The length of the run of word characters at the start of `s`. */
  function RunLength(s: string): (n: nat)
    ensures n <= |s|
    ensures forall i :: 0 <= i < n ==> IsWordChar(s[i])
    ensures n < |s| ==> !IsWordChar(s[n])
    decreases |s|
  {
    if s == [] || !IsWordChar(s[0]) then 0 else 1 + RunLength(s[1..])
  }

  /** The successive matches of the greedy pattern [а-яА-ЯёЁ]+: the maximal runs of word characters. */
  function Tokens(s: string): (ts: seq<string>)
    ensures forall k :: 0 <= k < |ts| ==> IsWord(ts[k])
    decreases |s|
  {
    if s == [] then []
    else if !IsWordChar(s[0]) then Tokens(s[1..])
    else
      var n := RunLength(s);
      [s[..n]] + Tokens(s[n..])
  }

  /** Java's toLowerCase on the Cyrillic alphabet: А-Я map to а-я, Ё to ё. */
  function LowerChar(c: char): char {
    if 'А' <= c <= 'Я' then (c as int + 32) as char
    else if c == 'Ё' then 'ё'
    else c
  }

  function ToLower(s: string): (r: string)
    ensures |r| == |s|
    ensures forall i :: 0 <= i < |s| ==> r[i] == LowerChar(s[i])
    decreases |s|
  {
    if s == [] then [] else [LowerChar(s[0])] + ToLower(s[1..])
  }

  // ---------------------------------------------------------------- morphology

  /** The first normal form of a word: `getNormalForms(word).get(0)`. */
  function NormalForm(m: Morph, word: string): string {
    m.normalForms(word)[0]
  }

  /** String.contains. */
  predicate Contains(s: string, part: string) {
    exists i :: 0 <= i <= |s| && UrlUtils.OccursAt(s, part, i)
  }

  /** isServicePartOfSpeech: some morphology info string of `word` contains a service tag. */
  predicate IsServicePart(m: Morph, word: string) {
    exists info :: info in m.morphInfo(word) && exists p :: p in ServiceParts && Contains(info, p)
  }

  /** A conjunction: the info string `и|a СОЮЗ` carries the tag `СОЮЗ`, so the word is dropped. */
  lemma ConjunctionIsServicePart(m: Morph, word: string)
    requires "и|a СОЮЗ" in m.morphInfo(word)
    ensures IsServicePart(m, word)
    ensures !Kept(m, word)
  {
    assert UrlUtils.OccursAt("и|a СОЮЗ", "СОЮЗ", 4);
    assert "СОЮЗ" in ServiceParts;
  }

  /** A part whose first character `s` lacks occurs nowhere in `s`. */
  lemma FirstCharAbsent(s: string, part: string)
    requires |part| > 0 && part[0] !in s
    ensures !Contains(s, part)
  {
    forall i | 0 <= i <= |s| ensures !UrlUtils.OccursAt(s, part, i) {
      assert i + |part| <= |s| ==> s[i..i + |part|][0] == s[i];
    }
  }

  /**
   * A word none of whose info strings holds the first letter of a service tag
   * (М, С, П, Ч), such as an adverb tagged `быстро|a Н`, is not a service part.
   */
  lemma NoTagLetterNoServicePart(m: Morph, word: string)
    requires forall info :: info in m.morphInfo(word) ==> 'М' !in info && 'С' !in info && 'П' !in info && 'Ч' !in info
    ensures !IsServicePart(m, word)
    ensures |word| >= MinLemmaLength ==> Kept(m, word)
  {
    forall info, p | info in m.morphInfo(word) && p in ServiceParts ensures !Contains(info, p) {
      FirstCharAbsent(info, p);
    }
  }

  /** The two filters of both pipelines, applied to a normal form. */
  predicate Kept(m: Morph, l: string) {
    !IsServicePart(m, l) && |l| >= MinLemmaLength
  }

  function LemmaOf(m: Morph, token: string): string {
    NormalForm(m, ToLower(token))
  }

  /** The normal forms of the surviving tokens, in text order, repetitions included. */
  function Survivors(m: Morph, tokens: seq<string>): (ls: seq<string>)
    ensures |ls| <= |tokens|
    ensures forall k :: 0 <= k < |ls| ==> Kept(m, ls[k])
    ensures forall j :: 0 <= j < |tokens| && Kept(m, LemmaOf(m, tokens[j])) ==> LemmaOf(m, tokens[j]) in ls
    decreases |tokens|
  {
    if tokens == [] then []
    else
      var rest := Survivors(m, tokens[1..]);
      var l := LemmaOf(m, tokens[0]);
      assert forall j :: 1 <= j < |tokens| ==> tokens[j] == tokens[1..][j - 1];
      if Kept(m, l) then [l] + rest else rest
  }

  /** The normal form of every token, in order, before any filter. */
  function LemmasOfTokens(m: Morph, tokens: seq<string>): (ls: seq<string>)
    ensures |ls| == |tokens|
    decreases |tokens|
  {
    if tokens == [] then [] else [LemmaOf(m, tokens[0])] + LemmasOfTokens(m, tokens[1..])
  }

  /** The two filters as one test on a normal form. */
  function KeptBy(m: Morph): string -> bool {
    l => Kept(m, l)
  }

  /**
   * The surviving lemmas are the normal forms of the tokens, filtered by the
   * two tests, in order: nothing is invented, reordered or dropped otherwise.
   */
  lemma {:induction false} SurvivorsAreFiltered(m: Morph, tokens: seq<string>)
    ensures Survivors(m, tokens) == Filter(LemmasOfTokens(m, tokens), KeptBy(m))
    decreases |tokens|
  {
    if tokens != [] {
      var ls := LemmasOfTokens(m, tokens);
      assert ls[0] == LemmaOf(m, tokens[0]) && ls[1..] == LemmasOfTokens(m, tokens[1..]);
      SurvivorsAreFiltered(m, tokens[1..]);
    }
  }

  /** The surviving lemmas of a text, in text order. */
  function LemmaList(m: Morph, text: string): seq<string> {
    Survivors(m, Tokens(NormalizeText(text)))
  }

  // ---------------------------------------------------------------- counting

  /** Collectors.toMap(lemma -> lemma, lemma -> 1, Integer::sum): the number of occurrences of each element. */
  function Counts(xs: seq<string>): (r: map<string, nat>)
    ensures forall w :: w in r <==> w in multiset(xs)
    ensures forall w :: w in r ==> r[w] == multiset(xs)[w] && r[w] >= 1
    decreases |xs|
  {
    if xs == [] then map[]
    else
      var init := xs[..|xs| - 1];
      var w := xs[|xs| - 1];
      assert xs == init + [w];
      var r := Counts(init);
      r[w := if w in r then r[w] + 1 else 1]
  }

  /** createLemmaMap: each kept lemma of the text with its number of occurrences. */
  function CreateLemmaMap(m: Morph, text: string): (r: map<string, nat>)
    ensures forall l :: l in r ==> Kept(m, l) && r[l] == multiset(LemmaList(m, text))[l] && r[l] >= 1
    ensures forall l :: l in r <==> l in LemmaList(m, text)
  {
    Counts(LemmaList(m, text))
  }

  /** The order in which the model walks the entries of a lemma map: first occurrence in the text. */
  function LemmaOrder(m: Morph, text: string): (keys: seq<string>)
    ensures Distinct(keys)
    ensures forall l :: l in keys <==> l in CreateLemmaMap(m, text)
  {
    Dedup(LemmaList(m, text))
  }

  /** findWordsWithQueryLemmas: the distinct surface words (after the ё fold) whose kept lemma is a query lemma. */
  function FindWordsWithQueryLemmas(m: Morph, content: string, queryLemmas: seq<string>): (words: seq<string>)
    ensures Distinct(words)
    ensures forall w :: w in words <==>
      w in Tokens(NormalizeText(content)) && Kept(m, LemmaOf(m, w)) && LemmaOf(m, w) in queryLemmas
  {
    Dedup(QueryMatches(m, Tokens(NormalizeText(content)), queryLemmas))
  }

  function QueryMatches(m: Morph, tokens: seq<string>, queryLemmas: seq<string>): (ws: seq<string>)
    ensures forall w :: w in ws <==> w in tokens && Kept(m, LemmaOf(m, w)) && LemmaOf(m, w) in queryLemmas
    decreases |tokens|
  {
    if tokens == [] then []
    else
      var rest := QueryMatches(m, tokens[1..], queryLemmas);
      var t := tokens[0];
      assert forall w :: w in tokens <==> w == t || w in tokens[1..];
      if Kept(m, LemmaOf(m, t)) && LemmaOf(m, t) in queryLemmas then [t] + rest else rest
  }

  // ---------------------------------------------------------------- properties

  /** A run of word characters followed by a non-word character, or by nothing, is the whole leading run. */
  lemma {:induction false} RunLengthOfRun(w: string, t: string)
    requires forall i :: 0 <= i < |w| ==> IsWordChar(w[i])
    requires t == [] || !IsWordChar(t[0])
    ensures RunLength(w + t) == |w|
    decreases |w|
  {
    if w != [] {
      assert (w + t)[0] == w[0];
      assert (w + t)[1..] == w[1..] + t;
      RunLengthOfRun(w[1..], t);
    }
  }

  /** Splitting: a non-word character separates the tokens of the text before it from those after it. */
  lemma {:induction false} TokensSplit(x: string, c: char, y: string)
    requires !IsWordChar(c)
    ensures Tokens(x + [c] + y) == Tokens(x) + Tokens(y)
    decreases |x|
  {
    var s := x + [c] + y;
    if x == [] {
      assert s[1..] == y;
    } else if !IsWordChar(x[0]) {
      assert s[0] == x[0];
      assert s[1..] == x[1..] + [c] + y;
      TokensSplit(x[1..], c, y);
    } else {
      var n := RunLength(x);
      var w, t := x[..n], x[n..] + [c] + y;
      assert s == w + t;
      assert t[0] == if n < |x| then x[n] else c;
      RunLengthOfRun(w, t);
      assert s[..n] == w && s[n..] == t;
      TokensSplit(x[n..], c, y);
    }
  }

  /** A whole word is a single token. */
  lemma {:induction false} TokensOfWord(w: string)
    requires IsWord(w)
    ensures Tokens(w) == [w]
  {
    assert RunLength(w) == |w|;
    assert w[..|w|] == w;
    assert w[|w|..] == [];
  }

  /** The tokens of a text are exactly its words: a text without word characters has none. */
  lemma {:induction false} TokensOfNonWords(s: string)
    requires forall i :: 0 <= i < |s| ==> !IsWordChar(s[i])
    ensures Tokens(s) == []
    decreases |s|
  {
    if s != [] {
      TokensOfNonWords(s[1..]);
    }
  }

  /** A text containing no Cyrillic letter yields an empty lemma map. */
  lemma NoCyrillicNoLemmas(m: Morph, text: string)
    requires forall i :: 0 <= i < |text| ==> !IsWordChar(text[i])
    ensures CreateLemmaMap(m, text) == map[]
  {
    var t := NormalizeText(text);
    assert forall i :: 0 <= i < |t| ==> !IsWordChar(t[i]);
    TokensOfNonWords(t);
  }

  /** No token, and so no surface word returned for a query, contains ё or Ё. */
  lemma {:induction false} TokensHaveNoYo(s: string)
    requires forall i :: 0 <= i < |s| ==> s[i] != 'ё' && s[i] != 'Ё'
    ensures forall k, i :: 0 <= k < |Tokens(s)| && 0 <= i < |Tokens(s)[k]| ==> Tokens(s)[k][i] != 'ё' && Tokens(s)[k][i] != 'Ё'
    decreases |s|
  {
    if s != [] {
      if !IsWordChar(s[0]) {
        TokensHaveNoYo(s[1..]);
      } else {
        var n := RunLength(s);
        TokensHaveNoYo(s[n..]);
        assert Tokens(s) == [s[..n]] + Tokens(s[n..]);
      }
    }
  }

  /** The total of the counts over the distinct lemmas is the number of surviving tokens. */
  function SumOver(keys: seq<string>, r: map<string, nat>): nat
    requires forall k :: k in keys ==> k in r
  {
    if keys == [] then 0 else r[keys[0]] + SumOver(keys[1..], r)
  }

  lemma {:induction false} SumOverUnchanged(keys: seq<string>, r: map<string, nat>, w: string, v: nat)
    requires forall k :: k in keys ==> k in r
    requires w !in keys
    ensures SumOver(keys, r[w := v]) == SumOver(keys, r)
  {
    if keys != [] {
      SumOverUnchanged(keys[1..], r, w, v);
    }
  }

  lemma {:induction false} SumOverIncrement(keys: seq<string>, r: map<string, nat>, w: string)
    requires forall k :: k in keys ==> k in r
    requires Distinct(keys) && w in keys
    ensures SumOver(keys, r[w := r[w] + 1]) == SumOver(keys, r) + 1
  {
    if keys[0] == w {
      assert w !in keys[1..];
      SumOverUnchanged(keys[1..], r, w, r[w] + 1);
    } else {
      SumOverIncrement(keys[1..], r, w);
    }
  }

  lemma {:induction false} SumOverAppend(keys: seq<string>, r: map<string, nat>, w: string)
    requires forall k :: k in keys ==> k in r
    requires w !in keys
    ensures SumOver(keys + [w], r[w := 1]) == SumOver(keys, r) + 1
  {
    if keys == [] {
    } else {
      assert (keys + [w])[1..] == keys[1..] + [w];
      SumOverAppend(keys[1..], r, w);
    }
  }

  lemma {:induction false} CountsSum(xs: seq<string>)
    ensures SumOver(Dedup(xs), Counts(xs)) == |xs|
    decreases |xs|
  {
    if xs != [] {
      var init := xs[..|xs| - 1];
      var w := xs[|xs| - 1];
      assert xs == init + [w];
      CountsSum(init);
      var r := Counts(init);
      var d := Dedup(init);
      if w in d {
        SumOverIncrement(d, r, w);
      } else {
        SumOverAppend(d, r, w);
      }
    }
  }

  /** The values of createLemmaMap sum to the number of surviving tokens. */
  lemma LemmaMapTotal(m: Morph, text: string)
    ensures SumOver(LemmaOrder(m, text), CreateLemmaMap(m, text)) == |LemmaList(m, text)|
  {
    CountsSum(LemmaList(m, text));
  }
}
