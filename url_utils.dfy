/**
 * The two string rewrites of UrlUtils: normalising a configured site URL and
 * extracting a page path from a full URL.  Both are Java `String.replace` /
 * `replaceAll` calls, modelled on `string = seq<char>`.
 */
module UrlUtils {

  /** `pat` occurs in `s` starting at index `i`. */
  predicate OccursAt(s: string, pat: string, i: int) {
    0 <= i && i + |pat| <= |s| && s[i..i + |pat|] == pat
  }

  /** `pat` occurs nowhere in `s`. */
  predicate NoOccurrence(s: string, pat: string) {
    forall i :: 0 <= i <= |s| - |pat| ==> !OccursAt(s, pat, i)
  }

  /**
   * Java's `s.replace(pat, "")`: scans left to right and deletes every
   * non-overlapping occurrence of `pat`; an empty `pat` leaves `s` unchanged.
   */
  function RemoveAll(s: string, pat: string): (r: string)
    ensures |r| <= |s|
    ensures |pat| > 0 && |s| >= |pat| && s[..|pat|] == pat ==> |r| <= |s| - |pat|
    decreases |s|
  {
    if pat == [] || |s| < |pat| then s
    else if s[..|pat|] == pat then RemoveAll(s[|pat|..], pat)
    else [s[0]] + RemoveAll(s[1..], pat)
  }

  /** Java's `s.replaceAll("/$", "")` on a string without line terminators: drops one final '/'. */
  function StripTrailingSlash(s: string): (r: string)
  {
    if |s| > 0 && s[|s| - 1] == '/' then s[..|s| - 1] else s
  }

  /** UrlUtils.normalizeSiteUrl */
  function NormalizeSiteUrl(url: string): (r: string)
    ensures |r| <= |url|
    ensures exists t :: RemoveAll(url, "www.") == r + t && (t == "" || t == "/")
    ensures |r| > 0 && r[|r| - 1] == '/' ==> RemoveAll(url, "www.") == r + "/"
  {
    var cleaned := RemoveAll(url, "www.");
    var r := StripTrailingSlash(cleaned);
    assert |r| > 0 && r[|r| - 1] == '/' ==> cleaned == r + "/" by {
      if cleaned != r { assert cleaned == r + "/"; }
    }
    assert cleaned == r + "" || cleaned == r + "/";
    r
  }

  /** UrlUtils.extractPath: every occurrence of the base URL is removed, not only a leading one. */
  function ExtractPath(fullUrl: string, siteBaseUrl: string): (r: string)
    ensures |r| <= |fullUrl|
  {
    RemoveAll(fullUrl, siteBaseUrl)
  }

  /** A string without any occurrence of `pat` is left unchanged by removal. */
  lemma {:induction false} RemoveAllNoOccurrence(s: string, pat: string)
    requires NoOccurrence(s, pat)
    ensures RemoveAll(s, pat) == s
    decreases |s|
  {
    if pat != [] && |s| >= |pat| {
      assert !OccursAt(s, pat, 0);
      assert s[..|pat|] != pat;
      forall i | 0 <= i <= |s[1..]| - |pat|
        ensures !OccursAt(s[1..], pat, i)
      {
        assert !OccursAt(s, pat, i + 1);
        assert s[1..][i..i + |pat|] == s[i + 1..i + 1 + |pat|];
      }
      RemoveAllNoOccurrence(s[1..], pat);
      assert s == [s[0]] + s[1..];
    }
  }

  /**
   * Removal is not limited to a leading occurrence: when no occurrence of
   * `pat` starts inside `x`, the occurrence right after `x` is deleted and
   * scanning resumes behind it.
   */
  lemma {:induction false} RemoveAllAfter(x: string, pat: string, y: string)
    requires |pat| > 0
    requires forall i :: 0 <= i < |x| ==> !OccursAt(x + pat + y, pat, i)
    ensures RemoveAll(x + pat + y, pat) == x + RemoveAll(y, pat)
    decreases |x|
  {
    if |x| == 0 {
      RemoveAllLeading(pat, y);
      assert x + pat + y == pat + y;
    } else {
      var x' := x[1..];
      var t := x' + pat + y;
      assert x + pat + y == [x[0]] + t;
      RemoveAllKeepsFirst(x[0], t, pat);
      NoEarlierOccurrenceTail(x[0], t, pat, |x'|);
      RemoveAllAfter(x', pat, y);
      assert x == [x[0]] + x';
    }
  }

  /** No occurrence starts among the first `n + 1` positions of `[c] + t`, so none among the first `n` of `t`. */
  lemma NoEarlierOccurrenceTail(c: char, t: string, pat: string, n: nat)
    requires forall i :: 0 <= i < n + 1 ==> !OccursAt([c] + t, pat, i)
    ensures forall i :: 0 <= i < n ==> !OccursAt(t, pat, i)
  {
    forall i | 0 <= i < n
      ensures !OccursAt(t, pat, i)
    {
      assert !OccursAt([c] + t, pat, i + 1);
      if i + |pat| <= |t| {
        assert t[i..i + |pat|] == ([c] + t)[i + 1..i + 1 + |pat|];
      }
    }
  }

  /** A leading occurrence is deleted. */
  lemma RemoveAllLeading(pat: string, y: string)
    requires |pat| > 0
    ensures RemoveAll(pat + y, pat) == RemoveAll(y, pat)
  {
    assert (pat + y)[..|pat|] == pat;
    assert (pat + y)[|pat|..] == y;
  }

  /** A first character that starts no occurrence is kept. */
  lemma RemoveAllKeepsFirst(c: char, t: string, pat: string)
    requires |pat| > 0 && !OccursAt([c] + t, pat, 0)
    ensures RemoveAll([c] + t, pat) == [c] + RemoveAll(t, pat)
  {
    var s := [c] + t;
    if |s| >= |pat| {
      assert s[0..|pat|] == s[..|pat|];
    }
    assert s[1..] == t;
  }

  /** extractPath(base + p, base) == p when p holds no occurrence of base. */
  lemma ExtractPathOfChild(base: string, p: string)
    requires NoOccurrence(p, base)
    ensures ExtractPath(base + p, base) == p
  {
    if base == [] {
      assert base + p == p;
    } else {
      RemoveAllAfter([], base, p);
      assert [] + base + p == base + p;
      RemoveAllNoOccurrence(p, base);
    }
  }

  /** extractPath(base, base) is the empty path. */
  lemma ExtractPathOfRoot(base: string)
    ensures ExtractPath(base, base) == ""
  {
    if base != [] {
      assert NoOccurrence("", base);
      ExtractPathOfChild(base, "");
      assert base + "" == base;
    }
  }

  /** A URL holding no "www." and no trailing '/' is already normal. */
  lemma NormalizeIdentity(url: string)
    requires NoOccurrence(url, "www.")
    requires |url| == 0 || url[|url| - 1] != '/'
    ensures NormalizeSiteUrl(url) == url
  {
    RemoveAllNoOccurrence(url, "www.");
  }

  /** Normalisation deletes inner "www." occurrences too, not only a leading one. */
  lemma NormalizeDropsInnerWww(x: string, y: string)
    requires forall i :: 0 <= i < |x| ==> !OccursAt(x + "www." + y, "www.", i)
    requires NoOccurrence(y, "www.")
    requires |y| > 0 && y[|y| - 1] != '/'
    ensures NormalizeSiteUrl(x + "www." + y) == x + y
  {
    RemoveAllAfter(x, "www.", y);
    RemoveAllNoOccurrence(y, "www.");
    assert (x + y)[|x + y| - 1] == y[|y| - 1];
  }
}
