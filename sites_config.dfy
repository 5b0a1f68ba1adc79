/** SitesListConfig: the configured site list and its validation on every read. */
module SitesConfig {
  import opened Wrappers

  /** One configured site: a base URL and a display name. */
  datatype SiteFromList = SiteFromList(url: string, name: string)

  const EmptyListError: string := "The list of sites cannot be empty."
  const BlankFieldError: string := "The field with the site name or URL is empty."

  /** Java's Character.isWhitespace on a code point. */
  predicate IsJavaWhitespace(c: char) {
    ('\U{0009}' <= c <= '\U{000D}') || ('\U{001C}' <= c <= '\U{0020}')
    || c == '\U{1680}' || ('\U{2000}' <= c <= '\U{2006}') || ('\U{2008}' <= c <= '\U{200A}')
    || c == '\U{2028}' || c == '\U{2029}' || c == '\U{205F}' || c == '\U{3000}'
  }

  /** Java's String.isBlank: empty, or white space only. */
  predicate IsBlank(s: string) {
    forall i :: 0 <= i < |s| ==> IsJavaWhitespace(s[i])
  }

  /** An entry the validation rejects. */
  predicate HasBlankField(s: SiteFromList) {
    IsBlank(s.name) || IsBlank(s.url)
  }

  /** The `anyMatch` scan over the list, front to back. */
  function AnyBlankEntry(sites: seq<SiteFromList>): (b: bool)
    ensures b <==> exists i :: 0 <= i < |sites| && HasBlankField(sites[i])
  {
    if sites == [] then false
    else if HasBlankField(sites[0]) then true
    else
      var rest := AnyBlankEntry(sites[1..]);
      assert forall i :: 1 <= i < |sites| ==> sites[i] == sites[1..][i - 1];
      rest
  }

  /**
   * SitesListConfig.getSites: the empty-list check runs first, then the
   * blank-field check; a valid list is handed back unchanged.
   */
  function GetSites(sites: seq<SiteFromList>): (r: Result<seq<SiteFromList>>)
    ensures r.Success? <==> |sites| > 0 && forall i :: 0 <= i < |sites| ==> !HasBlankField(sites[i])
    ensures r.Success? ==> r.value == sites
    ensures |sites| == 0 ==> r == Failure(EmptyListError)
    ensures (exists i :: 0 <= i < |sites| && HasBlankField(sites[i])) ==> r.Failure?
    ensures |sites| > 0 && r.Failure? ==> r == Failure(BlankFieldError)
  {
    if |sites| == 0 then Failure(EmptyListError)
    else if AnyBlankEntry(sites) then Failure(BlankFieldError)
    else Success(sites)
  }
}
