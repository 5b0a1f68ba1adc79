/**
 * The persistent entities Site, Page, Lemma and Index, with the key-only
 * `equals`/`hashCode` that Site, Page and Lemma override.
 *
 * Site is a value: the core changes a site only through its repository
 * (load, set status and error, save), which the store models by replacing
 * the row.  Page, Lemma and IndexEntry are objects: the crawl buffers them,
 * index entries hold references to pages and lemmas, and the batch insert
 * writes the generated id into each object after insertion.
 */
module Model {
  import opened Wrappers

  datatype Status = INDEXING | INDEXED | FAILED

  /** A site; `lastError` is null (None) until the first status update. */
  datatype Site = Site(id: int, url: string, name: string, status: Status, lastError: Option<string>)

  /**
   * The generated-id column of a buffered entity.  It is a separate cell so
   * that one generic batch insert can write the id of pages, lemmas and index
   * entries alike.
   */
  class RowId {
    var value: int

    constructor ()
      ensures value == 0
    {
      value := 0;
    }
  }

  class Page {
    const site: Site
    const path: string
    const code: int
    const content: string
    const id: RowId

    constructor (site: Site, path: string, code: int, content: string)
      ensures this.site == site && this.path == path && this.code == code && this.content == content
      ensures fresh(id) && id.value == 0
    {
      this.site := site;
      this.path := path;
      this.code := code;
      this.content := content;
      this.id := new RowId();
    }
  }

  class Lemma {
    const site: Site
    const text: string
    var frequency: int
    const id: RowId

    constructor (site: Site, text: string, frequency: int)
      ensures this.site == site && this.text == text && this.frequency == frequency
      ensures fresh(id) && id.value == 0
    {
      this.site := site;
      this.text := text;
      this.frequency := frequency;
      this.id := new RowId();
    }
  }

  /** Index.java: an inverted-index posting whose lemma reference can be repointed. */
  class IndexEntry {
    const page: Page
    var lem: Lemma
    const rank: int
    const id: RowId

    constructor (page: Page, lem: Lemma, rank: int)
      ensures this.page == page && this.lem == lem && this.rank == rank
      ensures fresh(id) && id.value == 0
    {
      this.page := page;
      this.lem := lem;
      this.rank := rank;
      this.id := new RowId();
    }
  }

  /** The argument of Java's `equals(Object)`: null, one of the entities, or an object of another class. */
  datatype Obj = Null | SiteObj(site: Site) | PageObj(page: Page) | LemmaObj(lem: Lemma) | OtherObj

  // ---------------------------------------------------------------- equality

  /** Site.equals: the same object, or another Site with the same url and name. */
  function SiteEquals(self: Site, o: Obj): (r: bool)
    ensures r <==> o.SiteObj? && o.site.url == self.url && o.site.name == self.name
  {
    if o == SiteObj(self) then true
    else if !o.SiteObj? then false
    else self.url == o.site.url && self.name == o.site.name
  }

  /** Page.equals: another Page with an equal site and the same path. */
  function PageEquals(self: Page, o: Obj): (r: bool)
    ensures r <==> o.PageObj? && o.page.site.url == self.site.url && o.page.site.name == self.site.name && o.page.path == self.path
  {
    if !o.PageObj? then false
    else SiteEquals(self.site, SiteObj(o.page.site)) && self.path == o.page.path
  }

  /** The fields Lemma.equals looks at; lemmas with equal keys are one HashMap key. */
  datatype LemmaKey = LemmaKey(siteUrl: string, siteName: string, text: string)

  function KeyOf(l: Lemma): LemmaKey {
    LemmaKey(l.site.url, l.site.name, l.text)
  }

  /** Lemma.equals: another Lemma with an equal site and the same lemma text. */
  function LemmaEquals(self: Lemma, o: Obj): (r: bool)
    ensures r <==> o.LemmaObj? && KeyOf(o.lem) == KeyOf(self)
  {
    if !o.LemmaObj? then false
    else SiteEquals(self.site, SiteObj(o.lem.site)) && self.text == o.lem.text
  }

  // ---------------------------------------------------------------- hashing

  const TwoTo32: int := 0x1_0000_0000
  const TwoTo31: int := 0x8000_0000

  /** Java `int` arithmetic: wrap an integer into the signed 32-bit range. */
  function Int32(x: int): (r: int)
    ensures -TwoTo31 <= r < TwoTo31
    ensures (x - r) % TwoTo32 == 0
    ensures -TwoTo31 <= x < TwoTo31 ==> r == x
  {
    ((x + TwoTo31) % TwoTo32) - TwoTo31
  }

  /** String.hashCode: h = 31 * h + c over the characters, in `int` arithmetic. */
  function StringHash(s: string): (h: int)
    ensures -TwoTo31 <= h < TwoTo31
    decreases |s|
  {
    if s == [] then 0 else Int32(31 * StringHash(s[..|s| - 1]) + s[|s| - 1] as int)
  }

  /** Objects.hash(a, b) for two non-null fields with hash codes ha and hb. */
  function ObjectsHash2(ha: int, hb: int): (h: int)
    ensures -TwoTo31 <= h < TwoTo31
  {
    Int32(31 * Int32(31 * 1 + ha) + hb)
  }

  /** Site.hashCode: Objects.hash(url, name), a Java `int`. */
  function SiteHash(s: Site): (h: int)
    ensures -TwoTo31 <= h < TwoTo31
  {
    ObjectsHash2(StringHash(s.url), StringHash(s.name))
  }

  /** Page.hashCode: Objects.hash over the page's site and path, a Java `int`. */
  function PageHash(p: Page): (h: int)
    ensures -TwoTo31 <= h < TwoTo31
  {
    ObjectsHash2(SiteHash(p.site), StringHash(p.path))
  }

  /** Lemma.hashCode: Objects.hash over the lemma's site and text, a Java `int`. */
  function LemmaHash(l: Lemma): (h: int)
    ensures -TwoTo31 <= h < TwoTo31
  {
    ObjectsHash2(SiteHash(l.site), StringHash(l.text))
  }

  // ---------------------------------------------------------------- properties

  /** Two sites are equal iff url and name agree; id, status and lastError play no part. */
  lemma SiteEqualsIff(a: Site, b: Site)
    ensures SiteEquals(a, SiteObj(b)) <==> a.url == b.url && a.name == b.name
  {
  }

  /** A site equals itself and never equals null or an object of another class. */
  lemma SiteEqualsReflexiveAndTyped(a: Site, o: Obj)
    ensures SiteEquals(a, SiteObj(a))
    ensures o.Null? || o.OtherObj? || o.PageObj? || o.LemmaObj? ==> !SiteEquals(a, o)
  {
  }

  /** Equal sites have equal hash codes. */
  lemma SiteHashConsistent(a: Site, b: Site)
    requires SiteEquals(a, SiteObj(b))
    ensures SiteHash(a) == SiteHash(b)
  {
  }

  /** Two pages are equal iff their sites are equal and their paths agree; id, code and content play no part. */
  lemma PageEqualsIff(p: Page, q: Page)
    ensures PageEquals(p, PageObj(q)) <==> p.site.url == q.site.url && p.site.name == q.site.name && p.path == q.path
    ensures PageEquals(p, PageObj(p))
  {
  }

  /** Equal pages have equal hash codes; null or another class is never equal. */
  lemma PageHashConsistent(p: Page, q: Page, o: Obj)
    requires PageEquals(p, PageObj(q))
    ensures PageHash(p) == PageHash(q)
    ensures o.Null? || o.OtherObj? || o.SiteObj? || o.LemmaObj? ==> !PageEquals(p, o)
  {
  }

  /** Two lemmas are equal iff their keys agree; id and frequency play no part. */
  lemma LemmaEqualsIff(a: Lemma, b: Lemma)
    ensures LemmaEquals(a, LemmaObj(b)) <==> KeyOf(a) == KeyOf(b)
    ensures LemmaEquals(a, LemmaObj(a))
  {
  }

  /**
   * Lemmas differing only in frequency (or id) are interchangeable as HashMap
   * keys: equal under equals, equal hash codes.  Null or another class is
   * never equal.
   */
  lemma LemmaKeysInterchangeable(a: Lemma, b: Lemma, o: Obj)
    requires KeyOf(a) == KeyOf(b)
    ensures LemmaEquals(a, LemmaObj(b)) && LemmaEquals(b, LemmaObj(a))
    ensures LemmaHash(a) == LemmaHash(b)
    ensures o.Null? || o.OtherObj? || o.SiteObj? || o.PageObj? ==> !LemmaEquals(a, o)
  {
  }
}
