/**
 * SiteService: a configured site is saved as a new row in status INDEXING
 * with its url normalised; a status update loads the row by id and saves
 * it with the new status and error; a page to index on its own belongs to
 * the first stored site whose url is a prefix of the page url, or else to
 * the first configured site whose normalised url is, which is then saved.
 */
module SiteServices {
  import opened Wrappers
  import opened Model
  import opened Seqs
  import opened UrlUtils
  import opened SitesConfig
  import Store

  /** getSiteOnPagePath: the first stored site whose url is a prefix of the path. */
  function SiteOnPagePath(sites: seq<Site>, path: string): (r: Option<Site>)
    ensures r.None? <==> forall i :: 0 <= i < |sites| ==> !(sites[i].url <= path)
    ensures r.Some? ==> exists i :: 0 <= i < |sites| && sites[i] == r.value && r.value.url <= path &&
                          forall j :: 0 <= j < i ==> !(sites[j].url <= path)
  {
    match FirstWhere(sites, (s: Site) => s.url <= path, 0)
    case None => None
    case Some(i) => Some(sites[i])
  }

  /** The first configured site whose normalised url is a prefix of the path. */
  function ConfiguredSiteFor(sites: seq<SiteFromList>, path: string): (r: Option<SiteFromList>)
    ensures r.None? <==> forall i :: 0 <= i < |sites| ==> !(NormalizeSiteUrl(sites[i].url) <= path)
    ensures r.Some? ==> exists i :: 0 <= i < |sites| && sites[i] == r.value && NormalizeSiteUrl(r.value.url) <= path &&
                          forall j :: 0 <= j < i ==> !(NormalizeSiteUrl(sites[j].url) <= path)
  {
    match FirstWhere(sites, (s: SiteFromList) => NormalizeSiteUrl(s.url) <= path, 0)
    case None => None
    case Some(i) => Some(sites[i])
  }

  /**
   * getSiteForOnePage on the tables `t`: the stored site for the path, with
   * the tables unchanged; else the error of a configuration that does not
   * validate; else the first configured site for the path, saved as a new
   * INDEXING row; else none.  The site comes with the tables it leaves.
   */
  function SiteForPage(t: Store.Tables, config: seq<SiteFromList>, path: string): (r: Result<Option<(Site, Store.Tables)>>)
    ensures r.Success? && r.value.Some? ==> r.value.value.0.url <= path && r.value.value.0 in r.value.value.1.sites
  {
    match SiteOnPagePath(t.sites, path)
    case Some(s) => Success(Some((s, t)))
    case None =>
      if GetSites(config).Failure? then Failure(GetSites(config).error)
      else match ConfiguredSiteFor(config, path)
        case None => Success(None)
        case Some(c) =>
          Success(Some((Store.NewSite(t, NormalizeSiteUrl(c.url), c.name, INDEXING, None),
                        Store.InsertSite(t, NormalizeSiteUrl(c.url), c.name, INDEXING, None))))
  }

  /** A site after updateStatus: the new status and error; id, url and name stay. */
  function WithStatus(s: Site, status: Status, error: string): (r: Site)
    ensures r.id == s.id && r.url == s.url && r.name == s.name
    ensures r.status == status && r.lastError == Some(error)
  {
    s.(status := status, lastError := Some(error))
  }

  /** The sites after a status update of `id`: that row, if any, takes the status and error; no other row changes. */
  ghost predicate StatusSet(before: seq<Site>, after: seq<Site>, id: int, status: Status, error: string) {
    && |after| == |before|
    && forall i :: 0 <= i < |after| ==>
         after[i] == if before[i].id == id then WithStatus(before[i], status, error) else before[i]
  }

  /**
   * With ascending site ids, saving the one site that has the id is a status
   * update of exactly the rows with that id; the other tables stay.
   */
  lemma UpdateStatusSetsStatus(t: Store.Tables, t2: Store.Tables, id: int, status: Status, error: string)
    requires Store.Valid(t)
    requires match Store.SiteById(t.sites, id)
             case None => t2 == t
             case Some(s) => t2 == Store.SaveSite(t, WithStatus(s, status, error))
    ensures StatusSet(t.sites, t2.sites, id, status, error)
    ensures t2 == t.(sites := t2.sites)
  {
    var sites := t.sites;
    assert forall a, b :: 0 <= a < b < |sites| ==> sites[a].id < sites[b].id by {
      assert Store.IdsOk(sites, Store.SiteRowId, t.nextSiteId);
    }
    forall i | 0 <= i < |sites| && sites[i].id == id
      ensures t2.sites[i] == WithStatus(sites[i], status, error)
    {
      var s := Store.SiteById(sites, id).value;
      var k :| 0 <= k < |sites| && sites[k] == s;
      assert sites[k].id == sites[i].id;
    }
  }

  class SiteService {
    const db: Store.Database

    constructor (db: Store.Database)
      ensures this.db == db
    {
      this.db := db;
    }

    /** save: a new row with the normalised url, the name, status INDEXING and no error. */
    method Save(s: SiteFromList) returns (site: Site)
      modifies db
      ensures site == Store.NewSite(old(db.t), NormalizeSiteUrl(s.url), s.name, INDEXING, None)
      ensures db.t == Store.InsertSite(old(db.t), NormalizeSiteUrl(s.url), s.name, INDEXING, None)
    {
      site := Store.NewSite(db.t, NormalizeSiteUrl(s.url), s.name, INDEXING, None);
      db.t := Store.InsertSite(db.t, NormalizeSiteUrl(s.url), s.name, INDEXING, None);
    }

    /** updateStatus: if a site has that id, it takes the status and error; otherwise nothing happens. */
    method UpdateStatus(id: int, status: Status, error: string)
      modifies db
      ensures match Store.SiteById(old(db.t.sites), id)
              case None => db.t == old(db.t)
              case Some(s) => db.t == Store.SaveSite(old(db.t), WithStatus(s, status, error))
    {
      match Store.SiteById(db.t.sites, id)
      case None =>
      case Some(s) =>
        db.t := Store.SaveSite(db.t, WithStatus(s, status, error));
    }

    /**
     * getSiteForOnePage: a stored site for the path if there is one; else the
     * configuration is read (its validation can throw) and the first matching
     * configured site is saved; else null.
     */
    method GetSiteForOnePage(path: string, config: seq<SiteFromList>) returns (r: Result<Option<Site>>)
      modifies db
      ensures SiteOnPagePath(old(db.t.sites), path).Some? ==>
                r == Success(SiteOnPagePath(old(db.t.sites), path)) && db.t == old(db.t)
      ensures SiteOnPagePath(old(db.t.sites), path).None? && GetSites(config).Failure? ==>
                r == Failure(GetSites(config).error) && db.t == old(db.t)
      ensures SiteOnPagePath(old(db.t.sites), path).None? && GetSites(config).Success? ==>
                match ConfiguredSiteFor(config, path)
                case None => r == Success(None) && db.t == old(db.t)
                case Some(c) =>
                  && r == Success(Some(Store.NewSite(old(db.t), NormalizeSiteUrl(c.url), c.name, INDEXING, None)))
                  && db.t == Store.InsertSite(old(db.t), NormalizeSiteUrl(c.url), c.name, INDEXING, None)
    {
      var stored := SiteOnPagePath(db.t.sites, path);
      if stored.Some? {
        return Success(stored);
      }
      var sites := GetSites(config);
      if sites.Failure? {
        return Failure(sites.error);
      }
      match ConfiguredSiteFor(sites.value, path)
      case None =>
        r := Success(None);
      case Some(c) =>
        var saved := Save(c);
        r := Success(Some(saved));
    }

    /** deleteAll. */
    method DeleteAll()
      modifies db
      ensures db.t == Store.ClearSites(old(db.t))
    {
      db.t := Store.ClearSites(db.t);
    }
  }
}
