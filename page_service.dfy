/** PageService.buildPage: a page of a site, with its path relative to the site url. */
module PageServices {
  import opened Model
  import opened UrlUtils

  /** buildPage: every occurrence of the site url is cut from the page url to give the path. */
  method BuildPage(site: Site, pageUrl: string, statusCode: int, html: string) returns (p: Page)
    ensures fresh(p) && fresh(p.id) && p.id.value == 0
    ensures p.site == site && p.path == ExtractPath(pageUrl, site.url) && p.code == statusCode && p.content == html
  {
    p := new Page(site, ExtractPath(pageUrl, site.url), statusCode, html);
  }
}
