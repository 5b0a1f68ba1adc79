/** A crawl-tree node: the page URL a task visits, its site, and the child nodes created for its links. */
module Nodes {
  import opened Model

  /** The user agent and referrer sent with every crawl request. */
  datatype AgentConfig = AgentConfig(userAgent: string, referer: string)

  class Node {
    const config: AgentConfig
    const site: Site
    const parentUrl: string
    var children: seq<Node>

    /** A new node has no children. */
    constructor (config: AgentConfig, site: Site, parentUrl: string)
      ensures this.config == config && this.site == site && this.parentUrl == parentUrl
      ensures children == []
    {
      this.config := config;
      this.site := site;
      this.parentUrl := parentUrl;
      children := [];
    }

    /** Appends a child at the end; the existing children keep their order. */
    method AddChildren(node: Node)
      modifies this
      ensures children == old(children) + [node]
    {
      children := children + [node];
    }
  }
}
