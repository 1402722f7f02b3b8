/** The entities the extraction service produces and the flattener consumes. */
module Records {
  import opened Wrappers

  /** One question or answer on a page, as the extraction service returns it. A key
      the service left out of the dictionary is `None`. */
  datatype Interaction = Interaction(
    username: Option<string>,
    bio: Option<string>,
    postType: Option<string>,
    timestamp: Option<string>,
    upvotes: Option<int>,
    links: Option<seq<string>>)

  /** `{"website_url": url, "user_info": interactions}`: the interactions found on one page. */
  datatype Page = Page(websiteUrl: string, userInfo: seq<Interaction>)
}
