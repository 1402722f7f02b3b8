/** How the stages feed each other: the searched URLs go to extraction, whose pages
    go to the flattener. */
module Pipeline {
  import opened Records
  import opened Flatten
  import opened Extraction

  /** Flattening pages whose URLs are all in `urls` gives records whose URLs are too. */
  lemma {:induction false} RecordsKeepPageUrls(pages: seq<Page>, urls: seq<string>)
    requires forall pg :: pg in pages ==> pg.websiteUrl in urls
    ensures forall r :: r in Flattened(pages) ==> r.websiteUrl in urls
  {
    FlattenedUrls(pages);
    forall r | r in Flattened(pages) ensures r.websiteUrl in urls {
      var p :| 0 <= p < |pages| && r.websiteUrl == pages[p].websiteUrl;
      assert pages[p] in pages;
    }
  }

  /** No exported record refers to a URL that was not handed to extraction, with or
      without per-URL isolation. */
  lemma RecordsReferToSearchedUrls(urls: seq<string>, replies: seq<ExtractReply>)
    requires |replies| == |urls|
    ensures forall r :: r in Flattened(ExtractFrom(urls, replies, 0)) ==> r.websiteUrl in urls
    ensures forall r :: r in Flattened(ExtractIsolatedFrom(urls, replies, 0)) ==> r.websiteUrl in urls
  {
    ExtractedPages(urls, replies);
    RecordsKeepPageUrls(ExtractFrom(urls, replies, 0), urls);
    RecordsKeepPageUrls(ExtractIsolatedFrom(urls, replies, 0), urls);
  }

  /** Two URLs; the first yields three interactions, the second none: three records,
      all for the first URL. */
  lemma TwoUrlScenario(a: string, b: string, i1: Interaction, i2: Interaction, i3: Interaction)
    ensures var pages := ExtractFrom([a, b], [Replied(true, Completed, [i1, i2, i3]), Replied(true, Completed, [])], 0);
            |Flattened(pages)| == 3 && forall r :: r in Flattened(pages) ==> r.websiteUrl == a
    ensures ExtractIsolatedFrom([a, b], [Replied(true, Completed, [i1, i2, i3]), Replied(true, Completed, [])], 0) ==
            ExtractFrom([a, b], [Replied(true, Completed, [i1, i2, i3]), Replied(true, Completed, [])], 0)
  {
    var urls := [a, b];
    var replies := [Replied(true, Completed, [i1, i2, i3]), Replied(true, Completed, [])];
    var pages := ExtractFrom(urls, replies, 0);
    assert ExtractFrom(urls, replies, 1) == [];
    assert ExtractIsolatedFrom(urls, replies, 2) == [];
    assert ExtractIsolatedFrom(urls, replies, 1) == [];
    assert pages == [Page(a, [i1, i2, i3])];
    assert pages[..0] == [];
    FlattenedLength(pages);
    FlattenedUrls(pages);
  }
}
