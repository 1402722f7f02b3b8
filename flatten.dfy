/** `format_user_info_to_flattened_json`: one flat record per interaction, page by page. */
module Flatten {
  import opened Wrappers
  import opened Text
  import opened Records

  /** The delimiter that joins an interaction's links into one cell. */
  const LinkSeparator: string := ", "

  /** One row of the exported table: Website URL, Username, Bio, Post Type,
      Timestamp, Upvotes, Links. */
  datatype FlatRecord = FlatRecord(
    websiteUrl: string,
    username: string,
    bio: string,
    postType: string,
    timestamp: string,
    upvotes: int,
    links: string)

  /** The record for one interaction on the page at `url`: absent text fields become
      "", absent upvotes 0, absent links the empty list; present values are copied. */
  function FlatRecordOf(url: string, i: Interaction): (r: FlatRecord)
    ensures r.websiteUrl == url
    ensures i.username.None? ==> r.username == ""
    ensures i.username.Some? ==> r.username == i.username.value
    ensures i.bio.None? ==> r.bio == ""
    ensures i.bio.Some? ==> r.bio == i.bio.value
    ensures i.postType.None? ==> r.postType == ""
    ensures i.postType.Some? ==> r.postType == i.postType.value
    ensures i.timestamp.None? ==> r.timestamp == ""
    ensures i.timestamp.Some? ==> r.timestamp == i.timestamp.value
    ensures i.upvotes.None? ==> r.upvotes == 0
    ensures i.upvotes.Some? ==> r.upvotes == i.upvotes.value
  {
    FlatRecord(
      url,
      i.username.GetOr(""),
      i.bio.GetOr(""),
      i.postType.GetOr(""),
      i.timestamp.GetOr(""),
      i.upvotes.GetOr(0),
      Join(LinkSeparator, i.links.GetOr([])))
  }

  /** The links cell: "" for absent or empty links, the link itself for one link, and
      for any non-empty list of links that do not contain the separator, a string
      that splits back into exactly those links. */
  lemma LinksCell(url: string, i: Interaction)
    ensures (i.links.None? || i.links == Some([])) ==> FlatRecordOf(url, i).links == ""
    ensures i.links.Some? && |i.links.value| == 1 ==> FlatRecordOf(url, i).links == i.links.value[0]
    ensures i.links.Some? && i.links.value != [] &&
            (forall k :: 0 <= k < |i.links.value| ==> !Contains(i.links.value[k], LinkSeparator)) ==>
            Split(FlatRecordOf(url, i).links, LinkSeparator) == i.links.value
  {
    if i.links.Some? && i.links.value != [] &&
       (forall k :: 0 <= k < |i.links.value| ==> !Contains(i.links.value[k], LinkSeparator)) {
      assert Borderless(LinkSeparator) by {
        assert LinkSeparator[1..] == " " && LinkSeparator[..1] == ",";
      }
      SplitJoin(i.links.value, LinkSeparator);
    }
  }

  /** The records of one page's interactions, in order. */
  function PageRecords(url: string, items: seq<Interaction>): (r: seq<FlatRecord>)
    ensures |r| == |items|
    ensures forall k :: 0 <= k < |items| ==> r[k] == FlatRecordOf(url, items[k])
    decreases |items|
  {
    if items == [] then []
    else PageRecords(url, items[..|items| - 1]) + [FlatRecordOf(url, items[|items| - 1])]
  }

  /** The sum of `len(user_info)` over all pages. */
  function TotalInteractions(pages: seq<Page>): nat
    decreases |pages|
  {
    if pages == [] then 0
    else TotalInteractions(pages[..|pages| - 1]) + |pages[|pages| - 1].userInfo|
  }

  /** The flattened table, specified page by page. */
  function Flattened(pages: seq<Page>): seq<FlatRecord>
    decreases |pages|
  {
    if pages == [] then []
    else
      var last := pages[|pages| - 1];
      Flattened(pages[..|pages| - 1]) + PageRecords(last.websiteUrl, last.userInfo)
  }

  /** Nothing is lost or duplicated: one record per interaction. */
  lemma {:induction false} FlattenedLength(pages: seq<Page>)
    ensures |Flattened(pages)| == TotalInteractions(pages)
    decreases |pages|
  {
    if pages != [] {
      FlattenedLength(pages[..|pages| - 1]);
    }
  }

  /** Interaction `k` of page `p` lands at position (interactions of the pages before
      `p`) + `k`, carrying that page's URL. */
  lemma {:induction false} FlattenedAt(pages: seq<Page>, p: nat, k: nat)
    requires p < |pages| && k < |pages[p].userInfo|
    ensures TotalInteractions(pages[..p]) + k < |Flattened(pages)|
    ensures Flattened(pages)[TotalInteractions(pages[..p]) + k] ==
            FlatRecordOf(pages[p].websiteUrl, pages[p].userInfo[k])
    decreases |pages|
  {
    var init := pages[..|pages| - 1];
    FlattenedLength(init);
    if p == |pages| - 1 {
      assert pages[..p] == init;
    } else {
      assert init[..p] == pages[..p] && init[p] == pages[p];
      FlattenedAt(init, p, k);
    }
  }

  /** Conversely, every record is the record of one interaction of one page, at the
      position `FlattenedAt` gives it. */
  lemma {:induction false} FlattenedOrigin(pages: seq<Page>, n: nat)
    requires n < |Flattened(pages)|
    ensures exists p, k :: 0 <= p < |pages| && 0 <= k < |pages[p].userInfo| &&
              n == TotalInteractions(pages[..p]) + k &&
              Flattened(pages)[n] == FlatRecordOf(pages[p].websiteUrl, pages[p].userInfo[k])
    decreases |pages|
  {
    var init := pages[..|pages| - 1];
    var last := pages[|pages| - 1];
    FlattenedLength(init);
    if n < |Flattened(init)| {
      FlattenedOrigin(init, n);
      var p, k :| 0 <= p < |init| && 0 <= k < |init[p].userInfo| &&
                  n == TotalInteractions(init[..p]) + k &&
                  Flattened(init)[n] == FlatRecordOf(init[p].websiteUrl, init[p].userInfo[k]);
      assert init[..p] == pages[..p] && init[p] == pages[p];
    } else {
      var k := n - TotalInteractions(init);
      assert pages[..|pages| - 1] == init;
      assert Flattened(pages)[n] == FlatRecordOf(last.websiteUrl, last.userInfo[k]);
    }
  }

  /** Every record's "Website URL" is the URL of one of the input pages. */
  lemma {:induction false} FlattenedUrls(pages: seq<Page>)
    ensures forall r :: r in Flattened(pages) ==>
              exists p :: 0 <= p < |pages| && r.websiteUrl == pages[p].websiteUrl
  {
    forall r | r in Flattened(pages)
      ensures exists p :: 0 <= p < |pages| && r.websiteUrl == pages[p].websiteUrl
    {
      var n :| 0 <= n < |Flattened(pages)| && Flattened(pages)[n] == r;
      FlattenedOrigin(pages, n);
    }
  }

  /** The source's two nested loops, appending one record per interaction. */
  method FormatUserInfo(pages: seq<Page>) returns (records: seq<FlatRecord>)
    ensures records == Flattened(pages)
    ensures |records| == TotalInteractions(pages)
  {
    records := [];
    for p := 0 to |pages|
      invariant records == Flattened(pages[..p])
    {
      var url := pages[p].websiteUrl;
      var userInfo := pages[p].userInfo;
      for k := 0 to |userInfo|
        invariant records == Flattened(pages[..p]) + PageRecords(url, userInfo[..k])
      {
        assert userInfo[..k + 1][..k] == userInfo[..k];
        records := records + [FlatRecordOf(url, userInfo[k])];
      }
      assert userInfo[..|userInfo|] == userInfo;
      assert pages[..p + 1][..p] == pages[..p];
    }
    assert pages[..|pages|] == pages;
    FlattenedLength(pages);
  }
}
