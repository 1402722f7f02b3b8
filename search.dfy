/** The acceptance rule of `search_for_urls`, with the HTTP response as an input. */
module Search {
  import opened Wrappers

  /** One entry of the response's "data" list; `url` is `None` when the entry has no
      "url" key. */
  datatype SearchResult = SearchResult(url: Option<string>)

  /** What `requests.post` and `response.json()` produce: the status code, the
      truthiness of the body's "success" and its "data" list ([] when absent); or an
      exception from the request or from decoding the body. */
  datatype SearchReply =
    | Replied(statusCode: int, success: bool, results: seq<SearchResult>)
    | Raised

  /** The source does not catch exceptions here: the call either returns URLs or
      lets an exception escape to its caller. */
  datatype SearchOutcome = Urls(urls: seq<string>) | Propagated

  /** `[result["url"] for result in results]`: `None` when some entry lacks "url"
      (a `KeyError`), else every entry's URL in order. */
  function ResultUrls(results: seq<SearchResult>): (r: Option<seq<string>>)
    ensures r.Some? <==> forall k :: 0 <= k < |results| ==> results[k].url.Some?
    ensures r.Some? ==> |r.value| == |results| &&
                        forall k :: 0 <= k < |results| ==> r.value[k] == results[k].url.value
    decreases |results|
  {
    if results == [] then Some([])
    else
      match (results[0].url, ResultUrls(results[1..]))
      case (Some(u), Some(rest)) => Some([u] + rest)
      case _ => None
  }

  /** URLs only for status 200 with "success" set; every other reply gives []. */
  function SearchForUrls(reply: SearchReply): (r: SearchOutcome)
    ensures reply.Raised? ==> r.Propagated?
    ensures reply.Replied? && !(reply.statusCode == 200 && reply.success) ==> r == Urls([])
    ensures reply.Replied? && reply.statusCode == 200 && reply.success ==>
              (r.Urls? <==> forall k :: 0 <= k < |reply.results| ==> reply.results[k].url.Some?)
    ensures reply.Replied? && reply.statusCode == 200 && reply.success && r.Urls? ==>
              |r.urls| == |reply.results| &&
              forall k :: 0 <= k < |r.urls| ==> reply.results[k].url == Some(r.urls[k])
  {
    match reply
    case Raised => Propagated
    case Replied(status, success, results) =>
      if status == 200 && success then
        match ResultUrls(results)
        case Some(urls) => Urls(urls)
        case None => Propagated
      else Urls([])
  }
}
