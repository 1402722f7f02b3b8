/** The acceptance rule of `extract_user_info_from_urls`, with the extraction
    service's answer for each URL as an input. */
module Extraction {
  import opened Records

  const Completed: string := "completed"

  /** What `firecrawl_app.extract([url], ...)` gives for one URL: the truthiness of
      "success", the "status" string ("" when absent) and the "interactions" list
      under "data" ([] when either is absent); or an exception. */
  datatype ExtractReply =
    | Replied(success: bool, status: string, interactions: seq<Interaction>)
    | Raised

  /** A reply yields a page when it succeeded, is completed and found interactions. */
  predicate Accepted(reply: ExtractReply) {
    reply.Replied? && reply.success && reply.status == Completed && reply.interactions != []
  }

  /** The pages gathered from URL `i` on, as the source computes them: the `try`
      encloses the whole loop, so the first exception ends it. */
  function ExtractFrom(urls: seq<string>, replies: seq<ExtractReply>, i: nat): seq<Page>
    requires |replies| == |urls| && i <= |urls|
    decreases |urls| - i
  {
    if i == |urls| || replies[i].Raised? then []
    else
      (if Accepted(replies[i]) then [Page(urls[i], replies[i].interactions)] else []) +
      ExtractFrom(urls, replies, i + 1)
  }

  /** The index of the first reply from `i` on that raised, or `|replies|`. */
  function FirstRaise(replies: seq<ExtractReply>, i: nat): (n: nat)
    requires i <= |replies|
    ensures i <= n <= |replies|
    ensures forall j :: i <= j < n ==> replies[j].Replied?
    ensures n < |replies| ==> replies[n].Raised?
    decreases |replies| - i
  {
    if i == |replies| || replies[i].Raised? then i else FirstRaise(replies, i + 1)
  }

  /** The indices in `[i, n)` of accepted replies, in increasing order. */
  ghost function AcceptedBetween(replies: seq<ExtractReply>, i: nat, n: nat): (idx: seq<nat>)
    requires i <= n <= |replies|
    ensures forall k :: 0 <= k < |idx| ==> i <= idx[k] < n && Accepted(replies[idx[k]])
    decreases n - i
  {
    if i == n then []
    else (if Accepted(replies[i]) then [i] else []) + AcceptedBetween(replies, i + 1, n)
  }

  /** `AcceptedBetween` lists every accepted index of the range, each once, in
      increasing order. */
  lemma {:induction false} AcceptedBetweenExactly(replies: seq<ExtractReply>, i: nat, n: nat)
    requires i <= n <= |replies|
    ensures forall k, l :: 0 <= k < l < |AcceptedBetween(replies, i, n)| ==>
              AcceptedBetween(replies, i, n)[k] < AcceptedBetween(replies, i, n)[l]
    ensures forall j :: i <= j < n && Accepted(replies[j]) ==> j in AcceptedBetween(replies, i, n)
    decreases n - i
  {
    if i < n {
      AcceptedBetweenExactly(replies, i + 1, n);
    }
  }

  /** The pages are, in order, exactly the accepted URLs before the first exception,
      each with its reply's interactions. */
  lemma {:induction false} ExtractFromSelects(urls: seq<string>, replies: seq<ExtractReply>, i: nat)
    requires |replies| == |urls| && i <= |urls|
    ensures var idx := AcceptedBetween(replies, i, FirstRaise(replies, i));
            var pages := ExtractFrom(urls, replies, i);
            |pages| == |idx| &&
            forall k :: 0 <= k < |idx| ==> pages[k] == Page(urls[idx[k]], replies[idx[k]].interactions)
    decreases |urls| - i
  {
    if i < |urls| && replies[i].Replied? {
      ExtractFromSelects(urls, replies, i + 1);
      var n := FirstRaise(replies, i);
      assert n == FirstRaise(replies, i + 1);
      var rest := AcceptedBetween(replies, i + 1, n);
      var restPages := ExtractFrom(urls, replies, i + 1);
      if Accepted(replies[i]) {
        var idx := [i] + rest;
        var pages := [Page(urls[i], replies[i].interactions)] + restPages;
        assert AcceptedBetween(replies, i, n) == idx;
        assert ExtractFrom(urls, replies, i) == pages;
        forall k | 0 <= k < |idx|
          ensures pages[k] == Page(urls[idx[k]], replies[idx[k]].interactions)
        {
          if k > 0 {
            assert idx[k] == rest[k - 1] && pages[k] == restPages[k - 1];
          }
        }
      } else {
        assert AcceptedBetween(replies, i, n) == rest;
        assert ExtractFrom(urls, replies, i) == restPages;
      }
    }
  }

  /** An exception at URL `j` ends the loop: what the source returns depends only on
      the URLs and replies before `j`. */
  lemma {:induction false} RaiseEndsExtraction(urls: seq<string>, replies: seq<ExtractReply>, i: nat, j: nat)
    requires |replies| == |urls| && i <= j < |urls| && replies[j].Raised?
    ensures ExtractFrom(urls, replies, i) == ExtractFrom(urls[..j], replies[..j], i)
    decreases j - i
  {
    if i < j && replies[i].Replied? {
      RaiseEndsExtraction(urls, replies, i + 1, j);
    }
  }


  /** The source's loop over the URLs, appending each accepted page; the first
      exception leaves the loop. */
  method ExtractUserInfo(urls: seq<string>, replies: seq<ExtractReply>) returns (pages: seq<Page>)
    requires |replies| == |urls|
    ensures pages == ExtractFrom(urls, replies, 0)
  {
    pages := [];
    var i := 0;
    while i < |urls|
      invariant i <= |urls|
      invariant ExtractFrom(urls, replies, 0) == pages + ExtractFrom(urls, replies, i)
    {
      var reply := replies[i];
      if reply.Raised? {
        break;
      }
      if reply.success && reply.status == Completed {
        var interactions := reply.interactions;
        if interactions != [] {
          pages := pages + [Page(urls[i], interactions)];
        }
      }
      i := i + 1;
    }
  }

  /** The evidently intended per-URL isolation: an exception skips only its own URL. */
  function ExtractIsolatedFrom(urls: seq<string>, replies: seq<ExtractReply>, i: nat): seq<Page>
    requires |replies| == |urls| && i <= |urls|
    decreases |urls| - i
  {
    if i == |urls| then []
    else
      (if Accepted(replies[i]) then [Page(urls[i], replies[i].interactions)] else []) +
      ExtractIsolatedFrom(urls, replies, i + 1)
  }

  /** With per-URL isolation the pages are, in order, exactly the accepted URLs,
      whatever raised in between. */
  lemma {:induction false} ExtractIsolatedSelects(urls: seq<string>, replies: seq<ExtractReply>, i: nat)
    requires |replies| == |urls| && i <= |urls|
    ensures var idx := AcceptedBetween(replies, i, |replies|);
            var pages := ExtractIsolatedFrom(urls, replies, i);
            |pages| == |idx| &&
            forall k :: 0 <= k < |idx| ==> pages[k] == Page(urls[idx[k]], replies[idx[k]].interactions)
    decreases |urls| - i
  {
    if i < |urls| {
      ExtractIsolatedSelects(urls, replies, i + 1);
      var rest := AcceptedBetween(replies, i + 1, |replies|);
      var restPages := ExtractIsolatedFrom(urls, replies, i + 1);
      if Accepted(replies[i]) {
        var idx := [i] + rest;
        var pages := [Page(urls[i], replies[i].interactions)] + restPages;
        assert AcceptedBetween(replies, i, |replies|) == idx;
        assert ExtractIsolatedFrom(urls, replies, i) == pages;
        forall k | 0 <= k < |idx|
          ensures pages[k] == Page(urls[idx[k]], replies[idx[k]].interactions)
        {
          if k > 0 {
            assert idx[k] == rest[k - 1] && pages[k] == restPages[k - 1];
          }
        }
      } else {
        assert AcceptedBetween(replies, i, |replies|) == rest;
        assert ExtractIsolatedFrom(urls, replies, i) == restPages;
      }
    }
  }

  /** Every page's URL is one of the input URLs, and its interactions are non-empty,
      with or without per-URL isolation. */
  lemma ExtractedPages(urls: seq<string>, replies: seq<ExtractReply>)
    requires |replies| == |urls|
    ensures forall pg :: pg in ExtractFrom(urls, replies, 0) ==> pg.websiteUrl in urls && pg.userInfo != []
    ensures forall pg :: pg in ExtractIsolatedFrom(urls, replies, 0) ==> pg.websiteUrl in urls && pg.userInfo != []
  {
    ExtractFromSelects(urls, replies, 0);
    ExtractIsolatedSelects(urls, replies, 0);
  }

  /** As written, one exception hides a later success; with isolation it does not. */
  lemma RaiseHidesLaterPage(u1: string, u2: string, found: seq<Interaction>)
    requires found != []
    ensures ExtractFrom([u1, u2], [Raised, Replied(true, Completed, found)], 0) == []
    ensures ExtractIsolatedFrom([u1, u2], [Raised, Replied(true, Completed, found)], 0) == [Page(u2, found)]
  {
    var urls, replies := [u1, u2], [Raised, Replied(true, Completed, found)];
    assert ExtractIsolatedFrom(urls, replies, 2) == [];
    assert ExtractIsolatedFrom(urls, replies, 1) == [Page(u2, found)];
  }

  /** The loop with a `try` around each URL's call. */
  method ExtractUserInfoIsolated(urls: seq<string>, replies: seq<ExtractReply>) returns (pages: seq<Page>)
    requires |replies| == |urls|
    ensures pages == ExtractIsolatedFrom(urls, replies, 0)
  {
    pages := [];
    for i := 0 to |urls|
      invariant ExtractIsolatedFrom(urls, replies, 0) == pages + ExtractIsolatedFrom(urls, replies, i)
    {
      var reply := replies[i];
      if reply.Replied? && reply.success && reply.status == Completed {
        var interactions := reply.interactions;
        if interactions != [] {
          pages := pages + [Page(urls[i], interactions)];
        }
      }
    }
  }
}
