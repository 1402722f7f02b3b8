# AI lead generation (Quora): a verified model of the data-shaping core

The app searches Quora through Firecrawl and extracts user interactions (username,
bio, post type, timestamp, upvotes, links) from each page. It flattens them into one
table row per interaction and picks a Gemini model for the prompt rewrite. This
project models the deterministic rules around those service calls. Each service's
answer is an input value:

- **Flattener** (`Flatten`): one `FlatRecord` per interaction, page by page. Absent
  fields get defaults and links are joined with `", "`. `FormatUserInfo` is the
  source's two nested loops. It is proved equal to the specification `Flattened`,
  whose length, order, origin and defaults are lemmas.
- **Model selection** (`ModelSelection`): `ListAvailableModels` keeps the models that
  support `generateContent`/`createContent` and have a name. It reduces each name to
  its last `/` segment, and an exception gives `[]`. `ChooseModel` passes an explicit
  choice through. In Auto mode it tries the priority ids in order and falls back to
  `gemini-1.5-pro`.
- **Search acceptance** (`Search`): URLs only for status 200 with `success` set.
- **Extraction acceptance** (`Extraction`): a URL yields a page only when its reply
  succeeded, is `completed` and found interactions. Because the `try` encloses the
  whole loop, the first exception ends it (see Findings).
- **Helpers** (`Text`): Python's substring test, `sep.join`, `str.split` (used only
  as the inverse of the join) and `name.split("/")[-1]`.
- `Pipeline` ties extraction to flattening.

The model keeps two behaviours of the code as written:
- An exception in `search_for_urls` is not caught. This covers a failed request, an
  undecodable body, or a result entry without `"url"`. It escapes to the caller
  (`SearchOutcome.Propagated`) and is not turned into an empty list. Non-200 and
  unsuccessful replies do give `[]`.
- An exception during extraction drops every later URL.

## Model

| member | source | states |
|---|---|---|
| `Text.Contains` | app.py:144-145 | defines Python's substring test `pid in a`: `pid` is a prefix of `a` or of some tail of it |
| `Text.Join` | app.py:88 | defines `", ".join(links)`: "" for no pieces, the piece itself for one, pieces separated by the separator otherwise |
| `Text.ContainsIffOccurs` | app.py:144-145 | Python's `pid in a` holds exactly when some slice of `a` equals `pid` |
| `Text.SplitJoin` | app.py:88 | `", ".join` loses nothing: splitting the joined pieces on the separator gives them back, when no piece contains it |
| `Text.LastSegmentOfQualified` | app.py:126 | a qualified name `prefix/name` reduces to `name` when `name` has no `/` |
| `Text.LastSegment` | app.py:126 | the result has no `/`, is a suffix of the name, and is either the whole name or preceded by a `/`: the part after the last `/` |
| `Flatten.FlatRecordOf` | app.py:81-89 | the record carries the page URL; absent username, bio, post type and timestamp become "", absent upvotes 0; present values are copied unchanged |
| `Flatten.LinksCell` | app.py:88 | absent or empty links give "", one link gives that link verbatim, and several links split back into exactly themselves |
| `Flatten.PageRecords` | app.py:80-90 | one record per interaction of a page, in order, each built from that interaction |
| `Flatten.TotalInteractions` | app.py:76-80 | defines the sum of `len(user_info)` over the pages |
| `Flatten.Flattened` | app.py:76-90 | defines the flattened table: each page's records, page after page, in input order |
| `Flatten.FlattenedLength` | app.py:76-90 | the number of records equals the sum of the pages' interaction counts |
| `Flatten.FlattenedAt` | app.py:76-90 | interaction k of page p lands at position (interactions of earlier pages) + k, with page p's URL |
| `Flatten.FlattenedOrigin` | app.py:76-90 | every record is the record of exactly such a (page, interaction) pair at that position |
| `Flatten.FlattenedUrls` | app.py:77-82 | every record's Website URL is the URL of one of the input pages |
| `Flatten.FormatUserInfo` | app.py:73-92 | the nested append loops produce exactly the specified flattened table, of the total interaction count |
| `ModelSelection.Kept` | app.py:122-125 | defines which listed models are kept: generateContent or createContent among the methods, and a non-empty name |
| `ModelSelection.KeptNames` | app.py:120-127 | defines the kept models' last name segments, in listing order |
| `ModelSelection.AvailableNames` | app.py:117-129 | defines the listing result: the kept names, or [] when the listing raised |
| `ModelSelection.KeptNamesMembership` | app.py:121-126 | a name is listed if and only if it is the last segment of a named model that supports generateContent or createContent |
| `ModelSelection.KeptNamesAppend` | app.py:121-126 | the listing is filtered in order: the names of a + b are the names of a followed by those of b |
| `ModelSelection.ListAvailableModels` | app.py:116-129 | the loop returns exactly the kept short names in listing order, and [] when the listing raised |
| `ModelSelection.AnyContains` | app.py:144 | `any(pid in a for a in available)`: true if and only if some available name contains the id |
| `ModelSelection.FirstContaining` | app.py:145 | `next(...)`: the index of the first name containing the id; none only when no name contains it |
| `ModelSelection.AutoPick` | app.py:143-146 | the Auto result is always an available name or the default |
| `ModelSelection.AutoPickEarliest` | app.py:143-145 | when prio[k] is the first id that some name contains and available[j] the first name containing it, the result is available[j] |
| `ModelSelection.AutoPickFallback` | app.py:146 | when no priority id occurs in any available name, the result is "gemini-1.5-pro" |
| `ModelSelection.ChooseModel` | app.py:131-146 | a choice other than "Auto (recommended)" is returned unchanged; Auto gives the priority pick over the listed names, which is a listed name or the default |
| `ModelSelection.ListingQualified` | app.py:121-126 | two generateContent models named `prefix/a` and `prefix/b` are listed as `a`, `b` in order |
| `ModelSelection.AutoPickExample` | app.py:126-145 | with "models/gemini-2.5-flash-001" and "models/gemini-1.5-pro" listed, Auto picks "gemini-2.5-flash-001" |
| `Search.ResultUrls` | app.py:43-44 | the comprehension succeeds if and only if every entry has a URL, and then gives every entry's URL in order |
| `Search.SearchForUrls` | app.py:39-45 | an exception escapes; non-200 or unsuccessful replies give []; otherwise the result URLs in order, or an escaping KeyError when an entry lacks "url" |
| `Extraction.Accepted` | app.py:61-63 | defines when a reply yields a page: success set, status "completed", and a non-empty interaction list |
| `Extraction.ExtractFrom` | app.py:51-71 | defines the pages as written: accepted URLs in order, stopping at the first exception |
| `Extraction.ExtractIsolatedFrom` | app.py:51-69 | defines the corrected pages: accepted URLs in order, with an exception skipping only its own URL |
| `Extraction.FirstRaise` | app.py:51-69 | the index of the first reply that raised: every earlier reply answered |
| `Extraction.AcceptedBetween` | app.py:61-67 | every listed index lies in the range and belongs to an accepted reply |
| `Extraction.AcceptedBetweenExactly` | app.py:61-67 | the listed indices increase and include every accepted index of the range: no accepted URL is omitted |
| `Extraction.ExtractFromSelects` | app.py:51-71 | the pages are, in order, exactly the accepted URLs before the first exception, each with its reply's interactions |
| `Extraction.RaiseEndsExtraction` | app.py:51-69 | after an exception at URL j, the result depends only on the URLs and replies before j |
| `Extraction.ExtractedPages` | app.py:61-67 | every page's URL is an input URL and its interaction list is non-empty |
| `Extraction.ExtractUserInfo` | app.py:47-71 | the source's loop returns exactly the specified pages |
| `Extraction.RaiseHidesLaterPage` | app.py:51-69 | as written, an exception at the first URL hides a completed second URL; per-URL isolation keeps it |
| `Extraction.ExtractIsolatedSelects` | app.py:51-69 | with per-URL isolation the pages are exactly the accepted URLs in order, whatever raised |
| `Extraction.ExtractUserInfoIsolated` | app.py:51-69 | the loop with a per-URL try returns exactly the isolated specification |
| `Pipeline.RecordsKeepPageUrls` | app.py:201-204 | flattening pages whose URLs are in a list gives records whose URLs are in it |
| `Pipeline.RecordsReferToSearchedUrls` | app.py:193-204 | no exported record refers to a URL that was not handed to extraction |
| `Pipeline.TwoUrlScenario` | app.py:193-204 | two URLs, three interactions for the first and none for the second: three records, all with the first URL |

## Left out

- `main()` and `_about_footer()` (app.py:148-248): Streamlit UI, session state, spinners, download buttons. This is presentation.
- The service calls themselves: `requests.post`, `FirecrawlApp(...)` and `extract`, `genai.configure`/`list_models`, and the Gemini agent and its `run`. Their results are inputs (`SearchReply`, `ExtractReply`, `Listing`). So the query phrase naming the product, which comes from the Gemini run, is not modelled.
- The `FirecrawlApp` constructor (app.py:49) sits outside the `try`. An exception from it would escape to the caller. The model starts after the client exists.
- The search request itself: the query template, `num_links` and the fixed payload fields (app.py:26-38). These are constant strings and a parameter passed to the service.
- The prompt text (app.py:100-114, 56) and the Pydantic schemas with `model_json_schema()` (app.py:14-23, 57). These are declarative payloads for external services. The schema's field list shapes `Interaction`.
- CSV and JSON encoding and writing the CSV file (app.py:211-239). These are library wrappers and file I/O.
- JSON values of the wrong type are not modelled. A field present with value `null` would be copied as `None`. A `null` links list would make `join` raise. `data` being `null` in an extraction reply would raise inside the `try`. The model gives each field the schema's type, and an absent key is `None`. An exception of this kind is represented as `ExtractReply.Raised`.
- Python truthiness of `success` is given as a `bool`.
- Flatten.LinksCell: the round trip is stated only for links that do not contain `", "`. Otherwise joining is not invertible, and `[]` and `[""]` both join to `""`.

## Findings

| source | as written | input that shows it | evidently intended | confidence | as-written member | corrected member |
|---|---|---|---|---|---|---|
| app.py:51-69 | one `try` encloses the whole loop, so the first exception abandons every later URL | URLs [u1, u2]; the call for u1 raises, u2 completes with interactions; the result is [] | each URL's exception skips only that URL, so u2's page is kept | medium, not executed | `Extraction.ExtractUserInfo` with `Extraction.RaiseHidesLaterPage` | `Extraction.ExtractUserInfoIsolated` with `Extraction.ExtractIsolatedSelects` |
