# scrapeforllm core, modelled in Dafny

A model of the deterministic logic of the scrapeforllm web scrapers. Page fetching, HTML parsing, CSS selection and URL
resolution are abstract functions passed in as parameters ("oracles"). The model covers:

- the two breadth-first page-discovery loops:
  - `discover_all_pages`, which has a page cap, a depth cap, fragment stripping and a link filter;
  - `discover_urls`, which has a depth cap and a host check only;
- the element filters:
  - paragraphs, headings and buttons of the complete scraper;
  - link extraction and the first-match product-information rule of the LLM scraper;
- the result store of the complete scraper: `scrape_multiple_urls` accumulation and `get_summary_stats`;
- the LLM scraper's projections of its records: CSV rows (`save_to_csv`) and training examples
  (`create_llm_training_format`);
- the knowledge-base formatter: `clean_text`, and the guards, limits and layout of `format_for_ai_knowledge_base`.

Files:

- `wrappers.dfy`: `Option`.
- `text.dfy`: the Python string operations the core uses:
  - `str.strip` and `str.isspace`;
  - `re.sub(r'\s+', ' ', …)`;
  - `split` and `join`, with their round trips;
  - `replace`, `find` and ASCII `lower`.
- `discovery.dfy`: `discover_all_pages` and its link filter, over an abstract `Web` (fetch, `urljoin`, `urlparse(...).netloc`).
- `linkcrawl.dfy`: `discover_urls`, over the same `Web`.
- `extract.dfy`: the element filters, over a document-order list of `(tag, attrs, text)` elements.
- `aggregate.dfy`: `scrape_multiple_urls` and `get_summary_stats`.
- `export.dfy`: CSV rows and training examples.
- `knowledge.dfy`: `clean_text` and `format_for_ai_knowledge_base`.

The discovery methods are loops whose invariants carry most of the proof, and they return
two things:

- the set of discovered URLs, which is what the source returns (`list(set(...))`, so its order is not defined);
- a trace: the discovered pages in discovery order, with their depths. This is the order of the source's numbered
  log lines.

Proved about discovery:

- For `discover_all_pages`:
  - no more than `max_pages` pages;
  - no page when `max_pages <= 0` or `max_depth < 0`;
  - no `#` in any page;
  - every page discovered once;
  - depths within `[0, max_depth]` and non-decreasing along the trace;
  - every page after the start came from a link that passed the filter on an earlier page fetched below the depth
    limit;
  - if the page cap was not reached, every filtered link on every page fetched below the depth limit was
    discovered, with its fragment stripped, at most one level deeper than that page;
  - hence, below the cap, every page at the end of a chain of at most `max_depth` filtered links from the
    start is found;
  - whether or not the cap was reached, every filtered link of every page that queued its links (below the depth
    limit, with room left under the cap once it was recorded) was discovered at most one level deeper than that
    page, or else no discovered page is deeper than that level: the crawl fills the cap level by level.
- For `discover_urls`:
  - every link of a discovered page fetched below the depth limit is itself discovered, at most one level
    deeper than that page;
  - hence every page at the end of a chain of at most `max_depth` followed links from the start is found;
  - every page after the start has the base host.
- Both loops terminate for every link oracle:
  - `discover_all_pages` by (pages left, frontier length);
  - `discover_urls` by (levels left, frontier entries at the current level).

Where the code does something other than its names and docstrings suggest, the model follows the code:

- The discovered pages are returned as a set, not as a sequence in discovery order.
- `raise_for_status` rejects only 4xx and 5xx statuses. A redirect status passes and its links are followed. `discover_urls` does not check
  the status at all.
- The excluded-extension test applies to the whole lower-cased URL, query included, not only to the path.
- A URL can be queued many times. Only recording is deduplicated, and that is keyed on the fragment-stripped URL.
- The extension and path filter applies to the URL before its fragment is stripped. So a link `…/doc.pdf#p` passes, and it is recorded as `…/doc.pdf`. The start URL is never filtered at all (complete_web_scraper.py:438, 468-474).
- If `urljoin` or `urlparse` raises part-way through a page, the links queued before the raise are kept, because
  they are appended straight onto the frontier inside the `try`.

## Model

| member | source | states |
|---|---|---|
| Discovery.StripFragment | complete_web_scraper.py:438 | the cleaned URL has no `#`, is a prefix of the popped URL, and equals it when it had no fragment |
| Discovery.StripFragmentIsFirstPiece | complete_web_scraper.py:438 | the cleaned URL is exactly `url.split('#')[0]` |
| Discovery.HarvestIsFiltered | complete_web_scraper.py:449-481 | every URL queued from a page passed the filter for some href of the page; when nothing raises, every href that passes is queued |
| Discovery.VisitKeeps | complete_web_scraper.py:437-476 | recording a fresh popped entry and queueing its harvested links one level deeper keeps the trace distinct, fragment-free, depth-ordered and parented, and keeps the frontier FIFO-ordered by depth and sourced |
| Discovery.RecordKeepsCovered | complete_web_scraper.py:437-474 | if every link of every recorded page that queued its links (below the depth limit, with room left under the page cap once it was recorded) was recorded at most one level deeper than its page or waits in the frontier one level deeper, this stays true after the head is popped, its cleaned URL recorded and, when the page is below the depth limit, recording it leaves room under the cap and its fetch succeeds, its links queued one level deeper |
| Discovery.StoppedAtLevel | complete_web_scraper.py:431-448 | with the frontier no shallower than any recorded page, every link of a page that queued its links is recorded at most one level deeper than that page, or no recorded page is deeper than that level |
| Discovery.ExcludedOnlyAfterStripping | complete_web_scraper.py:438-474 | for any `u` without `#` and any fragment `f`, `u#f` is recorded as `u`, and the filter refuses `u#f` exactly when `f` ends in an excluded extension or `u` or `f` holds an excluded path: so `u` ending in an excluded extension passes whenever neither part holds an excluded path and `f` does not end in one |
| Discovery.CrawlStep | complete_web_scraper.py:431-483 | one turn keeps the loop invariant, including link coverage. It only pops the frontier exactly when the popped URL was visited, is deeper than `max_depth`, or was visited once cleaned. Otherwise it records the new cleaned URL and queues that page's filtered links one level deeper, but only when the page is below `max_depth`, recording it leaves room under `max_pages`, and the fetch succeeds |
| Discovery.PathRecorded | complete_web_scraper.py:411-487 | when every filtered link of every recorded page below the depth limit is recorded (fragment-stripped) at most one level deeper, the end of every chain of at most `max_depth` filtered links from the start is recorded no deeper than the chain's length |
| Discovery.DiscoverAllPages | complete_web_scraper.py:411-487 | at most `max_pages` pages; none when `max_pages <= 0` or `max_depth < 0`; otherwise the start (cleaned, never filtered) first; no `#`, no page twice, depths in range and non-decreasing, each later page spawned by a filtered link on an earlier page fetched below the depth limit; when the page cap is not reached, every filtered link of every page fetched below the depth limit is discovered (fragment-stripped) at most one level deeper, and every page within `max_depth` filtered links of the start is found; whether or not the cap is reached, every filtered link of a page that queued its links is discovered at most one level deeper than that page, or no discovered page is deeper than that level; terminates |
| LinkCrawl.Follow | web_scraper.py:279-285 | every queued URL's host is the base host, and there are no more of them than hrefs |
| LinkCrawl.FollowIsInternal | web_scraper.py:279-288 | every queued URL is the resolution of some href with the base host; when nothing raises, every such resolution is queued |
| LinkCrawl.SkipStep | web_scraper.py:266-269 | dropping a visited or too-deep entry keeps the invariant and decreases the measure |
| LinkCrawl.VisitStep | web_scraper.py:271-285 | recording an entry and queueing its page's links keeps the invariant, including link coverage, and decreases the measure |
| LinkCrawl.CrawlStep | web_scraper.py:265-290 | one turn keeps the invariant, decreases (levels left, entries at the current level), and adds at most the popped URL |
| LinkCrawl.DiscoverUrls | web_scraper.py:250-292 | nothing when `max_depth < 0`, else the start first; no page twice; depths in range and non-decreasing; every later page linked from an earlier one and on the base host; every link of a page fetched below the depth limit is discovered at most one level deeper, and every page within `max_depth` followed links of the start is found; terminates |
| LinkCrawl.PathRecorded | web_scraper.py:250-292 | when every link of every recorded page below the depth limit is recorded at most one level deeper, the end of every chain of at most `max_depth` followed links from the start is recorded no deeper than the chain's length |
| Extract.ParagraphsAre | complete_web_scraper.py:138-145 | a text is listed iff it is the stripped text, longer than ten characters, of some `<p>`; every listed text is longer than ten and unpadded |
| Extract.HeadingsFrom | complete_web_scraper.py:106-114 | headings come grouped by rank from the given rank up to 6, ranks non-decreasing, texts non-empty |
| Extract.HeadingsAre | complete_web_scraper.py:103-115 | a heading is listed iff some element has its tag `h1`…`h6` and non-empty stripped text equal to its text |
| Extract.HeadingTagInjective | complete_web_scraper.py:112 | distinct ranks give distinct level names |
| Extract.ButtonsAre | complete_web_scraper.py:246-261 | a label is listed iff a `<button>` or an `<input>` of type button/submit/reset carries it as its stripped text, or, with empty text, as its stripped `value` |
| Extract.AllLinksFail | web_scraper.py:119-124 | link extraction raises iff `urljoin` raises on some kept anchor |
| Extract.AllLinksAre | web_scraper.py:119-124 | when it does not raise, a link is extracted iff it is an anchor with an `href`, non-empty `href` and non-empty stripped text, paired with its `urljoin` |
| Extract.ExtractLinksCapped | web_scraper.py:125 | at most fifty links, and they are the first links of the page |
| Extract.FirstText | web_scraper.py:175-181 | a found text is never empty |
| Extract.FirstTextIsFirst | web_scraper.py:175-181 | no text iff every selector's joined text is empty; otherwise the text of the first selector with a non-empty one |
| Extract.ProductInfoKeys | web_scraper.py:164-183 | at most four entries, keys among description/features/price/specifications, no key twice |
| Extract.BlankElementsGiveSpace | web_scraper.py:176-180 | `n >= 2` selected elements with blank text give the value of `n - 1` spaces, which the `if text:` guard accepts |
| Aggregate.ScrapeMultiple | complete_web_scraper.py:371-387 | the old store is kept as a prefix and grows by at most one page per URL |
| Aggregate.SuccessesAre | complete_web_scraper.py:373-380 | a page is appended iff scraping some URL of the batch returned it, one per successful URL |
| Aggregate.ScrapeMultipleTwice | complete_web_scraper.py:371-387 | two batches accumulate exactly as one batch of both URL lists, in order |
| Aggregate.TotalAppend | complete_web_scraper.py:544-546 | sums over a concatenated store add up |
| Aggregate.SummaryStats | complete_web_scraper.py:539-555 | `{}` iff no data; otherwise the page count, the word, character and link totals as sums over the pages, the floor average bracketed by the word total, and the URLs in record order |
| Aggregate.SummaryAfterBatch | complete_web_scraper.py:541-555 | after a batch every total is the old total plus the new pages' total, and the old URLs lead the list |
| Aggregate.AverageBounded | complete_web_scraper.py:553 | the average never exceeds the largest per-page word count |
| Export.CsvRows | web_scraper.py:300-320 | no rows iff no data; otherwise one row per record in order, with its URL, timestamp, title, meta description, main content and clean text copied unchanged, and its FAQ count and link count |
| Export.HeadingColumnRoundTrip | web_scraper.py:315-316 | splitting an h1/h2 column at `"; "` gives back the record's headings of that level when there is at least one and none holds `"; "` |
| Export.NoHeadingsEmptyColumn | web_scraper.py:315-316 | an h1 or h2 column is empty iff the record has no headings of that level (key missing or empty list) or only one, itself empty |
| Export.Summarize | web_scraper.py:348 | at most 503 characters; unchanged up to 500; otherwise 503 characters ending in `"..."`, starting with the first 500 of the content |
| Export.SummarizeAmbiguous | web_scraper.py:348 | the summary equals the content exactly when the content has at most 500 characters, or has 503 and ends in `"..."` (cut, yet unchanged) |
| Export.ProductExamples | web_scraper.py:354-361 | product examples carry the record URL and a non-empty output |
| Export.ProductExamplesAre | web_scraper.py:354-361 | one example per non-empty value; a product example exists iff some entry with that question has that non-empty value |
| Export.PageExamplesShape | web_scraper.py:332-361 | per record: FAQ count plus one summary when title and content are non-empty plus the non-empty product values; all carry the record URL; FAQ, summary, product in that order; the summary's input and output are the source's format |
| Export.TrainingDataAppend | web_scraper.py:332-361 | records keep their order in the training data |
| Export.TrainingDataSourced | web_scraper.py:332-361 | every example carries the URL of one of the records |
| Export.BlankProductValueEmitted | web_scraper.py:354-361 | any non-empty value made only of whitespace is emitted as an example |
| Text.Collapse | format_knowledge_base.py:12 | the result is whitespace-normal, empty iff the input is, and has a space at either end iff the input has whitespace there |
| Text.CollapseConcat | format_knowledge_base.py:12 | collapsing works piecewise on a text cut anywhere except inside a whitespace run; with a whitespace run giving one space and a word giving itself, this fixes the output's contents |
| Text.CollapseIdempotent | format_knowledge_base.py:12 | collapsing twice equals collapsing once |
| Text.SplitJoin | web_scraper.py:315-316 | joining pieces free of an unbordered separator and splitting again gives the pieces back |
| Knowledge.UniqueIsFirstOccurrences | format_knowledge_base.py:14-18 | the kept sentences are exactly the pieces with stripped length over 10, pairwise distinct, in order of first occurrence |
| Knowledge.KeepSentences | format_knowledge_base.py:15-18 | the loop keeps the distinct substantial pieces, and they are exactly the substantial ones |
| Knowledge.CleanText | format_knowledge_base.py:8-9 | `None` or `""` gives `""` |
| Knowledge.KeptAreClean | format_knowledge_base.py:12-17 | every kept sentence is non-empty, whitespace-normal, has no leading space and no `". "` |
| Knowledge.CleanTextTidy | format_knowledge_base.py:12-20 | the output has no whitespace but single spaces, and none in front |
| Knowledge.CleanTextSplits | format_knowledge_base.py:14-20 | splitting the output at `". "` gives back exactly the kept sentences |
| Knowledge.DashSplit | format_knowledge_base.py:109-112 | a stored activity text splits at `" - "` into its type and description |
| Knowledge.Shown | format_knowledge_base.py:141 | at most six testimonials, a prefix of the list, all when there are at most six |
| Knowledge.TestimonialsSection | format_knowledge_base.py:139-145 | empty iff there are no testimonials; otherwise it starts with the testimonials header |
| Knowledge.OnlySixShown | format_knowledge_base.py:141 | testimonials after the sixth never change the document |
| Knowledge.Overview | format_knowledge_base.py:80-98 | the overview starts with the title line |
| Knowledge.Render | format_knowledge_base.py:62-63 | no data gives exactly the no-data message |
| Knowledge.FormatKnowledgeBase | format_knowledge_base.py:62-63 | no data gives exactly `"No data found in JSON file."` |
| Knowledge.FirstRecordOnly | format_knowledge_base.py:66-73 | two stores that agree on their first record give the same document |
| Knowledge.RenderShape | format_knowledge_base.py:80-169 | for data, the document starts with the title line, is not the no-data message, and ends with the testimonial section and the closing text |
| Knowledge.ClockFree | format_knowledge_base.py:147-167 | for data, the document ends with the last-updated block holding the date placeholder as written: it does not depend on the clock |
| Knowledge.SpecializationKeepsTitle | format_knowledge_base.py:85 | a title without the company prefix is shown unchanged |

## Left out

- HTTP sessions, headers, timeouts, `time.sleep` delays and logging: they are I/O and timing. A fetch is the `Web.fetch` oracle, which gives back the status outcome and the anchors' hrefs, or `None` when the request raises.
- HTML parsing, `find_all`, CSS `select` and `get_text`: these belong to the HTML library. A page is a document-order list of `(tag, attrs, text)` elements, and a CSS selection is an oracle from selector to element texts.
- The in-place `decompose` of `scrape_page`: the paragraph, heading and button filters take the element list they are given, so this ordering effect is not modelled.
- `urljoin` and `urlparse(...).netloc`: these are standard-library URL handling and stay uninterpreted (`Web.resolve`, `Web.host`). The base host `urlparse(self.base_url).netloc` is a parameter.
- Regex-driven extraction: contact info, `extract_activities` and `extract_testimonials`. Testimonials are an oracle from the main content. The activities are computed but never used in the output, so they are omitted.
- JSON, CSV and JSONL serialisation, file writes and the text dump: the model stops at the in-memory rows, examples and document.
- `scrape_page`, `scrape_entire_website`, the extractors not named above, `analyze_training_data.py` and the `__main__` blocks: these are drivers or parse-tree readers, not the core logic.
- `datetime.now()` timestamps and the float delay values.
- Knowledge-base records whose fields are not strings: a record is a map from key to string.
- `str.lower` beyond ASCII letters: it is used only on URLs for the extension and path tests.
- Discovery.DiscoverAllPages: the order of the returned list is not modelled, because `list(set)` does not define one. The trace gives the discovery order instead.
- Discovery.DiscoverAllPages: when the page cap is reached, the contract says the cap is filled level by level, but not which pages of the last, partly filled level are kept: that depends on the order in which links were queued, which the contract does not state.
- Knowledge.DashSplit: it is proved for any activity whose type and description hold no `-`. That the five fixed activities satisfy this is read off the constants, not proved.
- Knowledge.FormatKnowledgeBase: the rendering is proved over a `Template` of fixed texts. `Fixed` holds the document's own texts, so the statements are about the layout rather than about the prose.
