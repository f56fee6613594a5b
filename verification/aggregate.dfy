/**
  The complete scraper's result store: `scrape_multiple_urls` appends the pages that scraped
  successfully, and `get_summary_stats` totals their statistics. A page record is reduced to
  the parts these two read: its URL and its `page_statistics` counts.
 */
module Aggregate {
  import opened Wrappers

  /** The `page_statistics` counts the summary reads; all are lengths, hence natural. */
  datatype PageStatistics = PageStatistics(totalWords: nat, totalCharacters: nat, totalLinks: nat)

  datatype Page = Page(url: string, stats: PageStatistics)

  /** The pages `scrape_page` returns for `urls`, in order, skipping the URLs it fails on. */
  function Successes(scrape: string -> Option<Page>, urls: seq<string>): (r: seq<Page>)
    ensures |r| <= |urls|
  {
    if |urls| == 0 then []
    else
      var rest := Successes(scrape, urls[1..]);
      match scrape(urls[0])
      case Some(p) => [p] + rest
      case None => rest
  }

  /** `scrape_multiple_urls`: the store `stored` with the new successes appended. */
  function ScrapeMultiple(stored: seq<Page>, scrape: string -> Option<Page>, urls: seq<string>): (r: seq<Page>)
    ensures |stored| <= |r| <= |stored| + |urls|
    ensures r[..|stored|] == stored
  {
    stored + Successes(scrape, urls)
  }

  /** The number of URLs the scraper succeeds on. */
  function CountOk(scrape: string -> Option<Page>, urls: seq<string>): (n: nat)
    ensures n <= |urls|
  {
    if |urls| == 0 then 0
    else (if scrape(urls[0]).Some? then 1 else 0) + CountOk(scrape, urls[1..])
  }

  /** A page is appended exactly when scraping some URL of the batch returned it, and one
      page is appended per successful URL. */
  lemma {:induction false} SuccessesAre(scrape: string -> Option<Page>, urls: seq<string>, p: Page)
    ensures p in Successes(scrape, urls) <==> exists i :: 0 <= i < |urls| && scrape(urls[i]) == Some(p)
    ensures |Successes(scrape, urls)| == CountOk(scrape, urls)
    decreases |urls|
  {
    if |urls| > 0 {
      var tail := urls[1..];
      SuccessesAre(scrape, tail, p);
      if exists i :: 0 <= i < |tail| && scrape(tail[i]) == Some(p) {
        var i :| 0 <= i < |tail| && scrape(tail[i]) == Some(p);
        assert urls[i + 1] == tail[i];
      }
      if exists i :: 0 <= i < |urls| && scrape(urls[i]) == Some(p) {
        var i :| 0 <= i < |urls| && scrape(urls[i]) == Some(p);
        if i > 0 {
          assert tail[i - 1] == urls[i];
        }
      }
    }
  }

  /** Two batches accumulate as one batch of both URL lists: order is kept across calls. */
  lemma {:induction false} SuccessesAppend(scrape: string -> Option<Page>, a: seq<string>, b: seq<string>)
    ensures Successes(scrape, a + b) == Successes(scrape, a) + Successes(scrape, b)
    decreases |a|
  {
    if |a| == 0 {
      assert a + b == b;
    } else {
      assert (a + b)[1..] == a[1..] + b;
      SuccessesAppend(scrape, a[1..], b);
    }
  }

  lemma ScrapeMultipleTwice(stored: seq<Page>, scrape: string -> Option<Page>, a: seq<string>, b: seq<string>)
    ensures ScrapeMultiple(ScrapeMultiple(stored, scrape, a), scrape, b) == ScrapeMultiple(stored, scrape, a + b)
  {
    SuccessesAppend(scrape, a, b);
  }

  // ---------------------------------------------------------------- summary

  /** The dictionary `get_summary_stats` returns for a non-empty store. */
  datatype Summary = Summary(
    totalPages: nat,
    totalWords: nat,
    totalCharacters: nat,
    totalLinks: nat,
    averageWordsPerPage: nat,
    urlsScraped: seq<string>)

  function Words(p: Page): nat { p.stats.totalWords }
  function Characters(p: Page): nat { p.stats.totalCharacters }
  function LinkCount(p: Page): nat { p.stats.totalLinks }

  /** Python's `sum(count(item) for item in data)`. */
  function Total(data: seq<Page>, count: Page -> nat): nat {
    if |data| == 0 then 0 else count(data[0]) + Total(data[1..], count)
  }

  lemma {:induction false} TotalAppend(a: seq<Page>, b: seq<Page>, count: Page -> nat)
    ensures Total(a + b, count) == Total(a, count) + Total(b, count)
    decreases |a|
  {
    if |a| == 0 {
      assert a + b == b;
    } else {
      assert (a + b)[1..] == a[1..] + b;
      TotalAppend(a[1..], b, count);
    }
  }

  /** A total is at most the page count times the largest per-page count. */
  lemma {:induction false} TotalBound(data: seq<Page>, count: Page -> nat, bound: nat)
    requires forall k :: 0 <= k < |data| ==> count(data[k]) <= bound
    ensures Total(data, count) <= |data| * bound
    decreases |data|
  {
    if |data| > 0 {
      TotalBound(data[1..], count, bound);
    }
  }

  /** `get_summary_stats`: `{}` (None) for an empty store. */
  function SummaryStats(data: seq<Page>): (r: Option<Summary>)
    ensures r.None? <==> |data| == 0
    ensures r.Some? ==> r.value.totalPages == |data|
    ensures r.Some? ==> && r.value.totalWords == Total(data, Words)
                        && r.value.totalCharacters == Total(data, Characters)
                        && r.value.totalLinks == Total(data, LinkCount)
    ensures r.Some? ==> r.value.averageWordsPerPage * |data| <= r.value.totalWords < (r.value.averageWordsPerPage + 1) * |data|
    ensures r.Some? ==> |r.value.urlsScraped| == |data| && forall k :: 0 <= k < |data| ==> r.value.urlsScraped[k] == data[k].url
  {
    if |data| == 0 then None
    else
      var words := Total(data, Words);
      Some(Summary(
        |data|,
        words,
        Total(data, Characters),
        Total(data, LinkCount),
        words / |data|,
        seq(|data|, k requires 0 <= k < |data| => data[k].url)))
  }

  /** After a batch, each total of the summary is the old total plus the batch's own. */
  lemma SummaryAfterBatch(stored: seq<Page>, scrape: string -> Option<Page>, urls: seq<string>)
    requires |ScrapeMultiple(stored, scrape, urls)| > 0
    ensures var s := SummaryStats(ScrapeMultiple(stored, scrape, urls)).value;
            var added := Successes(scrape, urls);
            && s.totalPages == |stored| + CountOk(scrape, urls)
            && s.totalWords == Total(stored, Words) + Total(added, Words)
            && s.totalCharacters == Total(stored, Characters) + Total(added, Characters)
            && s.totalLinks == Total(stored, LinkCount) + Total(added, LinkCount)
            && s.urlsScraped[..|stored|] == seq(|stored|, k requires 0 <= k < |stored| => stored[k].url)
  {
    var added := Successes(scrape, urls);
    SuccessesAre(scrape, urls, Page("", PageStatistics(0, 0, 0)));
    TotalAppend(stored, added, Words);
    TotalAppend(stored, added, Characters);
    TotalAppend(stored, added, LinkCount);
  }

  /** The average never exceeds the largest per-page word count. */
  lemma AverageBounded(data: seq<Page>, most: nat)
    requires |data| > 0
    requires forall k :: 0 <= k < |data| ==> Words(data[k]) <= most
    ensures SummaryStats(data).value.averageWordsPerPage <= most
  {
    TotalBound(data, Words, most);
    var s := SummaryStats(data).value;
    CancelFactor(s.averageWordsPerPage, most, |data|);
  }

  lemma CancelFactor(a: nat, b: nat, n: nat)
    requires n > 0 && a * n <= b * n
    ensures a <= b
  {
    assert (a - b) * n <= 0;
  }
}
