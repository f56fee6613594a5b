/**
  Page discovery: the two breadth-first crawlers, `discover_all_pages` of the complete
  scraper and `discover_urls` of the LLM scraper, over an abstract web.
 */
module Discovery {
  import opened Wrappers
  import opened Text

  /** What a GET of one URL brings back: whether the status was a success (2xx or 3xx, the
      statuses `raise_for_status` lets through) and the `href` attribute of every `<a href>` of
      the parsed body, in document order. */
  datatype Response = Response(ok: bool, hrefs: seq<string>)

  /**
    The web as discovery sees it.
    - `fetch(u)`: the response to a GET of `u`, or None when the request raises.
    - `resolve(base, href)`: `urljoin(base, href)`, or None where it raises.
    - `host(u)`: `urlparse(u).netloc`, or None where it raises.
   */
  datatype Web = Web(
    fetch: string -> Option<Response>,
    resolve: (string, string) -> Option<string>,
    host: string -> Option<string>)

  /** A frontier entry, and a discovered page with the depth it was found at. */
  datatype Visit = Visit(url: string, depth: int)

  const SkippedPrefixes: seq<string> := ["#", "javascript:", "mailto:", "tel:"]
  const ExcludedExtensions: seq<string> :=
    [".pdf", ".jpg", ".jpeg", ".png", ".gif", ".zip", ".doc", ".docx", ".xls", ".xlsx"]
  const ExcludedPaths: seq<string> := ["/admin/", "/wp-admin/", "/login/", "/register/", "/api/"]

  function Max0(n: int): nat {
    if n < 0 then 0 else n
  }

  /** `url.split('#')[0]`: the URL without its fragment. */
  function StripFragment(url: string): (r: string)
    ensures '#' !in r
    ensures StartsWith(url, r)
    ensures '#' !in url ==> r == url
  {
    if |url| == 0 || url[0] == '#' then ""
    else [url[0]] + StripFragment(url[1..])
  }

  /** StripFragment is the Python expression it stands for. */
  lemma StripFragmentIsFirstPiece(url: string)
    ensures StripFragment(url) == Split(url, "#")[0]
  {
    match IndexFrom(url, "#", 0)
    case None =>
      forall k | 0 <= k < |url|
        ensures url[k] != '#'
      {
        assert !MatchAt(url, "#", k);
        assert url[k..k + 1] == [url[k]];
      }
      StripFragmentPrefix(url, |url|);
    case Some(i) =>
      forall k | 0 <= k < i
        ensures url[k] != '#'
      {
        assert !MatchAt(url, "#", k);
        assert url[k..k + 1] == [url[k]];
      }
      assert url[i..i + 1] == "#";
      StripFragmentPrefix(url, i);
  }

  lemma {:induction false} StripFragmentPrefix(url: string, n: nat)
    requires n <= |url|
    requires forall k :: 0 <= k < n ==> url[k] != '#'
    requires n == |url| || url[n] == '#'
    ensures StripFragment(url) == url[..n]
  {
    if n > 0 {
      StripFragmentPrefix(url[1..], n - 1);
      assert url[..n] == [url[0]] + url[1..][..n - 1];
    }
  }

  /** `not href or href.startswith(('#', 'javascript:', 'mailto:', 'tel:'))` */
  predicate Skipped(href: string) {
    href == "" || exists i :: 0 <= i < |SkippedPrefixes| && StartsWith(href, SkippedPrefixes[i])
  }

  /** The lower-cased URL ends with an excluded extension or contains an excluded path. */
  predicate Excluded(url: string) {
    var l := Lower(url);
    ExcludedExtension(l) || ExcludedPath(l)
  }

  predicate ExcludedExtension(l: string) {
    exists i :: 0 <= i < |ExcludedExtensions| && EndsWith(l, ExcludedExtensions[i])
  }

  predicate ExcludedPath(l: string) {
    exists i :: 0 <= i < |ExcludedPaths| && Contains(l, ExcludedPaths[i])
  }

  /** The filter tests a link with its fragment, `u#f`, but the crawler records `u`: the
      extension test then looks only at the fragment, so a link to `u` ending in `.pdf`
      passes whenever its fragment neither ends in an excluded extension nor holds an
      excluded path, and `u` does not hold one either. */
  lemma ExcludedOnlyAfterStripping(u: string, f: string)
    requires '#' !in u
    ensures StripFragment(u + "#" + f) == u
    ensures Excluded(u + "#" + f) <==> ExcludedExtension(Lower(f)) || ExcludedPath(Lower(u)) || ExcludedPath(Lower(f))
    ensures ExcludedExtension(Lower(u)) && !ExcludedPath(Lower(u)) && !Excluded(u + "#" + f) ==> Excluded(u)
  {
    var url := u + "#" + f;
    StripFragmentPrefix(url, |u|);
    assert url[..|u|] == u;
    LowerAround(u, '#', f);
    ExtensionAround(Lower(u), Lower(f));
    PathAround(Lower(u), Lower(f));
  }

  /** The extension test of `a#b` looks only at `b`. */
  lemma ExtensionAround(a: string, b: string)
    ensures ExcludedExtension(a + "#" + b) <==> ExcludedExtension(b)
  {
    forall i | 0 <= i < |ExcludedExtensions|
      ensures EndsWith(a + "#" + b, ExcludedExtensions[i]) <==> EndsWith(b, ExcludedExtensions[i])
    {
      assert '#' !in ExcludedExtensions[i];
      EndsWithAround(a, '#', b, ExcludedExtensions[i]);
    }
  }

  /** The path test of `a#b` finds a path exactly when `a` or `b` holds it. */
  lemma PathAround(a: string, b: string)
    ensures ExcludedPath(a + "#" + b) <==> ExcludedPath(a) || ExcludedPath(b)
  {
    forall i | 0 <= i < |ExcludedPaths|
      ensures Contains(a + "#" + b, ExcludedPaths[i]) <==> Contains(a, ExcludedPaths[i]) || Contains(b, ExcludedPaths[i])
    {
      assert '#' !in ExcludedPaths[i];
      ContainsAround(a, '#', b, ExcludedPaths[i]);
    }
  }

  /** What the complete scraper's link filter does with one stripped `href` found on `page`:
      Some(Some(full)) when it queues `full`, Some(None) when it passes over the link, and
      None when `urljoin` or `urlparse` raises. */
  function Filter(w: Web, page: string, baseDomain: string, h: string): Option<Option<string>> {
    if Skipped(h) then Some(None)
    else
      match w.resolve(page, h)
      case None => None
      case Some(full) =>
        match w.host(full)
        case None => None
        case Some(netloc) =>
          if (netloc == baseDomain || netloc == "") && !Excluded(full) then Some(Some(full))
          else Some(None)
  }

  /** The stripped `href` on `page` is queued as the absolute URL `full`: it passes every
      test of the complete scraper's link filter. */
  predicate Admits(w: Web, page: string, baseDomain: string, h: string, full: string) {
    && !Skipped(h)
    && w.resolve(page, h) == Some(full)
    && w.host(full).Some?
    && (w.host(full).value == baseDomain || w.host(full).value == "")
    && !Excluded(full)
  }

  /** The filter queues exactly the admitted links, and raises exactly where resolution or
      parsing raises. */
  lemma FilterAdmits(w: Web, page: string, baseDomain: string, h: string, full: string)
    ensures Filter(w, page, baseDomain, h) == Some(Some(full)) <==> Admits(w, page, baseDomain, h, full)
    ensures Filter(w, page, baseDomain, h).None? <==>
              (!Skipped(h) && (w.resolve(page, h).None? || w.host(w.resolve(page, h).value).None?))
  {
  }

  /**
    The URLs the complete scraper appends to its frontier from the stripped links of one
    fetched page, in document order. The appends go straight onto the frontier inside the
    `try`, so a raise part-way keeps the links appended before it and drops the rest of the page.
   */
  function Harvest(w: Web, page: string, baseDomain: string, hs: seq<string>): (r: seq<string>)
    ensures |r| <= |hs|
  {
    if |hs| == 0 then []
    else
      match Filter(w, page, baseDomain, hs[0])
      case None => []
      case Some(None) => Harvest(w, page, baseDomain, hs[1..])
      case Some(Some(full)) => [full] + Harvest(w, page, baseDomain, hs[1..])
  }

  /** Every link harvested from a page passed the filter; when no link on the page makes
      `urljoin` or `urlparse` raise, every link that passes is harvested. */
  lemma {:induction false} HarvestIsFiltered(w: Web, page: string, baseDomain: string, hs: seq<string>)
    ensures forall u :: u in Harvest(w, page, baseDomain, hs) ==>
              exists k :: 0 <= k < |hs| && Admits(w, page, baseDomain, hs[k], u)
    ensures (forall k :: 0 <= k < |hs| ==> Filter(w, page, baseDomain, hs[k]).Some?) ==>
              forall k, u :: 0 <= k < |hs| && Admits(w, page, baseDomain, hs[k], u) ==>
                u in Harvest(w, page, baseDomain, hs)
    decreases |hs|
  {
    if |hs| > 0 {
      var tail := hs[1..];
      HarvestIsFiltered(w, page, baseDomain, tail);
      assert forall k :: 1 <= k < |hs| ==> hs[k] == tail[k - 1];
      var r := Harvest(w, page, baseDomain, hs);
      forall u | u in r
        ensures exists k :: 0 <= k < |hs| && Admits(w, page, baseDomain, hs[k], u)
      {
        if u in Harvest(w, page, baseDomain, tail) {
          var k :| 0 <= k < |tail| && Admits(w, page, baseDomain, tail[k], u);
          assert Admits(w, page, baseDomain, hs[k + 1], u);
        } else {
          FilterAdmits(w, page, baseDomain, hs[0], u);
          assert Admits(w, page, baseDomain, hs[0], u);
        }
      }
      if forall k :: 0 <= k < |hs| ==> Filter(w, page, baseDomain, hs[k]).Some? {
        assert forall k :: 0 <= k < |tail| ==> Filter(w, page, baseDomain, tail[k]).Some?;
        forall k, u | 0 <= k < |hs| && Admits(w, page, baseDomain, hs[k], u)
          ensures u in r
        {
          FilterAdmits(w, page, baseDomain, hs[k], u);
          if k > 0 {
            assert Admits(w, page, baseDomain, tail[k - 1], u);
          }
        }
      }
    }
  }

  /** What the complete crawler gets from fetching `page`: the URLs it appends to the
      frontier, or None when the request raises or `raise_for_status` rejects the status. */
  function Yield(w: Web, baseDomain: string): (next: string -> Option<seq<string>>)
    ensures forall page :: next(page).Some? <==> w.fetch(page).Some? && w.fetch(page).value.ok
    ensures forall page :: next(page).Some? ==>
              next(page).value == Harvest(w, page, baseDomain, StripAll(w.fetch(page).value.hrefs))
  {
    page => match w.fetch(page)
            case Some(resp) =>
              if resp.ok then Some(Harvest(w, page, baseDomain, StripAll(resp.hrefs))) else None
            case None => None
  }

  /** The parent page, fetched at a depth below the limit, queued `entry` one level deeper. */
  ghost predicate Queued(next: string -> Option<seq<string>>, maxDepth: int, parent: Visit, entry: Visit) {
    && parent.depth < maxDepth
    && entry.depth == parent.depth + 1
    && next(parent.url).Some?
    && entry.url in next(parent.url).value
  }

  /** `child` was discovered from a link on the parent page: a queued URL whose
      fragment-stripped form is the child's URL. */
  ghost predicate Spawned(next: string -> Option<seq<string>>, maxDepth: int, parent: Visit, child: Visit) {
    && parent.depth < maxDepth
    && child.depth == parent.depth + 1
    && next(parent.url).Some?
    && exists v :: v in next(parent.url).value && StripFragment(v) == child.url
  }

  /** The page at position `i` of a discovery trace was spawned by an earlier page. */
  ghost predicate HasParent(next: string -> Option<seq<string>>, maxDepth: int, trace: seq<Visit>, i: int)
    requires 0 <= i < |trace|
  {
    exists j :: 0 <= j < i && Spawned(next, maxDepth, trace[j], trace[i])
  }

  function UrlsOf(trace: seq<Visit>): set<string> {
    set i | 0 <= i < |trace| :: trace[i].url
  }

  function AtDepth(urls: seq<string>, depth: int): (r: seq<Visit>)
    ensures |r| == |urls|
    ensures forall k :: 0 <= k < |r| ==> r[k] == Visit(urls[k], depth)
  {
    seq(|urls|, k requires 0 <= k < |urls| => Visit(urls[k], depth))
  }

  /** Depths along a frontier never go down. */
  ghost predicate Sorted(q: seq<Visit>) {
    forall k, l :: 0 <= k <= l < |q| ==> q[k].depth <= q[l].depth
  }

  /** What the complete crawler knows of the pages discovered so far, `cur` being the depth
      of the last frontier entry popped. */
  ghost predicate TraceOk(next: string -> Option<seq<string>>, start: string, maxDepth: int, trace: seq<Visit>, cur: int) {
    && (forall i, j :: 0 <= i < j < |trace| ==> trace[i].url != trace[j].url)
    && (forall i :: 0 <= i < |trace| ==> '#' !in trace[i].url)
    && (|trace| > 0 ==> trace[0] == Visit(StripFragment(start), 0))
    && 0 <= cur
    && (forall i :: 0 <= i < |trace| ==> 0 <= trace[i].depth <= maxDepth && trace[i].depth <= cur)
    && (forall i, j :: 0 <= i <= j < |trace| ==> trace[i].depth <= trace[j].depth)
    && (forall i :: 0 < i < |trace| ==> HasParent(next, maxDepth, trace, i))
  }

  /** The popped entry came from the start or was queued by a discovered page. */
  ghost predicate Sourced(next: string -> Option<seq<string>>, start: string, maxDepth: int, trace: seq<Visit>, e: Visit) {
    || (|trace| == 0 && e == Visit(start, 0))
    || exists j :: 0 <= j < |trace| && Queued(next, maxDepth, trace[j], e)
  }

  /** The FIFO frontier of breadth-first search: depths within one level of `cur`, in order,
      and every entry sourced. */
  ghost predicate FrontierOk(next: string -> Option<seq<string>>, start: string, maxDepth: int,
                             trace: seq<Visit>, queue: seq<Visit>, cur: int) {
    && (|trace| == 0 ==> |queue| <= 1)
    && (forall k :: 0 <= k < |queue| ==> cur <= queue[k].depth <= cur + 1)
    && Sorted(queue)
    && (forall k :: 0 <= k < |queue| ==> Sourced(next, start, maxDepth, trace, queue[k]))
  }

  lemma PopKeeps(next: string -> Option<seq<string>>, start: string, maxDepth: int,
                 trace: seq<Visit>, queue: seq<Visit>, cur: int)
    requires TraceOk(next, start, maxDepth, trace, cur)
    requires FrontierOk(next, start, maxDepth, trace, queue, cur)
    requires |queue| > 0
    ensures TraceOk(next, start, maxDepth, trace, queue[0].depth)
    ensures FrontierOk(next, start, maxDepth, trace, queue[1..], queue[0].depth)
    ensures Sourced(next, start, maxDepth, trace, queue[0])
  {
    assert forall k :: 0 <= k < |queue| - 1 ==> queue[1..][k] == queue[k + 1];
  }

  lemma UrlsOfSnoc(trace: seq<Visit>, v: Visit)
    ensures UrlsOf(trace + [v]) == UrlsOf(trace) + {v.url}
  {
    var t := trace + [v];
    assert forall i :: 0 <= i < |trace| ==> t[i] == trace[i];
    assert t[|trace|] == v;
  }

  lemma UrlsOfCard(trace: seq<Visit>)
    requires forall i, j :: 0 <= i < j < |trace| ==> trace[i].url != trace[j].url
    ensures |UrlsOf(trace)| == |trace|
  {
    if |trace| > 0 {
      var init := trace[..|trace| - 1];
      UrlsOfCard(init);
      assert trace == init + [trace[|trace| - 1]];
      UrlsOfSnoc(init, trace[|trace| - 1]);
      assert trace[|trace| - 1].url !in UrlsOf(init);
    }
  }

  /** Recording a new page keeps the trace invariant when the page is fresh, has no
      fragment, sits at the current depth and was spawned by an earlier page. */
  lemma RecordKeepsTrace(next: string -> Option<seq<string>>, start: string, maxDepth: int,
                         trace: seq<Visit>, v: Visit)
    requires TraceOk(next, start, maxDepth, trace, v.depth)
    requires v.url !in UrlsOf(trace) && '#' !in v.url && v.depth <= maxDepth
    requires |trace| == 0 ==> v == Visit(StripFragment(start), 0)
    requires |trace| > 0 ==> exists j :: 0 <= j < |trace| && Spawned(next, maxDepth, trace[j], v)
    ensures TraceOk(next, start, maxDepth, trace + [v], v.depth)
  {
    var t := trace + [v];
    assert forall i :: 0 <= i < |trace| ==> t[i] == trace[i];
    forall i | 0 <= i < |trace|
      ensures trace[i].url != v.url
    {
      assert trace[i].url in UrlsOf(trace);
    }
    RecordKeepsParents(next, maxDepth, trace, v);
  }

  lemma RecordKeepsParents(next: string -> Option<seq<string>>, maxDepth: int, trace: seq<Visit>, v: Visit)
    requires forall i :: 0 < i < |trace| ==> HasParent(next, maxDepth, trace, i)
    requires |trace| > 0 ==> exists j :: 0 <= j < |trace| && Spawned(next, maxDepth, trace[j], v)
    ensures forall i :: 0 < i < |trace + [v]| ==> HasParent(next, maxDepth, trace + [v], i)
  {
    var t := trace + [v];
    if |trace| > 0 {
      var j :| 0 <= j < |trace| && Spawned(next, maxDepth, trace[j], v);
      assert Spawned(next, maxDepth, t[j], t[|trace|]);
      assert HasParent(next, maxDepth, t, |trace|);
      forall i | 0 < i < |trace|
        ensures HasParent(next, maxDepth, t, i)
      {
        assert HasParent(next, maxDepth, trace, i);
        var j' :| 0 <= j' < i && Spawned(next, maxDepth, trace[j'], trace[i]);
        assert t[j'] == trace[j'] && t[i] == trace[i];
        assert Spawned(next, maxDepth, t[j'], t[i]);
      }
    }
  }

  /** Entries sourced by a trace stay sourced when the trace grows. */
  lemma RecordKeepsFrontier(next: string -> Option<seq<string>>, start: string, maxDepth: int,
                            trace: seq<Visit>, rest: seq<Visit>, v: Visit, cur: int)
    requires FrontierOk(next, start, maxDepth, trace, rest, cur)
    requires |trace| == 0 ==> |rest| == 0
    ensures FrontierOk(next, start, maxDepth, trace + [v], rest, cur)
  {
    var t := trace + [v];
    forall k | 0 <= k < |rest|
      ensures Sourced(next, start, maxDepth, t, rest[k])
    {
      var j :| 0 <= j < |trace| && Queued(next, maxDepth, trace[j], rest[k]);
      assert t[j] == trace[j];
    }
  }

  /** A frontier entry queued by a page of the trace spawns its fragment-stripped URL. */
  lemma QueuedSpawns(next: string -> Option<seq<string>>, start: string, maxDepth: int,
                     trace: seq<Visit>, e: Visit)
    requires Sourced(next, start, maxDepth, trace, e)
    requires |trace| > 0
    ensures exists j :: 0 <= j < |trace| && Spawned(next, maxDepth, trace[j], Visit(StripFragment(e.url), e.depth))
  {
    var j :| 0 <= j < |trace| && Queued(next, maxDepth, trace[j], e);
    assert Spawned(next, maxDepth, trace[j], Visit(StripFragment(e.url), e.depth));
  }

  /** Recording the popped entry, fragment stripped, keeps both invariants. */
  lemma DiscoverKeeps(next: string -> Option<seq<string>>, start: string, maxDepth: int,
                      trace: seq<Visit>, rest: seq<Visit>, e: Visit)
    requires TraceOk(next, start, maxDepth, trace, e.depth)
    requires FrontierOk(next, start, maxDepth, trace, rest, e.depth)
    requires Sourced(next, start, maxDepth, trace, e)
    requires |trace| == 0 ==> |rest| == 0
    requires e.depth <= maxDepth
    requires StripFragment(e.url) !in UrlsOf(trace)
    ensures TraceOk(next, start, maxDepth, trace + [Visit(StripFragment(e.url), e.depth)], e.depth)
    ensures FrontierOk(next, start, maxDepth, trace + [Visit(StripFragment(e.url), e.depth)], rest, e.depth)
  {
    var v := Visit(StripFragment(e.url), e.depth);
    if |trace| > 0 {
      QueuedSpawns(next, start, maxDepth, trace, e);
    }
    RecordKeepsTrace(next, start, maxDepth, trace, v);
    RecordKeepsFrontier(next, start, maxDepth, trace, rest, v, e.depth);
  }

  /** Queueing the URLs harvested from the page at position `j`, fetched at the current
      depth, keeps the frontier invariant. */
  lemma ExtendKeeps(next: string -> Option<seq<string>>, start: string, maxDepth: int,
                    trace: seq<Visit>, rest: seq<Visit>, cur: int, j: int, urls: seq<string>)
    requires 0 <= j < |trace| && trace[j].depth == cur < maxDepth
    requires FrontierOk(next, start, maxDepth, trace, rest, cur)
    requires next(trace[j].url) == Some(urls)
    ensures FrontierOk(next, start, maxDepth, trace, rest + AtDepth(urls, cur + 1), cur)
  {
    var more := AtDepth(urls, cur + 1);
    var q := rest + more;
    forall k | 0 <= k < |q|
      ensures Sourced(next, start, maxDepth, trace, q[k])
    {
      if k >= |rest| {
        assert q[k] == more[k - |rest|];
        assert Queued(next, maxDepth, trace[j], q[k]);
      }
    }
    forall k, l | 0 <= k <= l < |q|
      ensures q[k].depth <= q[l].depth
    {
      if l >= |rest| {
        assert q[l] == more[l - |rest|];
      }
    }
  }

  /** One recording step of the complete crawler: the popped entry's fragment-stripped
      URL joins the trace and the URLs harvested from it, if any, join the frontier. */
  lemma VisitKeeps(next: string -> Option<seq<string>>, start: string, maxDepth: int,
                   trace: seq<Visit>, rest: seq<Visit>, e: Visit, more: seq<Visit>)
    requires TraceOk(next, start, maxDepth, trace, e.depth)
    requires FrontierOk(next, start, maxDepth, trace, rest, e.depth)
    requires Sourced(next, start, maxDepth, trace, e)
    requires |trace| == 0 ==> |rest| == 0
    requires e.depth <= maxDepth
    requires StripFragment(e.url) !in UrlsOf(trace)
    requires more == [] || (e.depth < maxDepth && next(StripFragment(e.url)).Some? &&
                            more == AtDepth(next(StripFragment(e.url)).value, e.depth + 1))
    ensures TraceOk(next, start, maxDepth, trace + [Visit(StripFragment(e.url), e.depth)], e.depth)
    ensures FrontierOk(next, start, maxDepth, trace + [Visit(StripFragment(e.url), e.depth)], rest + more, e.depth)
  {
    DiscoverKeeps(next, start, maxDepth, trace, rest, e);
    var v := Visit(StripFragment(e.url), e.depth);
    if more != [] {
      LastOfSnoc(trace, v);
      ExtendKeeps(next, start, maxDepth, trace + [v], rest, e.depth, |trace|, next(v.url).value);
    } else {
      assert rest + more == rest;
    }
  }

  lemma LastOfSnoc(trace: seq<Visit>, v: Visit)
    ensures |trace + [v]| > 0 && (trace + [v])[|trace + [v]| - 1] == v
  {
  }

  /** Every link harvested from a recorded page below the depth limit, whose recording left
      room under the page cap, has been recorded, fragment stripped and at most one level
      deeper than the page, or waits in the frontier one level deeper. Breadth-first order is
      what bounds the recorded depth: a link is recorded no deeper than one level below the
      first recorded page that links to it. */
  ghost predicate Covered(next: string -> Option<seq<string>>, maxPages: int, maxDepth: int,
                          trace: seq<Visit>, queue: seq<Visit>) {
    forall i, v {:trigger Reached(trace, queue, trace[i], v)} ::
      0 <= i < |trace| && i + 1 < maxPages && trace[i].depth < maxDepth && next(trace[i].url).Some? &&
      v in next(trace[i].url).value ==>
        Reached(trace, queue, trace[i], v)
  }

  /** The link `v` of the recorded page `parent` has been recorded, fragment stripped, no
      deeper than one level below `parent`, or waits in the frontier one level below it. */
  ghost predicate Reached(trace: seq<Visit>, queue: seq<Visit>, parent: Visit, v: string) {
    RecordedBy(trace, StripFragment(v), parent.depth + 1) || Visit(v, parent.depth + 1) in queue
  }

  /** `u` is recorded at depth `d` or less. */
  ghost predicate RecordedBy(trace: seq<Visit>, u: string, d: int) {
    exists j :: 0 <= j < |trace| && trace[j].url == u && trace[j].depth <= d
  }

  /** Recording a page keeps what was recorded, and adds the page itself. */
  lemma RecordedBySnoc(trace: seq<Visit>, e: Visit, u: string, d: int)
    requires RecordedBy(trace, u, d) || (e.url == u && e.depth <= d)
    ensures RecordedBy(trace + [e], u, d)
  {
    var t := trace + [e];
    if RecordedBy(trace, u, d) {
      var j :| 0 <= j < |trace| && trace[j].url == u && trace[j].depth <= d;
      assert t[j] == trace[j];
    } else {
      assert t[|trace|] == e;
    }
  }

  /** Popping an entry that is already recorded, or too deep to be one of the waiting links,
      keeps every link covered. */
  lemma SkipKeepsCovered(next: string -> Option<seq<string>>, maxPages: int, maxDepth: int, found: set<string>,
                         trace: seq<Visit>, queue: seq<Visit>)
    requires Covered(next, maxPages, maxDepth, trace, queue)
    requires |queue| > 0 && (StripFragment(queue[0].url) in found || queue[0].depth > maxDepth)
    requires found == UrlsOf(trace) && forall i :: 0 <= i < |trace| ==> trace[i].depth <= queue[0].depth
    ensures Covered(next, maxPages, maxDepth, trace, queue[1..])
  {
    forall i, v | 0 <= i < |trace| && i + 1 < maxPages && trace[i].depth < maxDepth && next(trace[i].url).Some? &&
                  v in next(trace[i].url).value
      ensures Reached(trace, queue[1..], trace[i], v)
    {
      assert Reached(trace, queue, trace[i], v);
      var e := Visit(v, trace[i].depth + 1);
      if !RecordedBy(trace, StripFragment(v), trace[i].depth + 1) {
        var k :| 0 <= k < |queue| && queue[k] == e;
        assert k > 0;
        assert queue[1..][k - 1] == e;
      }
    }
  }

  /** Recording the popped entry and queueing what its page yields keeps every link
      covered. */
  lemma RecordKeepsCovered(next: string -> Option<seq<string>>, maxPages: int, maxDepth: int,
                           trace: seq<Visit>, queue: seq<Visit>, more: seq<Visit>)
    requires Covered(next, maxPages, maxDepth, trace, queue)
    requires |queue| > 0
    requires more == Queues(next, maxPages, maxDepth, |trace|, StripFragment(queue[0].url), queue[0].depth)
    ensures Covered(next, maxPages, maxDepth, trace + [Visit(StripFragment(queue[0].url), queue[0].depth)], queue[1..] + more)
  {
    var clean := StripFragment(queue[0].url);
    var t := trace + [Visit(clean, queue[0].depth)];
    OldLinksCovered(next, maxPages, maxDepth, trace, queue, more);
    if queue[0].depth < maxDepth && |trace| + 1 < maxPages && next(clean).Some? {
      NewLinksCovered(queue, next(clean).value);
    }
    forall i, v | 0 <= i < |t| && i + 1 < maxPages && t[i].depth < maxDepth && next(t[i].url).Some? && v in next(t[i].url).value
      ensures Reached(t, queue[1..] + more, t[i], v)
    {
      if i < |trace| {
        assert t[i] == trace[i];
      }
    }
  }

  /** The links of the pages recorded before stay covered. */
  lemma OldLinksCovered(next: string -> Option<seq<string>>, maxPages: int, maxDepth: int,
                        trace: seq<Visit>, queue: seq<Visit>, more: seq<Visit>)
    requires Covered(next, maxPages, maxDepth, trace, queue)
    requires |queue| > 0
    ensures forall i, v :: 0 <= i < |trace| && i + 1 < maxPages && trace[i].depth < maxDepth && next(trace[i].url).Some? &&
                           v in next(trace[i].url).value
              ==> Reached(trace + [Visit(StripFragment(queue[0].url), queue[0].depth)], queue[1..] + more, trace[i], v)
  {
    forall i, v | 0 <= i < |trace| && i + 1 < maxPages && trace[i].depth < maxDepth && next(trace[i].url).Some? &&
                  v in next(trace[i].url).value
      ensures Reached(trace + [Visit(StripFragment(queue[0].url), queue[0].depth)], queue[1..] + more, trace[i], v)
    {
      assert Reached(trace, queue, trace[i], v);
      StillCovered(trace, queue, more, Visit(v, trace[i].depth + 1), StripFragment(v));
    }
  }

  /** The links of the page just recorded all wait in the frontier one level deeper. */
  lemma NewLinksCovered(queue: seq<Visit>, urls: seq<string>)
    requires |queue| > 0
    ensures forall v :: v in urls ==> Visit(v, queue[0].depth + 1) in queue[1..] + AtDepth(urls, queue[0].depth + 1)
  {
    forall v | v in urls
      ensures Visit(v, queue[0].depth + 1) in queue[1..] + AtDepth(urls, queue[0].depth + 1)
    {
      NewlyCovered(queue, urls, v);
    }
  }

  /** A link whose cleaned URL `u` was recorded, or whose entry `e` was waiting, stays so
      after the head is popped, its cleaned URL recorded and `more` queued. */
  lemma StillCovered(trace: seq<Visit>, queue: seq<Visit>, more: seq<Visit>, e: Visit, u: string)
    requires |queue| > 0 && (RecordedBy(trace, u, e.depth) || e in queue) && u == StripFragment(e.url)
    ensures RecordedBy(trace + [Visit(StripFragment(queue[0].url), queue[0].depth)], u, e.depth) || e in queue[1..] + more
  {
    var n := Visit(StripFragment(queue[0].url), queue[0].depth);
    if RecordedBy(trace, u, e.depth) {
      RecordedBySnoc(trace, n, u, e.depth);
    } else {
      var k :| 0 <= k < |queue| && queue[k] == e;
      if k > 0 {
        assert (queue[1..] + more)[k - 1] == e;
      } else {
        RecordedBySnoc(trace, n, u, e.depth);
      }
    }
  }

  /** Every link of the recorded page waits in the frontier one level deeper. */
  lemma NewlyCovered(queue: seq<Visit>, urls: seq<string>, v: string)
    requires |queue| > 0 && v in urls
    ensures Visit(v, queue[0].depth + 1) in queue[1..] + AtDepth(urls, queue[0].depth + 1)
  {
    var k :| 0 <= k < |urls| && urls[k] == v;
    assert (queue[1..] + AtDepth(urls, queue[0].depth + 1))[|queue| - 1 + k] == Visit(v, queue[0].depth + 1);
  }

  /** Once the frontier is empty below the page cap, every link of a recorded page below the
      depth limit was recorded itself, at most one level deeper than that page. */
  lemma Drained(next: string -> Option<seq<string>>, maxPages: int, maxDepth: int, trace: seq<Visit>)
    requires Covered(next, maxPages, maxDepth, trace, []) && |trace| < maxPages
    ensures forall i, v :: 0 <= i < |trace| && trace[i].depth < maxDepth && next(trace[i].url).Some? &&
                           v in next(trace[i].url).value
              ==> RecordedBy(trace, StripFragment(v), trace[i].depth + 1)
  {
    forall i, v | 0 <= i < |trace| && trace[i].depth < maxDepth && next(trace[i].url).Some? &&
                  v in next(trace[i].url).value
      ensures RecordedBy(trace, StripFragment(v), trace[i].depth + 1)
    {
      assert Reached(trace, [], trace[i], v);
    }
  }

  /** Breadth-first order where the crawl may stop early: every link of a recorded page that
      queued its links is recorded at most one level deeper than that page, or it still waits
      in the frontier, and then no recorded page is deeper than that level. */
  lemma StoppedAtLevel(next: string -> Option<seq<string>>, maxPages: int, maxDepth: int,
                       trace: seq<Visit>, queue: seq<Visit>, cur: int)
    requires Covered(next, maxPages, maxDepth, trace, queue)
    requires forall i :: 0 <= i < |trace| ==> trace[i].depth <= cur
    requires forall k :: 0 <= k < |queue| ==> cur <= queue[k].depth
    ensures forall i, v :: 0 <= i < |trace| && i + 1 < maxPages && trace[i].depth < maxDepth &&
                           next(trace[i].url).Some? && v in next(trace[i].url).value
              ==> || RecordedBy(trace, StripFragment(v), trace[i].depth + 1)
                  || forall j :: 0 <= j < |trace| ==> trace[j].depth <= trace[i].depth + 1
  {
    forall i, v | 0 <= i < |trace| && i + 1 < maxPages && trace[i].depth < maxDepth &&
                  next(trace[i].url).Some? && v in next(trace[i].url).value
      ensures || RecordedBy(trace, StripFragment(v), trace[i].depth + 1)
              || forall j :: 0 <= j < |trace| ==> trace[j].depth <= trace[i].depth + 1
    {
      assert Reached(trace, queue, trace[i], v);
      if !RecordedBy(trace, StripFragment(v), trace[i].depth + 1) {
        var k :| 0 <= k < |queue| && queue[k] == Visit(v, trace[i].depth + 1);
        assert cur <= queue[k].depth;
      }
    }
  }

  /** The page `page` has a link whose fragment-stripped form is `u`. */
  ghost predicate LinksTo(next: string -> Option<seq<string>>, page: string, u: string) {
    next(page).Some? && exists v :: v in next(page).value && StripFragment(v) == u
  }

  /** `path` is a chain of pages from the start: the start, fragment stripped, then each page
      a link on the page before it, fragment stripped. */
  ghost predicate LinkPath(next: string -> Option<seq<string>>, start: string, path: seq<string>) {
    && |path| > 0
    && path[0] == StripFragment(start)
    && forall k :: 0 < k < |path| ==> LinksTo(next, path[k - 1], path[k])
  }

  /** When the start is recorded first and every link of a recorded page below the depth limit
      is recorded at most one level deeper, the end of every chain of at most `maxDepth` links
      from the start is recorded no deeper than the chain is long. */
  lemma {:induction false} PathRecorded(next: string -> Option<seq<string>>, start: string, maxDepth: int,
                                        trace: seq<Visit>, path: seq<string>)
    requires |trace| > 0 && trace[0] == Visit(StripFragment(start), 0)
    requires forall i, v :: 0 <= i < |trace| && trace[i].depth < maxDepth && next(trace[i].url).Some? &&
                           v in next(trace[i].url).value
              ==> RecordedBy(trace, StripFragment(v), trace[i].depth + 1)
    requires LinkPath(next, start, path) && |path| <= maxDepth + 1
    ensures RecordedBy(trace, path[|path| - 1], |path| - 1)
    decreases |path|
  {
    var n := |path| - 1;
    if n == 0 {
      assert trace[0].url == path[0];
    } else {
      var prefix := path[..n];
      forall k | 0 < k < |prefix|
        ensures LinksTo(next, prefix[k - 1], prefix[k])
      {
        assert prefix[k - 1] == path[k - 1] && prefix[k] == path[k];
      }
      PathRecorded(next, start, maxDepth, trace, prefix);
      var j :| 0 <= j < |trace| && trace[j].url == path[n - 1] && trace[j].depth <= n - 1;
      assert LinksTo(next, path[n - 1], path[n]);
      var v :| v in next(path[n - 1]).value && StripFragment(v) == path[n];
      assert RecordedBy(trace, StripFragment(v), trace[j].depth + 1);
      var j' :| 0 <= j' < |trace| && trace[j'].url == path[n] && trace[j'].depth <= trace[j].depth + 1;
    }
  }

  /** Every page at the end of a chain of at most `maxDepth` links from the start is found. */
  lemma PathsFound(next: string -> Option<seq<string>>, start: string, maxDepth: int,
                   found: set<string>, trace: seq<Visit>)
    requires |trace| > 0 && trace[0] == Visit(StripFragment(start), 0) && found == UrlsOf(trace)
    requires forall i, v :: 0 <= i < |trace| && trace[i].depth < maxDepth && next(trace[i].url).Some? &&
                           v in next(trace[i].url).value
              ==> RecordedBy(trace, StripFragment(v), trace[i].depth + 1)
    ensures forall path :: LinkPath(next, start, path) && |path| <= maxDepth + 1 ==> path[|path| - 1] in found
  {
    forall path | LinkPath(next, start, path) && |path| <= maxDepth + 1
      ensures path[|path| - 1] in found
    {
      PathRecorded(next, start, maxDepth, trace, path);
    }
  }

  /** The loop invariant of the complete crawler. Its `visited` and `discovered_urls` sets
      always hold the same URLs, so `found` stands for both. */
  ghost predicate Crawling(next: string -> Option<seq<string>>, start: string, maxPages: int, maxDepth: int,
                           found: set<string>, trace: seq<Visit>, queue: seq<Visit>, cur: int) {
    && found == UrlsOf(trace) && |trace| == |found|
    && |found| <= Max0(maxPages)
    && (maxPages > 0 && maxDepth >= 0 && |trace| == 0 ==> queue == [Visit(start, 0)])
    && TraceOk(next, start, maxDepth, trace, cur)
    && FrontierOk(next, start, maxDepth, trace, queue, cur)
    && Covered(next, maxPages, maxDepth, trace, queue)
  }

  /** Whether a turn passes over the popped entry: its URL was visited, it is too deep, or
      its URL without the fragment was visited. */
  predicate Passed(found: set<string>, maxDepth: int, entry: Visit) {
    entry.url in found || entry.depth > maxDepth || StripFragment(entry.url) in found
  }

  /** The entries a turn queues after recording the page `clean` found at `depth`: what the
      page yields, one level deeper, when the page is below the depth limit, the page cap is
      not reached by recording it, and the fetch succeeds. */
  function Queues(next: string -> Option<seq<string>>, maxPages: int, maxDepth: int, count: nat, clean: string, depth: int): seq<Visit> {
    if depth < maxDepth && count + 1 < maxPages && next(clean).Some?
    then AtDepth(next(clean).value, depth + 1)
    else []
  }

  /** Passing over the head of the frontier keeps the loop invariant. */
  lemma PassKeeps(next: string -> Option<seq<string>>, start: string, maxPages: int, maxDepth: int,
                  found: set<string>, trace: seq<Visit>, queue: seq<Visit>, cur: int)
    requires |queue| > 0 && |found| < maxPages
    requires Crawling(next, start, maxPages, maxDepth, found, trace, queue, cur)
    requires Passed(found, maxDepth, queue[0])
    ensures Crawling(next, start, maxPages, maxDepth, found, trace, queue[1..], queue[0].depth)
  {
    PopKeeps(next, start, maxDepth, trace, queue, cur);
    if queue[0].url in found {
      assert '#' !in queue[0].url;
    }
    SkipKeepsCovered(next, maxPages, maxDepth, found, trace, queue);
  }

  /** Recording the popped entry keeps the trace and frontier shapes. */
  lemma RecordKeepsOrder(next: string -> Option<seq<string>>, start: string, maxDepth: int,
                         trace: seq<Visit>, queue: seq<Visit>, cur: int, more: seq<Visit>)
    requires TraceOk(next, start, maxDepth, trace, cur)
    requires FrontierOk(next, start, maxDepth, trace, queue, cur)
    requires |queue| > 0 && queue[0].depth <= maxDepth && StripFragment(queue[0].url) !in UrlsOf(trace)
    requires more == [] || (queue[0].depth < maxDepth && next(StripFragment(queue[0].url)).Some? &&
                            more == AtDepth(next(StripFragment(queue[0].url)).value, queue[0].depth + 1))
    ensures TraceOk(next, start, maxDepth, trace + [Visit(StripFragment(queue[0].url), queue[0].depth)], queue[0].depth)
    ensures FrontierOk(next, start, maxDepth, trace + [Visit(StripFragment(queue[0].url), queue[0].depth)],
                       queue[1..] + more, queue[0].depth)
  {
    PopKeeps(next, start, maxDepth, trace, queue, cur);
    VisitKeeps(next, start, maxDepth, trace, queue[1..], queue[0], more);
  }

  /** Recording the head of the frontier and queueing what its page yields keeps the loop
      invariant. */
  lemma RecordKeeps(next: string -> Option<seq<string>>, start: string, maxPages: int, maxDepth: int,
                    found: set<string>, trace: seq<Visit>, queue: seq<Visit>, cur: int, more: seq<Visit>)
    requires |queue| > 0 && |found| < maxPages
    requires found == UrlsOf(trace) && |trace| == |found|
    requires TraceOk(next, start, maxDepth, trace, cur) && FrontierOk(next, start, maxDepth, trace, queue, cur)
    requires Covered(next, maxPages, maxDepth, trace, queue)
    requires !Passed(found, maxDepth, queue[0])
    requires more == Queues(next, maxPages, maxDepth, |found|, StripFragment(queue[0].url), queue[0].depth)
    ensures Crawling(next, start, maxPages, maxDepth, found + {StripFragment(queue[0].url)},
                     trace + [Visit(StripFragment(queue[0].url), queue[0].depth)], queue[1..] + more, queue[0].depth)
  {
    var entry := queue[0];
    var clean := StripFragment(entry.url);
    RecordKeepsOrder(next, start, maxDepth, trace, queue, cur, more);
    UrlsOfSnoc(trace, Visit(clean, entry.depth));
    RecordKeepsCovered(next, maxPages, maxDepth, trace, queue, more);
  }

  /** The fetch a turn makes for the page `clean` it records at `depth`, after `count`
      pages: only below the depth limit and while recording it leaves room under the page
      cap; a raised request or a rejected status queues nothing. */
  method FetchLinks(w: Web, baseDomain: string, maxPages: int, maxDepth: int, count: nat, clean: string, depth: int)
    returns (more: seq<Visit>)
    ensures more == Queues(Yield(w, baseDomain), maxPages, maxDepth, count, clean, depth)
  {
    more := [];
    if depth < maxDepth && count + 1 < maxPages {
      match w.fetch(clean)
      case None =>
      case Some(resp) =>
        if resp.ok {
          more := AtDepth(Harvest(w, clean, baseDomain, StripAll(resp.hrefs)), depth + 1);
        }
    }
  }

  /** One turn of the complete crawler's loop: pop the head of the frontier, then either pass
      over it or record its fragment-stripped URL and queue the links of its page. */
  method CrawlStep(w: Web, baseDomain: string, start: string, maxPages: int, maxDepth: int,
                   found: set<string>, trace: seq<Visit>, queue: seq<Visit>, ghost cur: int)
    returns (found': set<string>, trace': seq<Visit>, queue': seq<Visit>, ghost cur': int)
    requires |queue| > 0 && |found| < maxPages
    requires Crawling(Yield(w, baseDomain), start, maxPages, maxDepth, found, trace, queue, cur)
    ensures Crawling(Yield(w, baseDomain), start, maxPages, maxDepth, found', trace', queue', cur')
    ensures Passed(found, maxDepth, queue[0]) ==>
              found' == found && trace' == trace && queue' == queue[1..]
    ensures !Passed(found, maxDepth, queue[0]) ==>
              var clean := StripFragment(queue[0].url);
              && found' == found + {clean} && clean !in found
              && trace' == trace + [Visit(clean, queue[0].depth)]
              && queue' == queue[1..] + Queues(Yield(w, baseDomain), maxPages, maxDepth, |found|, clean, queue[0].depth)
  {
    var entry := queue[0];
    var clean := StripFragment(entry.url);
    if entry.url in found || entry.depth > maxDepth || clean in found {
      PassKeeps(Yield(w, baseDomain), start, maxPages, maxDepth, found, trace, queue, cur);
      return found, trace, queue[1..], entry.depth;
    }
    var more := FetchLinks(w, baseDomain, maxPages, maxDepth, |found|, clean, entry.depth);
    RecordKeeps(Yield(w, baseDomain), start, maxPages, maxDepth, found, trace, queue, cur, more);
    found' := found + {clean};
    trace' := trace + [Visit(clean, entry.depth)];
    queue' := queue[1..] + more;
    cur' := entry.depth;
  }

  /** What the complete crawler's loop leaves behind once the frontier is empty or the page
      cap is reached. */
  lemma CrawlDone(next: string -> Option<seq<string>>, start: string, maxPages: int, maxDepth: int,
                  found: set<string>, trace: seq<Visit>, queue: seq<Visit>, cur: int)
    requires Crawling(next, start, maxPages, maxDepth, found, trace, queue, cur)
    requires |queue| == 0 || |found| >= maxPages
    ensures forall i, j :: 0 <= i < j < |trace| ==> trace[i].url != trace[j].url
    ensures maxPages > 0 && maxDepth >= 0 ==> |trace| > 0 && trace[0] == Visit(StripFragment(start), 0)
    ensures |found| < maxPages ==>
              forall i, v :: 0 <= i < |trace| && trace[i].depth < maxDepth && next(trace[i].url).Some? &&
                             v in next(trace[i].url).value
                ==> RecordedBy(trace, StripFragment(v), trace[i].depth + 1)
    ensures |found| < maxPages ==>
              forall path :: LinkPath(next, start, path) && |path| <= maxDepth + 1 ==> path[|path| - 1] in found
    ensures forall i, v :: 0 <= i < |trace| && i + 1 < maxPages && trace[i].depth < maxDepth &&
                           next(trace[i].url).Some? && v in next(trace[i].url).value
              ==> || RecordedBy(trace, StripFragment(v), trace[i].depth + 1)
                  || forall j :: 0 <= j < |trace| ==> trace[j].depth <= trace[i].depth + 1
  {
    UrlsOfCard(trace);
    StoppedAtLevel(next, maxPages, maxDepth, trace, queue, cur);
    if |found| < maxPages {
      Drained(next, maxPages, maxDepth, trace);
      if maxDepth >= 0 {
        PathsFound(next, start, maxDepth, found, trace);
      }
    }
  }

  /** The loop of the complete crawler: turns from the start until the frontier is empty or
      the page cap is reached. */
  method Crawl(w: Web, baseDomain: string, start: string, maxPages: int, maxDepth: int)
    returns (found: set<string>, trace: seq<Visit>, queue: seq<Visit>, ghost cur: int)
    ensures Crawling(Yield(w, baseDomain), start, maxPages, maxDepth, found, trace, queue, cur)
    ensures |queue| == 0 || |found| >= maxPages
  {
    found := {};
    trace := [];
    queue := [Visit(start, 0)];
    cur := 0;
    while |queue| > 0 && |found| < maxPages
      invariant Crawling(Yield(w, baseDomain), start, maxPages, maxDepth, found, trace, queue, cur)
      decreases maxPages - |found|, |queue|
    {
      found, trace, queue, cur := CrawlStep(w, baseDomain, start, maxPages, maxDepth, found, trace, queue, cur);
    }
  }

  /**
    `discover_all_pages(start_url, max_pages, max_depth)` with `baseDomain` standing for
    `urlparse(self.base_url).netloc`. `found` is the returned set of pages; `trace` lists
    them in discovery order (the numbered "Discovered page" log lines) with their depths.
   */
  method DiscoverAllPages(w: Web, baseDomain: string, start: string, maxPages: int, maxDepth: int)
    returns (found: set<string>, trace: seq<Visit>)
    ensures |found| <= Max0(maxPages)
    ensures maxPages <= 0 || maxDepth < 0 ==> found == {}
    ensures maxPages > 0 && maxDepth >= 0 ==> |trace| > 0 && trace[0] == Visit(StripFragment(start), 0)
    ensures forall u :: u in found ==> '#' !in u
    ensures found == UrlsOf(trace) && |trace| == |found|
    ensures forall i, j :: 0 <= i < j < |trace| ==> trace[i].url != trace[j].url
    ensures forall i :: 0 <= i < |trace| ==> 0 <= trace[i].depth <= maxDepth
    ensures forall i, j :: 0 <= i <= j < |trace| ==> trace[i].depth <= trace[j].depth
    ensures forall i :: 0 < i < |trace| ==> HasParent(Yield(w, baseDomain), maxDepth, trace, i)
    ensures |found| < maxPages ==>
              forall i, v :: 0 <= i < |trace| && trace[i].depth < maxDepth && Yield(w, baseDomain)(trace[i].url).Some? &&
                             v in Yield(w, baseDomain)(trace[i].url).value
                ==> RecordedBy(trace, StripFragment(v), trace[i].depth + 1)
    ensures |found| < maxPages ==>
              forall path :: LinkPath(Yield(w, baseDomain), start, path) && |path| <= maxDepth + 1 ==> path[|path| - 1] in found
    ensures forall i, v :: 0 <= i < |trace| && i + 1 < maxPages && trace[i].depth < maxDepth &&
                           Yield(w, baseDomain)(trace[i].url).Some? && v in Yield(w, baseDomain)(trace[i].url).value
              ==> || RecordedBy(trace, StripFragment(v), trace[i].depth + 1)
                  || forall j :: 0 <= j < |trace| ==> trace[j].depth <= trace[i].depth + 1
  {
    var queue;
    ghost var cur;
    found, trace, queue, cur := Crawl(w, baseDomain, start, maxPages, maxDepth);
    CrawlDone(Yield(w, baseDomain), start, maxPages, maxDepth, found, trace, queue, cur);
  }
}
