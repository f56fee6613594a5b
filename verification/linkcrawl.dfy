/**
  `discover_urls` of the LLM scraper: breadth-first discovery without a page limit, over
  the same abstract web as the complete crawler. Unlike that crawler it keeps raw `href`
  values, follows only links whose host is exactly the base host, keeps fragments, does not
  check the response status, and has no page limit.
 */
module LinkCrawl {
  import opened Wrappers
  import Discovery

  type Web = Discovery.Web
  type Visit = Discovery.Visit

  /**
    The URLs `discover_urls` appends to its frontier from the raw `href`s of one fetched
    page: each `urljoin(page, href)` whose `netloc` equals the base host. The appends go
    straight onto the frontier inside the `try`, so a raise part-way keeps the links
    appended before it and drops the rest of the page.
   */
  function Follow(w: Web, page: string, baseDomain: string, hrefs: seq<string>): (r: seq<string>)
    ensures |r| <= |hrefs|
    ensures forall k :: 0 <= k < |r| ==> w.host(r[k]) == Some(baseDomain)
  {
    if |hrefs| == 0 then []
    else
      match w.resolve(page, hrefs[0])
      case None => []
      case Some(full) =>
        match w.host(full)
        case None => []
        case Some(netloc) =>
          if netloc == baseDomain then [full] + Follow(w, page, baseDomain, hrefs[1..])
          else Follow(w, page, baseDomain, hrefs[1..])
  }

  /** The raw `href` on `page` resolves to `full`, whose host is the base host. */
  predicate Internal(w: Web, page: string, baseDomain: string, href: string, full: string) {
    w.resolve(page, href) == Some(full) && w.host(full) == Some(baseDomain)
  }

  /** Resolving or parsing `href` raises. */
  predicate Raises(w: Web, page: string, href: string) {
    w.resolve(page, href).None? || w.host(w.resolve(page, href).value).None?
  }

  /** Every followed URL comes from a link of the page; when no link raises, every internal
      link is followed. */
  lemma {:induction false} FollowIsInternal(w: Web, page: string, baseDomain: string, hrefs: seq<string>)
    ensures forall u :: u in Follow(w, page, baseDomain, hrefs) ==>
              exists k :: 0 <= k < |hrefs| && Internal(w, page, baseDomain, hrefs[k], u)
    ensures (forall k :: 0 <= k < |hrefs| ==> !Raises(w, page, hrefs[k])) ==>
              forall k, u :: 0 <= k < |hrefs| && Internal(w, page, baseDomain, hrefs[k], u) ==>
                u in Follow(w, page, baseDomain, hrefs)
    decreases |hrefs|
  {
    if |hrefs| > 0 {
      var tail := hrefs[1..];
      FollowIsInternal(w, page, baseDomain, tail);
      assert forall k :: 1 <= k < |hrefs| ==> hrefs[k] == tail[k - 1];
      var r := Follow(w, page, baseDomain, hrefs);
      forall u | u in r
        ensures exists k :: 0 <= k < |hrefs| && Internal(w, page, baseDomain, hrefs[k], u)
      {
        if u in Follow(w, page, baseDomain, tail) {
          var k :| 0 <= k < |tail| && Internal(w, page, baseDomain, tail[k], u);
          assert Internal(w, page, baseDomain, hrefs[k + 1], u);
        } else {
          assert Internal(w, page, baseDomain, hrefs[0], u);
        }
      }
      if forall k :: 0 <= k < |hrefs| ==> !Raises(w, page, hrefs[k]) {
        assert forall k :: 0 <= k < |tail| ==> !Raises(w, page, tail[k]);
        forall k, u | 0 <= k < |hrefs| && Internal(w, page, baseDomain, hrefs[k], u)
          ensures u in r
        {
          if k > 0 {
            assert Internal(w, page, baseDomain, tail[k - 1], u);
          }
        }
      }
    }
  }

  /** What `discover_urls` gets from fetching `page`: the URLs it appends to the frontier,
      or None when the request raises. The status is not checked, so an error page's links
      are followed too. */
  function Follows(w: Web, baseDomain: string): (next: string -> Option<seq<string>>)
    ensures forall page :: next(page).Some? <==> w.fetch(page).Some?
    ensures forall page :: next(page).Some? ==>
              next(page).value == Follow(w, page, baseDomain, w.fetch(page).value.hrefs)
  {
    page => match w.fetch(page)
            case Some(resp) => Some(Follow(w, page, baseDomain, resp.hrefs))
            case None => None
  }

  /** The parent page, fetched below the depth limit, queued `child` one level deeper. */
  ghost predicate Linked(next: string -> Option<seq<string>>, maxDepth: int, parent: Visit, child: Visit) {
    && parent.depth < maxDepth
    && child.depth == parent.depth + 1
    && next(parent.url).Some?
    && child.url in next(parent.url).value
  }

  /** The page at position `i` of a discovery trace was linked from an earlier page. */
  ghost predicate HasLink(next: string -> Option<seq<string>>, maxDepth: int, trace: seq<Visit>, i: int)
    requires 0 <= i < |trace|
  {
    exists j :: 0 <= j < i && Linked(next, maxDepth, trace[j], trace[i])
  }

  ghost predicate TraceOk(next: string -> Option<seq<string>>, start: string, maxDepth: int, trace: seq<Visit>, cur: int) {
    && (forall i, j :: 0 <= i < j < |trace| ==> trace[i].url != trace[j].url)
    && (|trace| > 0 ==> trace[0] == Discovery.Visit(start, 0))
    && (forall i :: 0 <= i < |trace| ==> 0 <= trace[i].depth <= maxDepth && trace[i].depth <= cur)
    && (forall i, j :: 0 <= i <= j < |trace| ==> trace[i].depth <= trace[j].depth)
    && (forall i :: 0 < i < |trace| ==> HasLink(next, maxDepth, trace, i))
  }

  /** A frontier entry is the start, before anything is recorded, or was linked from a
      recorded page. */
  ghost predicate Sourced(next: string -> Option<seq<string>>, start: string, maxDepth: int, trace: seq<Visit>, e: Visit) {
    || (|trace| == 0 && e == Discovery.Visit(start, 0))
    || exists j :: 0 <= j < |trace| && Linked(next, maxDepth, trace[j], e)
  }

  ghost predicate FrontierOk(next: string -> Option<seq<string>>, start: string, maxDepth: int,
                             trace: seq<Visit>, queue: seq<Visit>, cur: int) {
    && (|trace| == 0 ==> |queue| <= 1)
    && 0 <= cur <= Discovery.Max0(maxDepth)
    && (forall k :: 0 <= k < |queue| ==> cur <= queue[k].depth <= cur + 1 && queue[k].depth <= Discovery.Max0(maxDepth))
    && Discovery.Sorted(queue)
    && (forall k :: 0 <= k < |queue| ==> Sourced(next, start, maxDepth, trace, queue[k]))
  }

  /** Every link of a recorded page below the depth limit is recorded, at most one level
      deeper than the page, or waits in the frontier one level deeper. */
  ghost predicate Covered(next: string -> Option<seq<string>>, maxDepth: int, trace: seq<Visit>, queue: seq<Visit>) {
    forall i, u :: 0 <= i < |trace| && trace[i].depth < maxDepth && next(trace[i].url).Some? &&
                   u in next(trace[i].url).value ==>
                     Discovery.RecordedBy(trace, u, trace[i].depth + 1) || Discovery.Visit(u, trace[i].depth + 1) in queue
  }

  /** The page `page` was fetched and `u` is one of its followed links. */
  ghost predicate LinkOf(next: string -> Option<seq<string>>, page: string, u: string) {
    next(page).Some? && u in next(page).value
  }

  /** `path` is a chain of followed links from the start: each page after the first is a link
      of the page before it. */
  ghost predicate FollowPath(next: string -> Option<seq<string>>, start: string, path: seq<string>) {
    && |path| > 0
    && path[0] == start
    && forall k :: 0 < k < |path| ==> LinkOf(next, path[k - 1], path[k])
  }

  /** Coverage of every recorded page's links, by breadth-first order, records the end of
      every chain of at most `maxDepth` links no deeper than the chain's length. */
  lemma {:induction false} PathRecorded(next: string -> Option<seq<string>>, start: string, maxDepth: int,
                                        trace: seq<Visit>, path: seq<string>)
    requires |trace| > 0 && trace[0] == Discovery.Visit(start, 0)
    requires forall i, u :: 0 <= i < |trace| && trace[i].depth < maxDepth && next(trace[i].url).Some? &&
                           u in next(trace[i].url).value
              ==> Discovery.RecordedBy(trace, u, trace[i].depth + 1)
    requires FollowPath(next, start, path) && |path| <= maxDepth + 1
    ensures Discovery.RecordedBy(trace, path[|path| - 1], |path| - 1)
    decreases |path|
  {
    var n := |path| - 1;
    if n == 0 {
      assert trace[0].url == path[0];
    } else {
      var prefix := path[..n];
      forall k | 0 < k < |prefix|
        ensures LinkOf(next, prefix[k - 1], prefix[k])
      {
        assert prefix[k - 1] == path[k - 1] && prefix[k] == path[k];
      }
      PathRecorded(next, start, maxDepth, trace, prefix);
      var j :| 0 <= j < |trace| && trace[j].url == path[n - 1] && trace[j].depth <= n - 1;
      assert LinkOf(next, path[n - 1], path[n]);
      assert Discovery.RecordedBy(trace, path[n], trace[j].depth + 1);
      var j' :| 0 <= j' < |trace| && trace[j'].url == path[n] && trace[j'].depth <= trace[j].depth + 1;
    }
  }

  /** The number of frontier entries at depth `d`. */
  function CountAt(q: seq<Visit>, d: int): (n: nat)
    ensures n <= |q|
  {
    if |q| == 0 then 0
    else (if q[0].depth == d then 1 else 0) + CountAt(q[1..], d)
  }

  lemma {:induction false} CountAtAppend(a: seq<Visit>, b: seq<Visit>, d: int)
    ensures CountAt(a + b, d) == CountAt(a, d) + CountAt(b, d)
    decreases |a|
  {
    if |a| > 0 {
      assert (a + b)[1..] == a[1..] + b;
      CountAtAppend(a[1..], b, d);
    } else {
      assert a + b == b;
    }
  }

  lemma {:induction false} CountAtNone(q: seq<Visit>, d: int)
    requires forall k :: 0 <= k < |q| ==> q[k].depth != d
    ensures CountAt(q, d) == 0
    decreases |q|
  {
    if |q| > 0 {
      CountAtNone(q[1..], d);
    }
  }

  lemma PopKeeps(next: string -> Option<seq<string>>, start: string, maxDepth: int,
                 trace: seq<Visit>, queue: seq<Visit>, cur: int)
    requires TraceOk(next, start, maxDepth, trace, cur)
    requires FrontierOk(next, start, maxDepth, trace, queue, cur)
    requires |queue| > 0
    ensures TraceOk(next, start, maxDepth, trace, queue[0].depth)
    ensures FrontierOk(next, start, maxDepth, trace, queue[1..], queue[0].depth)
    ensures Sourced(next, start, maxDepth, trace, queue[0])
  {
    assert forall k :: 0 <= k < |queue| - 1 ==> queue[1..][k] == queue[k + 1];
  }

  /** Popping an entry whose URL is already recorded keeps every link covered. */
  lemma SkipKeepsCovered(next: string -> Option<seq<string>>, maxDepth: int, trace: seq<Visit>, queue: seq<Visit>)
    requires Covered(next, maxDepth, trace, queue)
    requires |queue| > 0 && queue[0].url in Discovery.UrlsOf(trace)
    requires forall i :: 0 <= i < |trace| ==> trace[i].depth <= queue[0].depth
    ensures Covered(next, maxDepth, trace, queue[1..])
  {
    forall i, u | 0 <= i < |trace| && trace[i].depth < maxDepth && next(trace[i].url).Some? &&
                  u in next(trace[i].url).value && !Discovery.RecordedBy(trace, u, trace[i].depth + 1)
      ensures Discovery.Visit(u, trace[i].depth + 1) in queue[1..]
    {
      var x := Discovery.Visit(u, trace[i].depth + 1);
      var k :| 0 <= k < |queue| && queue[k] == x;
      assert k != 0;
      assert queue[1..][k - 1] == x;
    }
  }

  /** Recording the popped entry and queueing the links of its page keeps every link
      covered. */
  lemma RecordKeepsCovered(next: string -> Option<seq<string>>, maxDepth: int, trace: seq<Visit>,
                           queue: seq<Visit>, more: seq<Visit>)
    requires Covered(next, maxDepth, trace, queue)
    requires |queue| > 0
    requires queue[0].depth < maxDepth && next(queue[0].url).Some? ==>
               more == Discovery.AtDepth(next(queue[0].url).value, queue[0].depth + 1)
    ensures Covered(next, maxDepth, trace + [queue[0]], queue[1..] + more)
  {
    var t := trace + [queue[0]];
    var q := queue[1..] + more;
    Discovery.UrlsOfSnoc(trace, queue[0]);
    forall i, u | 0 <= i < |t| && t[i].depth < maxDepth && next(t[i].url).Some? &&
                  u in next(t[i].url).value && !Discovery.RecordedBy(t, u, t[i].depth + 1)
      ensures Discovery.Visit(u, t[i].depth + 1) in q
    {
      var x := Discovery.Visit(u, t[i].depth + 1);
      if i == |trace| {
        var m :| 0 <= m < |next(queue[0].url).value| && next(queue[0].url).value[m] == u;
        assert q[|queue| - 1 + m] == x;
      } else {
        assert t[i] == trace[i];
        if Discovery.RecordedBy(trace, u, trace[i].depth + 1) {
          Discovery.RecordedBySnoc(trace, queue[0], u, trace[i].depth + 1);
        }
        var k :| 0 <= k < |queue| && queue[k] == x;
        if k == 0 {
          Discovery.RecordedBySnoc(trace, queue[0], u, trace[i].depth + 1);
        }
        assert q[k - 1] == x;
      }
    }
  }

  /** Recording the popped entry keeps the trace invariant. */
  lemma RecordKeepsTrace(next: string -> Option<seq<string>>, start: string, maxDepth: int,
                         trace: seq<Visit>, e: Visit)
    requires TraceOk(next, start, maxDepth, trace, e.depth)
    requires Sourced(next, start, maxDepth, trace, e)
    requires e.url !in Discovery.UrlsOf(trace) && 0 <= e.depth <= maxDepth
    ensures TraceOk(next, start, maxDepth, trace + [e], e.depth)
  {
    var t := trace + [e];
    assert forall i :: 0 <= i < |trace| ==> t[i] == trace[i];
    forall i | 0 <= i < |trace|
      ensures trace[i].url != e.url
    {
      assert trace[i].url in Discovery.UrlsOf(trace);
    }
    RecordKeepsLinks(next, start, maxDepth, trace, e);
  }

  lemma RecordKeepsLinks(next: string -> Option<seq<string>>, start: string, maxDepth: int,
                         trace: seq<Visit>, e: Visit)
    requires forall i :: 0 < i < |trace| ==> HasLink(next, maxDepth, trace, i)
    requires Sourced(next, start, maxDepth, trace, e)
    ensures forall i :: 0 < i < |trace + [e]| ==> HasLink(next, maxDepth, trace + [e], i)
  {
    var t := trace + [e];
    if |trace| > 0 {
      var j :| 0 <= j < |trace| && Linked(next, maxDepth, trace[j], e);
      assert Linked(next, maxDepth, t[j], t[|trace|]);
      assert HasLink(next, maxDepth, t, |trace|);
      forall i | 0 < i < |trace|
        ensures HasLink(next, maxDepth, t, i)
      {
        assert HasLink(next, maxDepth, trace, i);
        var j' :| 0 <= j' < i && Linked(next, maxDepth, trace[j'], trace[i]);
        assert t[j'] == trace[j'] && t[i] == trace[i];
        assert Linked(next, maxDepth, t[j'], t[i]);
      }
    }
  }

  /** Recording the popped entry keeps the rest of the frontier sourced, and the links of
      its page, queued one level deeper, are sourced by it. */
  lemma RecordKeepsFrontier(next: string -> Option<seq<string>>, start: string, maxDepth: int,
                            trace: seq<Visit>, rest: seq<Visit>, e: Visit, more: seq<Visit>)
    requires FrontierOk(next, start, maxDepth, trace, rest, e.depth)
    requires |trace| == 0 ==> |rest| == 0
    requires more == [] || (e.depth < maxDepth && next(e.url).Some? &&
                            more == Discovery.AtDepth(next(e.url).value, e.depth + 1))
    ensures FrontierOk(next, start, maxDepth, trace + [e], rest + more, e.depth)
  {
    var t := trace + [e];
    var q := rest + more;
    assert t[|trace|] == e;
    forall k | 0 <= k < |q|
      ensures Sourced(next, start, maxDepth, t, q[k])
    {
      if k < |rest| {
        assert q[k] == rest[k];
        var j :| 0 <= j < |trace| && Linked(next, maxDepth, trace[j], rest[k]);
        assert t[j] == trace[j];
      } else {
        assert q[k] == more[k - |rest|];
        assert Linked(next, maxDepth, t[|trace|], q[k]);
      }
    }
    forall k, l | 0 <= k <= l < |q|
      ensures q[k].depth <= q[l].depth
    {
      if l >= |rest| {
        assert q[l] == more[l - |rest|];
        if k >= |rest| {
          assert q[k] == more[k - |rest|];
        }
      }
    }
  }

  /** The whole invariant over an abstract `next`, kept by one turn that skips the head of
      the frontier. */
  lemma SkipKeeps(next: string -> Option<seq<string>>, start: string, maxDepth: int,
                  trace: seq<Visit>, queue: seq<Visit>, cur: int)
    requires TraceOk(next, start, maxDepth, trace, cur)
    requires FrontierOk(next, start, maxDepth, trace, queue, cur)
    requires Covered(next, maxDepth, trace, queue)
    requires |queue| > 0 && (queue[0].url in Discovery.UrlsOf(trace) || queue[0].depth > maxDepth)
    ensures TraceOk(next, start, maxDepth, trace, queue[0].depth)
    ensures FrontierOk(next, start, maxDepth, trace, queue[1..], queue[0].depth)
    ensures Covered(next, maxDepth, trace, queue[1..])
    ensures 0 <= Level(maxDepth, queue[0].depth) < Level(maxDepth, cur) ||
            (queue[0].depth == cur && CountAt(queue[1..], cur) < CountAt(queue, cur))
  {
    PopKeeps(next, start, maxDepth, trace, queue, cur);
    assert queue == [queue[0]] + queue[1..];
    CountAtAppend([queue[0]], queue[1..], cur);
    if queue[0].url in Discovery.UrlsOf(trace) {
      SkipKeepsCovered(next, maxDepth, trace, queue);
    } else {
      SkipTooDeepKeepsCovered(next, maxDepth, trace, queue);
    }
  }

  /** One turn that records the head of the frontier and queues `more`, the links of its
      page when it lies below the depth limit and its fetch succeeds, keeps the trace and
      frontier invariants. */
  lemma VisitKeeps(next: string -> Option<seq<string>>, start: string, maxDepth: int,
                   trace: seq<Visit>, queue: seq<Visit>, cur: int, more: seq<Visit>)
    requires TraceOk(next, start, maxDepth, trace, cur)
    requires FrontierOk(next, start, maxDepth, trace, queue, cur)
    requires |queue| > 0 && (|trace| == 0 ==> |queue| == 1)
    requires queue[0].url !in Discovery.UrlsOf(trace) && queue[0].depth <= maxDepth
    requires more == if queue[0].depth < maxDepth && next(queue[0].url).Some?
                     then Discovery.AtDepth(next(queue[0].url).value, queue[0].depth + 1) else []
    ensures TraceOk(next, start, maxDepth, trace + [queue[0]], queue[0].depth)
    ensures FrontierOk(next, start, maxDepth, trace + [queue[0]], queue[1..] + more, queue[0].depth)
  {
    var e := queue[0];
    PopKeeps(next, start, maxDepth, trace, queue, cur);
    RecordKeepsTrace(next, start, maxDepth, trace, e);
    RecordKeepsFrontier(next, start, maxDepth, trace, queue[1..], e, more);
  }

  lemma SkipTooDeepKeepsCovered(next: string -> Option<seq<string>>, maxDepth: int, trace: seq<Visit>, queue: seq<Visit>)
    requires Covered(next, maxDepth, trace, queue)
    requires |queue| > 0 && queue[0].depth > maxDepth
    ensures Covered(next, maxDepth, trace, queue[1..])
  {
    forall i, u | 0 <= i < |trace| && trace[i].depth < maxDepth && next(trace[i].url).Some? &&
                  u in next(trace[i].url).value && !Discovery.RecordedBy(trace, u, trace[i].depth + 1)
      ensures Discovery.Visit(u, trace[i].depth + 1) in queue[1..]
    {
      var x := Discovery.Visit(u, trace[i].depth + 1);
      var k :| 0 <= k < |queue| && queue[k] == x;
      assert k != 0;
      assert queue[1..][k - 1] == x;
    }
  }

  /** The same turn keeps every link covered and shortens the current level of the
      frontier, or moves on to the next level. */
  lemma VisitProgress(next: string -> Option<seq<string>>, start: string, maxDepth: int,
                      trace: seq<Visit>, queue: seq<Visit>, cur: int, more: seq<Visit>)
    requires FrontierOk(next, start, maxDepth, trace, queue, cur)
    requires Covered(next, maxDepth, trace, queue)
    requires |queue| > 0
    requires more == if queue[0].depth < maxDepth && next(queue[0].url).Some?
                     then Discovery.AtDepth(next(queue[0].url).value, queue[0].depth + 1) else []
    ensures Covered(next, maxDepth, trace + [queue[0]], queue[1..] + more)
    ensures 0 <= Level(maxDepth, queue[0].depth) < Level(maxDepth, cur) ||
            (queue[0].depth == cur && CountAt(queue[1..] + more, cur) < CountAt(queue, cur))
  {
    var e := queue[0];
    RecordKeepsCovered(next, maxDepth, trace, queue, more);
    assert queue == [e] + queue[1..];
    CountAtAppend([e], queue[1..], cur);
    CountAtAppend(queue[1..], more, cur);
    CountAtNone(more, cur);
  }

  /** The loop invariant of `discover_urls`; its `visited` and `discovered_urls` sets always
      hold the same URLs, so `found` stands for both. */
  ghost predicate Crawling(next: string -> Option<seq<string>>, start: string, maxDepth: int,
                           found: set<string>, trace: seq<Visit>, queue: seq<Visit>, cur: int) {
    && found == Discovery.UrlsOf(trace) && |trace| == |found|
    && (maxDepth >= 0 && |trace| == 0 ==> queue == [Discovery.Visit(start, 0)])
    && TraceOk(next, start, maxDepth, trace, cur)
    && FrontierOk(next, start, maxDepth, trace, queue, cur)
    && Covered(next, maxDepth, trace, queue)
  }

  /** Once the frontier is empty, the end of every chain of at most `maxDepth` followed
      links from the start was found. */
  lemma PathsFound(next: string -> Option<seq<string>>, start: string, maxDepth: int,
                   found: set<string>, trace: seq<Visit>, queue: seq<Visit>, cur: int)
    requires Crawling(next, start, maxDepth, found, trace, queue, cur) && |queue| == 0
    ensures forall path :: FollowPath(next, start, path) && |path| <= maxDepth + 1 ==> path[|path| - 1] in found
  {
    forall path | FollowPath(next, start, path) && |path| <= maxDepth + 1
      ensures path[|path| - 1] in found
    {
      PathRecorded(next, start, maxDepth, trace, path);
    }
  }

  /** The termination measure of `discover_urls`: levels left, then entries left at the
      current level. */
  function Level(maxDepth: int, cur: int): int {
    Discovery.Max0(maxDepth) + 1 - cur
  }

  /** Skipping the head of the frontier keeps the loop invariant and makes progress. */
  lemma SkipStep(next: string -> Option<seq<string>>, start: string, maxDepth: int,
                 found: set<string>, trace: seq<Visit>, queue: seq<Visit>, cur: int)
    requires Crawling(next, start, maxDepth, found, trace, queue, cur)
    requires |queue| > 0 && (queue[0].url in found || queue[0].depth > maxDepth)
    ensures Crawling(next, start, maxDepth, found, trace, queue[1..], queue[0].depth)
    ensures 0 <= Level(maxDepth, queue[0].depth) < Level(maxDepth, cur) ||
            (queue[0].depth == cur && CountAt(queue[1..], cur) < CountAt(queue, cur))
  {
    SkipKeeps(next, start, maxDepth, trace, queue, cur);
  }

  /** Recording the head of the frontier and queueing the links of its page keeps the loop
      invariant and makes progress. */
  lemma VisitStep(next: string -> Option<seq<string>>, start: string, maxDepth: int,
                  found: set<string>, trace: seq<Visit>, queue: seq<Visit>, cur: int, more: seq<Visit>)
    requires Crawling(next, start, maxDepth, found, trace, queue, cur)
    requires |queue| > 0 && queue[0].url !in found && queue[0].depth <= maxDepth
    requires more == if queue[0].depth < maxDepth && next(queue[0].url).Some?
                     then Discovery.AtDepth(next(queue[0].url).value, queue[0].depth + 1) else []
    ensures Crawling(next, start, maxDepth, found + {queue[0].url}, trace + [queue[0]], queue[1..] + more, queue[0].depth)
    ensures 0 <= Level(maxDepth, queue[0].depth) < Level(maxDepth, cur) ||
            (queue[0].depth == cur && CountAt(queue[1..] + more, cur) < CountAt(queue, cur))
  {
    VisitKeeps(next, start, maxDepth, trace, queue, cur, more);
    VisitProgress(next, start, maxDepth, trace, queue, cur, more);
    Discovery.UrlsOfSnoc(trace, queue[0]);
  }

  /** One turn of the loop of `discover_urls`: pop the head of the frontier and either skip
      it or record it and queue the links of its page. */
  method CrawlStep(w: Web, baseDomain: string, start: string, maxDepth: int,
                   found: set<string>, trace: seq<Visit>, queue: seq<Visit>, ghost cur: int)
    returns (found': set<string>, trace': seq<Visit>, queue': seq<Visit>, ghost cur': int)
    requires |queue| > 0
    requires Crawling(Follows(w, baseDomain), start, maxDepth, found, trace, queue, cur)
    ensures Crawling(Follows(w, baseDomain), start, maxDepth, found', trace', queue', cur')
    ensures 0 <= Level(maxDepth, cur') < Level(maxDepth, cur) ||
            (cur' == cur && CountAt(queue', cur) < CountAt(queue, cur))
    ensures found' == found || (found' == found + {queue[0].url} && queue[0].url !in found)
  {
    var entry := queue[0];
    if entry.url in found || entry.depth > maxDepth {
      SkipStep(Follows(w, baseDomain), start, maxDepth, found, trace, queue, cur);
      return found, trace, queue[1..], entry.depth;
    }
    var more: seq<Visit> := [];
    if entry.depth < maxDepth {
      match w.fetch(entry.url)
      case None =>
      case Some(resp) =>
        more := Discovery.AtDepth(Follow(w, entry.url, baseDomain, resp.hrefs), entry.depth + 1);
    }
    VisitStep(Follows(w, baseDomain), start, maxDepth, found, trace, queue, cur, more);
    found' := found + {entry.url};
    trace' := trace + [entry];
    queue' := queue[1..] + more;
    cur' := entry.depth;
  }

  /** The loop of `discover_urls`: turns from the start until the frontier is empty. */
  method Crawl(w: Web, baseDomain: string, start: string, maxDepth: int)
    returns (found: set<string>, trace: seq<Visit>, queue: seq<Visit>, ghost cur: int)
    ensures Crawling(Follows(w, baseDomain), start, maxDepth, found, trace, queue, cur) && |queue| == 0
  {
    found := {};
    trace := [];
    queue := [Discovery.Visit(start, 0)];
    cur := 0;
    while |queue| > 0
      invariant Crawling(Follows(w, baseDomain), start, maxDepth, found, trace, queue, cur)
      decreases Level(maxDepth, cur), CountAt(queue, cur)
    {
      found, trace, queue, cur := CrawlStep(w, baseDomain, start, maxDepth, found, trace, queue, cur);
    }
  }

  /**
    `discover_urls(start_url, max_depth)` with `baseDomain` standing for
    `urlparse(self.base_url).netloc`. `found` is the returned set of URLs; `trace` lists
    them in discovery order with their depths.
   */
  method DiscoverUrls(w: Web, baseDomain: string, start: string, maxDepth: int)
    returns (found: set<string>, trace: seq<Visit>)
    ensures maxDepth < 0 ==> found == {}
    ensures maxDepth >= 0 ==> |trace| > 0 && trace[0] == Discovery.Visit(start, 0)
    ensures found == Discovery.UrlsOf(trace) && |trace| == |found|
    ensures forall i, j :: 0 <= i < j < |trace| ==> trace[i].url != trace[j].url
    ensures forall i :: 0 <= i < |trace| ==> 0 <= trace[i].depth <= maxDepth
    ensures forall i, j :: 0 <= i <= j < |trace| ==> trace[i].depth <= trace[j].depth
    ensures forall i :: 0 < i < |trace| ==> HasLink(Follows(w, baseDomain), maxDepth, trace, i)
    ensures forall i :: 0 < i < |trace| ==> w.host(trace[i].url) == Some(baseDomain)
    ensures forall i, u :: 0 <= i < |trace| && trace[i].depth < maxDepth && w.fetch(trace[i].url).Some? &&
                           u in Follow(w, trace[i].url, baseDomain, w.fetch(trace[i].url).value.hrefs) ==>
                             Discovery.RecordedBy(trace, u, trace[i].depth + 1)
    ensures forall path :: FollowPath(Follows(w, baseDomain), start, path) && |path| <= maxDepth + 1 ==>
                             path[|path| - 1] in found
  {
    var queue;
    ghost var cur;
    found, trace, queue, cur := Crawl(w, baseDomain, start, maxDepth);
    Discovery.UrlsOfCard(trace);
    ghost var next := Follows(w, baseDomain);
    forall i | 0 < i < |trace|
      ensures w.host(trace[i].url) == Some(baseDomain)
    {
      assert HasLink(next, maxDepth, trace, i);
      var j :| 0 <= j < i && Linked(next, maxDepth, trace[j], trace[i]);
      var links := next(trace[j].url).value;
      var m :| 0 <= m < |links| && links[m] == trace[i].url;
    }
    PathsFound(next, start, maxDepth, found, trace, queue, cur);
  }
}
