/** The sitemap crawl of the content hub (`handleCrawlSitemap` in App.tsx): a worklist of
    sitemap addresses, a record of page addresses with their last-modified dates, the page
    records built from it and their merge with the pages already known. */
module Sitemap {
  import opened Text
  import opened Network
  import opened Pages

  /** One `<url>` entry of a sitemap; an absent or empty element is `""`. */
  datatype UrlEntry = UrlEntry(loc: string, lastmod: string)

  /** What the XML parser finds in a sitemap document: the `<loc>` of every `<sitemap>`
      child (`""` when absent or empty) and every `<url>` entry, in document order. */
  datatype SitemapDoc = SitemapDoc(sitemaps: seq<string>, urls: seq<UrlEntry>)

  const MaxSitemaps: nat := 100

  /** The sitemap at `u`: `fetch` answers the request (the crawl asks the network racer,
      without credentials) and `parse` stands for the XML parser; `None` when the request
      failed. */
  function DocAt(u: string, fetch: string -> FetchResult, parse: string -> SitemapDoc): Option<SitemapDoc> {
    match fetch(u)
    case Fetched(response, _) => Some(parse(response.body))
    case FetchFailed(_) => None
  }

  /** The `message` of the error a failed request throws; the browser's `fetch` reports a
      request that never got an answer as "Failed to fetch". */
  function ErrorMessage(e: FetchError): string {
    match e
    case Exhausted(m) => m
    case RequestFailed => "Failed to fetch"
  }

  // ------------------------------------------------------------------ page data map

  /** The page-data map: addresses in first-insertion order (a JavaScript `Map` keeps the
      position of a key it updates) and the last-modified date stored for each. */
  datatype PageData = PageData(keys: seq<string>, lastmods: map<string, Option<string>>)

  ghost predicate WellKeyed(pd: PageData) {
    Distinct(pd.keys) && forall key :: key in pd.lastmods <==> key in pd.keys
  }

  function LastmodOf(e: UrlEntry): Option<string> {
    if e.lastmod != "" then Some(Trim(e.lastmod)) else None
  }

  /** One `pageDataMap.set(loc.trim(), …)` for an entry with a location. */
  function Record(pd: PageData, e: UrlEntry): (r: PageData)
    requires WellKeyed(pd)
    ensures WellKeyed(r)
  {
    if e.loc == "" then pd
    else
      var key := Trim(e.loc);
      PageData(if key in pd.lastmods then pd.keys else pd.keys + [key], pd.lastmods[key := LastmodOf(e)])
  }

  /** The map after recording `entries` in order, starting from an empty map. */
  function RecordAll(entries: seq<UrlEntry>): (r: PageData)
    ensures WellKeyed(r)
    decreases |entries|
  {
    if entries == [] then PageData([], map[])
    else Record(RecordAll(entries[..|entries| - 1]), entries[|entries| - 1])
  }

  /** Entry `i` carries the page address `key`. */
  predicate EntryFor(entries: seq<UrlEntry>, i: int, key: string) {
    0 <= i < |entries| && entries[i].loc != "" && Trim(entries[i].loc) == key
  }

  /** The last entry that carries `key`, if any. */
  function LastEntryFor(entries: seq<UrlEntry>, key: string): (r: Option<nat>)
    ensures r.Some? ==> EntryFor(entries, r.value, key)
    ensures r.Some? ==> forall i :: r.value < i < |entries| ==> !EntryFor(entries, i, key)
    ensures r.None? ==> forall i :: 0 <= i < |entries| ==> !EntryFor(entries, i, key)
    decreases |entries|
  {
    if entries == [] then None
    else if EntryFor(entries, |entries| - 1, key) then Some(|entries| - 1)
    else
      var r := LastEntryFor(entries[..|entries| - 1], key);
      assert forall i :: 0 <= i < |entries| - 1 ==>
               (EntryFor(entries[..|entries| - 1], i, key) <==> EntryFor(entries, i, key));
      r
  }

  /** The map holds an address exactly when some entry carries it, and the date the last
      such entry gave: a later `lastmod` for the same page overwrites an earlier one. */
  lemma {:induction false} RecordAllLastWins(entries: seq<UrlEntry>, key: string)
    ensures key in RecordAll(entries).lastmods <==> LastEntryFor(entries, key).Some?
    ensures key in RecordAll(entries).lastmods ==>
              RecordAll(entries).lastmods[key] == LastmodOf(entries[LastEntryFor(entries, key).value])
    decreases |entries|
  {
    if entries != [] {
      var n := |entries| - 1;
      var init := entries[..n];
      RecordAllLastWins(init, key);
      assert RecordAll(entries) == Record(RecordAll(init), entries[n]);
      RecordEffect(RecordAll(init), entries[n], key);
      LastEntrySnoc(entries, key);
      var l := LastEntryFor(init, key);
      if !EntryFor(entries, n, key) && l.Some? {
        assert entries[l.value] == init[l.value];
      }
    }
  }

  /** Recording an entry sets the date of its own address and leaves every other one. */
  lemma {:induction false} RecordEffect(pd: PageData, e: UrlEntry, key: string)
    requires WellKeyed(pd)
    ensures e.loc != "" && Trim(e.loc) == key ==>
              key in Record(pd, e).lastmods && Record(pd, e).lastmods[key] == LastmodOf(e)
    ensures !(e.loc != "" && Trim(e.loc) == key) ==>
              (key in Record(pd, e).lastmods <==> key in pd.lastmods)
              && (key in pd.lastmods ==> Record(pd, e).lastmods[key] == pd.lastmods[key])
  {
  }

  /** The last entry for an address is the final entry when that one carries it, and
      otherwise the last one among the others. */
  lemma {:induction false} LastEntrySnoc(entries: seq<UrlEntry>, key: string)
    requires entries != []
    ensures EntryFor(entries, |entries| - 1, key) ==> LastEntryFor(entries, key) == Some(|entries| - 1)
    ensures !EntryFor(entries, |entries| - 1, key) ==>
              LastEntryFor(entries, key) == LastEntryFor(entries[..|entries| - 1], key)
  {
  }

  /** Entries already recorded: adding more entries continues from the same map. */
  lemma {:induction false} RecordAllSnoc(entries: seq<UrlEntry>, e: UrlEntry)
    ensures RecordAll(entries + [e]) == Record(RecordAll(entries), e)
  {
    assert (entries + [e])[..|entries|] == entries;
  }

  // ------------------------------------------------------------------ the worklist

  /** The `<sitemap>` children listed at `u` (none when it could not be fetched). */
  function Children(u: string, fetch: string -> FetchResult, parse: string -> SitemapDoc): seq<string> {
    var doc := DocAt(u, fetch, parse);
    if doc.Some? then doc.value.sitemaps else []
  }

  /** The `<url>` entries listed at `u` (none when it could not be fetched). */
  function UrlsAt(u: string, fetch: string -> FetchResult, parse: string -> SitemapDoc): seq<UrlEntry> {
    var doc := DocAt(u, fetch, parse);
    if doc.Some? then doc.value.urls else []
  }

  /** The `<url>` entries of the fetched sitemaps, in crawl order. */
  function AllUrls(crawled: seq<string>, fetch: string -> FetchResult, parse: string -> SitemapDoc): seq<UrlEntry>
    decreases |crawled|
  {
    if crawled == [] then []
    else AllUrls(crawled[..|crawled| - 1], fetch, parse) + UrlsAt(crawled[|crawled| - 1], fetch, parse)
  }

  lemma {:induction false} AllUrlsSnoc(crawled: seq<string>, u: string, fetch: string -> FetchResult, parse: string -> SitemapDoc)
    ensures AllUrls(crawled + [u], fetch, parse) == AllUrls(crawled, fetch, parse) + UrlsAt(u, fetch, parse)
  {
    assert (crawled + [u])[..|crawled|] == crawled;
  }

  /** A child sitemap `loc` listed by a crawled sitemap is accounted for: crawled itself
      (so the check skipped it), its trimmed form crawled or waiting, or blank. */
  predicate ChildCovered(loc: string, crawled: seq<string>, queue: seq<string>) {
    loc == "" || loc in crawled || Trim(loc) in crawled || Trim(loc) in queue || Trim(loc) == ""
  }

  predicate AllChildrenCovered(crawled: seq<string>, queue: seq<string>, fetch: string -> FetchResult, parse: string -> SitemapDoc) {
    forall u, loc :: u in crawled && loc in Children(u, fetch, parse) ==> ChildCovered(loc, crawled, queue)
  }

  /** Skipping a blank or already crawled head of the queue loses no child. */
  lemma {:induction false} SkipKeepsCovered(crawled: seq<string>, queue: seq<string>, fetch: string -> FetchResult, parse: string -> SitemapDoc)
    requires |queue| > 0 && (queue[0] == "" || queue[0] in crawled)
    requires AllChildrenCovered(crawled, queue, fetch, parse)
    ensures AllChildrenCovered(crawled, queue[1..], fetch, parse)
  {
    forall u, loc | u in crawled && loc in Children(u, fetch, parse)
      ensures ChildCovered(loc, crawled, queue[1..])
    {
      assert ChildCovered(loc, crawled, queue);
      if Trim(loc) in queue && loc != "" && loc !in crawled && Trim(loc) !in crawled && Trim(loc) != "" {
        var k :| 0 <= k < |queue| && queue[k] == Trim(loc);
        assert k != 0;
        assert queue[1..][k - 1] == Trim(loc);
      }
    }
  }

  /** Crawling the head of the queue and queueing its children loses no child. */
  lemma {:induction false} VisitKeepsCovered(crawled: seq<string>, queue: seq<string>, next: seq<string>,
                          fetch: string -> FetchResult, parse: string -> SitemapDoc)
    requires |queue| > 0
    requires AllChildrenCovered(crawled, queue, fetch, parse)
    requires forall x :: x in queue[1..] ==> x in next
    requires forall loc :: loc in Children(queue[0], fetch, parse) && loc != "" && loc !in crawled + [queue[0]] ==> Trim(loc) in next
    ensures AllChildrenCovered(crawled + [queue[0]], next, fetch, parse)
  {
    var c := crawled + [queue[0]];
    forall u, loc | u in c && loc in Children(u, fetch, parse)
      ensures ChildCovered(loc, c, next)
    {
      if u in crawled {
        assert ChildCovered(loc, crawled, queue);
        if Trim(loc) in queue && Trim(loc) != queue[0] {
          var k :| 0 <= k < |queue| && queue[k] == Trim(loc);
          assert queue[1..][k - 1] == Trim(loc);
        }
      }
    }
  }

  datatype CrawlOutcome =
    | NeedsUrl
    | CrawlAborted(crawled: seq<string>, message: string)
    | CrawlFinished(crawled: seq<string>, pageData: PageData)

  /** The `<sitemap>` children one round queues: each one present and not yet crawled,
      trimmed, in document order; the check uses the untrimmed text. */
  function Queued(crawled: seq<string>, locs: seq<string>): (q: seq<string>)
    ensures |q| <= |locs|
    decreases |locs|
  {
    if locs == [] then []
    else
      var last := locs[|locs| - 1];
      Queued(crawled, locs[..|locs| - 1]) + (if last != "" && last !in crawled then [Trim(last)] else [])
  }

  /** Every queued address is the trimmed form of a present child not yet crawled. */
  lemma {:induction false} QueuedFrom(crawled: seq<string>, locs: seq<string>, x: string)
    requires x in Queued(crawled, locs)
    ensures exists loc :: loc in locs && loc != "" && loc !in crawled && x == Trim(loc)
    decreases |locs|
  {
    var init := locs[..|locs| - 1];
    if x in Queued(crawled, init) {
      QueuedFrom(crawled, init, x);
      var loc :| loc in init && loc != "" && loc !in crawled && x == Trim(loc);
      assert loc in locs;
    } else {
      assert locs[|locs| - 1] in locs;
    }
  }

  /** Every present child not yet crawled is queued. */
  lemma {:induction false} QueuedCovers(crawled: seq<string>, locs: seq<string>, loc: string)
    requires loc in locs && loc != "" && loc !in crawled
    ensures Trim(loc) in Queued(crawled, locs)
    decreases |locs|
  {
    var init := locs[..|locs| - 1];
    if loc != locs[|locs| - 1] {
      assert locs == init + [locs[|locs| - 1]];
      QueuedCovers(crawled, init, loc);
    }
  }

  lemma {:induction false} QueuedSnoc(crawled: seq<string>, locs: seq<string>, i: nat)
    requires i < |locs|
    ensures Queued(crawled, locs[..i + 1])
            == Queued(crawled, locs[..i]) + (if locs[i] != "" && locs[i] !in crawled then [Trim(locs[i])] else [])
  {
    assert locs[..i + 1][..i] == locs[..i];
  }

  /** The `for` loop over the `<sitemap>` children, appending to the queue. */
  method QueueChildren(queue: seq<string>, crawled: seq<string>, locs: seq<string>) returns (q: seq<string>)
    ensures q == queue + Queued(crawled, locs)
    ensures |queue| <= |q| && q[..|queue|] == queue
    ensures forall loc :: loc in locs && loc != "" && loc !in crawled ==> Trim(loc) in q
    ensures forall x :: x in q[|queue|..] ==> exists loc :: loc in locs && loc != "" && loc !in crawled && x == Trim(loc)
  {
    q := queue;
    for i := 0 to |locs|
      invariant q == queue + Queued(crawled, locs[..i])
    {
      QueuedSnoc(crawled, locs, i);
      if locs[i] != "" && locs[i] !in crawled {
        q := q + [Trim(locs[i])];
      }
    }
    assert locs[..|locs|] == locs;
    assert q[|queue|..] == Queued(crawled, locs);
    forall loc | loc in locs && loc != "" && loc !in crawled ensures Trim(loc) in q {
      QueuedCovers(crawled, locs, loc);
    }
    forall x | x in q[|queue|..]
      ensures exists loc :: loc in locs && loc != "" && loc !in crawled && x == Trim(loc)
    {
      QueuedFrom(crawled, locs, x);
    }
  }

  /** The `for` loop over the `<url>` entries: each entry with a location is recorded. */
  method RecordUrls(pd: PageData, entries: seq<UrlEntry>, ghost before: seq<UrlEntry>) returns (r: PageData)
    requires pd == RecordAll(before)
    ensures r == RecordAll(before + entries)
  {
    r := pd;
    ghost var done := before;
    for i := 0 to |entries|
      invariant done == before + entries[..i]
      invariant r == RecordAll(done)
    {
      RecordStep(before, entries, i);
      r := Record(r, entries[i]);
      done := before + entries[..i + 1];
    }
    assert entries[..|entries|] == entries;
  }

  lemma {:induction false} RecordStep(before: seq<UrlEntry>, entries: seq<UrlEntry>, i: nat)
    requires i < |entries|
    ensures RecordAll(before + entries[..i + 1]) == Record(RecordAll(before + entries[..i]), entries[i])
  {
    var done := before + entries[..i];
    assert entries[..i + 1] == entries[..i] + [entries[i]];
    assert before + entries[..i + 1] == done + [entries[i]];
    RecordAllSnoc(done, entries[i]);
  }




  /** What holds between two rounds of the crawl loop, besides the children being
      accounted for: the crawled addresses are distinct, non-blank, at most 100, start with
      the given address and were all fetched; the map records their `<url>` entries in
      crawl order. */
  ghost predicate CrawlInvariant(sitemapUrl: string, crawled: seq<string>, queue: seq<string>, pd: PageData,
                                 fetch: string -> FetchResult, parse: string -> SitemapDoc) {
    && sitemapUrl != ""
    && Distinct(crawled) && |crawled| <= MaxSitemaps
    && (forall k :: 0 <= k < |crawled| ==> crawled[k] != "")
    && (crawled == [] ==> queue == [sitemapUrl])
    && (crawled != [] ==> crawled[0] == sitemapUrl)
    && (forall k :: 0 <= k < |crawled| ==> DocAt(crawled[k], fetch, parse).Some?)
    && pd == RecordAll(AllUrls(crawled, fetch, parse))
  }

  /** Crawling the head of the queue and recording its entries keeps the invariant. */
  lemma {:induction false} VisitStep(sitemapUrl: string, crawled: seq<string>, queue: seq<string>, pd: PageData,
                                     next: seq<string>, pd': PageData,
                                     fetch: string -> FetchResult, parse: string -> SitemapDoc)
    requires CrawlInvariant(sitemapUrl, crawled, queue, pd, fetch, parse)
    requires |queue| > 0 && queue[0] != "" && queue[0] !in crawled && |crawled| < MaxSitemaps
    requires DocAt(queue[0], fetch, parse).Some?
    requires pd' == RecordAll(AllUrls(crawled, fetch, parse) + UrlsAt(queue[0], fetch, parse))
    ensures CrawlInvariant(sitemapUrl, crawled + [queue[0]], next, pd', fetch, parse)
  {
    AllUrlsSnoc(crawled, queue[0], fetch, parse);
    DistinctSnoc(crawled, queue[0]);
    FetchedSnoc(crawled, queue[0], fetch, parse);
  }

  /** Appending a fetched, non-blank address keeps every crawled address fetched and non-blank. */
  lemma FetchedSnoc(crawled: seq<string>, u: string, fetch: string -> FetchResult, parse: string -> SitemapDoc)
    requires forall k :: 0 <= k < |crawled| ==> crawled[k] != "" && DocAt(crawled[k], fetch, parse).Some?
    requires u != "" && DocAt(u, fetch, parse).Some?
    ensures forall k :: 0 <= k < |crawled + [u]| ==> (crawled + [u])[k] != ""
    ensures forall k :: 0 <= k < |crawled + [u]| ==> DocAt((crawled + [u])[k], fetch, parse).Some?
  {
    var c := crawled + [u];
    assert forall k :: 0 <= k < |crawled| ==> c[k] == crawled[k];
  }

  /** The crawl from a given queue and list of crawled addresses: the head of the queue is
      taken first; it is skipped when blank or already crawled; otherwise it is fetched and
      its children go to the back of the queue. At most 100 sitemaps are fetched, and a
      failed fetch aborts the crawl with its message. */
  function CrawlFrom(queue: seq<string>, crawled: seq<string>,
                     fetch: string -> FetchResult, parse: string -> SitemapDoc): (r: CrawlOutcome)
    decreases MaxSitemaps - |crawled|, |queue|
  {
    if queue == [] || |crawled| >= MaxSitemaps then CrawlFinished(crawled, RecordAll(AllUrls(crawled, fetch, parse)))
    else
      var current := queue[0];
      if current == "" || current in crawled then CrawlFrom(queue[1..], crawled, fetch, parse)
      else match DocAt(current, fetch, parse)
        case None => CrawlAborted(crawled + [current], "Error: " + ErrorMessage(fetch(current).error))
        case Some(doc) =>
          CrawlFrom(queue[1..] + Queued(crawled + [current], doc.sitemaps), crawled + [current], fetch, parse)
  }

  /** A crawl ends finished, with the `<url>` entries of what it crawled recorded in crawl
      order, or aborted at an address whose fetch failed, with that failure's message. */
  lemma {:induction false} CrawlFromShape(queue: seq<string>, crawled: seq<string>,
                                          fetch: string -> FetchResult, parse: string -> SitemapDoc)
    ensures var r := CrawlFrom(queue, crawled, fetch, parse);
            && !r.NeedsUrl? && |crawled| <= |r.crawled|
            && (r.CrawlFinished? ==> r.pageData == RecordAll(AllUrls(r.crawled, fetch, parse)))
            && (r.CrawlAborted? ==>
                  && |r.crawled| > |crawled|
                  && DocAt(r.crawled[|r.crawled| - 1], fetch, parse).None?
                  && r.message == "Error: " + ErrorMessage(fetch(r.crawled[|r.crawled| - 1]).error))
    decreases MaxSitemaps - |crawled|, |queue|
  {
    if queue != [] && |crawled| < MaxSitemaps {
      var current := queue[0];
      if current == "" || current in crawled {
        CrawlFromShape(queue[1..], crawled, fetch, parse);
      } else if DocAt(current, fetch, parse).Some? {
        var doc := DocAt(current, fetch, parse).value;
        CrawlFromShape(queue[1..] + Queued(crawled + [current], doc.sitemaps), crawled + [current], fetch, parse);
      }
    }
  }

  /** The whole crawl of `handleCrawlSitemap`, starting from the given address. */
  function SitemapCrawl(sitemapUrl: string, fetch: string -> FetchResult, parse: string -> SitemapDoc): (r: CrawlOutcome)
    ensures r.NeedsUrl? <==> sitemapUrl == ""
    ensures r.CrawlAborted? ==> |r.crawled| > 0
  {
    if sitemapUrl == "" then NeedsUrl
    else
      CrawlFromShape([sitemapUrl], [], fetch, parse);
      CrawlFrom([sitemapUrl], [], fetch, parse)
  }

  /** `x` is the trimmed `<sitemap>` child of one of the `crawled` sitemaps. */
  ghost predicate ReachedFrom(crawled: seq<string>, x: string, fetch: string -> FetchResult, parse: string -> SitemapDoc) {
    exists j, loc :: 0 <= j < |crawled| && loc in Children(crawled[j], fetch, parse) && x == Trim(loc)
  }

  /** Every crawled address after the first was listed by a sitemap crawled before it. */
  ghost predicate ReachedInOrder(crawled: seq<string>, fetch: string -> FetchResult, parse: string -> SitemapDoc) {
    forall k :: 0 < k < |crawled| ==> ReachedFrom(crawled[..k], crawled[k], fetch, parse)
  }

  lemma {:induction false} ReachedGrows(crawled: seq<string>, u: string, x: string,
                                        fetch: string -> FetchResult, parse: string -> SitemapDoc)
    requires ReachedFrom(crawled, x, fetch, parse)
    ensures ReachedFrom(crawled + [u], x, fetch, parse)
  {
    var j, loc :| 0 <= j < |crawled| && loc in Children(crawled[j], fetch, parse) && x == Trim(loc);
    assert (crawled + [u])[j] == crawled[j];
  }

  lemma {:induction false} ReachedSnoc(crawled: seq<string>, u: string, fetch: string -> FetchResult, parse: string -> SitemapDoc)
    requires ReachedInOrder(crawled, fetch, parse)
    requires crawled != [] ==> ReachedFrom(crawled, u, fetch, parse)
    ensures ReachedInOrder(crawled + [u], fetch, parse)
  {
    var c := crawled + [u];
    forall k | 0 < k < |c| ensures ReachedFrom(c[..k], c[k], fetch, parse) {
      if k < |crawled| {
        ReachedEarlier(crawled, u, k, fetch, parse);
      } else {
        assert c[..k] == crawled && c[k] == u;
      }
    }
  }

  lemma {:induction false} ReachedEarlier(crawled: seq<string>, u: string, k: nat,
                                          fetch: string -> FetchResult, parse: string -> SitemapDoc)
    requires 0 < k < |crawled| && ReachedFrom(crawled[..k], crawled[k], fetch, parse)
    ensures ReachedFrom((crawled + [u])[..k], (crawled + [u])[k], fetch, parse)
  {
    assert (crawled + [u])[..k] == crawled[..k];
    assert (crawled + [u])[k] == crawled[k];
  }

  /** A crawl that starts from reached addresses only ever reaches addresses listed by a
      sitemap crawled before them. */
  lemma {:induction false} CrawlFromReached(queue: seq<string>, crawled: seq<string>,
                                            fetch: string -> FetchResult, parse: string -> SitemapDoc)
    requires ReachedInOrder(crawled, fetch, parse)
    requires crawled == [] ==> |queue| <= 1
    requires crawled != [] ==> forall x :: x in queue ==> ReachedFrom(crawled, x, fetch, parse)
    ensures var r := CrawlFrom(queue, crawled, fetch, parse);
            !r.NeedsUrl? ==> ReachedInOrder(r.crawled, fetch, parse)
    decreases MaxSitemaps - |crawled|, |queue|
  {
    if queue != [] && |crawled| < MaxSitemaps {
      var current := queue[0];
      if current == "" || current in crawled {
        CrawlFromReached(queue[1..], crawled, fetch, parse);
      } else {
        var c := crawled + [current];
        ReachedSnoc(crawled, current, fetch, parse);
        match DocAt(current, fetch, parse)
        case None =>
        case Some(doc) =>
          var next := queue[1..] + Queued(c, doc.sitemaps);
          forall x | x in next ensures ReachedFrom(c, x, fetch, parse) {
            if x in queue[1..] {
              ReachedGrows(crawled, current, x, fetch, parse);
            } else {
              QueuedFrom(c, doc.sitemaps, x);
              var loc :| loc in doc.sitemaps && loc != "" && loc !in c && x == Trim(loc);
              assert c[|crawled|] == current;
              assert loc in Children(c[|crawled|], fetch, parse);
            }
          }
          CrawlFromReached(next, c, fetch, parse);
      }
    }
  }

  /** Every sitemap the crawl fetches after the given one was listed as a `<sitemap>`
      child by a sitemap fetched before it. */
  lemma {:induction false} CrawlReached(sitemapUrl: string, fetch: string -> FetchResult, parse: string -> SitemapDoc)
    ensures var o := SitemapCrawl(sitemapUrl, fetch, parse);
            !o.NeedsUrl? ==> ReachedInOrder(o.crawled, fetch, parse)
  {
    if sitemapUrl != "" {
      CrawlFromReached([sitemapUrl], [], fetch, parse);
    }
  }

  lemma CrawlFromStop(queue: seq<string>, crawled: seq<string>, fetch: string -> FetchResult, parse: string -> SitemapDoc)
    requires queue == [] || |crawled| >= MaxSitemaps
    ensures CrawlFrom(queue, crawled, fetch, parse) == CrawlFinished(crawled, RecordAll(AllUrls(crawled, fetch, parse)))
  {
  }

  lemma CrawlFromSkip(queue: seq<string>, crawled: seq<string>, fetch: string -> FetchResult, parse: string -> SitemapDoc)
    requires queue != [] && |crawled| < MaxSitemaps && (queue[0] == "" || queue[0] in crawled)
    ensures CrawlFrom(queue, crawled, fetch, parse) == CrawlFrom(queue[1..], crawled, fetch, parse)
  {
  }

  lemma CrawlFromVisit(queue: seq<string>, crawled: seq<string>, fetch: string -> FetchResult, parse: string -> SitemapDoc)
    requires queue != [] && |crawled| < MaxSitemaps && queue[0] != "" && queue[0] !in crawled
    ensures DocAt(queue[0], fetch, parse).None? ==>
              CrawlFrom(queue, crawled, fetch, parse)
              == CrawlAborted(crawled + [queue[0]], "Error: " + ErrorMessage(fetch(queue[0]).error))
    ensures DocAt(queue[0], fetch, parse).Some? ==>
              CrawlFrom(queue, crawled, fetch, parse)
              == CrawlFrom(queue[1..] + Queued(crawled + [queue[0]], DocAt(queue[0], fetch, parse).value.sitemaps),
                           crawled + [queue[0]], fetch, parse)
  {
  }

  /** The crawl loop of `handleCrawlSitemap`: the queue starts with the given address; an
      address is skipped when blank or already crawled; at most 100 sitemaps are fetched;
      a failed fetch aborts the whole crawl with its message. */
  method CrawlSitemaps(sitemapUrl: string, fetch: string -> FetchResult, parse: string -> SitemapDoc)
    returns (outcome: CrawlOutcome)
    ensures outcome == SitemapCrawl(sitemapUrl, fetch, parse)
    ensures !outcome.NeedsUrl? ==> ReachedInOrder(outcome.crawled, fetch, parse)
    ensures sitemapUrl == "" <==> outcome == NeedsUrl
    ensures !outcome.NeedsUrl? ==>
              && |outcome.crawled| > 0 && outcome.crawled[0] == sitemapUrl
              && Distinct(outcome.crawled) && |outcome.crawled| <= MaxSitemaps
              && forall k :: 0 <= k < |outcome.crawled| ==> outcome.crawled[k] != ""
    ensures outcome.CrawlFinished? ==>
              && (forall k :: 0 <= k < |outcome.crawled| ==> DocAt(outcome.crawled[k], fetch, parse).Some?)
              && outcome.pageData == RecordAll(AllUrls(outcome.crawled, fetch, parse))
    ensures outcome.CrawlFinished? && |outcome.crawled| < MaxSitemaps ==>
              AllChildrenCovered(outcome.crawled, [], fetch, parse)
    ensures outcome.CrawlAborted? ==>
              && (forall k :: 0 <= k < |outcome.crawled| - 1 ==> DocAt(outcome.crawled[k], fetch, parse).Some?)
              && DocAt(outcome.crawled[|outcome.crawled| - 1], fetch, parse).None?
              && outcome.message == "Error: " + ErrorMessage(fetch(outcome.crawled[|outcome.crawled| - 1]).error)
  {
    if sitemapUrl == "" {
      return NeedsUrl;
    }
    var queue := [sitemapUrl];
    var crawled: seq<string> := [];
    var pd := PageData([], map[]);
    while |queue| > 0
      invariant CrawlFrom(queue, crawled, fetch, parse) == SitemapCrawl(sitemapUrl, fetch, parse)
      invariant CrawlInvariant(sitemapUrl, crawled, queue, pd, fetch, parse)
      invariant AllChildrenCovered(crawled, queue, fetch, parse)
      decreases MaxSitemaps - |crawled|, |queue|
    {
      if |crawled| >= MaxSitemaps {
        break;
      }
      var current := queue[0];
      if current == "" || current in crawled {
        SkipStep(sitemapUrl, crawled, queue, pd, fetch, parse);
        queue := queue[1..];
        continue;
      }
      var doc := DocAt(current, fetch, parse);
      CrawlFromVisit(queue, crawled, fetch, parse);
      if doc.None? {
        outcome := CrawlAborted(crawled + [current], "Error: " + ErrorMessage(fetch(current).error));
        AbortFacts(sitemapUrl, crawled, queue, pd, fetch, parse);
        CrawlReached(sitemapUrl, fetch, parse);
        return;
      }
      var next, pd' := VisitSitemap(sitemapUrl, crawled, queue, pd, doc.value, fetch, parse);
      crawled, queue, pd := crawled + [current], next, pd';
    }
    CrawlFromStop(queue, crawled, fetch, parse);
    CrawlReached(sitemapUrl, fetch, parse);
    return CrawlFinished(crawled, pd);
  }

  /** Skipping a blank or already crawled head of the queue keeps what holds between rounds
      and leaves the rest of the crawl unchanged. */
  lemma {:induction false} SkipStep(sitemapUrl: string, crawled: seq<string>, queue: seq<string>, pd: PageData,
                                    fetch: string -> FetchResult, parse: string -> SitemapDoc)
    requires CrawlInvariant(sitemapUrl, crawled, queue, pd, fetch, parse)
    requires AllChildrenCovered(crawled, queue, fetch, parse)
    requires |queue| > 0 && |crawled| < MaxSitemaps && (queue[0] == "" || queue[0] in crawled)
    ensures CrawlInvariant(sitemapUrl, crawled, queue[1..], pd, fetch, parse)
    ensures AllChildrenCovered(crawled, queue[1..], fetch, parse)
    ensures CrawlFrom(queue[1..], crawled, fetch, parse) == CrawlFrom(queue, crawled, fetch, parse)
  {
    CrawlFromSkip(queue, crawled, fetch, parse);
    SkipKeepsCovered(crawled, queue, fetch, parse);
  }

  /** One round that fetches the head of the queue: its children go to the back of the
      queue and its `<url>` entries are recorded. */
  method VisitSitemap(sitemapUrl: string, crawled: seq<string>, queue: seq<string>, pd: PageData, doc: SitemapDoc,
                      fetch: string -> FetchResult, parse: string -> SitemapDoc)
    returns (next: seq<string>, pd': PageData)
    requires CrawlInvariant(sitemapUrl, crawled, queue, pd, fetch, parse)
    requires AllChildrenCovered(crawled, queue, fetch, parse)
    requires |queue| > 0 && queue[0] != "" && queue[0] !in crawled && |crawled| < MaxSitemaps
    requires DocAt(queue[0], fetch, parse) == Some(doc)
    ensures next == queue[1..] + Queued(crawled + [queue[0]], doc.sitemaps)
    ensures CrawlInvariant(sitemapUrl, crawled + [queue[0]], next, pd', fetch, parse)
    ensures AllChildrenCovered(crawled + [queue[0]], next, fetch, parse)
  {
    next := QueueChildren(queue[1..], crawled + [queue[0]], doc.sitemaps);
    assert forall x :: x in queue[1..] ==> x in next by {
      assert forall x :: x in queue[1..] ==> x in next[..|queue[1..]|];
    }
    VisitKeepsCovered(crawled, queue, next, fetch, parse);
    pd' := RecordUrls(pd, doc.urls, AllUrls(crawled, fetch, parse));
    VisitStep(sitemapUrl, crawled, queue, pd, next, pd', fetch, parse);
  }

  /** A crawl that stops at a failed fetch has crawled distinct, non-blank addresses,
      starting with the given one, all fetched but the last. */
  lemma {:induction false} AbortFacts(sitemapUrl: string, crawled: seq<string>, queue: seq<string>, pd: PageData,
                                      fetch: string -> FetchResult, parse: string -> SitemapDoc)
    requires CrawlInvariant(sitemapUrl, crawled, queue, pd, fetch, parse)
    requires |queue| > 0 && queue[0] != "" && queue[0] !in crawled && |crawled| < MaxSitemaps
    ensures var c := crawled + [queue[0]];
            && c[0] == sitemapUrl && Distinct(c) && |c| <= MaxSitemaps
            && (forall k :: 0 <= k < |c| ==> c[k] != "")
            && (forall k :: 0 <= k < |c| - 1 ==> DocAt(c[k], fetch, parse).Some?)
  {
    DistinctSnoc(crawled, queue[0]);
  }

  // ------------------------------------------------------------ pages and the merge

  const StaleAfterDays: int := 365

  /** The record for a newly discovered page. `ageDays` stands for date parsing against
      the current clock (`None` for an unparsable date), `slugOf` for `extractSlugFromUrl`. */
  function NewPage(url: string, lastmod: Option<string>, ageDays: string -> Option<int>, slugOf: string -> string): (p: SitemapPage)
    ensures p.id == url && p.title == url && p.lastMod == lastmod
    ensures p.status == "idle" && p.analysis.None? && p.healthScore.None? && p.updatePriority.None?
    ensures p.slug == slugOf(url) && p.publishedState == "none"
    ensures lastmod.None? || lastmod == Some("") ==> p.daysOld.None?
    ensures lastmod.Some? && lastmod.value != "" ==> p.daysOld == ageDays(lastmod.value)
    ensures p.isStale <==> p.daysOld.Some? && p.daysOld.value > StaleAfterDays
  {
    var daysOld := if lastmod.Some? && lastmod.value != "" then ageDays(lastmod.value) else None;
    SitemapPage(url, url, slugOf(url), lastmod, None, None, None, None, None, daysOld,
                daysOld.Some? && daysOld.value > StaleAfterDays, "none", "idle", None, None)
  }

  /** The discovered pages, one per address in map order. */
  function DiscoveredPages(pd: PageData, ageDays: string -> Option<int>, slugOf: string -> string): (pages: seq<SitemapPage>)
    requires WellKeyed(pd)
    ensures |pages| == |pd.keys|
    ensures forall k :: 0 <= k < |pages| ==> pages[k] == NewPage(pd.keys[k], pd.lastmods[pd.keys[k]], ageDays, slugOf)
  {
    seq(|pd.keys|, k requires 0 <= k < |pd.keys| => NewPage(pd.keys[k], pd.lastmods[pd.keys[k]], ageDays, slugOf))
  }

  /** The position of the last record with the given id, if any. */
  function LastWithId(pages: seq<SitemapPage>, id: string): (r: Option<nat>)
    ensures r.Some? ==> r.value < |pages| && pages[r.value].id == id
    ensures r.Some? ==> forall i :: r.value < i < |pages| ==> pages[i].id != id
    ensures r.None? ==> forall i :: 0 <= i < |pages| ==> pages[i].id != id
    decreases |pages|
  {
    if pages == [] then None
    else if pages[|pages| - 1].id == id then Some(|pages| - 1)
    else
      var r := LastWithId(pages[..|pages| - 1], id);
      assert forall i :: 0 <= i < |pages| - 1 ==> pages[..|pages| - 1][i].id == pages[i].id;
      r
  }

  /** The discovered pages carry the map's addresses as their ids, so no id repeats. */
  lemma {:induction false} DiscoveredIdsDistinct(pd: PageData, ageDays: string -> Option<int>, slugOf: string -> string)
    requires WellKeyed(pd)
    ensures Ids(DiscoveredPages(pd, ageDays, slugOf)) == pd.keys
    ensures Distinct(Ids(DiscoveredPages(pd, ageDays, slugOf)))
  {
    assert Ids(DiscoveredPages(pd, ageDays, slugOf)) == pd.keys;
  }

  /** `new Map(prev.map(p => [p.id, p]))`: one entry per id, holding the last record with
      that id. */
  function ById(prev: seq<SitemapPage>): (m: map<string, SitemapPage>)
    ensures forall id :: id in m <==> id in Ids(prev)
    ensures forall id :: id in m ==> LastWithId(prev, id).Some? && m[id] == prev[LastWithId(prev, id).value]
  {
    map id | id in Ids(prev) :: prev[LastWithId(prev, id).value]
  }

  /** One discovered page against the previous records: an analysed page keeps its status,
      analysis, health score and priority; anything else is the fresh record. */
  function MergeOne(known: map<string, SitemapPage>, found: SitemapPage): (p: SitemapPage)
    ensures p.id == found.id
    ensures found.id in known && known[found.id].status == "analyzed" ==>
              p == found.(status := "analyzed", analysis := known[found.id].analysis,
                          healthScore := known[found.id].healthScore, updatePriority := known[found.id].updatePriority)
    ensures !(found.id in known && known[found.id].status == "analyzed") ==> p == found
  {
    if found.id in known && known[found.id].status == "analyzed" then
      var prior := known[found.id];
      found.(status := "analyzed", analysis := prior.analysis, healthScore := prior.healthScore, updatePriority := prior.updatePriority)
    else found
  }

  /** The state update after a crawl: exactly the discovered pages, in their order. */
  function Merge(prev: seq<SitemapPage>, discovered: seq<SitemapPage>): (r: seq<SitemapPage>)
    ensures |r| == |discovered|
    ensures forall k :: 0 <= k < |r| ==> r[k] == MergeOne(ById(prev), discovered[k])
  {
    var known := ById(prev);
    seq(|discovered|, k requires 0 <= k < |discovered| => MergeOne(known, discovered[k]))
  }

  /** Apart from the four preserved fields, a merged page is the discovered one. */
  lemma {:induction false} MergeKeepsDiscovered(prev: seq<SitemapPage>, discovered: seq<SitemapPage>, k: nat)
    requires k < |discovered|
    ensures var p := Merge(prev, discovered)[k];
            p.(status := discovered[k].status, analysis := discovered[k].analysis,
               healthScore := discovered[k].healthScore, updatePriority := discovered[k].updatePriority)
            == discovered[k]
  {
  }

  /** A page merged against its own earlier merge comes out the same. */
  lemma {:induction false} MergeOneAgain(known: map<string, SitemapPage>, again: map<string, SitemapPage>, found: SitemapPage)
    requires found.id in again && again[found.id] == MergeOne(known, found)
    ensures MergeOne(again, found) == MergeOne(known, found)
  {
  }

  /** In the merged list, the record for the `k`-th discovered id is the `k`-th one. */
  lemma {:induction false} MergedById(prev: seq<SitemapPage>, discovered: seq<SitemapPage>, k: nat)
    requires Distinct(Ids(discovered)) && k < |discovered|
    ensures var once := Merge(prev, discovered);
            discovered[k].id in ById(once) && ById(once)[discovered[k].id] == once[k]
  {
    var once := Merge(prev, discovered);
    var id := discovered[k].id;
    assert Ids(once)[k] == id;
    var j := LastWithId(once, id).value;
    if k < j {
      DistinctAt(Ids(discovered), k, j);
    }
  }

  /** Merging the same discovery twice changes nothing the second time, when the
      discovered ids are distinct (they are the keys of a map). */
  lemma {:induction false} MergeIdempotent(prev: seq<SitemapPage>, discovered: seq<SitemapPage>)
    requires Distinct(Ids(discovered))
    ensures Merge(Merge(prev, discovered), discovered) == Merge(prev, discovered)
  {
    var once := Merge(prev, discovered);
    forall k | 0 <= k < |discovered| ensures MergeOne(ById(once), discovered[k]) == once[k] {
      MergedById(prev, discovered, k);
      MergeOneAgain(ById(prev), ById(once), discovered[k]);
    }
  }

  /** A crawl without credentials fails with the racer's own message. */
  lemma {:induction false} RacerFailureMessage(u: string, net: Strategy -> Attempt)
    ensures RacerFetch(net)(u).FetchFailed? ==> ErrorMessage(RacerFetch(net)(u).error) == ExhaustedMessage(u)
  {
    AnonymousRace(u, map[], net);
  }

  /** How the crawl fetches a sitemap: through the network racer, without credentials. */
  function RacerFetch(net: Strategy -> Attempt): string -> FetchResult {
    u => FetchWithProxies(u, map[], net)
  }

  /** `handleCrawlSitemap` as a whole: the progress message it ends with and the new page
      list (unchanged unless the crawl finished). `ageDays` and `slugOf` are as for `NewPage`. */
  method HandleCrawlSitemap(sitemapUrl: string, prev: seq<SitemapPage>, net: Strategy -> Attempt,
                            parse: string -> SitemapDoc, ageDays: string -> Option<int>, slugOf: string -> string)
    returns (message: string, pages: seq<SitemapPage>)
    ensures sitemapUrl == "" ==> message == "Enter URL." && pages == prev
    ensures var o := SitemapCrawl(sitemapUrl, RacerFetch(net), parse);
            o.CrawlAborted? ==> pages == prev && message == "Error: " + ExhaustedMessage(o.crawled[|o.crawled| - 1])
    ensures var o := SitemapCrawl(sitemapUrl, RacerFetch(net), parse);
            o.CrawlFinished? ==>
              var pd := RecordAll(AllUrls(o.crawled, RacerFetch(net), parse));
              && pages == Merge(prev, DiscoveredPages(pd, ageDays, slugOf))
              && message == "Found " + NatToString(|pd.keys|) + " pages."
  {
    var outcome := CrawlSitemaps(sitemapUrl, RacerFetch(net), parse);
    match outcome
    case NeedsUrl =>
      message, pages := "Enter URL.", prev;
    case CrawlAborted(crawled, m) =>
      RacerFailureMessage(crawled[|crawled| - 1], net);
      message, pages := m, prev;
    case CrawlFinished(_, pd) =>
      var discovered := DiscoveredPages(pd, ageDays, slugOf);
      message, pages := "Found " + NatToString(|discovered|) + " pages.", Merge(prev, discovered);
  }
}
