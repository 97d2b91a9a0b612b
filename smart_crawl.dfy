/** `smartCrawl` (contentUtils.tsx): a clean-text service (Jina) raced against a fetch of
    the page through the network racer followed by DOM text extraction. Each strategy
    validates its own text; the caller gets the first text that passed its gates. */
module SmartCrawl {
  import opened Text
  import opened Network

  const JinaPrefix: string := "https://r.jina.ai/"
  const MinTextLength: nat := 200
  const JinaBudget: nat := 35000
  const DomBudget: nat := 30000
  const CrawlFailedMessage: string :=
    "SOTA Crawl Failed (All Strategies): AggregateError: All promises were rejected"

  datatype Source = Jina | Dom
  datatype CrawlResult = Crawled(text: string, source: Source) | CrawlFailed(message: string)

  /** The request the Jina strategy sends. */
  function JinaRequest(url: string): Strategy {
    Strategy(Direct, JinaPrefix + url, None)
  }

  /** Jina's text is refused when empty, when it shows an access-denied page, or when it
      is too short to be an article. */
  predicate JinaTextAccepted(text: string) {
    text != "" && !Contains(text, "Access Denied") && |text| >= MinTextLength
  }

  /** The Jina strategy: a failed response or a refused text rejects; otherwise the text,
      cut to its budget, fulfils when the response arrived. */
  function JinaStrategy(a: Attempt): (r: Settled<string>)
    ensures r.Fulfilled? <==> (a.outcome.Responded? && a.outcome.response.ok
                               && JinaTextAccepted(a.outcome.response.body))
    ensures r.Fulfilled? ==> r.at == a.finishMs && r.value == Prefix(a.outcome.response.body, JinaBudget)
  {
    match a.outcome
    case NetworkError => Rejected
    case Responded(res) =>
      if !res.ok then Rejected
      else if !JinaTextAccepted(res.body) then Rejected
      else Fulfilled(a.finishMs, Prefix(res.body, JinaBudget))
  }

  /** The text the DOM strategy validates: the page's main text with white-space runs
      collapsed to single spaces and the ends trimmed. */
  function DomText(html: string, mainText: string -> string): string {
    Trim(CollapseSpaces(mainText(html)))
  }

  /** The DOM strategy: the page comes through the network racer without credentials; any
      answer the racer accepts is parsed, whatever its status. `mainText` stands for the
      DOM parsing and cleaning, `doneMs` for when the strategy finishes. */
  function DomStrategy(fetched: FetchResult, mainText: string -> string, doneMs: nat): (r: Settled<string>)
    ensures r.Fulfilled? <==> (fetched.Fetched? && |DomText(fetched.response.body, mainText)| >= MinTextLength)
    ensures r.Fulfilled? ==> r.at == doneMs && r.value == Prefix(DomText(fetched.response.body, mainText), DomBudget)
  {
    match fetched
    case FetchFailed(_) => Rejected
    case Fetched(res, _) =>
      var text := DomText(res.body, mainText);
      if |text| < MinTextLength then Rejected
      else Fulfilled(doneMs, Prefix(text, DomBudget))
  }

  /** When the DOM strategy finishes: once the racer has answered, after `extractMs` of
      reading and parsing the page. */
  function DomDoneMs(url: string, net: Strategy -> Attempt, extractMs: nat): nat {
    RaceFinishMs(url, net) + extractMs
  }

  /** `smartCrawl(url)`: `net` answers every request, `extractMs` is how long the DOM
      strategy takes once its page has arrived. */
  function Crawl(url: string, net: Strategy -> Attempt, mainText: string -> string, extractMs: nat): CrawlResult {
    var jina := JinaStrategy(net(JinaRequest(url)));
    var dom := DomStrategy(FetchWithProxies(url, map[], net), mainText, DomDoneMs(url, net, extractMs));
    match Earliest([jina, dom])
    case Some(k) => if k == 0 then Crawled(jina.value, Jina) else Crawled(dom.value, Dom)
    case None => CrawlFailed(CrawlFailedMessage)
  }

  /** The crawl fails exactly when both strategies fail; otherwise it returns the text of the
      strategy that finished first (Jina on a tie). */
  lemma {:induction false} CrawlFailsOnlyWhenBothFail(url: string, net: Strategy -> Attempt, mainText: string -> string, extractMs: nat)
    ensures var jina := JinaStrategy(net(JinaRequest(url)));
            var dom := DomStrategy(FetchWithProxies(url, map[], net), mainText, DomDoneMs(url, net, extractMs));
            var r := Crawl(url, net, mainText, extractMs);
            && (r.CrawlFailed? <==> jina.Rejected? && dom.Rejected?)
            && (r.Crawled? && r.source == Jina ==>
                  jina.Fulfilled? && r.text == jina.value && (dom.Fulfilled? ==> jina.at <= dom.at))
            && (r.Crawled? && r.source == Dom ==>
                  dom.Fulfilled? && r.text == dom.value && (jina.Fulfilled? ==> dom.at < jina.at))
  {
    var jina := JinaStrategy(net(JinaRequest(url)));
    var dom := DomStrategy(FetchWithProxies(url, map[], net), mainText, DomDoneMs(url, net, extractMs));
    RaceOfTwo(jina, dom);
  }

  /** The DOM strategy finishes `extractMs` after the relay that won its page's race. */
  lemma {:induction false} DomAfterRacer(url: string, net: Strategy -> Attempt, mainText: string -> string, extractMs: nat)
    ensures var fetched := FetchWithProxies(url, map[], net);
            var dom := DomStrategy(fetched, mainText, DomDoneMs(url, net, extractMs));
            dom.Fulfilled? ==>
              exists k :: WinnerAt(RaceStrategies(url), net, k, fetched)
                          && dom.at == net(RaceStrategies(url)[k]).finishMs + extractMs
  {
    RaceFinishIsWinner(url, net);
  }

  /** The race of two strategies, first listed wins ties. */
  lemma {:induction false} RaceOfTwo(first: Settled<string>, second: Settled<string>)
    ensures var e := Earliest([first, second]);
            && (e.None? <==> first.Rejected? && second.Rejected?)
            && (e == Some(0) ==> first.Fulfilled? && (second.Fulfilled? ==> first.at <= second.at))
            && (e.Some? && e != Some(0) ==> e == Some(1) && second.Fulfilled? && (first.Fulfilled? ==> second.at < first.at))
  {
    assert [first, second][0] == first && [first, second][1] == second;
  }

  /** A trimmed single-spaced text stays single-spaced, without a leading space, when cut. */
  lemma {:induction false} TrimmedCollapsedPrefix(s: string, n: nat)
    ensures var t := Prefix(Trim(CollapseSpaces(s)), n);
            SingleSpaced(t) && (t != [] ==> t[0] != ' ')
  {
    var c := CollapseSpaces(s);
    var a := TrimStart(c);
    var b := TrimEnd(a);
    SingleSpacedSlice(c, |c| - |a|, |c|);
    SingleSpacedSlice(a, 0, |b|);
    var t := Prefix(b, n);
    SingleSpacedSlice(b, 0, |t|);
    if t != [] {
      assert t[0] == b[0];
    }
  }

  /** What a successful crawl returns: at least 200 characters and at most the winning
      strategy's budget; Jina's text never shows an access-denied page; the DOM text is
      single-spaced and does not start with a space. */
  lemma {:induction false} CrawledTextShape(url: string, net: Strategy -> Attempt, mainText: string -> string, extractMs: nat)
    ensures var r := Crawl(url, net, mainText, extractMs);
            r.Crawled? ==>
              && MinTextLength <= |r.text|
              && (r.source == Jina ==> |r.text| <= JinaBudget && !Contains(r.text, "Access Denied"))
              && (r.source == Dom ==>
                    |r.text| <= DomBudget && SingleSpaced(r.text) && r.text[0] != ' ')
  {
    CrawlFailsOnlyWhenBothFail(url, net, mainText, extractMs);
    JinaTextShape(net(JinaRequest(url)));
    DomTextShape(FetchWithProxies(url, map[], net), mainText, DomDoneMs(url, net, extractMs));
  }

  /** The gates of the Jina strategy, stated on the text it fulfils with. */
  lemma {:induction false} JinaTextShape(a: Attempt)
    ensures var jina := JinaStrategy(a);
            jina.Fulfilled? ==>
              MinTextLength <= |jina.value| <= JinaBudget && !Contains(jina.value, "Access Denied")
  {
    if JinaStrategy(a).Fulfilled? {
      PrefixKeepsAbsence(a.outcome.response.body, "Access Denied", |JinaStrategy(a).value|);
    }
  }

  /** The gates of the DOM strategy, stated on the text it fulfils with. */
  lemma {:induction false} DomTextShape(fetched: FetchResult, mainText: string -> string, doneMs: nat)
    ensures var dom := DomStrategy(fetched, mainText, doneMs);
            dom.Fulfilled? ==>
              && MinTextLength <= |dom.value| <= DomBudget
              && SingleSpaced(dom.value) && dom.value[0] != ' '
  {
    if fetched.Fetched? {
      TrimmedCollapsedPrefix(mainText(fetched.response.body), DomBudget);
    }
  }

  /** The DOM strategy does not look at the status: a 404 page that the racer returns is
      extracted like any other. */
  lemma {:induction false} DomIgnoresStatus(body: string, mainText: string -> string, doneMs: nat)
    requires |DomText(body, mainText)| >= MinTextLength
    ensures DomStrategy(Fetched(Response(false, 404, body), Direct), mainText, doneMs).Fulfilled?
  {
  }
}
