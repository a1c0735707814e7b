/** Document scraping: one scrape per URL, all settled, keeping only pages
    that came back with at least 100 characters of markdown. The scraping
    service is a function parameter from (position, scrape job) to that
    job's outcome; the position lets the same URL listed twice settle
    differently. */
module Hyperbrowser {
  import opened Wrappers
  import opened Strings
  import opened Seqs

  const MissingKeyMessage := "HYPERBROWSER_API_KEY is not set"

  /** Pages with less markdown than this (in UTF-16 code units) count as
      failed scrapes. */
  const MinMarkdownLength: nat := 100

  /** The service client, built from the API key. */
  datatype Client = Client(apiKey: string)

  /** `getClient()`: the cached client when there is one (the environment is
      not read again); otherwise a client built from the key, or the
      missing-key error. A successful result becomes the new cache. */
  function GetClient(cached: Option<Client>, apiKey: Option<string>): (r: Result<Client>)
    ensures cached.Some? ==> r == Success(cached.value)
    ensures cached.None? ==> (r.Success? <==> Truthy(apiKey))
    ensures cached.None? && Truthy(apiKey) ==> r.value.apiKey == apiKey.value
    ensures r.Failure? ==> r.message == MissingKeyMessage
  {
    match cached
    case Some(c) => Success(c)
    case None =>
      if !Truthy(apiKey) then Failure(MissingKeyMessage)
      else Success(Client(apiKey.value))
  }

  /** The client is built once: once cached, every later call returns it,
      whatever the environment then holds. */
  lemma ClientBuiltOnce(apiKey: Option<string>, laterKey: Option<string>)
    requires Truthy(apiKey)
    ensures GetClient(Some(GetClient(None, apiKey).value), laterKey) == GetClient(None, apiKey)
  {
  }

  datatype ScrapeOptions = ScrapeOptions(formats: seq<string>, onlyMainContent: bool)

  /** Every page is requested as markdown, main content only. */
  const MarkdownMainContent := ScrapeOptions(["markdown"], true)

  datatype ScrapeJob = ScrapeJob(url: string, options: ScrapeOptions)

  /** How one scrape ended: it threw, or it returned, possibly without
      `data.markdown`. */
  datatype ScrapeOutcome = ScrapeFailed(reason: string) | Scraped(markdown: Option<string>)

  /** The source's `ScrapeResult` record. */
  datatype ScrapeResult = ScrapeResult(url: string, markdown: string)

  /** One entry of `Promise.allSettled`'s result. */
  datatype Settled = Rejected(reason: string) | Fulfilled(value: ScrapeResult)

  /** The jobs started by `urls.map(...)`: exactly one per URL, in order. */
  function Jobs(urls: seq<string>): (jobs: seq<ScrapeJob>)
    ensures |jobs| == |urls|
    ensures forall i :: 0 <= i < |urls| ==> jobs[i] == ScrapeJob(urls[i], MarkdownMainContent)
  {
    seq(|urls|, i requires 0 <= i < |urls| => ScrapeJob(urls[i], MarkdownMainContent))
  }

  /** A settled page is kept when it was fulfilled with enough markdown. */
  predicate IsUsable(s: Settled) {
    s.Fulfilled? && Utf16Length(s.value.markdown) >= MinMarkdownLength
  }

  /** The settled entry for one URL: a thrown scrape is rejected; a returned
      one is fulfilled with the URL and its markdown, `""` when absent. It
      is usable exactly when markdown came back with at least 100 code
      units. */
  function Settle(url: string, outcome: ScrapeOutcome): (s: Settled)
    ensures s.Fulfilled? <==> outcome.Scraped?
    ensures s.Fulfilled? ==> s.value.url == url
    ensures IsUsable(s) <==> outcome.Scraped? && outcome.markdown.Some?
                             && Utf16Length(outcome.markdown.value) >= MinMarkdownLength
  {
    match outcome
    case ScrapeFailed(reason) => Rejected(reason)
    case Scraped(markdown) => Fulfilled(ScrapeResult(url, markdown.GetOr("")))
  }

  /** `Promise.allSettled(urls.map(...))`: one settled entry per URL, in URL
      order, whatever order the scrapes finish in. */
  function SettleAll(urls: seq<string>, scrape: (nat, ScrapeJob) -> ScrapeOutcome): (settled: seq<Settled>)
    ensures |settled| == |urls|
    ensures forall i :: 0 <= i < |urls| ==> settled[i] == Settle(urls[i], scrape(i, Jobs(urls)[i]))
  {
    var jobs := Jobs(urls);
    seq(|urls|, i requires 0 <= i < |urls| => Settle(urls[i], scrape(i, jobs[i])))
  }

  /** The `filter(...).map((r) => r.value)` over the settled entries. */
  function UsableDocs(settled: seq<Settled>): (docs: seq<ScrapeResult>)
    ensures |docs| == Count(settled, IsUsable) <= |settled|
    ensures forall i :: 0 <= i < |docs| ==> Utf16Length(docs[i].markdown) >= MinMarkdownLength
  {
    var kept := Filter(settled, IsUsable);
    seq(|kept|, i requires 0 <= i < |kept| => kept[i].value)
  }

  /** Keeping usable pages works entry by entry and in order: a rejected or
      short entry contributes nothing, a usable one contributes its own
      page. */
  lemma UsableDocsAppend(a: seq<Settled>, b: seq<Settled>)
    ensures UsableDocs(a + b) == UsableDocs(a) + UsableDocs(b)
    ensures UsableDocs([]) == []
  {
    FilterAppend(a, b, IsUsable);
  }

  lemma UsableDocsSingle(s: Settled)
    ensures UsableDocs([s]) == if IsUsable(s) then [s.value] else []
  {
    assert [s][1..] == [];
  }

  /** `scrapeUrls(urls)`. Only a missing client makes it fail, before any
      scrape starts; individual failures never do. The pages returned all
      have at least 100 code units of markdown, and there is one per usable
      URL, so never more than there were URLs. */
  function ScrapeUrls(
    cached: Option<Client>, apiKey: Option<string>, urls: seq<string>,
    scrape: (nat, ScrapeJob) -> ScrapeOutcome)
    : (r: Result<seq<ScrapeResult>>)
    ensures r.Success? <==> cached.Some? || Truthy(apiKey)
    ensures r.Failure? ==> r.message == MissingKeyMessage
    ensures r.Success? ==> |r.value| == Count(SettleAll(urls, scrape), IsUsable) <= |urls|
    ensures r.Success? ==> forall i :: 0 <= i < |r.value|
                             ==> Utf16Length(r.value[i].markdown) >= MinMarkdownLength
  {
    match GetClient(cached, apiKey)
    case Failure(message) => Failure(message)
    case Success(_) => Success(UsableDocs(SettleAll(urls, scrape)))
  }

  /** Each usable URL's page appears in the result, paired with that URL's
      own markdown, at the index given by the number of usable URLs before
      it: the result is the usable pages in URL order. */
  lemma ScrapeUrlsKeepsOrder(
    cached: Option<Client>, apiKey: Option<string>, urls: seq<string>,
    scrape: (nat, ScrapeJob) -> ScrapeOutcome, i: nat)
    requires cached.Some? || Truthy(apiKey)
    requires i < |urls|
    requires scrape(i, ScrapeJob(urls[i], MarkdownMainContent)).Scraped?
    requires scrape(i, ScrapeJob(urls[i], MarkdownMainContent)).markdown.Some?
    requires Utf16Length(scrape(i, ScrapeJob(urls[i], MarkdownMainContent)).markdown.value)
             >= MinMarkdownLength
    ensures var settled := SettleAll(urls, scrape);
            var docs := ScrapeUrls(cached, apiKey, urls, scrape).value;
            Count(settled[..i], IsUsable) < |docs|
            && docs[Count(settled[..i], IsUsable)]
               == ScrapeResult(urls[i], scrape(i, ScrapeJob(urls[i], MarkdownMainContent)).markdown.value)
  {
    var settled := SettleAll(urls, scrape);
    assert settled[i] == Settle(urls[i], scrape(i, Jobs(urls)[i]));
    FilterPosition(settled, IsUsable, i);
  }

  /** Pages that come back without markdown are dropped like failures: when
      no scrape returns markdown, nothing is kept. */
  lemma NoMarkdownNothingKept(
    cached: Option<Client>, apiKey: Option<string>, urls: seq<string>,
    scrape: (nat, ScrapeJob) -> ScrapeOutcome)
    requires cached.Some? || Truthy(apiKey)
    requires forall i :: 0 <= i < |urls| ==> scrape(i, Jobs(urls)[i]) == Scraped(None)
    ensures ScrapeUrls(cached, apiKey, urls, scrape) == Success([])
  {
    var settled := SettleAll(urls, scrape);
    assert forall i :: 0 <= i < |settled| ==> !IsUsable(settled[i]);
    NoneUsable(settled);
  }

  lemma {:induction false} NoneUsable(settled: seq<Settled>)
    requires forall i :: 0 <= i < |settled| ==> !IsUsable(settled[i])
    ensures Count(settled, IsUsable) == 0
    decreases |settled|
  {
    if settled != [] {
      NoneUsable(settled[1..]);
    }
  }
}
