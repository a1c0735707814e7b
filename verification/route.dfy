/** The generation endpoint, `POST /api/generate`: validate the topic, then
    search, scrape and generate, each stage at most once and in that order,
    mapping each way of stopping to a status code.

    The three stages are function parameters that either return a value or
    throw; `Post` returns the response together with the stage calls it
    made, so which stages ran, with which arguments, is part of its result. */
module GenerateRoute {
  import opened Wrappers
  import opened Strings
  import opened Graph
  import Serper
  import Hyperbrowser

  const TopicRequired := "Topic is required"
  const NoDocumentation := "No documentation found for this topic"
  const NothingScraped := "Failed to scrape any documentation"
  const InternalError := "Internal server error"

  /** A thrown JavaScript value: an `Error` carrying a message, or anything
      else. */
  datatype Thrown = ErrorThrown(message: string) | NonErrorThrown

  /** A stage either returns a value or throws. */
  datatype Outcome<T> = Ok(value: T) | Threw(thrown: Thrown)

  /** The `topic` field of the parsed body: missing, some other JSON value,
      or a string. */
  datatype TopicField = Absent | NotAString | StringTopic(text: string)

  datatype Body =
    | ErrorBody(error: string)
    | GraphBody(graph: SkillGraph, files: seq<GeneratedFile>)

  datatype Response = Response(status: nat, body: Body)

  type ScrapedDoc = Hyperbrowser.ScrapeResult

  /** One stage invocation and the argument it received. */
  datatype StageCall =
    | Search(topic: string)
    | Scrape(urls: seq<string>)
    | Generate(topic: string, docs: seq<ScrapedDoc>)

  /** The response, and the stage calls made to produce it, in order. */
  datatype Handled = Handled(response: Response, calls: seq<StageCall>)

  /** `!(!topic || typeof topic !== "string" || topic.trim().length === 0)` */
  predicate ValidTopic(field: TopicField) {
    field.StringTopic? && Trim(field.text) != []
  }

  /** `err instanceof Error ? err.message : "Internal server error"` */
  function ErrorMessage(t: Thrown): string {
    match t
    case ErrorThrown(message) => message
    case NonErrorThrown => InternalError
  }

  /** The stage calls appear as a prefix of search, scrape, generate. */
  predicate InStageOrder(calls: seq<StageCall>) {
    && |calls| <= 3
    && (|calls| > 0 ==> calls[0].Search?)
    && (|calls| > 1 ==> calls[1].Scrape?)
    && (|calls| > 2 ==> calls[2].Generate?)
  }

  /** What the last step taken threw, if it threw: the request body when no
      stage ran, otherwise the last stage called. */
  function ThrownAtEnd(
    request: Outcome<TopicField>, calls: seq<StageCall>,
    search: string -> Outcome<seq<string>>,
    scrape: seq<string> -> Outcome<seq<ScrapedDoc>>,
    generate: (string, seq<ScrapedDoc>) -> Outcome<GenerateResponse>)
    : Option<Thrown>
  {
    var last :=
      if |calls| == 0 then (if request.Threw? then Some(request.thrown) else None)
      else match calls[|calls| - 1]
        case Search(topic) => (var o := search(topic); if o.Threw? then Some(o.thrown) else None)
        case Scrape(urls) => (var o := scrape(urls); if o.Threw? then Some(o.thrown) else None)
        case Generate(topic, docs) =>
          (var o := generate(topic, docs); if o.Threw? then Some(o.thrown) else None);
    last
  }

  function Fail(t: Thrown, calls: seq<StageCall>): Handled {
    Handled(Response(500, ErrorBody(ErrorMessage(t))), calls)
  }

  /** The endpoint's handler.
      - An unreadable body or any thrown stage gives 500 with the thrown
        error's message, and nothing after it runs.
      - An invalid topic gives 400 before any stage runs.
      - Search runs once on the trimmed topic; no URLs gives 404.
      - Scrape runs once on exactly those URLs; no pages gives 502.
      - Generate runs once on the trimmed topic and exactly those pages; its
        graph and files are returned unchanged with 200. */
  function Post(
    request: Outcome<TopicField>,
    search: string -> Outcome<seq<string>>,
    scrape: seq<string> -> Outcome<seq<ScrapedDoc>>,
    generate: (string, seq<ScrapedDoc>) -> Outcome<GenerateResponse>)
    : (h: Handled)
    ensures h.response.status in {200, 400, 404, 500, 502}
    ensures InStageOrder(h.calls)
    ensures h.response.status == 400 <==> request.Ok? && !ValidTopic(request.value)
    ensures h.response.status == 400 ==> h.response.body == ErrorBody(TopicRequired) && h.calls == []
    ensures |h.calls| > 0 ==> request.Ok? && ValidTopic(request.value)
                              && h.calls[0] == Search(Trim(request.value.text))
    ensures |h.calls| > 1 ==> search(h.calls[0].topic) == Ok(h.calls[1].urls) && h.calls[1].urls != []
    ensures |h.calls| > 2 ==> scrape(h.calls[1].urls) == Ok(h.calls[2].docs) && h.calls[2].docs != []
                              && h.calls[2].topic == h.calls[0].topic
    ensures h.response.status == 404 <==> |h.calls| == 1 && search(h.calls[0].topic) == Ok([])
    ensures h.response.status == 404 ==> h.response.body == ErrorBody(NoDocumentation)
    ensures h.response.status == 502 <==> |h.calls| == 2 && scrape(h.calls[1].urls) == Ok([])
    ensures h.response.status == 502 ==> h.response.body == ErrorBody(NothingScraped)
    ensures h.response.status == 200 <==> |h.calls| == 3 && generate(h.calls[2].topic, h.calls[2].docs).Ok?
    ensures h.response.status == 200 ==>
              var g := generate(h.calls[2].topic, h.calls[2].docs).value;
              h.response.body == GraphBody(g.graph, g.files)
    ensures h.response.status == 500 <==> ThrownAtEnd(request, h.calls, search, scrape, generate).Some?
    ensures h.response.status == 500 ==>
              h.response.body == ErrorBody(ErrorMessage(ThrownAtEnd(request, h.calls, search, scrape, generate).value))
  {
    match request
    case Threw(t) => Fail(t, [])
    case Ok(field) =>
      if !ValidTopic(field) then Handled(Response(400, ErrorBody(TopicRequired)), [])
      else
        var topic := Trim(field.text);
        var called := [Search(topic)];
        match search(topic)
        case Threw(t) => Fail(t, called)
        case Ok(urls) =>
          if |urls| == 0 then Handled(Response(404, ErrorBody(NoDocumentation)), called)
          else
            var called := called + [Scrape(urls)];
            match scrape(urls)
            case Threw(t) => Fail(t, called)
            case Ok(docs) =>
              if |docs| == 0 then Handled(Response(502, ErrorBody(NothingScraped)), called)
              else
                var called := called + [Generate(topic, docs)];
                match generate(topic, docs)
                case Threw(t) => Fail(t, called)
                case Ok(generated) =>
                  Handled(Response(200, GraphBody(generated.graph, generated.files)), called)
  }

  /** An invalid topic is answered the same way whatever the stages would
      have done: none of them is consulted. */
  lemma InvalidTopicConsultsNoStage(
    field: TopicField,
    search1: string -> Outcome<seq<string>>, search2: string -> Outcome<seq<string>>,
    scrape1: seq<string> -> Outcome<seq<ScrapedDoc>>, scrape2: seq<string> -> Outcome<seq<ScrapedDoc>>,
    generate1: (string, seq<ScrapedDoc>) -> Outcome<GenerateResponse>,
    generate2: (string, seq<ScrapedDoc>) -> Outcome<GenerateResponse>)
    requires !ValidTopic(field)
    ensures Post(Ok(field), search1, scrape1, generate1) == Post(Ok(field), search2, scrape2, generate2)
    ensures Post(Ok(field), search1, scrape1, generate1) == Handled(Response(400, ErrorBody(TopicRequired)), [])
  {
  }

  /** The stages only ever see the trimmed topic: padding the topic with
      white space changes nothing in the response or in the calls made. */
  lemma PaddingIsInvisible(
    text: string,
    search: string -> Outcome<seq<string>>,
    scrape: seq<string> -> Outcome<seq<ScrapedDoc>>,
    generate: (string, seq<ScrapedDoc>) -> Outcome<GenerateResponse>)
    ensures Post(Ok(StringTopic(text)), search, scrape, generate)
         == Post(Ok(StringTopic(Trim(text))), search, scrape, generate)
  {
    TrimIdempotent(text);
  }

  /** When search finds nothing, the answer is 404 whatever scraping and
      generation would have done. */
  lemma NoUrlsStopsBeforeScraping(
    text: string,
    search: string -> Outcome<seq<string>>,
    scrape1: seq<string> -> Outcome<seq<ScrapedDoc>>, scrape2: seq<string> -> Outcome<seq<ScrapedDoc>>,
    generate1: (string, seq<ScrapedDoc>) -> Outcome<GenerateResponse>,
    generate2: (string, seq<ScrapedDoc>) -> Outcome<GenerateResponse>)
    requires Trim(text) != [] && search(Trim(text)) == Ok([])
    ensures Post(Ok(StringTopic(text)), search, scrape1, generate1)
         == Post(Ok(StringTopic(text)), search, scrape2, generate2)
    ensures Post(Ok(StringTopic(text)), search, scrape1, generate1).response
         == Response(404, ErrorBody(NoDocumentation))
  {
  }

  /** When scraping keeps nothing, the answer is 502 whatever generation
      would have done. */
  lemma NoDocsStopsBeforeGenerating(
    text: string,
    search: string -> Outcome<seq<string>>,
    scrape: seq<string> -> Outcome<seq<ScrapedDoc>>,
    generate1: (string, seq<ScrapedDoc>) -> Outcome<GenerateResponse>,
    generate2: (string, seq<ScrapedDoc>) -> Outcome<GenerateResponse>)
    requires Trim(text) != [] && search(Trim(text)).Ok? && search(Trim(text)).value != []
    requires scrape(search(Trim(text)).value) == Ok([])
    ensures Post(Ok(StringTopic(text)), search, scrape, generate1)
         == Post(Ok(StringTopic(text)), search, scrape, generate2)
    ensures Post(Ok(StringTopic(text)), search, scrape, generate1).response
         == Response(502, ErrorBody(NothingScraped))
  {
  }

  // ---------------------------------------------------------------------------
  // The route wired to the search and scrape models

  function FromResult<T>(r: Result<T>): (o: Outcome<T>)
    ensures o.Ok? <==> r.Success?
    ensures r.Success? ==> o.value == r.value
    ensures r.Failure? ==> o.thrown == ErrorThrown(r.message)
  {
    match r
    case Success(v) => Ok(v)
    case Failure(message) => Threw(ErrorThrown(message))
  }

  /** `searchDocs` as the search stage, for a given key and provider. */
  function SearchStage(apiKey: Option<string>, respond: Serper.Provider)
    : string -> Outcome<seq<string>>
  {
    (topic: string) => FromResult(Serper.SearchDocs(apiKey, topic, respond))
  }

  /** `scrapeUrls` as the scrape stage, for a given client cache, key and
      scraping service. */
  function ScrapeStage(
    cached: Option<Hyperbrowser.Client>, apiKey: Option<string>,
    service: (nat, Hyperbrowser.ScrapeJob) -> Hyperbrowser.ScrapeOutcome)
    : seq<string> -> Outcome<seq<ScrapedDoc>>
  {
    (urls: seq<string>) => FromResult(Hyperbrowser.ScrapeUrls(cached, apiKey, urls, service))
  }

  /** Whatever the search stage returns is between zero and eight unblocked
      URLs. */
  lemma SearchStageBounded(
    apiKey: Option<string>, respond: Serper.Provider, topic: string)
    ensures SearchStage(apiKey, respond)(topic).Ok? ==>
            var urls := SearchStage(apiKey, respond)(topic).value;
            && |urls| <= Serper.MaxResults
            && forall i :: 0 <= i < |urls| ==> !Serper.IsBlocked(urls[i])
  {
    var found := Serper.SearchDocs(apiKey, topic, respond);
    assert SearchStage(apiKey, respond)(topic) == FromResult(found);
  }

  /** Whatever the scrape stage returns is at most one page per URL, each
      with at least 100 code units of markdown. */
  lemma ScrapeStageBounded(
    cached: Option<Hyperbrowser.Client>, apiKey: Option<string>,
    service: (nat, Hyperbrowser.ScrapeJob) -> Hyperbrowser.ScrapeOutcome, urls: seq<string>)
    ensures ScrapeStage(cached, apiKey, service)(urls).Ok? ==>
            var docs := ScrapeStage(cached, apiKey, service)(urls).value;
            && |docs| <= |urls|
            && forall i :: 0 <= i < |docs| ==> Utf16Length(docs[i].markdown) >= Hyperbrowser.MinMarkdownLength
  {
    var scraped := Hyperbrowser.ScrapeUrls(cached, apiKey, urls, service);
    assert ScrapeStage(cached, apiKey, service)(urls) == FromResult(scraped);
  }

  /** With the real search stage, scraping is asked for between one and
      eight URLs, none of them blocked. */
  lemma ScrapedUrlsAreBounded(
    request: Outcome<TopicField>,
    searchKey: Option<string>, respond: Serper.Provider,
    scrape: seq<string> -> Outcome<seq<ScrapedDoc>>,
    generate: (string, seq<ScrapedDoc>) -> Outcome<GenerateResponse>)
    ensures var h := Post(request, SearchStage(searchKey, respond), scrape, generate);
            |h.calls| > 1 ==>
              && 1 <= |h.calls[1].urls| <= Serper.MaxResults
              && forall i :: 0 <= i < |h.calls[1].urls| ==> !Serper.IsBlocked(h.calls[1].urls[i])
  {
    var h := Post(request, SearchStage(searchKey, respond), scrape, generate);
    if |h.calls| > 1 {
      SearchStageBounded(searchKey, respond, h.calls[0].topic);
    }
  }

  /** With the real scrape stage, generation receives at least one and at
      most one page per URL scraped, each with at least 100 code units of
      markdown. */
  lemma GeneratedDocsAreUsable(
    request: Outcome<TopicField>,
    search: string -> Outcome<seq<string>>,
    cached: Option<Hyperbrowser.Client>, scrapeKey: Option<string>,
    service: (nat, Hyperbrowser.ScrapeJob) -> Hyperbrowser.ScrapeOutcome,
    generate: (string, seq<ScrapedDoc>) -> Outcome<GenerateResponse>)
    ensures var h := Post(request, search, ScrapeStage(cached, scrapeKey, service), generate);
            |h.calls| > 2 ==>
              && 1 <= |h.calls[2].docs| <= |h.calls[1].urls|
              && forall i :: 0 <= i < |h.calls[2].docs|
                   ==> Utf16Length(h.calls[2].docs[i].markdown) >= Hyperbrowser.MinMarkdownLength
  {
    var h := Post(request, search, ScrapeStage(cached, scrapeKey, service), generate);
    if |h.calls| > 2 {
      ScrapeStageBounded(cached, scrapeKey, service, h.calls[1].urls);
    }
  }

  /** With the real search and scrape stages, generation receives between
      one and eight pages. */
  lemma GeneratedDocsAreBounded(
    request: Outcome<TopicField>,
    searchKey: Option<string>, respond: Serper.Provider,
    cached: Option<Hyperbrowser.Client>, scrapeKey: Option<string>,
    service: (nat, Hyperbrowser.ScrapeJob) -> Hyperbrowser.ScrapeOutcome,
    generate: (string, seq<ScrapedDoc>) -> Outcome<GenerateResponse>)
    ensures var h := Post(request, SearchStage(searchKey, respond), ScrapeStage(cached, scrapeKey, service), generate);
            |h.calls| > 2 ==> 1 <= |h.calls[2].docs| <= Serper.MaxResults
  {
    var search := SearchStage(searchKey, respond);
    var scrape := ScrapeStage(cached, scrapeKey, service);
    ScrapedUrlsAreBounded(request, searchKey, respond, scrape, generate);
    GeneratedDocsAreUsable(request, search, cached, scrapeKey, service, generate);
  }

  /** Without a search key, a valid request fails with 500 and the key
      message, after the search stage is entered and before anything else. */
  lemma MissingSearchKeyFails(
    text: string,
    searchKey: Option<string>, respond: Serper.Provider,
    scrape: seq<string> -> Outcome<seq<ScrapedDoc>>,
    generate: (string, seq<ScrapedDoc>) -> Outcome<GenerateResponse>)
    requires Trim(text) != [] && !Truthy(searchKey)
    ensures var h := Post(Ok(StringTopic(text)), SearchStage(searchKey, respond), scrape, generate);
            h.response == Response(500, ErrorBody(Serper.MissingKeyMessage)) && |h.calls| == 1
  {
  }

  /** With a key, a provider that fails to serve a readable 2xx reply makes
      a valid request fail with 500 after the search stage alone: with the
      error of a rejected `fetch`, with the status of a non-2xx reply, or
      with the error of reading the body. */
  lemma SearchProviderFailureFails(
    text: string,
    searchKey: Option<string>, respond: Serper.Provider,
    scrape: seq<string> -> Outcome<seq<ScrapedDoc>>,
    generate: (string, seq<ScrapedDoc>) -> Outcome<GenerateResponse>)
    requires Trim(text) != [] && Truthy(searchKey)
    requires !Serper.Served(respond(Serper.SearchRequestFor(Trim(text))))
    ensures var h := Post(Ok(StringTopic(text)), SearchStage(searchKey, respond), scrape, generate);
            h.response.status == 500 && |h.calls| == 1
    ensures var h := Post(Ok(StringTopic(text)), SearchStage(searchKey, respond), scrape, generate);
            var x := respond(Serper.SearchRequestFor(Trim(text)));
            && (x.FetchFailed? ==> h.response.body == ErrorBody(x.error))
            && (x.Replied? && !Serper.IsOk(x.response.status) ==>
                  h.response.body == ErrorBody(Serper.FailurePrefix + DecimalString(x.response.status)))
            && (x.Replied? && Serper.IsOk(x.response.status) ==>
                  h.response.body == ErrorBody(x.response.body.error))
  {
  }
}
