/** Document search: asks the web-search provider for pages about a topic
    and keeps at most eight links that are not video, social, forum or PDF
    pages. The HTTP exchange is a function parameter from the request that
    would be posted to what would come of it: a rejected `fetch`, or a
    reply. */
module Serper {
  import opened Wrappers
  import opened Strings
  import opened Seqs

  const MissingKeyMessage := "SERPER_API_KEY is not set"
  const FailurePrefix := "Serper search failed: "

  /** Appended to the topic to steer results toward conceptual material. */
  const QueryKeywords := " knowledge framework principles theory guide"

  /** The `num` hint sent with every query. */
  const ResultCountHint: nat := 20

  /** At most this many links are returned. */
  const MaxResults: nat := 8

  /** A link is dropped when its lower-cased form contains any of these. */
  const Blocklist: seq<string> := ["youtube.com", "twitter.com", "x.com", "reddit.com", ".pdf"]

  /** The JSON body posted to the provider. */
  datatype SearchRequest = SearchRequest(q: string, num: nat)

  /** A reply body as the code reads it: the `link` of each `organic`
      result in ranking order (`None` when `organic` is absent or null), or
      the message of the error reading it throws. Reading throws when the
      body is not JSON (`res.json()`), when it is JSON `null` (`data.organic`),
      when `organic` is not an array (`.map`), and when a result has no
      string `link` (`url.toLowerCase()`). */
  datatype ReplyBody = Links(organic: Option<seq<string>>) | Unreadable(error: string)

  /** The provider's reply: the HTTP status and the body. */
  datatype SearchResponse = SearchResponse(status: nat, body: ReplyBody)

  /** What comes of posting a request: `fetch` rejects with an error
      message (network failure, aborted request), or a reply arrives. */
  datatype Exchange = FetchFailed(error: string) | Replied(response: SearchResponse)

  /** The search provider, as seen from the code. */
  type Provider = SearchRequest -> Exchange

  /** `res.ok` */
  predicate IsOk(status: nat) {
    200 <= status <= 299
  }

  /** The request body for a topic: the topic followed by the fixed
      keywords, with the result-count hint. */
  function SearchRequestFor(topic: string): (req: SearchRequest)
    ensures req.num == ResultCountHint
    ensures |req.q| == |topic| + |QueryKeywords|
    ensures req.q[..|topic|] == topic && req.q[|topic|..] == QueryKeywords
  {
    SearchRequest(topic + QueryKeywords, ResultCountHint)
  }

  /** Different topics send different queries. */
  lemma SearchRequestInjective(a: string, b: string)
    requires SearchRequestFor(a) == SearchRequestFor(b)
    ensures a == b
  {
    assert |a| == |b|;
    assert a == SearchRequestFor(a).q[..|a|];
  }

  /** `blocked.some((b) => url.toLowerCase().includes(b))` */
  predicate IsBlocked(url: string) {
    exists i :: 0 <= i < |Blocklist| && Contains(Lower(url), Blocklist[i])
  }

  /** Blocking ignores case: a link and its lower-cased form are blocked
      alike, so "YouTube.com" is blocked as "youtube.com" is. */
  lemma IsBlockedIgnoresCase(url: string)
    ensures IsBlocked(url) <==> IsBlocked(Lower(url))
  {
    LowerNoUpper(Lower(url));
  }

  predicate Allowed(url: string) {
    !IsBlocked(url)
  }

  /** The `filter(...).slice(0, 8)` over the provider's links. */
  function KeepLinks(links: seq<string>): (urls: seq<string>)
    ensures |urls| <= MaxResults && |urls| <= |links|
    ensures forall i :: 0 <= i < |urls| ==> !IsBlocked(urls[i])
    ensures IsSubsequence(urls, links)
  {
    var allowed := Filter(links, Allowed);
    if |allowed| <= MaxResults then allowed
    else
      PrefixIsSubsequence(allowed, MaxResults);
      SubsequenceTransitive(allowed[..MaxResults], allowed, links);
      allowed[..MaxResults]
  }

  /** The links returned are the first eight allowed links in provider
      order: there are min(8, number allowed) of them, and the allowed link
      at index `i` of the reply, when fewer than eight allowed links precede
      it, sits at the index given by that number. Duplicates are kept. */
  lemma KeepLinksIsFirstEightAllowed(links: seq<string>)
    ensures |KeepLinks(links)|
         == if Count(links, Allowed) < MaxResults then Count(links, Allowed) else MaxResults
    ensures forall i :: 0 <= i < |links| && Allowed(links[i]) && Count(links[..i], Allowed) < MaxResults
              ==> Count(links[..i], Allowed) < |KeepLinks(links)|
                  && KeepLinks(links)[Count(links[..i], Allowed)] == links[i]
  {
    forall i | 0 <= i < |links| && Allowed(links[i]) && Count(links[..i], Allowed) < MaxResults
      ensures Count(links[..i], Allowed) < |KeepLinks(links)|
      ensures KeepLinks(links)[Count(links[..i], Allowed)] == links[i]
    {
      FilterPosition(links, Allowed, i);
    }
  }

  /** The exchange produced a readable 2xx reply. */
  predicate Served(x: Exchange) {
    x.Replied? && IsOk(x.response.status) && x.response.body.Links?
  }

  /** `searchDocs(topic)` for a given API key and provider. A missing key
      fails before any request; a rejected `fetch` fails with its error; a
      non-2xx reply fails with its status; a 2xx reply whose body cannot be
      read fails with the reading error. Otherwise the result is the first
      eight unblocked links of the reply, in order, and none when it has no
      `organic` results. */
  function SearchDocs(apiKey: Option<string>, topic: string, respond: Provider)
    : (r: Result<seq<string>>)
    ensures !Truthy(apiKey) ==> r == Failure(MissingKeyMessage)
    ensures var x := respond(SearchRequestFor(topic));
            Truthy(apiKey) && x.FetchFailed? ==> r == Failure(x.error)
    ensures var x := respond(SearchRequestFor(topic));
            Truthy(apiKey) && x.Replied? && !IsOk(x.response.status)
            ==> r == Failure(FailurePrefix + DecimalString(x.response.status))
    ensures var x := respond(SearchRequestFor(topic));
            Truthy(apiKey) && x.Replied? && IsOk(x.response.status) && x.response.body.Unreadable?
            ==> r == Failure(x.response.body.error)
    ensures r.Success? <==> Truthy(apiKey) && Served(respond(SearchRequestFor(topic)))
    ensures r.Success? ==> |r.value| <= MaxResults
    ensures r.Success? ==> forall i :: 0 <= i < |r.value| ==> !IsBlocked(r.value[i])
    ensures r.Success? ==> var links := respond(SearchRequestFor(topic)).response.body.organic.GetOr([]);
                           r.value == KeepLinks(links) && IsSubsequence(r.value, links)
    ensures r.Success? && respond(SearchRequestFor(topic)).response.body.organic.None? ==> r.value == []
  {
    if !Truthy(apiKey) then Failure(MissingKeyMessage)
    else
      match respond(SearchRequestFor(topic))
      case FetchFailed(error) => Failure(error)
      case Replied(res) =>
        if !IsOk(res.status) then Failure(FailurePrefix + DecimalString(res.status))
        else
          match res.body
          case Unreadable(error) => Failure(error)
          case Links(organic) => Success(KeepLinks(organic.GetOr([])))
  }

  /** Without a key the provider is never consulted: the result is the same
      whatever the provider would have answered. */
  lemma MissingKeyIgnoresProvider(apiKey: Option<string>, topic: string, respond1: Provider, respond2: Provider)
    requires !Truthy(apiKey)
    ensures SearchDocs(apiKey, topic, respond1) == SearchDocs(apiKey, topic, respond2)
  {
  }

  /** A failed status is reported before the body is read: a non-2xx reply
      fails with its status whatever its body holds. */
  lemma StatusBeforeBody(apiKey: Option<string>, topic: string, status: nat, body1: ReplyBody, body2: ReplyBody)
    requires Truthy(apiKey) && !IsOk(status)
    ensures SearchDocs(apiKey, topic, _ => Replied(SearchResponse(status, body1)))
         == SearchDocs(apiKey, topic, _ => Replied(SearchResponse(status, body2)))
         == Failure(FailurePrefix + DecimalString(status))
  {
  }

  /** Blocking matches substrings, not domains: a netflix.com link contains
      "x.com" and is dropped. */
  lemma SubstringBlocking()
    ensures IsBlocked("netflix.com")
    ensures KeepLinks(["netflix.com"]) == []
  {
    var url := "netflix.com";
    assert Lower(url)[6..11] == "x.com";
    assert OccursAt(Lower(url), Blocklist[2], 6);
    assert !Allowed(url);
  }
}
