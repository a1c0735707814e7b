# hypergraph in Dafny

hypergraph turns a topic typed by the user into a graph of linked markdown
notes ("skills"). The web page sends the topic to `POST /api/generate`. That
endpoint does three things:

1. It searches the web for documentation pages about the topic (Serper).
2. It scrapes those pages to markdown (Hyperbrowser).
3. It hands the pages to a generator, which returns a graph of notes and one
   markdown file per note.

The interface then shows three panels:

- a file tree of the generated files;
- a note preview, whose `[[id]]` wikilinks are buttons;
- a topic form.

This project models the logic around those network calls and that rendering.
It covers:

- the data records;
- the endpoint's stage sequencing and status codes;
- the search-result filter and the scrape-result filter;
- the wikilink splitter, the two slug functions and the path-to-id mapping;
- the file-tree sort and its rows;
- the submit guard of the topic form.

Everything is pure functions over immutable datatypes. Strings are
`seq<char>`. Each external call is a function parameter that returns a value
or a failure:

- the search provider (a rejected `fetch`, or a reply whose body may fail
  to read);
- the scraping service;
- the generator;
- the parsing of the request body.

`GenerateRoute.Post` returns the response together with the list of stage
calls it made. That makes "which stage ran, with what, in what order"
something the contracts can talk about.

Modules, one per file:

| file | module | models |
|---|---|---|
| wrappers.dfy | Wrappers | `Option`, `Result` |
| strings.dfy | Strings | ECMAScript white space, ASCII lower-casing, `trim`, run replacement, substring search, decimal rendering, UTF-16 length |
| seqs.dfy | Seqs | `filter`, counting, subsequences |
| graph.dfy | Graph | `types/graph.ts` |
| serper.dfy | Serper | `lib/serper.ts` |
| hyperbrowser.dfy | Hyperbrowser | `lib/hyperbrowser.ts` |
| route.dfy | GenerateRoute | `app/api/generate/route.ts` |
| node_preview.dfy | NodePreview | `toSlug`, `processWikilinks`, the displayed file name |
| file_tree.dfy | FileTree | `toNodeId`, the topic slug, the sort, the file rows |
| topic_input.dfy | TopicInput | the submit handler and the disabled conditions |

## Model

| member | source | states |
|---|---|---|
| Graph.ParseNodeType | hypergraph/types/graph.ts:1 | a type name is accepted exactly when it is one of the four spellings, and it reads back as that spelling |
| Graph.NodeTypeIsClosed | hypergraph/types/graph.ts:1 | there are exactly four node types, each listed once, and every type's name parses back to that type |
| Graph.NodeColor | hypergraph/types/graph.ts:44-49 | every node type has a colour of the form `#rrggbb` |
| Graph.NodeColorsDistinct | hypergraph/types/graph.ts:44-49 | different node types have different colours |
| Graph.NodeSize | hypergraph/types/graph.ts:51-56 | every node type has a positive size |
| Graph.NodeSizesDecrease | hypergraph/types/graph.ts:51-56 | sizes strictly decrease from moc through concept and pattern to gotcha, so moc is drawn largest |
| Graph.FindNode | hypergraph/components/FileTreePanel.tsx:43 | `find` yields a node carrying the id, and yields nothing exactly when no node carries it |
| Graph.FindNodeFirst | hypergraph/components/FileTreePanel.tsx:110 | `find` yields the node at the first index carrying the id |
| Graph.FindOwnNode | hypergraph/components/FileTreePanel.tsx:110 | when ids are unique, looking up a node's own id finds that node |
| Serper.SearchRequestFor | hypergraph/lib/serper.ts:12-13 | the query is the topic followed by the fixed keywords, and the result-count hint is 20 |
| Serper.SearchRequestInjective | hypergraph/lib/serper.ts:12 | different topics send different queries |
| Serper.KeepLinks | hypergraph/lib/serper.ts:30-35 | at most eight links are kept, none of them blocked, taken in order from the reply |
| Serper.KeepLinksIsFirstEightAllowed | hypergraph/lib/serper.ts:30-35 | the result is exactly the first eight allowed links in provider order: its length is min(8, allowed count), and each allowed link among the first eight sits at its rank among the allowed links, duplicates kept |
| Serper.SearchDocs | hypergraph/lib/serper.ts:1-37 | a missing key fails with the key message; a rejected `fetch` fails with its error; a non-2xx reply fails with "Serper search failed: " and the status; a 2xx body that cannot be read (not JSON, `null`, `organic` not an array, a result without a string `link`) fails with the reading error; it succeeds exactly when none of these happens, and then the result is the first eight allowed links of the reply, a subsequence of it; no `organic` field gives none |
| Serper.StatusBeforeBody | hypergraph/lib/serper.ts:17-21 | a non-2xx status is reported before the body is read: the failure is the same whatever the body holds |
| Serper.MissingKeyIgnoresProvider | hypergraph/lib/serper.ts:2-3 | without a key the result does not depend on the provider, so no request is made |
| Serper.IsBlocked | hypergraph/lib/serper.ts:22-33 | a link is blocked when its lower-cased form contains one of "youtube.com", "twitter.com", "x.com", "reddit.com", ".pdf" |
| Serper.IsBlockedIgnoresCase | hypergraph/lib/serper.ts:33 | blocking ignores case: a link is blocked exactly when its lower-cased form is |
| Serper.IsOk | hypergraph/lib/serper.ts:17 | `res.ok`: the status is in 200-299 |
| Serper.SubstringBlocking | hypergraph/lib/serper.ts:28-33 | blocking matches substrings: "netflix.com" contains "x.com" and is dropped |
| Hyperbrowser.GetClient | hypergraph/lib/hyperbrowser.ts:5-12 | a cached client is returned unchanged; otherwise a client is built from the key, or the call fails with the missing-key message when the key is empty |
| Hyperbrowser.ClientBuiltOnce | hypergraph/lib/hyperbrowser.ts:5-12 | once built, the client is returned whatever the environment later holds |
| Hyperbrowser.Jobs | hypergraph/lib/hyperbrowser.ts:23-30 | exactly one scrape job per URL, in order, each asking for markdown with main content only |
| Hyperbrowser.IsUsable | hypergraph/lib/hyperbrowser.ts:36-38 | an entry is usable when it is fulfilled and its markdown has at least 100 UTF-16 code units |
| Hyperbrowser.Settle | hypergraph/lib/hyperbrowser.ts:23-31 | a thrown scrape is rejected; a returned one is fulfilled with its own URL; it is usable exactly when markdown came back with at least 100 code units (absent markdown counts as `""`) |
| Hyperbrowser.SettleAll | hypergraph/lib/hyperbrowser.ts:22-33 | one settled entry per URL, in URL order, each the settlement of that URL's own scrape |
| Hyperbrowser.UsableDocs | hypergraph/lib/hyperbrowser.ts:35-40 | one page per usable entry, so never more than the entries, each with at least 100 code units of markdown |
| Hyperbrowser.UsableDocsAppend | hypergraph/lib/hyperbrowser.ts:35-40 | the filter works entry by entry: it distributes over concatenation |
| Hyperbrowser.UsableDocsSingle | hypergraph/lib/hyperbrowser.ts:36-38 | a single entry contributes its page when usable and nothing otherwise |
| Hyperbrowser.ScrapeUrls | hypergraph/lib/hyperbrowser.ts:19-41 | only a missing client makes it fail, and individual scrape failures never do; the pages returned number the usable URLs, at most the URLs, and each has at least 100 code units of markdown |
| Hyperbrowser.ScrapeUrlsKeepsOrder | hypergraph/lib/hyperbrowser.ts:22-40 | each usable URL's page, paired with that URL's own markdown, sits at the index given by the number of usable URLs before it |
| Hyperbrowser.NoMarkdownNothingKept | hypergraph/lib/hyperbrowser.ts:31 | scrapes that return without markdown are dropped like failures |
| Hyperbrowser.NoneUsable | hypergraph/lib/hyperbrowser.ts:35-39 | with no usable entry, nothing is kept |
| GenerateRoute.ValidTopic | hypergraph/app/api/generate/route.ts:12 | a topic is valid when it is a string whose trim is non-empty; a missing, empty or non-string topic is not |
| GenerateRoute.Post | hypergraph/app/api/generate/route.ts:8-45 | statuses are 200/400/404/500/502; stages run in the order search, scrape, generate, each at most once; 400 "Topic is required" comes exactly for an invalid topic, with no stage run; search gets the trimmed topic; 404 comes exactly when search found nothing; scrape gets exactly the URLs; 502 comes exactly when it kept nothing; generate gets the trimmed topic and exactly the pages; 200 returns its graph and files unchanged; 500 comes exactly when the last step threw, carrying its message or "Internal server error" |
| GenerateRoute.InvalidTopicConsultsNoStage | hypergraph/app/api/generate/route.ts:12-17 | an invalid topic gives 400 whatever the stages would do |
| GenerateRoute.PaddingIsInvisible | hypergraph/app/api/generate/route.ts:19-35 | padding the topic with white space changes neither the response nor the calls |
| GenerateRoute.NoUrlsStopsBeforeScraping | hypergraph/app/api/generate/route.ts:20-25 | no URLs gives 404 whatever scraping and generation would do |
| GenerateRoute.NoDocsStopsBeforeGenerating | hypergraph/app/api/generate/route.ts:27-33 | no pages gives 502 whatever generation would do |
| GenerateRoute.FromResult | hypergraph/app/api/generate/route.ts:38-44 | a failed helper becomes a thrown `Error` carrying its message |
| GenerateRoute.SearchStageBounded | hypergraph/app/api/generate/route.ts:19 | when it returns, the search stage returns at most eight unblocked URLs |
| GenerateRoute.ScrapeStageBounded | hypergraph/app/api/generate/route.ts:27 | when it returns, the scrape stage returns at most one page per URL, each with at least 100 code units of markdown |
| GenerateRoute.ScrapedUrlsAreBounded | hypergraph/app/api/generate/route.ts:19-27 | with the real search, scraping is asked for one to eight unblocked URLs |
| GenerateRoute.GeneratedDocsAreUsable | hypergraph/app/api/generate/route.ts:27-35 | with the real scraper, the generator gets between one page and one page per scraped URL, each with at least 100 code units of markdown |
| GenerateRoute.GeneratedDocsAreBounded | hypergraph/app/api/generate/route.ts:19-35 | with the real search and scraper, the generator gets between one and eight pages |
| GenerateRoute.MissingSearchKeyFails | hypergraph/app/api/generate/route.ts:38-44 | without a search key a valid request gets 500 with "SERPER_API_KEY is not set" after only the search stage |
| GenerateRoute.SearchProviderFailureFails | hypergraph/app/api/generate/route.ts:38-44 | with a key, a rejected `fetch`, a non-2xx reply or an unreadable body gives 500 after only the search stage, carrying the fetch error, the status message or the reading error |
| NodePreview.ToSlug | hypergraph/components/NodePreview.tsx:21-26 | the slug is no longer than the label and holds only `[a-z0-9-]` |
| NodePreview.ToSlugFixesSlugs | hypergraph/components/NodePreview.tsx:21-26 | a string is its own slug exactly when it holds only `[a-z0-9-]` |
| NodePreview.ToSlugIdempotent | hypergraph/components/NodePreview.tsx:21-26 | slugging a slug changes nothing |
| NodePreview.ToSlugAppend | hypergraph/components/NodePreview.tsx:24-25 | the slug is computed piece by piece unless the cut splits a white-space run |
| NodePreview.WhitespaceRunIsOneHyphen | hypergraph/components/NodePreview.tsx:24 | a white-space run becomes exactly one hyphen |
| NodePreview.WhitespaceBetween | hypergraph/components/NodePreview.tsx:24 | a white-space run between two pieces becomes one hyphen between their slugs |
| NodePreview.HyphenBeforeRun | hypergraph/components/NodePreview.tsx:24-25 | a hyphen followed by white space becomes two hyphens |
| NodePreview.HyphensAreNotCollapsed | hypergraph/components/NodePreview.tsx:24-25 | existing hyphens are not merged with the run's hyphen: the shape of "a - b" gives "a---b" |
| NodePreview.ToSlugKeepsAlnums | hypergraph/components/NodePreview.tsx:23-25 | the letters and digits of the slug are exactly those of the lower-cased label, in order and with repeats; every non-hyphen of the slug comes from the label |
| NodePreview.ToSlugDropsOthers | hypergraph/components/NodePreview.tsx:25 | a character that is not white space and, lower-cased, is not a letter, digit or hyphen is dropped, leaving nothing |
| NodePreview.ToSlugDropsBetween | hypergraph/components/NodePreview.tsx:24-25 | such a character between two letters or digits leaves no hyphen: the shape of "a!b" gives "ab" |
| NodePreview.DisplayFileName | hypergraph/components/NodePreview.tsx:129 | the shown name is the label's slug followed by ".md" |
| NodePreview.DisplayNameIgnoresId | hypergraph/components/NodePreview.tsx:88 | the shown name depends on the label only, never the id, and the file tree reads the slug back as its stem |
| NodePreview.RenderAppend | hypergraph/components/NodePreview.tsx:91 | rendering parts distributes over concatenation |
| NodePreview.CloseFrom | hypergraph/components/NodePreview.tsx:91 | finds the first `]` at or after a position |
| NodePreview.LinkAt | hypergraph/components/NodePreview.tsx:91 | a length found is a whole match of `\[\[[^\]]+\]\]` at the front |
| NodePreview.LinkAtFinds | hypergraph/components/NodePreview.tsx:91 | the match at the front is unique, and it is what `LinkAt` finds |
| NodePreview.Scan | hypergraph/components/NodePreview.tsx:91 | the left-to-right scan loses nothing: its parts joined back give the pending text followed by the rest of the input |
| NodePreview.ProcessWikilinks | hypergraph/components/NodePreview.tsx:90-109 | the parts alternate text and link, with text at both ends; no text part hides a link start; the parts joined back give the input |
| NodePreview.ProcessWikilinksUnique | hypergraph/components/NodePreview.tsx:91 | a list of parts is the split of a text exactly when it is canonical (leftmost-match, alternating) and renders that text |
| NodePreview.NoLinkNoMatch | hypergraph/components/NodePreview.tsx:91 | when no link starts at the front, no prefix is a whole match |
| NodePreview.TextNeverMatches | hypergraph/components/NodePreview.tsx:93 | a text part of the split never matches the link pattern as a whole, so it stays text |
| NodePreview.Captured | hypergraph/components/NodePreview.tsx:93-95 | an id is captured exactly when the whole part is a link, and `[[` + id + `]]` is the part |
| NodePreview.Pieces | hypergraph/components/NodePreview.tsx:92-108 | one piece per part |
| NodePreview.PiecesFollowParts | hypergraph/components/NodePreview.tsx:92-107 | piece i has key i; it is a button exactly when part i is a link, and clicking it passes that link's id; any other piece shows its text unchanged |
| NodePreview.EmptyBracketsStayText | hypergraph/components/NodePreview.tsx:91 | "[[]]" stays a single text part: an id needs at least one character |
| NodePreview.NoClosePairNoMatch | hypergraph/components/NodePreview.tsx:91 | a string without a "]]" pair has no whole match at its front |
| NodePreview.NoClosePairStaysText | hypergraph/components/NodePreview.tsx:91 | a text without a "]]" pair (an unmatched "[[", or "[[a]") stays a single text part, and the split never fails |
| NodePreview.ExtraBracketJoinsId | hypergraph/components/NodePreview.tsx:91 | "[[[a]]" yields the link "[a" |
| NodePreview.AlternatingLinkCount | hypergraph/components/NodePreview.tsx:91 | an alternating list with k links has 2k+1 parts |
| NodePreview.WikilinkPartCount | hypergraph/components/NodePreview.tsx:91-93 | a text with k links is split into 2k+1 parts |
| FileTree.LastSlash | hypergraph/components/FileTreePanel.tsx:22 | gives the index of the last `/`, or -1 when there is none |
| FileTree.LastSegment | hypergraph/components/FileTreePanel.tsx:22 | gives the suffix after the last `/` (the whole path when there is none), with no `/` in it |
| FileTree.StripMd | hypergraph/components/FileTreePanel.tsx:23 | the stem is the name minus exactly one trailing ".md", when present |
| FileTree.StripMdRestores | hypergraph/components/FileTreePanel.tsx:23 | putting ".md" back gives the name again |
| FileTree.ToNodeId | hypergraph/components/FileTreePanel.tsx:20-24 | the id holds no `/` and is no longer than the path |
| FileTree.LastSegmentAfterSlash | hypergraph/components/FileTreePanel.tsx:22 | the last segment of `prefix/name` is `name` |
| FileTree.ToNodeIdInverse | hypergraph/components/FileTreePanel.tsx:20-24 | `toNodeId(folder + "/" + id + ".md") == id` for every id without `/` |
| FileTree.OnlyOneMdStripped | hypergraph/components/FileTreePanel.tsx:23 | only one ".md" is removed: "a.md.md" gives "a.md" |
| FileTree.NoSuffixKept | hypergraph/components/FileTreePanel.tsx:22-23 | a last segment without ".md" is the id unchanged |
| FileTree.NoSlashIsOwnSegment | hypergraph/components/FileTreePanel.tsx:22 | a path without `/` is its own last segment |
| FileTree.TrimHyphens | hypergraph/components/FileTreePanel.tsx:37 | the result is a piece of the input left after removing at most one hyphen from each end: the leading one exactly when the input starts with a hyphen, and the trailing one whenever what remains ends in a hyphen |
| FileTree.TrimHyphensFilter | hypergraph/components/FileTreePanel.tsx:37 | end trimming loses no lower-case letter or digit |
| FileTree.TopicSlug | hypergraph/components/FileTreePanel.tsx:34-37 | the folder label is a topic slug: only `[a-z0-9-]`, no two hyphens in a row, and no hyphen at either end |
| FileTree.TopicSlugKeepsAlnums | hypergraph/components/FileTreePanel.tsx:34-37 | the letters and digits of the label are exactly those of the lower-cased topic, in order |
| FileTree.WordRuns | hypergraph/components/FileTreePanel.tsx:35-36 | a word of ASCII letters and digits passes the run replacement unchanged once lower-cased |
| FileTree.GapRuns | hypergraph/components/FileTreePanel.tsx:35-36 | a non-empty gap with no ASCII letter or digit becomes one hyphen |
| FileTree.TrimHyphensAround | hypergraph/components/FileTreePanel.tsx:37 | the trimming removes exactly the given end hyphens around a piece that has none at its ends |
| FileTree.TopicSlugJoin | hypergraph/components/FileTreePanel.tsx:34-37 | two words separated by a gap without letters or digits give the lower-cased words joined by one hyphen |
| FileTree.TopicSlugPadding | hypergraph/components/FileTreePanel.tsx:34-37 | gaps without letters or digits before and after a word leave only the lower-cased word |
| FileTree.SliceKeepsSlugShape | hypergraph/components/FileTreePanel.tsx:36-37 | trimming the ends of a string of single hyphens and lower-case alphanumerics gives a slug |
| FileTree.TopicSlugIdempotent | hypergraph/components/FileTreePanel.tsx:34-37 | the folder label is a slug, and slugging it again changes nothing |
| FileTree.TopicSlugEmpty | hypergraph/components/FileTreePanel.tsx:34-37 | the folder label is empty exactly when the topic has no ASCII letter or digit |
| FileTree.TrimHyphensKeeps | hypergraph/components/FileTreePanel.tsx:37 | every character other than a hyphen survives the end trimming |
| FileTree.LexLeTotal | hypergraph/components/FileTreePanel.tsx:47 | the string order that stands in for `localeCompare` is total |
| FileTree.LexLeTransitive | hypergraph/components/FileTreePanel.tsx:47 | that order is transitive |
| FileTree.LexLeAntisymmetric | hypergraph/components/FileTreePanel.tsx:47 | that order is antisymmetric |
| FileTree.LexLeReflexive | hypergraph/components/FileTreePanel.tsx:47 | that order is reflexive |
| FileTree.LocaleCompare | hypergraph/components/FileTreePanel.tsx:47 | the comparison answers -1, 0 or 1, and 0 exactly for equal strings |
| FileTree.LocaleCompareAntisymmetric | hypergraph/components/FileTreePanel.tsx:47 | swapping the operands negates the comparison, and a non-positive answer means ordered |
| FileTree.IsMocFile | hypergraph/components/FileTreePanel.tsx:41-45 | a file counts as a moc file only when some graph node has the file's id and the moc type |
| FileTree.Compare | hypergraph/components/FileTreePanel.tsx:40-48 | the comparator answers -1, 0 or 1, and 0 exactly when neither file is a moc file and their ids are equal |
| FileTree.CompareAntisymmetric | hypergraph/components/FileTreePanel.tsx:40-48 | the comparator is antisymmetric unless both files are moc files, when it answers -1 both ways |
| FileTree.InsertBy | hypergraph/components/FileTreePanel.tsx:40 | insertion adds exactly the one element |
| FileTree.InsertBySorted | hypergraph/components/FileTreePanel.tsx:40 | insertion into a sorted list keeps it sorted |
| FileTree.SortBy | hypergraph/components/FileTreePanel.tsx:40-48 | sorting permutes the list into key order |
| FileTree.SortByPutsMocFirst | hypergraph/components/FileTreePanel.tsx:40-48 | with one moc key, its element comes first and the rest follow by ascending id |
| FileTree.SortFiles | hypergraph/components/FileTreePanel.tsx:40 | the sorted list is a permutation of the files, and the files themselves are untouched |
| FileTree.SortAgreesWithCompare | hypergraph/components/FileTreePanel.tsx:40-48 | no file is placed after a file that the comparator ranks strictly after it |
| FileTree.SortPutsMocFirst | hypergraph/components/FileTreePanel.tsx:45-47 | with exactly one moc file, it comes first and the rest follow by ascending node id |
| FileTree.SortWithoutMocIsById | hypergraph/components/FileTreePanel.tsx:47 | with no moc file, the files follow by ascending node id |
| FileTree.RowFor | hypergraph/components/FileTreePanel.tsx:108-127 | the row is keyed by the path and passes its stem on click; it shows the last segment; it is active exactly when its stem is selected; a stem naming no node gets the fallback dot and the file name as tooltip; otherwise the node's type dot and description |
| FileTree.RowsFor | hypergraph/components/FileTreePanel.tsx:108 | one row per file, in order |
| FileTree.PanelFor | hypergraph/components/FileTreePanel.tsx:34-108 | the folder label is the topic slug; the badge counts every file; no rows while the folder is closed, one per file while it is open |
| FileTree.SameElements | hypergraph/components/FileTreePanel.tsx:40 | each element of a permutation occurs in the other list |
| FileTree.EveryFileHasRow | hypergraph/components/FileTreePanel.tsx:108-117 | while the folder is open every file gets a row, keyed by its path and passing its stem on click |
| FileTree.EveryRowIsAFile | hypergraph/components/FileTreePanel.tsx:108-117 | every row belongs to some file |
| FileTree.ActiveRowsMatchSelection | hypergraph/components/FileTreePanel.tsx:111 | the active rows are exactly those whose stem is the selected id, and none is active with nothing selected |
| FileTree.NamedFilesHaveTypeDots | hypergraph/components/FileTreePanel.tsx:118-127 | when every stem names a node, no row falls back to the default dot or tooltip |
| TopicInput.InitialTopic | hypergraph/components/TopicInput.tsx:16-18 | the field starts at `initialValue`, or empty |
| TopicInput.InitialForm | hypergraph/components/TopicInput.tsx:18 | the first form holds the initial topic and the loading flag |
| TopicInput.Type | hypergraph/components/TopicInput.tsx:119 | typing replaces the text and keeps the loading flag |
| TopicInput.Submission | hypergraph/components/TopicInput.tsx:27-32 | it submits exactly when nothing is loading and the field holds a non-white-space character; the submitted text is a non-empty slice of the field, without white space at either end, with only white space outside it |
| TopicInput.ControlsFor | hypergraph/components/TopicInput.tsx:121-126 | the input is disabled exactly while loading; the button is disabled exactly when the handler would not submit; the caption is "Generating" while loading, otherwise "Generate" |
| TopicInput.EmptyFormCannotSubmit | hypergraph/components/TopicInput.tsx:16-18 | without an initial value the button starts disabled and nothing can be submitted |
| TopicInput.PaddingIsNotSubmitted | hypergraph/components/TopicInput.tsx:29-30 | white space around the topic changes nothing that is submitted |
| TopicInput.SubmissionAcceptedByRoute | hypergraph/components/TopicInput.tsx:30 | a submitted topic never gets 400 from the route, and search receives exactly that text |
| Strings.IsWhitespace | hypergraph/components/NodePreview.tsx:24 | the ECMAScript white-space and line-terminator characters that `\s` and `trim` use |
| Strings.LowerChar | hypergraph/components/NodePreview.tsx:23 | `toLowerCase` on one character: an upper-case ASCII letter moves down by 32, anything else is kept; the result is never upper case, and it is a lower-case letter or digit exactly when the input is an ASCII letter or digit |
| Strings.Trim | hypergraph/app/api/generate/route.ts:12 | `trim` yields the slice between the first and last non-white-space characters, with only white space outside it |
| Strings.TrimIdempotent | hypergraph/app/api/generate/route.ts:19 | trimming twice equals trimming once |
| Strings.TrimPadding | hypergraph/components/TopicInput.tsx:29-30 | white-space padding does not change what `trim` yields |
| Strings.Lower | hypergraph/lib/serper.ts:33 | lower-casing keeps the length and maps each character on its own |
| Strings.ReplaceRuns | hypergraph/components/FileTreePanel.tsx:36 | every run of matching characters becomes one hyphen, and the result is no longer than the input |
| Strings.ReplaceRunsAppend | hypergraph/components/FileTreePanel.tsx:36 | the replacement works piece by piece unless the cut splits a run |
| Strings.ReplaceRunsIdentity | hypergraph/components/FileTreePanel.tsx:36 | a string whose only matching characters are lone hyphens is unchanged |
| Strings.ReplaceRunsKeeps | hypergraph/components/FileTreePanel.tsx:36 | non-matching characters survive, and nothing but hyphens is added |
| Strings.ReplaceRunsFilter | hypergraph/components/FileTreePanel.tsx:36 | the characters outside the class other than hyphens come through in the same order |
| Strings.Contains | hypergraph/lib/serper.ts:33 | `includes` holds exactly when the pattern occurs at some index |
| Strings.DecimalString | hypergraph/lib/serper.ts:18 | the status is written as decimal digits denoting its value, with no leading zero |
| Strings.DecimalStringInjective | hypergraph/lib/serper.ts:18 | different statuses give different messages |
| Strings.Utf16Length | hypergraph/lib/hyperbrowser.ts:38 | `length` counts UTF-16 code units: between one and two per character, and one each for the Basic Multilingual Plane |
| Strings.Utf16LengthAppend | hypergraph/lib/hyperbrowser.ts:38 | the UTF-16 length of a concatenation is the sum of the lengths |
| Strings.Utf16LengthExact | hypergraph/lib/hyperbrowser.ts:38 | the UTF-16 length is the number of characters plus the number of characters above U+FFFF, which take a surrogate pair |
| Seqs.Filter | hypergraph/lib/hyperbrowser.ts:35-39 | `filter` keeps exactly the elements that pass, in order |
| Seqs.FilterPosition | hypergraph/lib/hyperbrowser.ts:35-39 | a kept element sits at the index given by the number kept before it |
| Seqs.FilterAppend | hypergraph/lib/serper.ts:30-32 | `filter` distributes over concatenation |
| Seqs.FilterNested | hypergraph/components/NodePreview.tsx:25 | filtering with a looser predicate and then a stricter one is filtering with the stricter one |
| Seqs.FilterKeepsAll | hypergraph/lib/serper.ts:30-32 | `filter` leaves a list unchanged exactly when every element passes |

## Left out

- Network I/O is not modelled. This covers the search provider's HTTP exchange, the Hyperbrowser SDK and `req.json()`. Each is a function parameter: `respond` answers `FetchFailed` or a reply whose body is `Links` or `Unreadable`; the scrape service answers per URL; the request outcome is an `Outcome`. The error message of a failure is a parameter, not derived from the JavaScript engine.
- The concurrency of `Promise.allSettled` is not modelled. Only its result is kept: one settled entry per URL, in URL order. The scrape service is indexed by position, so two equal URLs may settle differently.
- The generator (`lib/generator`) is not part of this model. It is the `generate` parameter of `GenerateRoute.Post`. Unique node ids (`Graph.UniqueIds`) are a predicate, not a guarantee.
- Environment reads are parameters: the two API keys and the client cache. `console.error` and `maxDuration = 60` have no counterpart.
- Rendering is not modelled. This covers ReactMarkdown and remark-gfm, JSX, styles, SVGs, and the class names of `TYPE_STYLES` and `TYPE_DOT`; a row's dot is the node type or a fallback. `processWikilinks` runs only on the string children of a paragraph (NodePreview.tsx:179-191); that selection is not modelled.
- `CopyButton` is left out because it uses the clipboard and a timer.
- The focus effect and the two layouts of the topic form are left out, since they share the handler and the disabled conditions.
- The folder's open/closed state is a parameter of `FileTree.PanelFor`; the toggle button is not modelled.
- The `ForceGraph*` types in graph.ts are unused by the modelled code.
- `FileTree.LocaleCompare`: `localeCompare` is replaced by code-point lexicographic order, because the locale's collation is not available.
- `FileTree.SortAgreesWithCompare`: with two or more moc files the comparator is inconsistent (-1 both ways), so the engine's order is unspecified. The model sorts all moc files first by insertion; the contracts only pin down the order with at most one moc file. Sort stability is not modelled either.
- `Strings.Lower`: `toLowerCase` is modelled for ASCII letters only; other characters are left unchanged. ECMAScript white space (`\s` and `trim`) is modelled in full.
- `Strings.LowerChar`: non-ASCII characters that JavaScript lower-cases into ASCII are kept as they are, so the slugs differ from the program's for them. For example, U+212A KELVIN SIGN becomes 'k' in JavaScript and survives `toSlug` and `topicSlug`; the model drops it from `toSlug` and hyphenates it in `topicSlug`. Strings are sequences of Unicode scalar values, so a lone UTF-16 surrogate, which a label or a scraped page can hold in JavaScript, cannot be represented.
- `Serper.SearchDocs`: which JSON bodies fail to read is not decided by the model. The provider's reply says it, as `Unreadable` with the error message.
- `Graph.NodeSize`: sizes are `real`, not binary floating point. All four values are exact in both.
- `NodePreview.HyphensAreNotCollapsed`: the "a - b" example is stated over arbitrary characters of that shape rather than the literal.

