# Code search for a GitHub command-line client, in Dafny

This project models the search pipeline of `repo`, a Go command-line client
for the GitHub API, and proves properties of the model. The command
`repo search <query> <owner>[/<repo>]` works as follows:

- It pages through the code-search endpoint. The paging loop requests page 1, 2, 3, … and stops after the first page whose `Link` header has no `rel="next"`.
- For an owner, it sums the text-match fragments of the hits per repository.
- For a repository, it collects the set of matched file paths, with leading `/` removed.
- It then fetches each file through the content endpoint. The body is checked for an error message first; only then is the base64 content decoded.
- It compiles the user's term as a regular expression and prints the 1-based number and text of every matching line.

The model also covers the parts of `cat` and `list` that reuse this
machinery, and the per-item summary that `ghSearchRes.String` builds.

The outside world becomes parameters:
- The search pages are a finite sequence of responses, the i-th answering the request for page i + 1.
- The content endpoint is a function from URL to response.
- The base64 decoder is a function `string -> Option<string>`.
- The regular-expression compiler is a function `string -> Option<string -> bool>`.

Go's `panic`, `os.Exit` and `log.Fatal` become `Failure` values.

Modules:
- `Wrappers`: Option, Result and Failure.
- `GoStrings`: `strings.Split`, `strings.Join`, `strings.Count`, substring search and `%d`.
- `QueryEscaping`: `url.QueryEscape` and `url.QueryUnescape`.
- `Structs`: structs.go.
- `Pagination`: the paging loop of `dosearch` and `list`.
- `Aggregate`: the owner-scope and repo-scope reductions.
- `LineMatch`: the line matcher.
- `Content`: `getfile`.
- `Search`: `searchOwner` and `searchRepo`.
- `Cli`: `search`, `cat` and `list`.

Behaviour of the code a reader might not expect (the model follows the code):
- A search target with more than one `/` is not rejected. `search` takes the first two pieces as owner and repository and ignores the rest.
- Owner-scope counts are sums of `len(text_matches)`. Every repository with an item is listed, including one whose items carry no fragments (count 0). Go prints the count under the label "files with matches".
- Nothing is sorted. The file loop of `searchRepo` visits the files in Go's unspecified map order. The model fixes an arbitrary enumeration of the file set and returns the files it visited in that order.
- The line split keeps the final empty piece after a trailing newline, exactly as `strings.Split` does.

## Model

| member | source | states |
|---|---|---|
| `Pagination.FetchAll` | main.go:179-216 | the loop's result equals `Paginate` of the responses, and the URLs it requests are those of pages 1..N in order, N being the first page that ends the loop |
| `Pagination.PaginateSpec` | main.go:182-213 | if the response that ends the loop is a failure, the whole fetch fails with it and no earlier page is returned; otherwise the result is exactly the concatenation, in request order, of the items of pages 1..N |
| `Pagination.Stop` | main.go:204-212 | the loop ends at the first response that is a failure or a page without `rel="next"`, and at no earlier one |
| `Pagination.PageUrls` | main.go:181-183 | the k-th request is for page k + 1: no gaps, no repeats |
| `Search.SearchPageUrlsDistinct` | main.go:181-183 | distinct page numbers give distinct search URLs |
| `GoStrings.ContainsAt` | main.go:205-206 | the `rel="next"` test is substring containment at some position of the Link header |
| `GoStrings.DecimalRoundTrip` | main.go:183 | the `%d` page number reads back as the number |
| `Aggregate.CountByRepo` | main.go:139-143 | the keys are exactly the repositories of the items, and each value is the sum of `len(text_matches)` over that repository's items |
| `Aggregate.MatchCountAppend` | main.go:140-142 | per-repository counts add up over a concatenation of item lists |
| `Aggregate.MatchCountAbsent` | main.go:141 | a repository with no item counts 0 (the value a missing map key reads as) |
| `Aggregate.CollectFiles` | main.go:158-161 | the file set is the set of `trimPath(item)` over the items; it is no larger than the item list, empty iff there are no items, and holds no path starting with `/` |
| `Aggregate.FileSetSnoc` | main.go:159-160 | one more item adds exactly its trimmed path to the set |
| `LineMatch.MatchLines` | main.go:170-175 | the hits printed for one file equal `LineHits` of its text |
| `LineMatch.ScanSound` | main.go:171-175 | every hit is a matching line, numbered from 1, carrying that line's own text |
| `LineMatch.ScanIncreasing` | main.go:171-175 | hits come in strictly increasing line order |
| `LineMatch.ScanComplete` | main.go:171-175 | no matching line is missed |
| `LineMatch.LineHitsSpec` | main.go:170-175 | with k the number of pieces `Split` gives: numbers are strictly increasing and in 1..k, and n is reported iff the pattern matches piece n - 1 |
| `GoStrings.Split` | main.go:170 | `strings.Split` gives one more piece than separators, and no piece contains the separator |
| `GoStrings.JoinSplit` | main.go:170 | joining the pieces with the separator gives the text back |
| `GoStrings.SplitJoin` | main.go:289-295 | splitting a join of separator-free pieces gives the pieces back |
| `Content.GetFile` | main.go:300-328 | a non-empty error message is a terminal remote error whatever the content; the result is text exactly when there is no message and the content decodes, and then it is the decoding; no response is a transport failure, a non-JSON body an undecodable one, and content that does not decode a base64 failure, so a `Remote` failure comes only from the body's message |
| `Content.ErrorFirst` | main.go:310-316 | with an error message present the result does not depend on the decoder: content is never decoded |
| `QueryEscaping.QueryEscape` | main.go:137 | the escaped term holds only unreserved characters, `%` and `+`, so it cannot close the quoted term or add a URL parameter |
| `QueryEscaping.QueryUnescape` | main.go:165 | unescaping byte text gives byte text no longer than the input |
| `QueryEscaping.UnescapeFails` | main.go:165 | unescaping fails exactly when some `%` lacks its two hex digits |
| `QueryEscaping.EscapeRoundTrip` | main.go:156-166 | unescaping the escaped term gives the original term, so the pattern compiled is the term the user typed |
| `Search.SearchOwner` | main.go:136-147 | requests pages 1..N of the owner search; a failed fetch fails the search; otherwise the counts are those of `CountByRepo` over all fetched items |
| `Search.SearchRepo` | main.go:155-177 | requests pages 1..N of the repo search; a failed fetch gives no output; an empty file set ends with no output, no compile and no file fetch; a rejected pattern is fatal before any output; otherwise each file is visited once, only files of the set are visited, all of them when it completes, otherwise stopping at the first failed fetch (every earlier visited file fetched and completed, the last one failed), and the output is `Resolve` of the visiting order with the compiled original term |
| `Search.MapOrder` | main.go:167 | the iteration order over the file map lists every file of the set exactly once and nothing else |
| `Search.ResolveFiles` | main.go:167-176 | for a fixed iteration order, the files visited are a prefix of it, all of it on completion, and otherwise ending with the first file whose fetch failed, every earlier one having completed; the output and status are `Resolve` of the files visited |
| `Search.VisitFiles` | main.go:167-176 | visits distinct files of the set, all of them on completion, and otherwise stops at the first file whose fetch failed, every earlier one having completed; its output and status are `Resolve` of the visiting order |
| `Search.GrepFiles` | main.go:165-176 | a pattern the compiler rejects is fatal before any output or fetch; otherwise the files are visited as in `VisitFiles`, up to and including the first failed fetch, matching with the compiled original term |
| `Search.ResolveFile` | main.go:168-175 | one file's output and status are its `FileEvents`: the header, then its matching lines or the fetch failure |
| `Search.ResolveSnoc` | main.go:167-176 | after a completed run, one more file appends exactly that file's header and hits (or its failure) |
| `Search.ResolveStopsAtFailure` | main.go:167-169 | once a file's fetch fails, nothing after it in the iteration produces output |
| `Search.ResolveCompletes` | main.go:167-176 | the run completes iff every visited file's fetch succeeds |
| `Search.FileEventsSpec` | main.go:168-175 | a file's header always comes first; a failed fetch adds nothing else and fails with getfile's failure; otherwise the run continues and the events after the header report exactly the matching lines of the text, as `ReportsMatches` defines it |
| `Search.HeaderAndHits` | main.go:170-175 | after the header, every event is a hit with a 1-based line number in range and that line's own text, which the pattern matches; numbers strictly increase; line j + 1 is reported iff the pattern matches piece j |
| `Search.FailureEndsRun` | main.go:167-169 | a failing file after a completed run is the first failure of the longer run: it is last, and every file before it completed |
| `Search.PrintedHitsSound` | main.go:173 | printed after the header, each hit is a matching line in range with its own text |
| `Search.PrintedHitsIncreasing` | main.go:171-173 | printed hits keep their increasing line order |
| `Search.PrintedHitsComplete` | main.go:171-173 | printed hits still cover exactly the matching lines |
| `Search.HitEventsHas` | main.go:173 | a hit is printed iff it is one of the matcher's hits |
| `Search.HitEvents` | main.go:173 | one printed line per hit, in order |
| `Cli.ParseSearchSpec` | main.go:120-134 | fewer than 2 arguments is a usage error; a target without `/` is an owner search on the whole target; a target with `/` is owner "/" repo followed by nothing or by ignored `/`-text, neither part containing `/` |
| `Cli.RunSearch` | main.go:120-134 | usage error iff fewer than 2 arguments (no request made); an owner target requests pages 1..N of the search for the parsed term and owner and reports the failure or the per-repository counts of all fetched items; a repo target requests pages 1..N for the parsed term, owner and repository and reports the four outcomes of `SearchRepo` for that owner, repository and compiled term, stopping at the first failed fetch |
| `Cli.ParseCatSpec` | main.go:284-295 | `cat` accepts exactly one argument with exactly two `/`, read as owner/repo/file with no `/` in any part |
| `Cli.ParseCatRoundTrip` | main.go:289-295 | every separator-free owner, repo and file written as owner/repo/file parses back to itself |
| `Cli.Cat` | main.go:284-298 | a usage error iff the arguments do not parse; for parsed arguments, text exactly when the content envelope for owner/repo/file has no message and its content decodes, the text being the decoding; a non-empty message is a remote error carrying it; no response, a non-JSON body and undecodable content are the transport, undecodable and base64 failures |
| `Cli.ListRepos` | main.go:229-257 | requests pages 1..N of the users/ or orgs/ list; fails iff the paging fails; otherwise the names of all listed repositories in page order |
| `Structs.TrimPath` | structs.go:30-32 | the result never starts with `/`, and the path is a run of `/` followed by the result |
| `Structs.TrimPathOfSlashes` | structs.go:31 | any number of leading `/` before a non-`/` rest is removed completely, not just one |
| `Structs.TrimPathIdentity` | structs.go:31 | a path not starting with `/` is unchanged |
| `Structs.TrimPathIdempotent` | structs.go:31 | trimming twice equals trimming once |
| `Structs.ResString` | structs.go:16-22 | the text is `Summary` of the items: one `name/trimPath(path): n matches\n` segment per item in item order; it is empty iff there are no items |
| `Structs.SummaryCons` | structs.go:18-20 | the first item's segment comes first, then the rest's summary |
| `Structs.SummaryAppend` | structs.go:18-20 | the summary of concatenated item lists is the concatenation of their summaries |

## Left out

- HTTP, headers, `ioutil.ReadAll` and JSON decoding are outside the model. Each page or file request is one input value: no response, an undecodable body, or the decoded fields.
- The regular-expression engine (RE2) and base64 decoding are not modelled. Both are function parameters.
- `regexp.MatchString("rel=\"next\"", link)` is modelled as substring containment. That is what this pattern without metacharacters matches, and the pattern compiles, so its error branch is dead.
- A server that announces a next page forever would keep the Go loop running. The paging members require that some response ends the loop.
- Go strings are byte strings. A `string` here holds one character per byte (all below 256), which `QueryEscape` requires of the term. UTF-8 encoding of wider characters is not modelled.
- Printing, its formatting and Go's map iteration order are not modelled. Output is returned as values: a map, a file set, events, and the order files were visited.
- `ListRepos` does not model the per-page interleaving of list. It pages first and then takes the names. A failure discards everything, so the result is the same.
- `usertype` is not modelled. Whether the owner is an organisation is a parameter of `ListRepos`.
- Also outside the model: `init` (token from the environment), `main`, `printUsage`, `info`, `langs`, `ghRepo.String` and `ghLangs.String` (floating-point percentages).
- Process termination is not modelled. `panic`, `os.Exit(1)` and `log.Fatal` are `Failure` results, and the output produced before them is kept.
