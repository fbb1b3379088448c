/** The search pipeline of main.go: searchOwner and searchRepo, built from
    the paging loop, the two aggregations, getfile and the line matcher. */
module Search {
  import opened Wrappers
  import opened GoStrings
  import opened QueryEscaping
  import opened Structs
  import opened Pagination
  import opened Aggregate
  import opened Content
  import opened LineMatch

  /** The collaborators outside the program: the content endpoint (by URL),
      the base64 decoder and the regular-expression compiler. */
  datatype Env = Env(
    server: string -> ContentResponse,
    decode: string -> Option<string>,
    compile: string -> Option<string -> bool>)

  /** What searchRepo prints: a header line per file, then one line per hit. */
  datatype Event = FileHeader(path: string) | LineHit(hit: Hit)

  /** How a command ends: normally, or on the first fatal failure. */
  datatype Status = Completed | Failed(failure: Failure)

  /** The search URL for an escaped term and a scope qualifier. */
  function SearchUrl(escaped: string, qualifier: string): string
  {
    "https://api.github.com/search/code?q=\"" + escaped + "\"+" + qualifier
  }

  /** The URL of page `i` of a search. */
  function SearchPageUrl(u: string, i: nat): string
  {
    u + "&page=" + Decimal(i)
  }

  function OwnerSearchUrl(q: string, owner: string): string
    requires IsBytes(q)
  {
    SearchUrl(QueryEscape(q), "user:" + owner)
  }

  function RepoSearchUrl(q: string, owner: string, repo: string): string
    requires IsBytes(q)
  {
    SearchUrl(QueryEscape(q), "repo:" + owner + "/" + repo)
  }

  /** Different page numbers give different URLs, so no page is asked for twice. */
  lemma SearchPageUrlsDistinct(u: string, i: nat, j: nat)
    requires i != j
    ensures SearchPageUrl(u, i) != SearchPageUrl(u, j)
  {
    var p := u + "&page=";
    if SearchPageUrl(u, i) == SearchPageUrl(u, j) {
      assert Decimal(i) == SearchPageUrl(u, i)[|p|..];
      assert Decimal(j) == SearchPageUrl(u, j)[|p|..];
      DecimalRoundTrip(i);
      DecimalRoundTrip(j);
    }
  }

  /** searchOwner: escape the term, page through the results for the
      owner, and sum the text matches per repository. A failing page fails
      the whole search; otherwise the map has exactly the repositories of the
      fetched items as keys, each with its total. */
  method SearchOwner(q: string, owner: string, pages: seq<PageResponse<SearchItem>>)
    returns (hits: Result<map<string, int>, Failure>, requested: seq<string>)
    requires IsBytes(q)
    requires EndsFrom(pages, 0)
    ensures |requested| == Stop(pages, 0) + 1
    ensures forall k :: 0 <= k < |requested| ==> requested[k] == SearchPageUrl(OwnerSearchUrl(q, owner), k + 1)
    ensures Paginate(pages, 0).Err? ==> hits == Err(Paginate(pages, 0).error)
    ensures Paginate(pages, 0).Ok? ==>
              && hits.Ok?
              && hits.value.Keys == RepoNames(Paginate(pages, 0).value)
              && forall name :: name in hits.value ==> hits.value[name] == MatchCount(Paginate(pages, 0).value, name)
  {
    var u := SearchUrl(QueryEscape(q), "user:" + owner);
    var res;
    res, requested := FetchAll(pages, (i: nat) => SearchPageUrl(u, i));
    if res.Err? {
      hits := Err(res.error);
      return;
    }
    var counts := CountByRepo(res.value);
    hits := Ok(counts);
  }

  function HitEvents(hits: seq<Hit>): (r: seq<Event>)
    ensures |r| == |hits| && forall k :: 0 <= k < |r| ==> r[k] == LineHit(hits[k])
  {
    if hits == [] then [] else [LineHit(hits[0])] + HitEvents(hits[1..])
  }

  /** The per-file events of searchRepo for `file`: its header, then, once
      its text is fetched, one event per matching line; or the failure. */
  function FileEvents(file: string, owner: string, repo: string, env: Env, matches: string -> bool)
    : (seq<Event>, Status)
  {
    match GetFile(env.server(ContentUrl(owner, repo, file)), env.decode)
    case Err(e) => ([FileHeader(file)], Failed(e))
    case Ok(text) => ([FileHeader(file)] + HitEvents(LineHits(matches, text)), Completed)
  }

  /** The events of resolving `files` in order: each file's events in turn,
      stopping right after the first file whose fetch fails. */
  function Resolve(files: seq<string>, owner: string, repo: string, env: Env, matches: string -> bool)
    : (seq<Event>, Status)
  {
    if files == [] then ([], Completed)
    else
      var first := FileEvents(files[0], owner, repo, env, matches);
      if first.1.Failed? then first
      else
        var rest := Resolve(files[1..], owner, repo, env, matches);
        (first.0 + rest.0, rest.1)
  }

  /** A hit is printed exactly when it is one of the hits. */
  lemma HitEventsHas(hits: seq<Hit>, h: Hit)
    ensures LineHit(h) in HitEvents(hits) <==> h in hits
  {
    var r := HitEvents(hits);
    if h in hits {
      var k :| 0 <= k < |hits| && hits[k] == h;
      assert r[k] == LineHit(h);
    }
  }

  /** `events`, after the first, report the lines of a text that the
      pattern matches: each is a hit with its 1-based number and that
      line's own text, the numbers strictly increase, and every matching
      line is among them. */
  ghost predicate ReportsMatches(events: seq<Event>, lines: seq<string>, matches: string -> bool)
  {
    && (forall k :: 1 <= k < |events| ==>
          && events[k].LineHit?
          && 1 <= events[k].hit.line <= |lines|
          && events[k].hit.text == lines[events[k].hit.line - 1]
          && matches(events[k].hit.text))
    && (forall k, l :: 1 <= k < l < |events| ==> events[k].hit.line < events[l].hit.line)
    && (forall j :: 0 <= j < |lines| ==> (matches(lines[j]) <==> LineHit(Hit(j + 1, lines[j])) in events))
  }

  /** Printed after a header, hits that are matching lines with their own
      text stay so. */
  lemma PrintedHitsSound(f: string, hits: seq<Hit>, lines: seq<string>, matches: string -> bool)
    requires forall h :: h in hits ==> 1 <= h.line <= |lines| && h.text == lines[h.line - 1] && matches(h.text)
    ensures var events := [FileHeader(f)] + HitEvents(hits);
            forall k :: 1 <= k < |events| ==>
              && events[k].LineHit?
              && 1 <= events[k].hit.line <= |lines|
              && events[k].hit.text == lines[events[k].hit.line - 1]
              && matches(events[k].hit.text)
  {
    var events := [FileHeader(f)] + HitEvents(hits);
    forall k | 1 <= k < |events|
      ensures events[k] == LineHit(hits[k - 1]) && hits[k - 1] in hits
    {
    }
  }

  /** Printed after a header, hits in increasing line order stay in it. */
  lemma PrintedHitsIncreasing(f: string, hits: seq<Hit>)
    requires forall k, l :: 0 <= k < l < |hits| ==> hits[k].line < hits[l].line
    ensures var events := [FileHeader(f)] + HitEvents(hits);
            forall k, l :: 1 <= k < l < |events| ==> events[k].hit.line < events[l].hit.line
  {
    var events := [FileHeader(f)] + HitEvents(hits);
    forall k | 1 <= k < |events|
      ensures events[k] == LineHit(hits[k - 1])
    {
    }
  }

  /** Printed after a header, hits covering every matching line still do. */
  lemma PrintedHitsComplete(f: string, hits: seq<Hit>, lines: seq<string>, matches: string -> bool)
    requires forall j :: 0 <= j < |lines| ==> (matches(lines[j]) <==> Hit(j + 1, lines[j]) in hits)
    ensures var events := [FileHeader(f)] + HitEvents(hits);
            forall j :: 0 <= j < |lines| ==> (matches(lines[j]) <==> LineHit(Hit(j + 1, lines[j])) in events)
  {
    var events := [FileHeader(f)] + HitEvents(hits);
    forall j | 0 <= j < |lines|
      ensures LineHit(Hit(j + 1, lines[j])) in events <==> Hit(j + 1, lines[j]) in hits
    {
      HitEventsHas(hits, Hit(j + 1, lines[j]));
    }
  }

  /** A file's header followed by the hits of its text reports exactly the
      matching lines of the text. */
  lemma HeaderAndHits(f: string, matches: string -> bool, text: string)
    ensures ReportsMatches([FileHeader(f)] + HitEvents(LineHits(matches, text)), Split(text, '\n'), matches)
  {
    var lines := Split(text, '\n');
    LineHitsSpec(matches, text);
    ScanSound(matches, lines, 0);
    PrintedHitsSound(f, LineHits(matches, text), lines, matches);
    PrintedHitsIncreasing(f, LineHits(matches, text));
    PrintedHitsComplete(f, LineHits(matches, text), lines, matches);
  }

  /** What one file contributes: its header first; if the fetch fails,
      nothing else and the failure; otherwise completion, with the events
      after the header reporting exactly the matching lines of the text. */
  lemma FileEventsSpec(f: string, owner: string, repo: string, env: Env, matches: string -> bool)
    ensures var events := FileEvents(f, owner, repo, env, matches).0;
            |events| >= 1 && events[0] == FileHeader(f)
    ensures var text := GetFile(env.server(ContentUrl(owner, repo, f)), env.decode);
            text.Err? ==> FileEvents(f, owner, repo, env, matches) == ([FileHeader(f)], Failed(text.error))
    ensures var text := GetFile(env.server(ContentUrl(owner, repo, f)), env.decode);
            text.Ok? ==>
              && FileEvents(f, owner, repo, env, matches).1 == Completed
              && ReportsMatches(FileEvents(f, owner, repo, env, matches).0, Split(text.value, '\n'), matches)
  {
    var text := GetFile(env.server(ContentUrl(owner, repo, f)), env.decode);
    if text.Ok? {
      HeaderAndHits(f, matches, text.value);
    }
  }

  /** Resolving one more file after a run that completed appends that file's events. */
  lemma {:induction false} ResolveSnoc(files: seq<string>, f: string, owner: string, repo: string, env: Env, matches: string -> bool)
    requires Resolve(files, owner, repo, env, matches).1 == Completed
    ensures var before, one := Resolve(files, owner, repo, env, matches), FileEvents(f, owner, repo, env, matches);
            Resolve(files + [f], owner, repo, env, matches) == (before.0 + one.0, one.1)
  {
    if files == [] {
      assert [f][1..] == [];
      var one := FileEvents(f, owner, repo, env, matches);
      assert one.0 + [] == one.0;
      assert [] + one.0 == one.0;
      assert [] + [f] == [f];
    } else {
      assert (files + [f])[1..] == files[1..] + [f];
      assert (files + [f])[0] == files[0];
      ResolveSnoc(files[1..], f, owner, repo, env, matches);
      var first := FileEvents(files[0], owner, repo, env, matches);
      var rest := Resolve(files[1..], owner, repo, env, matches);
      var one := FileEvents(f, owner, repo, env, matches);
      assert first.0 + (rest.0 + one.0) == (first.0 + rest.0) + one.0;
    }
  }

  /** A file whose fetch fails ends the command: nothing that comes after it
      in the iteration contributes any output. */
  lemma {:induction false} ResolveStopsAtFailure(
    pre: seq<string>, f: string, post: seq<string>, owner: string, repo: string, env: Env, matches: string -> bool)
    requires FileEvents(f, owner, repo, env, matches).1.Failed?
    ensures Resolve(pre + [f] + post, owner, repo, env, matches) == Resolve(pre + [f], owner, repo, env, matches)
  {
    if pre == [] {
      assert ([] + [f] + post)[0] == f;
      assert ([] + [f])[0] == f;
    } else {
      assert (pre + [f] + post)[1..] == pre[1..] + [f] + post;
      assert (pre + [f])[1..] == pre[1..] + [f];
      ResolveStopsAtFailure(pre[1..], f, post, owner, repo, env, matches);
    }
  }

  /** The run completes exactly when every file's fetch succeeds: there is
      no best-effort listing past a failure. */
  lemma {:induction false} ResolveCompletes(files: seq<string>, owner: string, repo: string, env: Env, matches: string -> bool)
    ensures Resolve(files, owner, repo, env, matches).1 == Completed <==>
            forall k :: 0 <= k < |files| ==> FileEvents(files[k], owner, repo, env, matches).1 == Completed
  {
    if files != [] {
      ResolveCompletes(files[1..], owner, repo, env, matches);
      assert forall k :: 1 <= k < |files| ==> files[k] == files[1..][k - 1];
    }
  }

  /** The files of `visited` were all fetched, and the last is the first
      whose fetch failed: every earlier one completed. */
  ghost predicate FetchedUntilFailure(visited: seq<string>, owner: string, repo: string, env: Env, matches: string -> bool)
  {
    && |visited| > 0
    && FileEvents(visited[|visited| - 1], owner, repo, env, matches).1.Failed?
    && forall k :: 0 <= k < |visited| - 1 ==> FileEvents(visited[k], owner, repo, env, matches).1 == Completed
  }

  /** A failing file after a completed run is the first failure of the
      extended run. */
  lemma FailureEndsRun(done: seq<string>, f: string, owner: string, repo: string, env: Env, matches: string -> bool)
    requires Resolve(done, owner, repo, env, matches).1 == Completed
    requires FileEvents(f, owner, repo, env, matches).1.Failed?
    ensures FetchedUntilFailure(done + [f], owner, repo, env, matches)
  {
    ResolveCompletes(done, owner, repo, env, matches);
    var visited := done + [f];
    assert visited[|visited| - 1] == f;
    assert forall k :: 0 <= k < |done| ==> visited[k] == done[k];
  }

  /** A prefix of a sequence of distinct files is one too, and holds only
      files of the sequence. */
  lemma PrefixOfDistinct(order: seq<string>, visited: seq<string>)
    requires visited <= order
    requires forall k, l :: 0 <= k < l < |order| ==> order[k] != order[l]
    ensures forall k, l :: 0 <= k < l < |visited| ==> visited[k] != visited[l]
    ensures forall k :: 0 <= k < |visited| ==> visited[k] in order
  {
    assert forall k :: 0 <= k < |visited| ==> visited[k] == order[k];
  }

  /** Go's `for f := range hits` over the file map: fix some iteration
      order, then resolve the files in it. Each file is visited at most
      once, and every one of them when no fetch fails. */
  method VisitFiles(files: set<string>, owner: string, repo: string, env: Env, matches: string -> bool)
    returns (out: seq<Event>, status: Status, visited: seq<string>)
    ensures forall k, l :: 0 <= k < l < |visited| ==> visited[k] != visited[l]
    ensures forall k :: 0 <= k < |visited| ==> visited[k] in files
    ensures status == Completed ==> forall f :: f in files ==> f in visited
    ensures status.Failed? ==> FetchedUntilFailure(visited, owner, repo, env, matches)
    ensures (out, status) == Resolve(visited, owner, repo, env, matches)
  {
    var order := MapOrder(files);
    out, status, visited := ResolveFiles(order, owner, repo, env, matches);
    PrefixOfDistinct(order, visited);
  }

  /** searchRepo. It pages through the results for owner/repo, collects the
      trimmed file paths, and returns at once if there are none: no pattern
      is compiled and no file is fetched. Otherwise it compiles the term the
      user typed (the unescaped form of the escaped URL term) and resolves
      the files one at a time, in the unspecified order of Go's map
      iteration, which is returned as `visited`. */
  method SearchRepo(q: string, owner: string, repo: string, pages: seq<PageResponse<SearchItem>>, env: Env)
    returns (out: seq<Event>, status: Status, requested: seq<string>, visited: seq<string>)
    requires IsBytes(q)
    requires EndsFrom(pages, 0)
    ensures |requested| == Stop(pages, 0) + 1
    ensures forall k :: 0 <= k < |requested| ==> requested[k] == SearchPageUrl(RepoSearchUrl(q, owner, repo), k + 1)
    ensures Paginate(pages, 0).Err? ==> out == [] && visited == [] && status == Failed(Paginate(pages, 0).error)
    ensures Paginate(pages, 0).Ok? && FileSet(Paginate(pages, 0).value) == {} ==>
              out == [] && visited == [] && status == Completed
    ensures Paginate(pages, 0).Ok? && FileSet(Paginate(pages, 0).value) != {} && env.compile(q).None? ==>
              out == [] && visited == [] && status == Failed(BadPattern)
    ensures Paginate(pages, 0).Ok? && env.compile(q).Some? ==>
              var files := FileSet(Paginate(pages, 0).value);
              && (forall k, l :: 0 <= k < l < |visited| ==> visited[k] != visited[l])
              && (forall k :: 0 <= k < |visited| ==> visited[k] in files)
              && (status == Completed ==> forall f :: f in files ==> f in visited)
              && (status.Failed? ==> FetchedUntilFailure(visited, owner, repo, env, env.compile(q).value))
              && (out, status) == Resolve(visited, owner, repo, env, env.compile(q).value)
  {
    var escaped := QueryEscape(q);
    var u := SearchUrl(escaped, "repo:" + owner + "/" + repo);
    var res;
    res, requested := FetchAll(pages, (i: nat) => SearchPageUrl(u, i));
    out, visited := [], [];
    if res.Err? {
      status := Failed(res.error);
      return;
    }
    var files := CollectFiles(res.value);
    if |files| == 0 {
      status := Completed;
      return;
    }
    out, status, visited := GrepFiles(q, escaped, files, owner, repo, env);
  }

  /** The second half of searchRepo, once there are files: unescape the
      URL term, compile it, and resolve the files. A rejected pattern is
      fatal before any output (regexp.MustCompile panics). */
  method GrepFiles(q: string, escaped: string, files: set<string>, owner: string, repo: string, env: Env)
    returns (out: seq<Event>, status: Status, visited: seq<string>)
    requires IsBytes(q) && escaped == QueryEscape(q)
    ensures env.compile(q).None? ==> out == [] && visited == [] && status == Failed(BadPattern)
    ensures env.compile(q).Some? ==>
              && (forall k, l :: 0 <= k < l < |visited| ==> visited[k] != visited[l])
              && (forall k :: 0 <= k < |visited| ==> visited[k] in files)
              && (status == Completed ==> forall f :: f in files ==> f in visited)
              && (status.Failed? ==> FetchedUntilFailure(visited, owner, repo, env, env.compile(q).value))
              && (out, status) == Resolve(visited, owner, repo, env, env.compile(q).value)
  {
    var pattern := match QueryUnescape(escaped) case Some(p) => p case None => "";
    EscapeRoundTrip(q);
    var compiled := env.compile(pattern);
    if compiled.None? {
      out, status, visited := [], Failed(BadPattern), [];
      return;
    }
    out, status, visited := VisitFiles(files, owner, repo, env, compiled.value);
  }

  /** The body of searchRepo's file loop: print the header, fetch the file,
      print its matching lines. */
  method ResolveFile(f: string, owner: string, repo: string, env: Env, matches: string -> bool)
    returns (events: seq<Event>, status: Status)
    ensures (events, status) == FileEvents(f, owner, repo, env, matches)
  {
    events := [FileHeader(f)];
    var text := GetFile(env.server(ContentUrl(owner, repo, f)), env.decode);
    if text.Err? {
      status := Failed(text.error);
      return;
    }
    var hits := MatchLines(matches, text.value);
    events := events + HitEvents(hits);
    status := Completed;
  }

  /** The order in which Go's `for f := range hits` visits the keys of the
      file map: some enumeration of the set, each file once. Go leaves the
      order unspecified; so does the model. */
  method MapOrder(files: set<string>) returns (order: seq<string>)
    ensures forall k, l :: 0 <= k < l < |order| ==> order[k] != order[l]
    ensures forall f :: f in order <==> f in files
  {
    order := [];
    var remaining := files;
    while remaining != {}
      invariant remaining <= files
      invariant forall f :: f in order <==> f in files && f !in remaining
      invariant forall k, l :: 0 <= k < l < |order| ==> order[k] != order[l]
      decreases remaining
    {
      var f :| f in remaining;
      order := order + [f];
      remaining := remaining - {f};
    }
  }

  /** The loop of searchRepo over the file set, once its iteration order is
      fixed: for each file print the header, fetch it and print its
      matching lines; stop on the first failure. `visited` is the files
      fetched, a prefix of the order: all of it when nothing failed, and
      otherwise ending with the file whose fetch failed. */
  method ResolveFiles(order: seq<string>, owner: string, repo: string, env: Env, matches: string -> bool)
    returns (out: seq<Event>, status: Status, visited: seq<string>)
    ensures visited <= order
    ensures status == Completed ==> visited == order
    ensures status.Failed? ==> FetchedUntilFailure(visited, owner, repo, env, matches)
    ensures (out, status) == Resolve(visited, owner, repo, env, matches)
  {
    out := [];
    for i := 0 to |order|
      invariant Resolve(order[..i], owner, repo, env, matches) == (out, Completed)
    {
      var f := order[i];
      var events, fileStatus := ResolveFile(f, owner, repo, env, matches);
      ResolveSnoc(order[..i], f, owner, repo, env, matches);
      assert order[..i + 1] == order[..i] + [f];
      out := out + events;
      if fileStatus.Failed? {
        FailureEndsRun(order[..i], f, owner, repo, env, matches);
        status, visited := fileStatus, order[..i + 1];
        return;
      }
    }
    assert order[..|order|] == order;
    status, visited := Completed, order;
  }
}

