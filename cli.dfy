/** The commands of main.go that reach the search pipeline or reuse its
    parts: the argument splitting of search and cat, the dispatch of search,
    cat itself, and the paging loop of list. */
module Cli {
  import opened Wrappers
  import opened GoStrings
  import opened QueryEscaping
  import opened Structs
  import opened Pagination
  import opened Aggregate
  import opened Content
  import opened Search

  /** The two scopes of a search. */
  datatype Scope = OwnerScope(query: string, owner: string) | RepoScope(query: string, owner: string, repo: string)

  /** search's argument handling: at least two arguments, the term and the
      target; a target that splits on '/' into more than one piece names a
      repository by its first two pieces, the others being ignored. */
  function ParseSearch(args: seq<string>): Result<Scope, Failure>
  {
    if |args| < 2 then Err(Usage)
    else
      var ur := Split(args[1], '/');
      if |ur| > 1 then Ok(RepoScope(args[0], ur[0], ur[1])) else Ok(OwnerScope(args[0], args[1]))
  }

  /** What ParseSearch decides, stated on the target text itself: fewer
      than two arguments is a usage error; a target without '/' is an owner;
      a target with '/' is read as owner "/" repo followed by nothing or by
      further "/"-separated text, which is dropped. */
  lemma ParseSearchSpec(args: seq<string>)
    ensures ParseSearch(args).Err? <==> |args| < 2
    ensures ParseSearch(args).Err? ==> ParseSearch(args).error == Usage
    ensures |args| >= 2 && '/' !in args[1] ==> ParseSearch(args) == Ok(OwnerScope(args[0], args[1]))
    ensures |args| >= 2 && '/' in args[1] ==>
              && ParseSearch(args).Ok? && ParseSearch(args).value.RepoScope?
              && var sc := ParseSearch(args).value;
              && sc.query == args[0]
              && '/' !in sc.owner && '/' !in sc.repo
              && exists rest :: args[1] == sc.owner + "/" + sc.repo + rest && (rest == "" || rest[0] == '/')
  {
    if |args| >= 2 {
      var t := args[1];
      var ur := Split(t, '/');
      CountZero(t, '/');
      if '/' in t {
        JoinSplit(t, '/');
        var rest := if |ur| > 2 then "/" + Join(ur[2..], '/') else "";
        assert Join(ur[1..], '/') == ur[1] + rest by {
          if |ur| > 2 {
            assert ur[1..][1..] == ur[2..];
          }
        }
        assert t == ur[0] + "/" + ur[1] + rest;
      }
    }
  }

  /** Where cat looks: owner, repository and file path. */
  datatype CatTarget = CatTarget(owner: string, repo: string, file: string)

  /** cat's argument handling: exactly one argument, which must split on
      '/' into exactly three pieces. */
  function ParseCat(args: seq<string>): Result<CatTarget, Failure>
  {
    if |args| != 1 then Err(Usage)
    else
      var pth := Split(args[0], '/');
      if |pth| != 3 then Err(Usage)
      else Ok(CatTarget(pth[0], pth[1], Join(pth[2..], '/')))
  }

  /** cat accepts exactly one argument with exactly two separators, and then
      reads it as owner "/" repo "/" file with no separator in any part. */
  lemma ParseCatSpec(args: seq<string>)
    ensures ParseCat(args).Ok? <==> |args| == 1 && Count(args[0], '/') == 2
    ensures ParseCat(args).Err? ==> ParseCat(args).error == Usage
    ensures ParseCat(args).Ok? ==>
              var t := ParseCat(args).value;
              && args[0] == t.owner + "/" + t.repo + "/" + t.file
              && '/' !in t.owner && '/' !in t.repo && '/' !in t.file
  {
    if |args| == 1 && Count(args[0], '/') == 2 {
      var pth := Split(args[0], '/');
      JoinSplit(args[0], '/');
      assert pth[1..][1..] == pth[2..];
      assert Join(pth[2..], '/') == pth[2];
    }
  }

  /** The converse of ParseCatSpec: any owner, repo and file free of '/'
      written as owner/repo/file is read back as itself. */
  lemma ParseCatRoundTrip(t: CatTarget)
    requires '/' !in t.owner && '/' !in t.repo && '/' !in t.file
    ensures ParseCat([t.owner + "/" + t.repo + "/" + t.file]) == Ok(t)
  {
    var parts := [t.owner, t.repo, t.file];
    assert parts[1..] == [t.repo, t.file];
    assert [t.repo, t.file][1..] == [t.file];
    assert Join([t.repo, t.file], '/') == t.repo + "/" + t.file;
    assert Join(parts, '/') == t.owner + "/" + t.repo + "/" + t.file;
    SplitJoin(parts, '/');
    assert parts[2..] == [t.file];
  }

  /** cat: the file's text as getfile returns it, or the usage error. For
      well-formed arguments the text comes back exactly when the envelope
      has no message and its content decodes; a message is a remote error. */
  function Cat(args: seq<string>, server: string -> ContentResponse, decode: string -> Option<string>)
    : (r: Result<string, Failure>)
    ensures r == Err(Usage) <==> ParseCat(args).Err?
    ensures r.Ok? ==>
              && ParseCat(args).Ok?
              && var t := ParseCat(args).value;
              && var resp := server(ContentUrl(t.owner, t.repo, t.file));
              && resp.Envelope? && resp.message == "" && decode(resp.content) == Some(r.value)
    ensures ParseCat(args).Ok? ==>
              var t := ParseCat(args).value;
              var resp := server(ContentUrl(t.owner, t.repo, t.file));
              && (r.Ok? <==> resp.Envelope? && resp.message == "" && decode(resp.content).Some?)
              && (resp.Envelope? && resp.message != "" ==> r == Err(Remote(resp.message)))
              && (resp.NoResponse? ==> r == Err(Transport))
              && (resp.NotJson? ==> r == Err(Undecodable))
              && (resp.Envelope? && resp.message == "" && decode(resp.content).None? ==> r == Err(BadBase64))
  {
    match ParseCat(args)
    case Err(e) => Err(e)
    case Ok(t) => GetFile(server(ContentUrl(t.owner, t.repo, t.file)), decode)
  }

  /** What a run of the search command produced. */
  datatype Report =
    | UsageReport
    | OwnerReport(counts: Result<map<string, int>, Failure>, requested: seq<string>)
    | RepoReport(out: seq<Event>, status: Status, requested: seq<string>, visited: seq<string>)

  /** search: check the arguments, then run the owner or the repository
      search on the parsed term, owner and repository. A usage error makes
      no request at all. */
  method RunSearch(args: seq<string>, pages: seq<PageResponse<SearchItem>>, env: Env) returns (report: Report)
    requires |args| >= 2 ==> IsBytes(args[0])
    requires EndsFrom(pages, 0)
    ensures report.UsageReport? <==> |args| < 2
    ensures report.OwnerReport? <==> ParseSearch(args).Ok? && ParseSearch(args).value.OwnerScope?
    ensures report.RepoReport? <==> ParseSearch(args).Ok? && ParseSearch(args).value.RepoScope?
    ensures !report.UsageReport? ==> |report.requested| == Stop(pages, 0) + 1
    ensures report.OwnerReport? ==>
              var sc := ParseSearch(args).value;
              && (forall k :: 0 <= k < |report.requested| ==>
                    report.requested[k] == SearchPageUrl(OwnerSearchUrl(sc.query, sc.owner), k + 1))
              && (Paginate(pages, 0).Err? ==> report.counts == Err(Paginate(pages, 0).error))
              && (Paginate(pages, 0).Ok? ==>
                    && report.counts.Ok?
                    && report.counts.value.Keys == RepoNames(Paginate(pages, 0).value)
                    && forall name :: name in report.counts.value ==>
                         report.counts.value[name] == MatchCount(Paginate(pages, 0).value, name))
    ensures report.RepoReport? ==>
              var sc := ParseSearch(args).value;
              && (forall k :: 0 <= k < |report.requested| ==>
                    report.requested[k] == SearchPageUrl(RepoSearchUrl(sc.query, sc.owner, sc.repo), k + 1))
              && (Paginate(pages, 0).Err? ==>
                    report.out == [] && report.visited == [] && report.status == Failed(Paginate(pages, 0).error))
              && (Paginate(pages, 0).Ok? && FileSet(Paginate(pages, 0).value) == {} ==>
                    report.out == [] && report.visited == [] && report.status == Completed)
              && (Paginate(pages, 0).Ok? && FileSet(Paginate(pages, 0).value) != {} && env.compile(sc.query).None? ==>
                    report.out == [] && report.visited == [] && report.status == Failed(BadPattern))
              && (Paginate(pages, 0).Ok? && env.compile(sc.query).Some? ==>
                    var files := FileSet(Paginate(pages, 0).value);
                    var matches := env.compile(sc.query).value;
                    && (forall k, l :: 0 <= k < l < |report.visited| ==> report.visited[k] != report.visited[l])
                    && (forall k :: 0 <= k < |report.visited| ==> report.visited[k] in files)
                    && (report.status == Completed ==> forall f :: f in files ==> f in report.visited)
                    && (report.status.Failed? ==> FetchedUntilFailure(report.visited, sc.owner, sc.repo, env, matches))
                    && (report.out, report.status) == Resolve(report.visited, sc.owner, sc.repo, env, matches))
  {
    match ParseSearch(args) {
      case Err(_) =>
        report := UsageReport;
      case Ok(OwnerScope(q, owner)) =>
        var counts, requested := SearchOwner(q, owner, pages);
        report := OwnerReport(counts, requested);
      case Ok(RepoScope(q, owner, repo)) =>
        var out, status, requested, visited := SearchRepo(q, owner, repo, pages, env);
        report := RepoReport(out, status, requested, visited);
    }
  }

  /** The URL of page `i` of an owner's repository list. */
  function ListPageUrl(owner: string, isOrg: bool, i: nat): string
  {
    (if isOrg then "https://api.github.com/orgs/" else "https://api.github.com/users/")
      + owner + "/repos?page=" + Decimal(i)
  }

  /** list's paging loop: the names of the repositories on all pages, in
      order, or the failure of a page. Whether the owner is an organisation
      comes from usertype, which is not modelled. */
  method ListRepos(owner: string, isOrg: bool, pages: seq<PageResponse<Repo>>)
    returns (names: Result<seq<string>, Failure>, requested: seq<string>)
    requires EndsFrom(pages, 0)
    ensures |requested| == Stop(pages, 0) + 1
    ensures forall k :: 0 <= k < |requested| ==> requested[k] == ListPageUrl(owner, isOrg, k + 1)
    ensures names.Ok? <==> Paginate(pages, 0).Ok?
    ensures names.Err? ==> names.error == Paginate(pages, 0).error
    ensures names.Ok? ==>
              var repos := Paginate(pages, 0).value;
              |names.value| == |repos| && forall k :: 0 <= k < |repos| ==> names.value[k] == repos[k].name
  {
    var res;
    res, requested := FetchAll(pages, (i: nat) => ListPageUrl(owner, isOrg, i));
    if res.Err? {
      names := Err(res.error);
      return;
    }
    var repos := [];
    for k := 0 to |res.value|
      invariant |repos| == k && forall j :: 0 <= j < k ==> repos[j] == res.value[j].name
    {
      repos := repos + [res.value[k].name];
    }
    names := Ok(repos);
  }
}
