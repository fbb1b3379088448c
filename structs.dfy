/** The response shapes of the code-hosting API that the search pipeline
    reads, and the two small functions defined on them. */
module Structs {
  import opened GoStrings

  /** A repository as the search and list endpoints describe it (full_name,
      description, size); its language breakdown is not modelled. */
  datatype Repo = Repo(name: string, description: string, size: int)

  /** One text-match fragment of a search hit, with its match index ranges. */
  datatype TextMatch = TextMatch(fragment: string, indices: seq<seq<int>>)

  /** One hit of the code-search endpoint. */
  datatype SearchItem = SearchItem(repo: Repo, path: string, matches: seq<TextMatch>)

  /** The body of one search page, and also the accumulated result of a search. */
  datatype SearchRes = SearchRes(items: seq<SearchItem>)

  /** A run of `n` path separators. */
  function Slashes(n: nat): (r: string)
    ensures |r| == n && forall k :: 0 <= k < n ==> r[k] == '/'
  {
    seq(n, _ => '/')
  }

  /** ghSearchItem.trimPath: the item's path with every leading '/' removed
      (strings.TrimLeft with cutset "/"). The result is what follows the
      leading run of separators. */
  function TrimPath(path: string): (r: string)
    ensures r == [] || r[0] != '/'
    ensures |r| <= |path| && path == Slashes(|path| - |r|) + r
  {
    if path != [] && path[0] == '/' then
      var r := TrimPath(path[1..]);
      assert path == [path[0]] + path[1..];
      r
    else
      path
  }

  /** TrimPath strips exactly the leading run of separators, whatever its length. */
  lemma {:induction false} TrimPathOfSlashes(n: nat, rest: string)
    requires rest == [] || rest[0] != '/'
    ensures TrimPath(Slashes(n) + rest) == rest
  {
    if n > 0 {
      TrimPathOfSlashes(n - 1, rest);
      assert (Slashes(n) + rest)[1..] == Slashes(n - 1) + rest;
    }
  }

  /** A path that does not start with '/' is left as it is. */
  lemma TrimPathIdentity(path: string)
    requires path == [] || path[0] != '/'
    ensures TrimPath(path) == path
  {
    TrimPathOfSlashes(0, path);
    assert Slashes(0) + path == path;
  }

  /** Trimming twice is trimming once. */
  lemma TrimPathIdempotent(path: string)
    ensures TrimPath(TrimPath(path)) == TrimPath(path)
  {
    TrimPathIdentity(TrimPath(path));
  }

  /** The line ghSearchRes.String writes for one item: "name/path: n matches\n". */
  function Segment(item: SearchItem): string
  {
    item.repo.name + "/" + TrimPath(item.path) + ": " + Decimal(|item.matches|) + " matches\n"
  }

  /** The concatenation of `f` applied to each element, in order. */
  function ConcatMap<T>(xs: seq<T>, f: T -> string): string
  {
    if xs == [] then "" else ConcatMap(xs[..|xs| - 1], f) + f(xs[|xs| - 1])
  }

  /** ConcatMap of a concatenation is the concatenation of the ConcatMaps. */
  lemma {:induction false} ConcatMapAppend<T>(a: seq<T>, b: seq<T>, f: T -> string)
    ensures ConcatMap(a + b, f) == ConcatMap(a, f) + ConcatMap(b, f)
  {
    if b == [] {
      assert a + b == a;
    } else {
      var b' := b[..|b| - 1];
      ConcatMapAppend(a, b', f);
      assert (a + b)[..|a + b| - 1] == a + b';
    }
  }

  /** The text ghSearchRes.String builds: one segment per item, in item order. */
  function Summary(items: seq<SearchItem>): string
  {
    ConcatMap(items, Segment)
  }

  /** Read from the front: the first item's segment comes first, then the
      summary of the other items. */
  lemma SummaryCons(items: seq<SearchItem>)
    requires items != []
    ensures Summary(items) == Segment(items[0]) + Summary(items[1..])
  {
    ConcatMapAppend([items[0]], items[1..], Segment);
    assert [items[0]] + items[1..] == items;
    assert [items[0]][..0] == [];
  }

  /** The summary of a concatenation of item lists, such as the pages of a
      search, is the concatenation of their summaries. */
  lemma SummaryAppend(a: seq<SearchItem>, b: seq<SearchItem>)
    ensures Summary(a + b) == Summary(a) + Summary(b)
  {
    ConcatMapAppend(a, b, Segment);
  }

  /** ghSearchRes.String: appends one segment per item to a string. */
  method ResString(res: SearchRes) returns (s: string)
    ensures s == Summary(res.items)
    ensures res.items == [] <==> s == ""
  {
    s := "";
    for k := 0 to |res.items|
      invariant s == Summary(res.items[..k])
    {
      var m := res.items[k];
      s := s + Segment(m);
      assert res.items[..k + 1][..k] == res.items[..k];
    }
    assert res.items[..|res.items|] == res.items;
  }
}
