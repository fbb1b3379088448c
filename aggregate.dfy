/** The two ways searchOwner and searchRepo reduce the accumulated search
    items: match counts per repository, or the set of matched file paths. */
module Aggregate {
  import opened Structs

  /** Total number of text matches carried by the items of repository `name`. */
  function MatchCount(items: seq<SearchItem>, name: string): nat
  {
    if items == [] then 0
    else
      var last := items[|items| - 1];
      MatchCount(items[..|items| - 1], name) + (if last.repo.name == name then |last.matches| else 0)
  }

  /** The repositories the items belong to. */
  function RepoNames(items: seq<SearchItem>): set<string>
  {
    set i | i in items :: i.repo.name
  }

  /** The distinct trimmed paths of the items. */
  function FileSet(items: seq<SearchItem>): set<string>
  {
    set i | i in items :: TrimPath(i.path)
  }

  /** Counting is additive over a concatenation, such as two pages of items. */
  lemma {:induction false} MatchCountAppend(a: seq<SearchItem>, b: seq<SearchItem>, name: string)
    ensures MatchCount(a + b, name) == MatchCount(a, name) + MatchCount(b, name)
  {
    if b != [] {
      MatchCountAppend(a, b[..|b| - 1], name);
      assert (a + b)[..|a + b| - 1] == a + b[..|b| - 1];
    } else {
      assert a + b == a;
    }
  }

  /** A repository without items has no matches. */
  lemma {:induction false} MatchCountAbsent(items: seq<SearchItem>, name: string)
    requires name !in RepoNames(items)
    ensures MatchCount(items, name) == 0
  {
    if items != [] {
      var init := items[..|items| - 1];
      assert RepoNames(init) <= RepoNames(items) by {
        forall n | n in RepoNames(init) ensures n in RepoNames(items) {
          var i :| i in init && i.repo.name == n;
          assert i in items;
        }
      }
      MatchCountAbsent(init, name);
      assert items[|items| - 1] in items;
    }
  }

  /** The owner-scope loop of searchOwner: hits[name] += len(text_matches)
      for each item, a missing entry reading as 0. Every repository with an
      item gets an entry (even when its items carry no text matches), no
      other repository does, and each entry is that repository's total. */
  method CountByRepo(items: seq<SearchItem>) returns (hits: map<string, int>)
    ensures hits.Keys == RepoNames(items)
    ensures forall name :: name in hits ==> hits[name] == MatchCount(items, name)
  {
    hits := map[];
    for k := 0 to |items|
      invariant hits.Keys == RepoNames(items[..k])
      invariant forall name :: name in hits ==> hits[name] == MatchCount(items[..k], name)
    {
      var item := items[k];
      assert items[..k + 1][..k] == items[..k];
      assert RepoNames(items[..k + 1]) == RepoNames(items[..k]) + {item.repo.name} by {
        assert items[..k + 1] == items[..k] + [item];
      }
      var cnt := 0;
      if item.repo.name in hits {
        cnt := hits[item.repo.name];
      } else {
        MatchCountAbsent(items[..k], item.repo.name);
      }
      hits := hits[item.repo.name := cnt + |item.matches|];
    }
    assert items[..|items|] == items;
  }

  /** The repo-scope loop of searchRepo: every item's trimmed path becomes a
      key of the file map, duplicates collapsing. The set is empty exactly
      when there are no items, never larger than the item list, and holds no
      path with a leading '/'. */
  method CollectFiles(items: seq<SearchItem>) returns (files: set<string>)
    ensures files == FileSet(items)
    ensures |files| <= |items|
    ensures files == {} <==> items == []
    ensures forall f :: f in files ==> f == [] || f[0] != '/'
  {
    files := {};
    for k := 0 to |items|
      invariant files == FileSet(items[..k])
      invariant |files| <= k
      invariant files == {} <==> k == 0
    {
      assert items[..k + 1] == items[..k] + [items[k]];
      FileSetSnoc(items[..k], items[k]);
      files := files + {TrimPath(items[k].path)};
    }
    assert items[..|items|] == items;
    forall f | f in files ensures f == [] || f[0] != '/' {
      var i :| i in items && TrimPath(i.path) == f;
    }
  }

  lemma FileSetSnoc(items: seq<SearchItem>, item: SearchItem)
    ensures FileSet(items + [item]) == FileSet(items) + {TrimPath(item.path)}
  {
    var s := items + [item];
    forall f | f in FileSet(s) ensures f in FileSet(items) + {TrimPath(item.path)} {
      var i :| i in s && TrimPath(i.path) == f;
      if i != item {
        assert i in items;
      }
    }
    forall f | f in FileSet(items) ensures f in FileSet(s) {
      var i :| i in items && TrimPath(i.path) == f;
      assert i in s;
    }
    assert item in s;
  }
}
