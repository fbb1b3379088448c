/** The paging loop shared by dosearch and list: request page 1, 2, 3, ...,
    append each page's items, and stop after the first page whose Link
    header carries no rel="next" relation. The remote side is a sequence of
    responses, the i-th one answering the request for page i + 1. */
module Pagination {
  import opened Wrappers
  import opened GoStrings

  /** What the request for one page yields: no response at all, a body that
      does not unmarshal, or the page's items and its Link header. */
  datatype PageResponse<T> = Unreachable | Garbled | Page(items: seq<T>, link: string)

  const NextRelation: string := "rel=\"next\""

  /** The Link header announces a further page. */
  predicate HasNext(link: string)
  {
    Contains(link, NextRelation)
  }

  /** The loop does not go past this response. */
  predicate Ends<T>(resp: PageResponse<T>)
  {
    !resp.Page? || !HasNext(resp.link)
  }

  /** Some response at index `from` or later ends the loop, so the loop
      started at `from` terminates (a server that always announces a next
      page would keep the Go loop running forever). */
  predicate EndsFrom<T>(rs: seq<PageResponse<T>>, from: nat)
  {
    exists j :: from <= j < |rs| && Ends(rs[j])
  }

  /** Index of the first response at or after `from` that ends the loop. */
  function Stop<T>(rs: seq<PageResponse<T>>, from: nat): (n: nat)
    requires EndsFrom(rs, from)
    ensures from <= n < |rs| && Ends(rs[n])
    ensures forall j :: from <= j < n ==> !Ends(rs[j])
    decreases |rs| - from
  {
    if Ends(rs[from]) then from else Stop(rs, from + 1)
  }

  /** The items a response contributes: none unless it is a page. */
  function ItemsOf<T>(resp: PageResponse<T>): seq<T>
  {
    if resp.Page? then resp.items else []
  }

  /** Concatenation of the items of the responses, in order. */
  function AllItems<T>(rs: seq<PageResponse<T>>): seq<T>
  {
    if rs == [] then [] else ItemsOf(rs[0]) + AllItems(rs[1..])
  }

  function Prepend<T>(acc: seq<T>, r: Result<seq<T>, Failure>): Result<seq<T>, Failure>
  {
    match r
    case Ok(v) => Ok(acc + v)
    case Err(e) => Err(e)
  }

  lemma PrependTwice<T>(a: seq<T>, b: seq<T>, r: Result<seq<T>, Failure>)
    ensures Prepend(a, Prepend(b, r)) == Prepend(a + b, r)
  {
    if r.Ok? {
      assert a + (b + r.value) == (a + b) + r.value;
    }
  }

  /** The result of the loop started at page `from` + 1, one page at a time:
      a failing request ends everything with that failure, a last page ends
      with its items, any other page puts its items before the rest. */
  function Paginate<T>(rs: seq<PageResponse<T>>, from: nat): Result<seq<T>, Failure>
    requires EndsFrom(rs, from)
    decreases |rs| - from
  {
    match rs[from]
    case Unreachable => Err(Transport)
    case Garbled => Err(Undecodable)
    case Page(items, link) =>
      if !HasNext(link) then Ok(items) else Prepend(items, Paginate(rs, from + 1))
  }

  /** The paging result as a whole: it is decided by the response that ends
      the loop. If that one failed, the whole fetch fails and no earlier page
      is returned; otherwise the result is exactly the items of the pages
      from the first to the last, concatenated in request order. */
  lemma {:induction false} PaginateSpec<T>(rs: seq<PageResponse<T>>, from: nat)
    requires EndsFrom(rs, from)
    ensures var n := Stop(rs, from);
            Paginate(rs, from) ==
              match rs[n]
              case Unreachable => Err(Transport)
              case Garbled => Err(Undecodable)
              case Page(_, _) => Ok(AllItems(rs[from..n + 1]))
    decreases |rs| - from
  {
    var n := Stop(rs, from);
    if n == from {
      assert rs[from..n + 1] == [rs[from]];
      assert [rs[from]][1..] == [];
      assert AllItems([rs[from]]) == ItemsOf(rs[from]) + [];
      assert ItemsOf(rs[from]) + [] == ItemsOf(rs[from]);
    } else {
      assert !Ends(rs[from]);
      assert Stop(rs, from + 1) == n;
      PaginateSpec(rs, from + 1);
      assert rs[from..n + 1] == [rs[from]] + rs[from + 1..n + 1];
      assert AllItems(rs[from..n + 1]) == ItemsOf(rs[from]) + AllItems(rs[from + 1..n + 1]);
    }
  }

  /** The URLs of pages 1 to `n`, in request order. */
  function PageUrls(pageUrl: nat -> string, n: nat): (r: seq<string>)
    ensures |r| == n
    ensures forall k :: 0 <= k < n ==> r[k] == pageUrl(k + 1)
  {
    if n == 0 then [] else PageUrls(pageUrl, n - 1) + [pageUrl(n)]
  }

  /** The paging loop of dosearch and list. `pageUrl(i)` is the URL of page
      `i`; `requested` lists the URLs asked for, in order: pages 1 to N with
      no gap, N being the page that ended the loop. */
  method FetchAll<T>(rs: seq<PageResponse<T>>, pageUrl: nat -> string)
    returns (r: Result<seq<T>, Failure>, requested: seq<string>)
    requires EndsFrom(rs, 0)
    ensures r == Paginate(rs, 0)
    ensures requested == PageUrls(pageUrl, Stop(rs, 0) + 1)
  {
    var acc: seq<T> := [];
    requested := [];
    var i := 1;
    match Paginate(rs, 0) {
      case Ok(v) => assert acc + v == v;
      case Err(_) =>
    }
    while true
      invariant 1 <= i <= Stop(rs, 0) + 1
      invariant requested == PageUrls(pageUrl, i - 1)
      invariant EndsFrom(rs, i - 1) && Paginate(rs, 0) == Prepend(acc, Paginate(rs, i - 1))
      decreases Stop(rs, 0) + 1 - i
    {
      requested := requested + [pageUrl(i)];
      match rs[i - 1] {
        case Unreachable =>
          r := Err(Transport);
          return;
        case Garbled =>
          r := Err(Undecodable);
          return;
        case Page(items, link) =>
          if !HasNext(link) {
            r := Ok(acc + items);
            return;
          }
          assert EndsFrom(rs, i) by { assert !Ends(rs[i - 1]); }
          PrependTwice(acc, items, Paginate(rs, i));
          acc := acc + items;
      }
      i := i + 1;
    }
  }
}
