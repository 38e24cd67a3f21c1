/**
  The paginated repository search (`fetch_repositories`): pages 1..pages are
  requested in order; a failed page contributes nothing and the next page is
  still requested; within a page, items are taken in API order until one lacks
  `owner.login` or `name`, which ends that page.
*/
module Search {
  import opened GitHub

  /** What one answered page contributes: its items up to the first malformed one. */
  function PageRepos(items: seq<SearchItem>): (r: seq<RepoRef>)
    ensures |r| <= |items|
    ensures forall k :: 0 <= k < |r| ==> items[k] == Listed(r[k].owner, r[k].name)
    ensures |r| < |items| ==> items[|r|].Malformed?
  {
    if items == [] then []
    else match items[0]
      case Malformed => []
      case Listed(login, name) => [RepoRef(login, name)] + PageRepos(items[1..])
  }

  /** The three facts of `PageRepos`'s contract determine its result. */
  lemma PageReposUnique(items: seq<SearchItem>, r: seq<RepoRef>)
    requires |r| <= |items|
    requires forall k :: 0 <= k < |r| ==> items[k] == Listed(r[k].owner, r[k].name)
    requires |r| < |items| ==> items[|r|].Malformed?
    ensures r == PageRepos(items)
  {
    var p := PageRepos(items);
    assert |p| == |r|;
    assert forall k :: 0 <= k < |r| ==> p[k] == r[k];
  }

  /** What a page response contributes; a failed page contributes nothing. */
  function ResponseRepos(response: SearchResponse): seq<RepoRef>
  {
    match response
    case PageFailed => []
    case PageOk(items) => PageRepos(items)
  }

  /** What page `page` of the search contributes. */
  function PageContribution(api: Api, query: string, perPage: nat, page: nat): seq<RepoRef>
  {
    ResponseRepos(api.search(query, perPage, page))
  }

  /** The repositories gathered from pages 1..pages, in page order. */
  function Gathered(api: Api, query: string, perPage: nat, pages: nat): seq<RepoRef>
  {
    if pages == 0 then []
    else Gathered(api, query, perPage, pages - 1) + PageContribution(api, query, perPage, pages)
  }

  /** `fetch_repositories`. */
  method FetchRepositories(api: Api, query: string, perPage: nat, pages: nat) returns (repos: seq<RepoRef>)
    ensures repos == Gathered(api, query, perPage, pages)
  {
    repos := [];
    var page := 1;
    while page <= pages
      invariant 1 <= page <= pages + 1
      invariant repos == Gathered(api, query, perPage, page - 1)
    {
      var response := api.search(query, perPage, page);
      if response.PageOk? {
        var items := response.items;
        ghost var before, taken := repos, [];
        var i := 0;
        while i < |items| && items[i].Listed?
          invariant 0 <= i <= |items|
          invariant repos == before + taken && |taken| == i
          invariant forall k :: 0 <= k < i ==> items[k] == Listed(taken[k].owner, taken[k].name)
        {
          var r := RepoRef(items[i].login, items[i].name);
          repos, taken := repos + [r], taken + [r];
          i := i + 1;
        }
        PageReposUnique(items, taken);
      }
      page := page + 1;
    }
  }

  /**
    A repository is gathered exactly when some page 1..pages contributes it: a failed
    page loses nothing gathered before it and stops nothing gathered after it.
  */
  lemma {:induction false} GatheredMembership(api: Api, query: string, perPage: nat, pages: nat, r: RepoRef)
    ensures r in Gathered(api, query, perPage, pages) <==>
            exists page :: 1 <= page <= pages && r in PageContribution(api, query, perPage, page)
  {
    if pages > 0 {
      GatheredMembership(api, query, perPage, pages - 1, r);
    }
  }

  /** Requesting more pages only appends: the earlier pages' results stay in front, in order. */
  lemma {:induction false} GatheredPrefix(api: Api, query: string, perPage: nat, fewer: nat, more: nat)
    requires fewer <= more
    ensures Gathered(api, query, perPage, fewer) <= Gathered(api, query, perPage, more)
  {
    if fewer < more {
      GatheredPrefix(api, query, perPage, fewer, more - 1);
    }
  }
}
