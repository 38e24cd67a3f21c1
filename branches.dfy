/**
  Branch resolution (`get_default_branch`). Two definitions live here:
  `GetDefaultBranch` is the function as the program behaves, and
  `IntendedDefaultBranch` is the program with that import corrected, in which a
  repository without a default branch gets its most recently committed branch.
  They differ because the program imports the `datetime` module rather than the
  `datetime` class, so computing the first sort key always raises AttributeError.
*/
module Branches {
  import opened Wrappers
  import opened GitHub

  /** The `default_branch` of a metadata response, when the request succeeded and the field is truthy. */
  function TruthyDefault(response: MetaResponse): Option<string>
  {
    match response
    case Meta(Some(d)) => if d != "" then Some(d) else None
    case _ => None
  }

  /**
    The error handlers: re-request the metadata and use its default branch if
    truthy, otherwise the conventional "main".
  */
  function Fallback(api: Api, owner: string, repo: string): (r: string)
    ensures r != ""
    ensures r == "main" || Some(r) == TruthyDefault(api.repoMeta(owner, repo, 1))
    ensures TruthyDefault(api.repoMeta(owner, repo, 1)).Some? ==>
              r == TruthyDefault(api.repoMeta(owner, repo, 1)).value
  {
    match TruthyDefault(api.repoMeta(owner, repo, 1))
    case Some(d) => d
    case None => "main"
  }

  /**
    `get_default_branch` as written. A failed metadata or branch-list request goes to
    the RequestException handler; a non-empty branch list reaches the sort, whose key
    function fails with AttributeError, and goes to the catch-all handler; both
    handlers behave as `Fallback`.
  */
  function GetDefaultBranch(api: Api, owner: string, repo: string): (r: string)
    ensures r != ""
    ensures TruthyDefault(api.repoMeta(owner, repo, 0)).Some? ==>
              r == TruthyDefault(api.repoMeta(owner, repo, 0)).value
    ensures r == "main" || Some(r) == TruthyDefault(api.repoMeta(owner, repo, 0)) ||
            Some(r) == TruthyDefault(api.repoMeta(owner, repo, 1))
    ensures (api.repoMeta(owner, repo, 0).Meta? && TruthyDefault(api.repoMeta(owner, repo, 0)).None? &&
             api.branchList(owner, repo) == BranchList([])) ==> r == "main"
    ensures (api.repoMeta(owner, repo, 0).MetaFailed? ||
             (TruthyDefault(api.repoMeta(owner, repo, 0)).None? && api.branchList(owner, repo) != BranchList([]))) &&
            TruthyDefault(api.repoMeta(owner, repo, 1)).Some? ==>
              r == TruthyDefault(api.repoMeta(owner, repo, 1)).value
  {
    var first := api.repoMeta(owner, repo, 0);
    if first.MetaFailed? then Fallback(api, owner, repo)
    else if TruthyDefault(first).Some? then TruthyDefault(first).value
    else match api.branchList(owner, repo)
      case BranchesFailed => Fallback(api, owner, repo)
      case BranchList(branches) =>
        if branches == [] then "main" else Fallback(api, owner, repo)
  }

  // ---------------------------------------------------------------------------
  // The corrected recency rule

  /**
    The inner `get_commit_date` as intended: the committer date, else the author
    date; a failed commit request, a missing date or an unparsable one counts as
    the earliest instant 0.
  */
  function CommitKey(api: Api, b: BranchInfo): nat
  {
    match api.commit(b.commitUrl)
    case CommitFailed => 0
    case CommitInfo(committer, author) =>
      var date := if committer.Some? && committer.value != "" then committer else author;
      if date.None? || date.value == "" then 0
      else match api.parseDate(date.value)
        case None => 0
        case Some(t) => t
  }

  /** Places `b`, which came before every element of `sorted`, in a list sorted newest first. */
  function InsertByRecency(api: Api, b: BranchInfo, sorted: seq<BranchInfo>): (r: seq<BranchInfo>)
  {
    if sorted == [] || CommitKey(api, sorted[0]) <= CommitKey(api, b) then [b] + sorted
    else [sorted[0]] + InsertByRecency(api, b, sorted[1..])
  }

  /** `branches.sort(key=get_commit_date, reverse=True)`: the stable sort, newest first. */
  function SortByRecency(api: Api, branches: seq<BranchInfo>): (r: seq<BranchInfo>)
  {
    if branches == [] then [] else InsertByRecency(api, branches[0], SortByRecency(api, branches[1..]))
  }

  ghost predicate NewestFirst(api: Api, s: seq<BranchInfo>)
  {
    forall i, j :: 0 <= i < j < |s| ==> CommitKey(api, s[i]) >= CommitKey(api, s[j])
  }

  lemma {:induction false} InsertKeepsBranches(api: Api, b: BranchInfo, sorted: seq<BranchInfo>)
    ensures multiset(InsertByRecency(api, b, sorted)) == multiset(sorted) + multiset{b}
  {
    if sorted != [] && CommitKey(api, sorted[0]) > CommitKey(api, b) {
      InsertKeepsBranches(api, b, sorted[1..]);
      assert sorted == [sorted[0]] + sorted[1..];
    }
  }

  lemma {:induction false} InsertKeepsOrder(api: Api, b: BranchInfo, sorted: seq<BranchInfo>)
    requires NewestFirst(api, sorted)
    ensures NewestFirst(api, InsertByRecency(api, b, sorted))
  {
    if sorted != [] && CommitKey(api, sorted[0]) > CommitKey(api, b) {
      var head, rest := sorted[0], InsertByRecency(api, b, sorted[1..]);
      InsertKeepsOrder(api, b, sorted[1..]);
      InsertKeepsBranches(api, b, sorted[1..]);
      forall k | 0 <= k < |rest|
        ensures CommitKey(api, rest[k]) <= CommitKey(api, head)
      {
        assert rest[k] in multiset(rest);
        if rest[k] != b {
          assert rest[k] in multiset(sorted[1..]);
          var m :| 0 <= m < |sorted[1..]| && sorted[1..][m] == rest[k];
          assert sorted[m + 1] == rest[k];
        }
      }
      assert InsertByRecency(api, b, sorted) == [head] + rest;
    }
  }

  /** The sort puts the branches newest first and is a permutation of them. */
  lemma {:induction false} SortByRecencySorts(api: Api, branches: seq<BranchInfo>)
    ensures NewestFirst(api, SortByRecency(api, branches))
    ensures multiset(SortByRecency(api, branches)) == multiset(branches)
  {
    if branches != [] {
      SortByRecencySorts(api, branches[1..]);
      InsertKeepsOrder(api, branches[0], SortByRecency(api, branches[1..]));
      InsertKeepsBranches(api, branches[0], SortByRecency(api, branches[1..]));
      assert branches == [branches[0]] + branches[1..];
    }
  }

  /** `i` is the first branch whose commit key is the largest of the list. */
  ghost predicate IsFirstNewest(api: Api, branches: seq<BranchInfo>, i: nat)
  {
    && i < |branches|
    && (forall j :: 0 <= j < |branches| ==> CommitKey(api, branches[j]) <= CommitKey(api, branches[i]))
    && (forall j :: 0 <= j < i ==> CommitKey(api, branches[j]) < CommitKey(api, branches[i]))
  }

  /** The index of the first newest branch of a non-empty list. */
  function FirstNewest(api: Api, branches: seq<BranchInfo>): (i: nat)
    requires branches != []
    ensures IsFirstNewest(api, branches, i)
  {
    if |branches| == 1 then 0
    else
      var j := 1 + FirstNewest(api, branches[1..]);
      if CommitKey(api, branches[j]) <= CommitKey(api, branches[0]) then 0 else j
  }

  /**
    The head of the stable newest-first sort is the first newest branch: the chosen
    branch has the largest commit key, and among equal keys the first listed wins.
  */
  lemma {:induction false} SortHeadIsFirstNewest(api: Api, branches: seq<BranchInfo>)
    requires branches != []
    ensures |SortByRecency(api, branches)| == |branches|
    ensures SortByRecency(api, branches)[0] == branches[FirstNewest(api, branches)]
  {
    SortByRecencySorts(api, branches);
    assert |multiset(SortByRecency(api, branches))| == |multiset(branches)|;
    if |branches| > 1 {
      SortHeadIsFirstNewest(api, branches[1..]);
    }
  }

  /**
    `get_default_branch` with the import corrected: the metadata default branch, else
    the most recently committed branch, with the same error handlers as the program
    (so a failed metadata request still goes to `Fallback`, not to the branch listing).
  */
  function IntendedDefaultBranch(api: Api, owner: string, repo: string): (r: string)
  {
    var first := api.repoMeta(owner, repo, 0);
    if first.MetaFailed? then Fallback(api, owner, repo)
    else if TruthyDefault(first).Some? then TruthyDefault(first).value
    else match api.branchList(owner, repo)
      case BranchesFailed => Fallback(api, owner, repo)
      case BranchList(branches) =>
        if branches == [] then "main" else SortByRecency(api, branches)[0].name
  }

  /** Which of the two resolution rules the pipeline runs; the program as written is `AsWritten`. */
  datatype BranchPolicy = AsWritten | Intended

  function ResolveBranch(policy: BranchPolicy, api: Api, owner: string, repo: string): string
  {
    match policy
    case AsWritten => GetDefaultBranch(api, owner, repo)
    case Intended => IntendedDefaultBranch(api, owner, repo)
  }

  /**
    Under the corrected rule a repository whose metadata answers without a default
    branch, and which has branches, resolves to its first newest branch.
  */
  lemma IntendedPicksFirstNewest(api: Api, owner: string, repo: string)
    requires api.repoMeta(owner, repo, 0).Meta?
    requires TruthyDefault(api.repoMeta(owner, repo, 0)).None?
    requires api.branchList(owner, repo).BranchList? && api.branchList(owner, repo).branches != []
    ensures exists i: nat :: IsFirstNewest(api, api.branchList(owner, repo).branches, i) &&
                        IntendedDefaultBranch(api, owner, repo) == api.branchList(owner, repo).branches[i].name
  {
    var branches := api.branchList(owner, repo).branches;
    SortHeadIsFirstNewest(api, branches);
    var i := FirstNewest(api, branches);
    assert IsFirstNewest(api, branches, i) && IntendedDefaultBranch(api, owner, repo) == branches[i].name;
  }

  /**
    The program and the corrected rule agree everywhere except on a repository whose
    metadata answers without a default branch and which lists at least one branch;
    there the program ignores the commit dates.
  */
  lemma AsWrittenAgreesOutsideRecency(api: Api, owner: string, repo: string)
    ensures (api.repoMeta(owner, repo, 0).Meta? && TruthyDefault(api.repoMeta(owner, repo, 0)).None? &&
             api.branchList(owner, repo).BranchList? && api.branchList(owner, repo).branches != [])
            || GetDefaultBranch(api, owner, repo) == IntendedDefaultBranch(api, owner, repo)
  {
  }

  /**
    A truthy metadata default branch decides the result of both rules, whatever the
    branch listing, commit and date oracles answer: those requests are never made.
  */
  lemma MetadataDefaultDecides(api: Api, other: Api, owner: string, repo: string)
    requires TruthyDefault(api.repoMeta(owner, repo, 0)).Some?
    requires other.repoMeta(owner, repo, 0) == api.repoMeta(owner, repo, 0)
    ensures GetDefaultBranch(other, owner, repo) == GetDefaultBranch(api, owner, repo)
    ensures IntendedDefaultBranch(other, owner, repo) == IntendedDefaultBranch(api, owner, repo)
                                                     == TruthyDefault(api.repoMeta(owner, repo, 0)).value
  {
  }

  /**
    A repository with no default branch and two branches, "A" last committed on
    2023-01-01 and "B" on 2024-06-01; the metadata re-request has no default either.
  */
  function TwoBranchApi(): Api
  {
    Api(
      (query, perPage, page) => PageFailed,
      (owner, repo, attempt) => Meta(None),
      (owner, repo) => BranchList([BranchInfo("A", "commits/a"), BranchInfo("B", "commits/b")]),
      url => if url == "commits/a" then CommitInfo(Some("2023-01-01T00:00:00Z"), None)
             else CommitInfo(Some("2024-06-01T00:00:00Z"), None),
      (owner, repo, branch) => TreeFailed,
      (owner, repo, path) => FileFailed,
      date => if date == "2023-01-01T00:00:00Z" then Some(20230101)
              else if date == "2024-06-01T00:00:00Z" then Some(20240601) else None)
  }

  /** On that repository the corrected rule picks "B"; the program falls back to "main". */
  lemma AsWrittenMissesNewestBranch()
    ensures IntendedDefaultBranch(TwoBranchApi(), "owner", "repo") == "B"
    ensures GetDefaultBranch(TwoBranchApi(), "owner", "repo") == "main"
  {
  }

}
