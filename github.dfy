/**
  The GitHub REST endpoints the collector calls, replaced by deterministic oracles.
  Each endpoint is a total function from its request to the outcome the collector
  can observe: a failed request (transport error, non-2xx status, unreadable JSON)
  or the few JSON fields the collector reads.
*/
module GitHub {
  import opened Wrappers

  /** One item of a search page: `owner.login` and `name`, or an item missing them (KeyError). */
  datatype SearchItem = Listed(login: string, name: string) | Malformed

  /** A search page; a body without `items` reads as an empty page. */
  datatype SearchResponse = PageFailed | PageOk(items: seq<SearchItem>)

  /** Repository metadata; `defaultBranch` is the `default_branch` field, absent or null as None. */
  datatype MetaResponse = MetaFailed | Meta(defaultBranch: Option<string>)

  /** A branch of the branch listing with the URL of its head commit. */
  datatype BranchInfo = BranchInfo(name: string, commitUrl: string)

  datatype BranchesResponse = BranchesFailed | BranchList(branches: seq<BranchInfo>)

  /** A commit: the `commit.committer.date` and `commit.author.date` strings, if present. */
  datatype CommitResponse = CommitFailed | CommitInfo(committerDate: Option<string>, authorDate: Option<string>)

  datatype EntryKind = Blob | SubTree | OtherKind

  /** One entry of a recursive tree listing; `Pathless` is an entry with no `path` key. */
  datatype TreeEntry = Entry(path: string, kind: EntryKind) | Pathless

  /** A tree listing; a body without `tree` reads as an empty listing. */
  datatype TreeResponse = TreeFailed | TreeOk(entries: seq<TreeEntry>)

  /**
    A file's contents request: failed (request error, or a payload that is not valid
    base64 of UTF-8 text), answered without a `content` field, or decoded text.
  */
  datatype ContentResponse = FileFailed | NoContent | Text(text: string)

  /**
    The upstream API. `repoMeta` takes the attempt number: 0 for the first metadata
    request, 1 for the re-request made by the error handlers, so the two may differ.
    `parseDate` is ISO 8601 parsing, an abstract partial function onto an ordered
    time line on which 0 is the earliest instant.
  */
  datatype Api = Api(
    search: (string, nat, nat) -> SearchResponse,
    repoMeta: (string, string, nat) -> MetaResponse,
    branchList: (string, string) -> BranchesResponse,
    commit: string -> CommitResponse,
    tree: (string, string, string) -> TreeResponse,
    content: (string, string, string) -> ContentResponse,
    parseDate: string -> Option<nat>)

  /** A repository as the search yields it: `(owner, name)`. */
  datatype RepoRef = RepoRef(owner: string, name: string)
}
