/**
  The collector's driver (`main`): load the ledger from the output directory,
  gather the search results, and run the per-repository extraction on each of
  them in order, writing `owner_repo.txt` and growing the ledger on success.
*/
module Driver {
  import opened Text
  import opened GitHub
  import opened Ledger
  import opened Search
  import opened Branches
  import opened Extract

  const ApiQuery := "reefscape in:name OR crescendo in:name OR chargedup in:name OR charged-up in:name OR rapidreact in:name OR rapid-react in:name"
  const PerPage: nat := 50
  const Pages: nat := 1

  /** The ledger and the output directory (file name to file text). */
  datatype State = State(seen: set<string>, dir: map<string, string>)

  /** The effect of one repository's outcome: a saved corpus is written and its key recorded. */
  function Record(st: State, owner: string, repo: string, outcome: Outcome): State
  {
    if outcome.Saved? then State(st.seen + {FullName(owner, repo)}, st.dir[OutputName(owner, repo) := outcome.corpus])
    else st
  }

  /** Processing one search result against the current state. */
  function Visit(api: Api, policy: BranchPolicy, st: State, r: RepoRef): State
  {
    Record(st, r.owner, r.name, ExtractRepo(api, policy, st.seen, r.owner, r.name))
  }

  /** The driver loop over `repos`, in order; the ledger and the directory only grow. */
  function RunFrom(api: Api, policy: BranchPolicy, st: State, repos: seq<RepoRef>): (r: State)
    ensures st.seen <= r.seen && st.dir.Keys <= r.dir.Keys
  {
    if repos == [] then st
    else Visit(api, policy, RunFrom(api, policy, st, repos[..|repos| - 1]), repos[|repos| - 1])
  }

  lemma RunFromStep(api: Api, policy: BranchPolicy, st: State, repos: seq<RepoRef>, i: nat)
    requires i < |repos|
    ensures RunFrom(api, policy, st, repos[..i + 1]) == Visit(api, policy, RunFrom(api, policy, st, repos[..i]), repos[i])
  {
    assert repos[..i + 1][..i] == repos[..i];
  }

  /** Running over `a + b` is running over `a`, then over `b`. */
  lemma {:induction false} RunFromAppend(api: Api, policy: BranchPolicy, st: State, a: seq<RepoRef>, b: seq<RepoRef>)
    ensures RunFrom(api, policy, st, a + b) == RunFrom(api, policy, RunFrom(api, policy, st, a), b)
  {
    if b == [] {
      assert a + b == a;
    } else {
      assert (a + b)[..|a + b| - 1] == a + b[..|b| - 1];
      RunFromAppend(api, policy, st, a, b[..|b| - 1]);
    }
  }

  /** Every result in `repos` is either in the ledger or would not be saved by processing it now. */
  ghost predicate Settled(api: Api, policy: BranchPolicy, st: State, repos: seq<RepoRef>)
  {
    forall i :: 0 <= i < |repos| ==>
      FullName(repos[i].owner, repos[i].name) in st.seen || !FreshOutcome(api, policy, repos[i].owner, repos[i].name).Saved?
  }

  /** After a run, every result of the run is settled. */
  lemma {:induction false} RunSettles(api: Api, policy: BranchPolicy, st: State, repos: seq<RepoRef>)
    ensures Settled(api, policy, RunFrom(api, policy, st, repos), repos)
  {
    if repos != [] {
      var init, last := repos[..|repos| - 1], repos[|repos| - 1];
      RunSettles(api, policy, st, init);
      var mid := RunFrom(api, policy, st, init);
      var after := RunFrom(api, policy, st, repos);
      assert after == Visit(api, policy, mid, last);
      forall i | 0 <= i < |repos|
        ensures FullName(repos[i].owner, repos[i].name) in after.seen ||
                !FreshOutcome(api, policy, repos[i].owner, repos[i].name).Saved?
      {
        if i < |init| {
          assert repos[i] == init[i];
        }
      }
    }
  }

  /** A run over settled results changes nothing. */
  lemma {:induction false} SettledRunChangesNothing(api: Api, policy: BranchPolicy, st: State, repos: seq<RepoRef>)
    requires Settled(api, policy, st, repos)
    ensures RunFrom(api, policy, st, repos) == st
  {
    if repos != [] {
      var init := repos[..|repos| - 1];
      assert forall i :: 0 <= i < |init| ==> repos[i] == init[i];
      SettledRunChangesNothing(api, policy, st, init);
      var last := repos[|repos| - 1];
      assert FullName(last.owner, last.name) in st.seen || !FreshOutcome(api, policy, last.owner, last.name).Saved?;
    }
  }

  /** Running the driver a second time over the same results, in the same process, changes nothing. */
  lemma RunTwiceIsRunOnce(api: Api, policy: BranchPolicy, st: State, repos: seq<RepoRef>)
    ensures RunFrom(api, policy, RunFrom(api, policy, st, repos), repos) == RunFrom(api, policy, st, repos)
  {
    RunSettles(api, policy, st, repos);
    SettledRunChangesNothing(api, policy, RunFrom(api, policy, st, repos), repos);
  }

  /** The in-memory ledger is exactly the ledger the output directory stands for. */
  ghost predicate LedgerMatchesDirectory(st: State)
  {
    st.seen == LedgerOf(st.dir.Keys)
  }

  ghost predicate OwnersWithoutUnderscore(repos: seq<RepoRef>)
  {
    forall i :: 0 <= i < |repos| ==> '_' !in repos[i].owner
  }

  /** When no owner contains "_", a run keeps the ledger equal to the one its directory stands for. */
  lemma {:induction false} RunKeepsLedger(api: Api, policy: BranchPolicy, st: State, repos: seq<RepoRef>)
    requires LedgerMatchesDirectory(st) && OwnersWithoutUnderscore(repos)
    ensures LedgerMatchesDirectory(RunFrom(api, policy, st, repos))
  {
    if repos != [] {
      var init := repos[..|repos| - 1];
      assert forall i :: 0 <= i < |init| ==> repos[i] == init[i];
      RunKeepsLedger(api, policy, st, init);
      var mid := RunFrom(api, policy, st, init);
      var last := repos[|repos| - 1];
      if ExtractRepo(api, policy, mid.seen, last.owner, last.name).Saved? {
        LedgerOfAddedFile(mid.dir.Keys, last.owner, last.name);
        assert mid.dir[OutputName(last.owner, last.name) := ExtractRepo(api, policy, mid.seen, last.owner, last.name).corpus].Keys
               == mid.dir.Keys + {OutputName(last.owner, last.name)};
      }
    }
  }

  /**
    Restarting the collector on the directory a run left behind, against the same
    upstream answers, writes nothing and ends in the same ledger and directory.
  */
  lemma RestartIsIdempotent(api: Api, policy: BranchPolicy, st: State, repos: seq<RepoRef>)
    requires LedgerMatchesDirectory(st) && OwnersWithoutUnderscore(repos)
    ensures var after := RunFrom(api, policy, st, repos);
            RunFrom(api, policy, State(LedgerOf(after.dir.Keys), after.dir), repos) == after
  {
    var after := RunFrom(api, policy, st, repos);
    RunKeepsLedger(api, policy, st, repos);
    assert State(LedgerOf(after.dir.Keys), after.dir) == after;
    RunTwiceIsRunOnce(api, policy, st, repos);
  }

  /** A search result listed twice is saved at most once: its later occurrence is never saved. */
  lemma RepeatIsNeverSaved(api: Api, policy: BranchPolicy, st: State, repos: seq<RepoRef>, i: nat, j: nat)
    requires i < j < |repos| && repos[i] == repos[j]
    ensures !ExtractRepo(api, policy, RunFrom(api, policy, st, repos[..j]).seen, repos[j].owner, repos[j].name).Saved?
  {
    RunSettles(api, policy, st, repos[..i + 1]);
    assert repos[..j] == repos[..i + 1] + repos[i + 1..j];
    RunFromAppend(api, policy, st, repos[..i + 1], repos[i + 1..j]);
    assert repos[..i + 1][i] == repos[j];
  }

  /** Every file a run writes holds a non-empty corpus that ends in the separator. */
  lemma {:induction false} WrittenFilesEndInSeparator(api: Api, policy: BranchPolicy, st: State, repos: seq<RepoRef>)
    ensures var after := RunFrom(api, policy, st, repos);
            forall f :: f in after.dir ==>
              (f in st.dir && after.dir[f] == st.dir[f]) || (|after.dir[f]| >= 120 && EndsWith(after.dir[f], Separator()))
  {
    if repos != [] {
      var init := repos[..|repos| - 1];
      WrittenFilesEndInSeparator(api, policy, st, init);
      var mid := RunFrom(api, policy, st, init);
      var last := repos[|repos| - 1];
      if !(FullName(last.owner, last.name) in mid.seen) {
        SavedMeaning(api, policy, last.owner, last.name);
      }
    }
  }

  class Pipeline {
    const policy: BranchPolicy
    var seen: set<string>
    var dir: map<string, string>

    /** Start-up: the output directory as found, and the ledger rebuilt from its file names. */
    constructor (policy: BranchPolicy, existing: map<string, string>)
      ensures this.policy == policy
      ensures dir == existing && seen == LedgerOf(existing.Keys)
    {
      var loaded := LoadSeenRepos(existing.Keys);
      this.policy := policy;
      dir := existing;
      seen := loaded;
    }

    /** `fetch_java_files` for one search result. */
    method ProcessRepo(api: Api, owner: string, repo: string) returns (outcome: Outcome)
      modifies this
      ensures outcome == ExtractRepo(api, policy, old(seen), owner, repo)
      ensures State(seen, dir) == Record(old(State(seen, dir)), owner, repo, outcome)
    {
      var fullName := FullName(owner, repo);
      if fullName in seen {
        return AlreadySeen;
      }
      var branch := ResolveBranch(policy, api, owner, repo);
      var listing := api.tree(owner, repo, branch);
      if listing.TreeFailed? {
        return TreeUnavailable;
      }
      var entries := listing.entries;
      var root := HasSourceRoot(entries);
      if root.None? {
        return Abandoned;
      }
      if !root.value {
        return NoSourceRoot;
      }
      var corpus := "";
      var found := false;
      var i := 0;
      while i < |entries|
        invariant 0 <= i <= |entries|
        invariant Scan(api, owner, repo, entries[..i]) == Partial(corpus, found)
      {
        var e := entries[i];
        assert entries[..i + 1] == entries[..i] + [e];
        assert entries[..i + 1][..i] == entries[..i];
        if e.Pathless? {
          ScanHaltedStays(api, owner, repo, entries, i + 1);
          return Abandoned;
        }
        if IsJavaSource(e.path) {
          var response := api.content(owner, repo, e.path);
          if response.FileFailed? {
            ScanHaltedStays(api, owner, repo, entries, i + 1);
            return Abandoned;
          }
          if response.Text? {
            corpus := corpus + response.text + Separator();
            found := true;
          }
        }
        i := i + 1;
      }
      assert entries[..i] == entries;
      if found {
        dir := dir[OutputName(owner, repo) := corpus];
        seen := seen + {fullName};
        return Saved(corpus);
      }
      return NoJavaFiles;
    }

    /** `main` after start-up: gather the search results and process each in order. */
    method Run(api: Api) returns (repos: seq<RepoRef>)
      modifies this
      ensures repos == Gathered(api, ApiQuery, PerPage, Pages)
      ensures State(seen, dir) == RunFrom(api, policy, old(State(seen, dir)), repos)
    {
      ghost var start := State(seen, dir);
      repos := FetchRepositories(api, ApiQuery, PerPage, Pages);
      var i := 0;
      while i < |repos|
        invariant 0 <= i <= |repos|
        invariant State(seen, dir) == RunFrom(api, policy, start, repos[..i])
      {
        RunFromStep(api, policy, start, repos, i);
        var outcome := ProcessRepo(api, repos[i].owner, repos[i].name);
        i := i + 1;
      }
      assert repos[..i] == repos;
    }
  }
}
