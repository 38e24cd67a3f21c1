/**
  The ledger of processed repositories. Each processed repository leaves one
  output file `owner_repo.txt`; at start-up the set of `owner/repo` keys is
  rebuilt from the names of the files in the output directory.
*/
module Ledger {
  import opened Wrappers
  import opened Text

  /** The identity key of a repository, `f"{owner}/{repo_name}"`. */
  function FullName(owner: string, repo: string): string
  {
    owner + "/" + repo
  }

  /** The name of the output file written for a repository, `f"{owner}_{repo_name}.txt"`. */
  function OutputName(owner: string, repo: string): string
  {
    owner + "_" + repo + ".txt"
  }

  /**
    The key a file name stands for, if any: names ending in ".txt" that contain "_"
    lose the extension and are split at their first "_" into owner and repository.
  */
  function DecodeName(f: string): Option<string>
  {
    if EndsWith(f, ".txt") && '_' in f then
      var base := f[..|f| - 4];
      if '_' in base then
        var i := FirstIndex(base, '_');
        Some(FullName(base[..i], base[i + 1..]))
      else None
    else None
  }

  /** Decoding an output name gives back the repository's key whenever the owner has no "_". */
  lemma DecodeOutputName(owner: string, repo: string)
    requires '_' !in owner
    ensures DecodeName(OutputName(owner, repo)) == Some(FullName(owner, repo))
  {
    var f := OutputName(owner, repo);
    assert f[|f| - 4..] == ".txt";
    var base := f[..|f| - 4];
    assert base == owner + "_" + repo;
    assert base[|owner|] == '_';
    var i := FirstIndex(base, '_');
    assert base[..i] == owner;
    assert base[i + 1..] == repo;
  }

  /** Conversely, every name that decodes is the output name of the key it decodes to. */
  lemma DecodedNameIsOutputName(f: string)
    requires DecodeName(f).Some?
    ensures exists owner, repo :: '_' !in owner && f == OutputName(owner, repo) &&
                                  DecodeName(f) == Some(FullName(owner, repo))
  {
    var base := f[..|f| - 4];
    var i := FirstIndex(base, '_');
    var owner, repo := base[..i], base[i + 1..];
    assert base == owner + "_" + repo;
    assert f == base + ".txt";
    assert '_' !in owner && f == OutputName(owner, repo) && DecodeName(f) == Some(FullName(owner, repo));
  }

  /** The ledger a directory listing stands for. */
  function LedgerOf(names: set<string>): set<string>
  {
    set f | f in names && DecodeName(f).Some? :: DecodeName(f).value
  }

  /**
    Writing one more output file for a repository whose owner has no "_" adds
    exactly that repository's key to the ledger the directory stands for.
  */
  lemma LedgerOfAddedFile(names: set<string>, owner: string, repo: string)
    requires '_' !in owner
    ensures LedgerOf(names + {OutputName(owner, repo)}) == LedgerOf(names) + {FullName(owner, repo)}
  {
    DecodeOutputName(owner, repo);
  }

  /** The one corpus file kept in the repository ends in ".java", so it is no ledger entry. */
  lemma JavaNamedCorpusIsNotLedger()
    ensures DecodeName("Alwalaswarnaraj_TrainReservationSystem-.java") == None
  {
  }


  /** `load_seen_repos`: one pass over the directory listing, in whatever order it comes. */
  method LoadSeenRepos(names: set<string>) returns (seen: set<string>)
    ensures seen == LedgerOf(names)
  {
    seen := {};
    var rest := names;
    while rest != {}
      invariant rest <= names
      invariant seen == LedgerOf(names - rest)
      decreases rest
    {
      var f :| f in rest;
      match DecodeName(f) {
        case Some(key) => seen := seen + {key};
        case None =>
      }
      assert names - (rest - {f}) == (names - rest) + {f};
      rest := rest - {f};
    }
  }
}
