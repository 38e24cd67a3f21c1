# A verified model of the frc-gpt dataset collector

`generate_dataset.py` builds a training corpus of Java code. It has five parts:

- It searches GitHub for repositories, page by page.
- It resolves a branch for each repository.
- It lists that branch's tree.
- It fetches every `.java` file under `src/main/`.
- It writes the files' texts, each followed by a fixed separator token, to `data/owner_repo.txt`.

A ledger of `owner/repo` keys is rebuilt at start-up from the names of the files already in `data/`. Repositories in the ledger are skipped, so a re-run resumes where the last one stopped.

The model replaces every GitHub endpoint by a deterministic oracle (module `GitHub`, datatype `Api`). Each oracle is a total function from a request to the answer the collector can observe: a failed request, or the few JSON fields the collector reads. The output directory is a `map<string, string>` from file name to file text.

The modules are:

- `Text`: `startswith`, `endswith`, string repetition and the first-occurrence split.
- `Ledger`: file names and keys, and `load_seen_repos`.
- `Search`: `fetch_repositories`.
- `Branches`: `get_default_branch`, both as the program behaves and with its `datetime` import corrected.
- `Extract`: the separator, the path filter and the body of `fetch_java_files` as a specification.
- `Driver`: the class `Pipeline` holds the ledger and the directory. It has the per-repository method with its extraction loop and the `main` loop. `Driver` also holds the lemmas about whole runs.

The central results:

- **Ledger file names.** Decoding the output file name gives back the repository key whenever the owner has no `_`. Conversely, every name that decodes is such an output name.
- **Extraction loop.** The loop is characterised without the loop. It gives up exactly when some entry has no path, or a selected file's request fails. Otherwise the corpus is the texts of the selected files with content, in tree order, each followed by the 120-character separator.
- **Idempotence.** After a run, running again over the same search results writes nothing. Restarting from the directory the run left behind also writes nothing.
- **Repeated results.** A repository listed twice is never saved twice.

**Which branch rule the driver uses.** The source imports the `datetime` *module* (line 2). Because of that, `datetime.fromisoformat` (line 132) and `datetime.min` (line 137) raise `AttributeError` on the first sort key. Neither `except` at lines 133 and 135 catches it. It escapes to the catch-all handler (lines 166-184), which re-requests the metadata and otherwise returns `"main"`. CPython computes the key of every element, even for a one-element list, so *any* non-empty branch list takes this path. `Branches.GetDefaultBranch` models this literal behaviour. `Branches.IntendedDefaultBranch` models the program with the import corrected: the most recently committed branch, first listed among equals. `Pipeline` is built with a `BranchPolicy`:

- `AsWritten` runs `GetDefaultBranch`. That is the program as it stands.
- `Intended` runs the corrected rule.

Every lemma about runs holds for both policies.

In three places the model follows the code:

- A failed metadata request does not lead to the branch listing, although the docstring of `get_default_branch` (lines 89-92) says an error does. The `raise_for_status` at line 100 jumps to the handler at lines 147-165: the metadata is re-requested, else `"main"`.
- A failed or undecodable file abandons the whole repository. The file is not simply skipped.
- The corpus ends with a separator. There is one separator after every file, including the last, as in `data/Alwalaswarnaraj_TrainReservationSystem-.java`.

## Model

| member | source | states |
|---|---|---|
| `Ledger.LoadSeenRepos` | generate_dataset.py:38-56 | the loop over the directory listing yields exactly the keys its file names decode to |
| `Ledger.DecodeOutputName` | generate_dataset.py:49-55 | the name written for `owner/repo` decodes back to `owner/repo` when the owner has no "_"; repository names with "_" decode correctly |
| `Ledger.DecodedNameIsOutputName` | generate_dataset.py:49-55 | every decoded name is `owner_repo.txt` for an underscore-free owner and decodes to `owner/repo` |
| `Ledger.LedgerOfAddedFile` | generate_dataset.py:236-241 | writing `owner_repo.txt` adds exactly `owner/repo` to the ledger the directory stands for |
| `Ledger.JavaNamedCorpusIsNotLedger` | generate_dataset.py:50 | the shipped corpus file, named `.java`, is not counted as seen |
| `Search.PageRepos` | generate_dataset.py:80-81 | a page contributes its items in API order up to, and not including, the first item lacking `owner.login` or `name` |
| `Search.FetchRepositories` | generate_dataset.py:58-85 | the page loop returns the contributions of pages 1..pages concatenated in page order, a failed page contributing nothing |
| `Search.GatheredMembership` | generate_dataset.py:70-85 | a repository is returned iff some page 1..pages contributes it, so a failed page loses nothing from other pages |
| `Search.GatheredPrefix` | generate_dataset.py:71-81 | results of earlier pages come first and are never removed by later pages |
| `Branches.Fallback` | generate_dataset.py:147-184 | both error handlers yield the re-requested default branch when it is truthy, else "main", never "" |
| `Branches.GetDefaultBranch` | generate_dataset.py:87-184 | never yields ""; a truthy metadata default wins; an empty branch list gives "main"; on a failed metadata request, a failed branch listing or a non-empty list, the re-requested truthy default is returned if there is one; otherwise only "main" or a metadata default is returned, never a branch chosen by date |
| `Branches.MetadataDefaultDecides` | generate_dataset.py:96-106 | with a truthy metadata default, both rules return it whatever the branch-list, commit and date oracles say (those requests are not made) |
| `Branches.SortByRecencySorts` | generate_dataset.py:140 | the stable descending sort by commit key orders newest first and is a permutation |
| `Branches.FirstNewest` | generate_dataset.py:140-143 | the index of a branch with the maximal key, every earlier branch having a strictly smaller key |
| `Branches.SortHeadIsFirstNewest` | generate_dataset.py:140-143 | the head of the stable newest-first sort is that first newest branch |
| `Branches.IntendedPicksFirstNewest` | generate_dataset.py:110-145 | under the corrected rule, with no default branch and a non-empty list, the result is a branch of maximal commit key (committer date, else author date, else earliest), first listed among equals |
| `Branches.AsWrittenAgreesOutsideRecency` | generate_dataset.py:96-145 | the program and the corrected rule agree except when the metadata has no default and the branch list is non-empty |
| `Branches.AsWrittenMissesNewestBranch` | generate_dataset.py:130-137 | on branches A (2023-01-01) and B (2024-06-01) without a default, the corrected rule picks B and the program returns "main" |
| `Extract.Separator` | generate_dataset.py:15 | the separator token is 120 characters long, the figure behind every corpus length stated below |
| `Extract.HasSourceRoot` | generate_dataset.py:215 | the source-root test is true iff some entry's path starts with "src/main/" and every entry before it has a path, false iff every entry has a path and none starts so |
| `Extract.Join` | generate_dataset.py:232 | the corpus of n texts has their total length plus 120·n characters and, if non-empty, ends with the separator |
| `Extract.ScanHaltedStays` | generate_dataset.py:227-228 | once the loop abandons the repository, later entries cannot revive it |
| `Extract.ScanMeaning` | generate_dataset.py:221-234 | the extraction loop gives up iff some entry lacks a path or is a selected file whose request fails; otherwise its corpus is the join of the selected texts in tree order and it found a file iff there is at least one |
| `Extract.JavaPathsAppend` | generate_dataset.py:224-225 | selection keeps tree order: selecting from a concatenation concatenates the selections |
| `Extract.JavaPathsMembership` | generate_dataset.py:225 | a path is selected iff some entry carries it and it starts with "src/main/" and ends with ".java"; the entry type is not consulted |
| `Extract.SelectionExample` | generate_dataset.py:225 | of `src/main/Foo.java`, `src/test/Bar.java` and `README.md` only the first is selected |
| `Extract.TwoFileCorpus` | generate_dataset.py:232 | two files "A" and "B" give "A" + SEP + "B" + SEP |
| `Extract.SavedMeaning` | generate_dataset.py:209-243 | an unseen repository is saved iff its tree lists, has a source root, breaks on no entry and some selected file has content; the corpus is then that join, at least 120 characters long and ending in the separator |
| `Driver.RunFrom` | generate_dataset.py:264-265 | the driver loop never shrinks the ledger nor removes files |
| `Driver.Pipeline.constructor` | generate_dataset.py:256-257 | start-up keeps the directory and loads the ledger its file names stand for |
| `Driver.Pipeline.ProcessRepo` | generate_dataset.py:186-250 | the outcome is `Extract.ExtractRepo` on the ledger before the call; the file `owner_repo.txt` is written and `owner/repo` added exactly when the outcome is a saved corpus, and nothing else changes |
| `Driver.Pipeline.Run` | generate_dataset.py:252-265 | the driver processes the gathered search results in order, ending in the state `Driver.RunFrom` gives for the gathered list |
| `Driver.RunTwiceIsRunOnce` | generate_dataset.py:197-200 | a second pass over the same results, against the same upstream, changes neither ledger nor directory |
| `Driver.RunKeepsLedger` | generate_dataset.py:236-241 | when no owner contains "_", the in-memory ledger stays equal to the ledger the directory stands for |
| `Driver.RestartIsIdempotent` | generate_dataset.py:252-265 | restarting on the directory a run left behind writes nothing and ends in the same state |
| `Driver.RepeatIsNeverSaved` | generate_dataset.py:197-200 | a repository listed twice in the search results is never saved at its later occurrence |
| `Driver.WrittenFilesEndInSeparator` | generate_dataset.py:236-239 | every file a run writes holds at least 120 characters and ends in the separator |

## Findings

| source | as written | input that shows it | evidently intended | confidence | as-written member | corrected member |
|---|---|---|---|---|---|---|
| generate_dataset.py:2 | `import datetime` binds the module, so `datetime.fromisoformat` and `datetime.min` in the sort key raise AttributeError; the catch-all handler then returns the re-requested default or "main", so the most recent branch is never chosen | metadata without `default_branch` (also on re-request), branches A (committed 2023-01-01) and B (committed 2024-06-01) | `from datetime import datetime`, returning "B" | high; not executed | `Branches.AsWrittenMissesNewestBranch` | `Branches.IntendedPicksFirstNewest` |

## Left out

- HTTP transport is not modelled. This covers headers, the token check, `load_dotenv`, the request URLs and the unauthenticated requests of the branch resolver. Every endpoint is an oracle answer instead.
- Base64 and UTF-8 decoding are not modelled. A content response is either text or a failure.
- ISO 8601 parsing is an abstract partial function onto naturals, with 0 as the earliest instant.
- The oracles are deterministic, so the same request always gets the same answer. The one exception is the metadata request, which is indexed by attempt. This lets the error handlers' re-request differ from the first answer.
- Filesystem plumbing is left out: `create_directory`, `os.listdir` order and `os.path.join`. The directory is a map of file names, and the listing is its key set.
- Write errors are not modelled. In the source, a failing `open` or `write` is caught by the catch-all handler. In the model a write always succeeds.
- Logging `print` calls are left out.
- Malformed JSON shapes beyond those modelled are left out. A metadata body that is not an object raises AttributeError at line 103, which reaches the catch-all handler; on the re-request at line 175 the same AttributeError escapes, because that `except` catches only RequestException. `get_default_branch` is called at line 203, outside the `try` of `fetch_java_files`, so the whole run ends. `Branches.GetDefaultBranch` never fails only for the modelled shapes. A branch entry missing `commit.url` takes, under the as-written rule, the same catch-all path as every non-empty list.
- `Branches.IntendedDefaultBranch`: the rule is the program with its `datetime` import corrected. It keeps the program's handler for a failed metadata request (re-request, else `"main"`), whereas the docstring at lines 89-92 sends any error to the branch listing; that docstring reading is not modelled.
- `Branches.IntendedDefaultBranch`: the in-place `list.sort` is modelled on values, as the unique stable descending sort. The source calls the library sort and has no sort loop of its own.
- `Branches.IntendedDefaultBranch`: dates are naturals. A Python fix with aware parsed dates and a naive `datetime.min` would also fail on a list that mixes dated and undated branches. That comparison is not modelled.
- `Driver.RunKeepsLedger` and `Driver.RestartIsIdempotent` assume owners without "_". GitHub logins cannot contain "_". An owner with "_" would be written under a name that decodes to a different key.
- `train.py`, `app.py`, `ollama_conversion.py` and `src/extension.ts` are not part of this model. They are training, serving, conversion and editor code that only share the separator constant.
