/**
  Per-repository extraction (`fetch_java_files`): list the branch's tree, require
  a `src/main/` entry, fetch every `.java` entry under `src/main/` in tree order and
  build the corpus `text_1 + SEP + text_2 + SEP + ...` from the files that have
  content. Any failed request, undecodable payload or entry without a path
  abandons the whole repository.
*/
module Extract {
  import opened Wrappers
  import opened Text
  import opened GitHub
  import opened Ledger
  import opened Branches

  /** `SEPARATOR_TOKEN`: two newlines, 50 "=", " FILE SEPARATOR ", 50 "=", two newlines. */
  function Separator(): (sep: string)
    ensures |sep| == 120
  {
    "\n\n" + Repeat('=', 50) + " FILE SEPARATOR " + Repeat('=', 50) + "\n\n"
  }

  const SourceRoot := "src/main/"

  /** The path filter of the extraction loop; the entry's type is not consulted. */
  predicate IsJavaSource(path: string)
  {
    StartsWith(path, SourceRoot) && EndsWith(path, ".java")
  }

  /**
    `any(file['path'].startswith("src/main/") for file in tree)`: scanning stops at the
    first source-root entry; an entry without a path met before it raises (None).
  */
  function HasSourceRoot(entries: seq<TreeEntry>): (r: Option<bool>)
    ensures r == Some(false) <==>
              forall i :: 0 <= i < |entries| ==> entries[i].Entry? && !StartsWith(entries[i].path, SourceRoot)
    ensures r == Some(true) <==>
              exists i :: 0 <= i < |entries| && entries[i].Entry? && StartsWith(entries[i].path, SourceRoot) &&
                          forall j :: 0 <= j < i ==> entries[j].Entry?
  {
    if entries == [] then Some(false)
    else match entries[0]
      case Pathless => None
      case Entry(path, _) =>
        if StartsWith(path, SourceRoot) then Some(true)
        else
          var rest := HasSourceRoot(entries[1..]);
          assert forall i :: 1 <= i < |entries| ==> entries[i] == entries[1..][i - 1];
          assert rest == Some(true) ==>
                   (exists i :: 0 <= i < |entries| && entries[i].Entry? && StartsWith(entries[i].path, SourceRoot) &&
                                forall j :: 0 <= j < i ==> entries[j].Entry?);
          rest
  }

  /** The state of the extraction loop: abandoned, or the corpus so far and whether a file was added. */
  datatype ScanState = Halted | Partial(corpus: string, found: bool)

  /** One iteration of the extraction loop over tree entry `e`. */
  function ScanStep(api: Api, owner: string, repo: string, state: ScanState, e: TreeEntry): ScanState
  {
    match state
    case Halted => Halted
    case Partial(corpus, found) =>
      match e
      case Pathless => Halted
      case Entry(path, _) =>
        if !IsJavaSource(path) then state
        else match api.content(owner, repo, path)
          case FileFailed => Halted
          case NoContent => state
          case Text(text) => Partial(corpus + text + Separator(), true)
  }

  /** The extraction loop run over `entries`, in tree order. */
  function Scan(api: Api, owner: string, repo: string, entries: seq<TreeEntry>): ScanState
  {
    if entries == [] then Partial("", false)
    else ScanStep(api, owner, repo, Scan(api, owner, repo, entries[..|entries| - 1]), entries[|entries| - 1])
  }

  /** Once the loop has abandoned the repository, further entries change nothing. */
  lemma {:induction false} ScanHaltedStays(api: Api, owner: string, repo: string, entries: seq<TreeEntry>, k: nat)
    requires k <= |entries|
    requires Scan(api, owner, repo, entries[..k]) == Halted
    ensures Scan(api, owner, repo, entries) == Halted
  {
    if k < |entries| {
      assert entries[..|entries| - 1][..k] == entries[..k];
      ScanHaltedStays(api, owner, repo, entries[..|entries| - 1], k);
    } else {
      assert entries[..k] == entries;
    }
  }

  // ---------------------------------------------------------------------------
  // What the loop computes, stated without the loop

  /** The paths the extraction selects, in tree order. */
  function JavaPaths(entries: seq<TreeEntry>): seq<string>
  {
    if entries == [] then []
    else
      var e := entries[|entries| - 1];
      JavaPaths(entries[..|entries| - 1]) + (if e.Entry? && IsJavaSource(e.path) then [e.path] else [])
  }

  /** The texts of those selected paths whose contents response carries content, in order. */
  function Texts(api: Api, owner: string, repo: string, paths: seq<string>): seq<string>
  {
    if paths == [] then []
    else
      var response := api.content(owner, repo, paths[|paths| - 1]);
      Texts(api, owner, repo, paths[..|paths| - 1]) + (if response.Text? then [response.text] else [])
  }

  function SumLengths(texts: seq<string>): nat
  {
    if texts == [] then 0 else SumLengths(texts[..|texts| - 1]) + |texts[|texts| - 1]|
  }

  /** Each text followed by the separator, concatenated. */
  function Join(texts: seq<string>): (r: string)
    ensures |r| == SumLengths(texts) + 120 * |texts|
    ensures texts != [] ==> EndsWith(r, Separator())
  {
    if texts == [] then "" else Join(texts[..|texts| - 1]) + texts[|texts| - 1] + Separator()
  }

  /** Some entry makes the extraction give up: it has no path, or it is selected and its fetch fails. */
  predicate Broken(api: Api, owner: string, repo: string, entries: seq<TreeEntry>)
  {
    exists i :: 0 <= i < |entries| && BreaksAt(api, owner, repo, entries[i])
  }

  predicate BreaksAt(api: Api, owner: string, repo: string, e: TreeEntry)
  {
    e.Pathless? || (IsJavaSource(e.path) && api.content(owner, repo, e.path).FileFailed?)
  }

  /** What the extraction loop yields, described without the loop. */
  function Expected(api: Api, owner: string, repo: string, entries: seq<TreeEntry>): ScanState
  {
    if Broken(api, owner, repo, entries) then Halted
    else
      var texts := Texts(api, owner, repo, JavaPaths(entries));
      Partial(Join(texts), texts != [])
  }

  lemma BrokenAppend(api: Api, owner: string, repo: string, init: seq<TreeEntry>, e: TreeEntry)
    ensures Broken(api, owner, repo, init + [e]) <==> Broken(api, owner, repo, init) || BreaksAt(api, owner, repo, e)
  {
    var entries := init + [e];
    assert forall i :: 0 <= i < |init| ==> entries[i] == init[i];
    assert entries[|init|] == e;
  }

  lemma JavaPathsAppendOne(init: seq<TreeEntry>, e: TreeEntry)
    ensures JavaPaths(init + [e]) == JavaPaths(init) + (if e.Entry? && IsJavaSource(e.path) then [e.path] else [])
  {
  }


  lemma TextsAppendOne(api: Api, owner: string, repo: string, paths: seq<string>, p: string)
    ensures Texts(api, owner, repo, paths + [p]) ==
            Texts(api, owner, repo, paths) + (if api.content(owner, repo, p).Text? then [api.content(owner, repo, p).text] else [])
  {
  }


  lemma JoinAppendOne(texts: seq<string>, t: string)
    ensures Join(texts + [t]) == Join(texts) + t + Separator()
  {
  }


  /** The description takes one more entry exactly as one iteration of the loop does. */
  lemma ExpectedStep(api: Api, owner: string, repo: string, init: seq<TreeEntry>, e: TreeEntry)
    ensures Expected(api, owner, repo, init + [e]) == ScanStep(api, owner, repo, Expected(api, owner, repo, init), e)
  {
    BrokenAppend(api, owner, repo, init, e);
    if !Broken(api, owner, repo, init + [e]) {
      assert !Broken(api, owner, repo, init) && e.Entry?;
      JavaPathsAppendOne(init, e);
      var before := Texts(api, owner, repo, JavaPaths(init));
      assert Expected(api, owner, repo, init) == Partial(Join(before), before != []);
      if !IsJavaSource(e.path) {
        assert JavaPaths(init + [e]) == JavaPaths(init);
      } else {
        assert JavaPaths(init + [e]) == JavaPaths(init) + [e.path];
        TextsAppendOne(api, owner, repo, JavaPaths(init), e.path);
        var response := api.content(owner, repo, e.path);
        if response.Text? {
          ExpectedStepText(api, owner, repo, init, e, before, response.text);
        } else {
          assert response.NoContent?;
          assert Texts(api, owner, repo, JavaPaths(init + [e])) == before;
        }
      }
    }
  }

  lemma ExpectedStepText(api: Api, owner: string, repo: string, init: seq<TreeEntry>, e: TreeEntry,
                         before: seq<string>, text: string)
    requires !Broken(api, owner, repo, init + [e])
    requires Texts(api, owner, repo, JavaPaths(init + [e])) == before + [text]
    ensures Expected(api, owner, repo, init + [e]) == Partial(Join(before) + text + Separator(), true)
  {
  }


  /**
    The loop abandons the repository exactly when some entry breaks it; otherwise the
    corpus is the join of the texts of the selected files with content, in tree
    order, and a file was found exactly when there is at least one such text.
  */
  lemma {:induction false} ScanMeaning(api: Api, owner: string, repo: string, entries: seq<TreeEntry>)
    ensures Scan(api, owner, repo, entries) == Expected(api, owner, repo, entries)
  {
    if entries != [] {
      var init, e := entries[..|entries| - 1], entries[|entries| - 1];
      assert entries == init + [e];
      ScanMeaning(api, owner, repo, init);
      ExpectedStep(api, owner, repo, init, e);
    } else {
      assert !Broken(api, owner, repo, entries);
    }
  }

  /** Selection keeps tree order: the selected paths of a concatenation are concatenated. */
  lemma {:induction false} JavaPathsAppend(a: seq<TreeEntry>, b: seq<TreeEntry>)
    ensures JavaPaths(a + b) == JavaPaths(a) + JavaPaths(b)
  {
    if b != [] {
      JavaPathsAppend(a, b[..|b| - 1]);
      assert (a + b)[..|a + b| - 1] == a + b[..|b| - 1];
    } else {
      assert a + b == a;
    }
  }

  /** A path is selected exactly when some entry carries it and it passes the filter. */
  lemma {:induction false} JavaPathsMembership(entries: seq<TreeEntry>, p: string)
    ensures p in JavaPaths(entries) <==>
            IsJavaSource(p) && exists i :: 0 <= i < |entries| && entries[i].Entry? && entries[i].path == p
  {
    if entries != [] {
      var init := entries[..|entries| - 1];
      JavaPathsMembership(init, p);
      assert forall i :: 0 <= i < |init| ==> init[i] == entries[i];
      if exists i :: 0 <= i < |entries| && entries[i].Entry? && entries[i].path == p {
        var i :| 0 <= i < |entries| && entries[i].Entry? && entries[i].path == p;
        if i < |init| {
          assert init[i].Entry? && init[i].path == p;
        }
      }
    }
  }

  /** Among `src/main/Foo.java`, `src/test/Bar.java` and `README.md` only the first is selected. */
  lemma SelectionExample()
    ensures JavaPaths([Entry("src/main/Foo.java", Blob), Entry("src/test/Bar.java", Blob), Entry("README.md", Blob)])
            == ["src/main/Foo.java"]
  {
    var foo, bar, readme := Entry("src/main/Foo.java", Blob), Entry("src/test/Bar.java", Blob), Entry("README.md", Blob);
    assert "src/main/Foo.java"[..9] == SourceRoot;
    assert "src/main/Foo.java"[12..] == ".java";
    assert "src/test/Bar.java"[..9][4] == 't';
    assert "README.md"[..9][0] == 'R';
    assert [foo, bar, readme][..2] == [foo, bar];
    assert [foo, bar][..1] == [foo];
    assert [foo][..0] == [];
    assert JavaPaths([foo]) == ["src/main/Foo.java"];
    assert JavaPaths([foo, bar]) == ["src/main/Foo.java"];
  }

  /** Two files "A" and "B" give "A" + SEP + "B" + SEP: the separator also ends the corpus. */
  lemma TwoFileCorpus()
    ensures Join(["A", "B"]) == "A" + Separator() + "B" + Separator()
  {
  }


  // ---------------------------------------------------------------------------
  // One repository

  /** How processing one repository ends. */
  datatype Outcome =
    | AlreadySeen      // its key was in the ledger: no request made
    | TreeUnavailable  // the tree listing failed
    | NoSourceRoot     // no tree path starts with "src/main/"
    | Abandoned        // an entry without a path, or a failed or undecodable file
    | NoJavaFiles      // no selected file had content: nothing written
    | Saved(corpus: string)  // the corpus written to owner_repo.txt

  /** The outcome of processing a repository that is not in the ledger. */
  function FreshOutcome(api: Api, policy: BranchPolicy, owner: string, repo: string): Outcome
  {
    var branch := ResolveBranch(policy, api, owner, repo);
    match api.tree(owner, repo, branch)
    case TreeFailed => TreeUnavailable
    case TreeOk(entries) =>
      match HasSourceRoot(entries)
      case None => Abandoned
      case Some(false) => NoSourceRoot
      case Some(true) =>
        match Scan(api, owner, repo, entries)
        case Halted => Abandoned
        case Partial(corpus, found) => if found then Saved(corpus) else NoJavaFiles
  }

  /** `fetch_java_files` as a value: a repository already in the ledger is skipped outright. */
  function ExtractRepo(api: Api, policy: BranchPolicy, seen: set<string>, owner: string, repo: string): Outcome
  {
    if FullName(owner, repo) in seen then AlreadySeen else FreshOutcome(api, policy, owner, repo)
  }

  /**
    A repository is saved exactly when its tree lists, has a source-root entry, breaks on
    no entry, and at least one selected file has content; the corpus is then the join of
    those texts in tree order, at least one separator long and ending in the separator.
  */
  lemma SavedMeaning(api: Api, policy: BranchPolicy, owner: string, repo: string)
    ensures var listing := api.tree(owner, repo, ResolveBranch(policy, api, owner, repo));
            FreshOutcome(api, policy, owner, repo).Saved? <==>
              && listing.TreeOk?
              && HasSourceRoot(listing.entries) == Some(true)
              && !Broken(api, owner, repo, listing.entries)
              && Texts(api, owner, repo, JavaPaths(listing.entries)) != []
    ensures var listing := api.tree(owner, repo, ResolveBranch(policy, api, owner, repo));
            FreshOutcome(api, policy, owner, repo).Saved? ==>
              && FreshOutcome(api, policy, owner, repo).corpus == Join(Texts(api, owner, repo, JavaPaths(listing.entries)))
              && |FreshOutcome(api, policy, owner, repo).corpus| >= 120
              && EndsWith(FreshOutcome(api, policy, owner, repo).corpus, Separator())
  {
    var listing := api.tree(owner, repo, ResolveBranch(policy, api, owner, repo));
    if listing.TreeOk? {
      ScanMeaning(api, owner, repo, listing.entries);
    }
  }
}
