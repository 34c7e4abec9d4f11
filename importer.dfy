/** The `screenshots:import` console command: every file found under the import root
    becomes an entry keyed by its storage-relative path, titled with its file name
    without extension and tagged with the folders between the first path segment and
    the file. The filesystem is given as inputs: whether the root exists, the absolute
    public storage base, and the pathnames `File::allFiles` lists. */
module Importer {
  import opened PhpStrings
  import opened Catalog

  /** The command's outcome: `Command::FAILURE` when the root is missing, otherwise
      `Command::SUCCESS` with the count the success message reports. */
  datatype ImportResult = PathNotFound | Imported(reported: nat)

  /** The path stored for a file: every occurrence of the storage base removed
      (str_replace, not prefix removal), then every '\' turned into '/'. */
  function RelativePath(storageBase: string, pathname: string): (r: string)
    ensures '\\' !in r
  {
    NormalisedHasNoBackslash(StrReplace(pathname, storageBase, ""));
    StrReplace(StrReplace(pathname, storageBase, ""), "\\", "/")
  }

  /** The tag names of a relative path: the '/'-separated parts of its dirname with the
      first part dropped. */
  function DerivedTags(relativePath: string): seq<string>
  {
    Explode('/', Dirname(relativePath))[1..]
  }

  /** A file at `first/f1/…/fn/name` is tagged with exactly the folders `f1`, …, `fn`;
      a file directly inside `first` gets no tags. */
  lemma DerivedTagsAreFolders(first: string, folders: seq<string>, name: string)
    requires |first| > 0 && '/' !in first
    requires forall i :: 0 <= i < |folders| ==> |folders[i]| > 0 && '/' !in folders[i]
    requires |name| > 0 && '/' !in name
    ensures DerivedTags(Implode('/', [first] + folders) + "/" + name) == folders
  {
    var parts := [first] + folders;
    var dir := Implode('/', parts);
    var last := parts[|parts| - 1];
    assert |last| > 0 && '/' !in last by {
      if |folders| > 0 {
        assert last == folders[|folders| - 1];
      }
    }
    ImplodeEndsWithLast('/', parts);
    assert dir[|dir| - 1] == last[|last| - 1];
    DirnameOfChild(dir, name);
    ExplodeImplode('/', parts);
    assert parts[1..] == folders;
  }

  /** A file with no folder in its relative path (dirname ".") gets no tags. */
  lemma DerivedTagsOfBareName(name: string)
    requires |name| > 0 && '/' !in name
    ensures DerivedTags(name) == []
  {
    DirnameOfBareName(name);
    assert Implode('/', ["."]) == ".";
    ExplodeImplode('/', ["."]);
  }

  /** What the command does for one file it does not skip. */
  datatype Planned = Planned(title: string, path: string, tagNames: seq<string>)

  /** The entry the command would create for the file `pathname`. */
  function PlanFor(storageBase: string, pathname: string): Planned
  {
    var path := RelativePath(storageBase, pathname);
    Planned(FilenameWithoutExtension(pathname), path, DerivedTags(path))
  }

  /** The storage-relative path `first/f1/…/fn/stem.ext`. */
  function FilePath(first: string, folders: seq<string>, stem: string, ext: string): string
  {
    Implode('/', [first] + folders) + "/" + stem + "." + ext
  }

  /** A file under the storage base is stored under its path relative to the base, when
      the base does not occur again inside that path and the path has no backslash. */
  lemma RelativePathUnderBase(base: string, rest: string)
    requires |base| > 0 && !Occurs(rest, base) && '\\' !in rest
    ensures RelativePath(base, base + rest) == rest
  {
    StrReplaceRemovesBase(base, rest);
    StrReplaceCharIsPointwise(rest, '\\', '/');
    assert ReplaceChar(rest, '\\', '/') == rest;
  }

  /** A file `stem.ext` anywhere under the base is titled `stem`. */
  lemma TitleUnderBase(base: string, first: string, folders: seq<string>, stem: string, ext: string)
    requires '/' !in stem && '/' !in ext && '.' !in ext
    ensures FilenameWithoutExtension(base + FilePath(first, folders, stem, ext)) == stem
  {
    var folderPath := Implode('/', [first] + folders);
    var dir := base + folderPath;
    assert base + FilePath(first, folders, stem, ext) == dir + "/" + stem + "." + ext by {
      assert FilePath(first, folders, stem, ext) == folderPath + "/" + stem + "." + ext;
    }
    FilenameWithoutExtensionOf(dir, stem, ext);
  }

  /** The file at `first/f1/…/fn/stem.ext` is tagged `f1`, …, `fn`. */
  lemma TagsOfFilePath(first: string, folders: seq<string>, stem: string, ext: string)
    requires |first| > 0 && '/' !in first
    requires forall i :: 0 <= i < |folders| ==> |folders[i]| > 0 && '/' !in folders[i]
    requires '/' !in stem && '/' !in ext
    ensures DerivedTags(FilePath(first, folders, stem, ext)) == folders
  {
    var name := stem + "." + ext;
    assert FilePath(first, folders, stem, ext) == Implode('/', [first] + folders) + "/" + name;
    assert name[|stem|] == '.';
    assert '/' !in name by {
      assert forall i :: 0 <= i < |name| ==> name[i] == (if i < |stem| then stem[i] else if i == |stem| then '.' else ext[i - |stem| - 1]);
    }
    DerivedTagsAreFolders(first, folders, name);
  }

  /** End to end: the file `base/first/f1/…/fn/stem.ext` is planned as the entry titled
      `stem`, stored under `first/f1/…/fn/stem.ext` and tagged `f1`, …, `fn`. */
  lemma PlanForFileUnderBase(base: string, first: string, folders: seq<string>, stem: string, ext: string)
    requires |base| > 0
    requires |first| > 0 && '/' !in first
    requires forall i :: 0 <= i < |folders| ==> |folders[i]| > 0 && '/' !in folders[i]
    requires '/' !in stem && '/' !in ext && '.' !in ext
    requires !Occurs(FilePath(first, folders, stem, ext), base)
    requires '\\' !in FilePath(first, folders, stem, ext)
    ensures PlanFor(base, base + FilePath(first, folders, stem, ext))
      == Planned(stem, FilePath(first, folders, stem, ext), folders)
  {
    var rest := FilePath(first, folders, stem, ext);
    RelativePathUnderBase(base, rest);
    TitleUnderBase(base, first, folders, stem, ext);
    TagsOfFilePath(first, folders, stem, ext);
  }

  /** One candidate entry per listed file, in listing order. */
  function Candidates(storageBase: string, files: seq<string>): seq<Planned>
  {
    seq(|files|, i requires 0 <= i < |files| => PlanFor(storageBase, files[i]))
  }

  /** The candidates that get created when the table already holds the paths `existing`:
      one whose path is already present (from before or from earlier in the run) is
      skipped. */
  function Dedupe(existing: seq<string>, cands: seq<Planned>): seq<Planned>
    decreases |cands|
  {
    if |cands| == 0 then []
    else if cands[0].path in existing then Dedupe(existing, cands[1..])
    else [cands[0]] + Dedupe(existing + [cands[0].path], cands[1..])
  }

  /** The entries one run creates, in order. */
  function Plan(existing: seq<string>, storageBase: string, files: seq<string>): seq<Planned>
  {
    Dedupe(existing, Candidates(storageBase, files))
  }

  function PlanPaths(plan: seq<Planned>): seq<string>
  {
    seq(|plan|, k requires 0 <= k < |plan| => plan[k].path)
  }

  /** Every tag name some planned entry carries. */
  function PlanTagNames(plan: seq<Planned>): set<string>
  {
    set k, j | 0 <= k < |plan| && 0 <= j < |plan[k].tagNames| :: plan[k].tagNames[j]
  }

  predicate NoDuplicates(s: seq<string>)
  {
    forall i, j :: 0 <= i < j < |s| ==> s[i] != s[j]
  }

  /** The entry `e` is the one planned as `p`: its title, its path, and its tags resolve
      to exactly the derived names. */
  predicate Realises(e: Entry, p: Planned, registry: seq<Tag>)
  {
    && e.title == Some(p.title)
    && e.filePath == p.path
    && TagNames(e, registry) == set j | 0 <= j < |p.tagNames| :: p.tagNames[j]
  }

  /** Every created path is new: not present before and not created twice. */
  lemma {:induction false} DedupeKeepsPathsUnique(existing: seq<string>, cands: seq<Planned>)
    requires NoDuplicates(existing)
    ensures NoDuplicates(existing + PlanPaths(Dedupe(existing, cands)))
    decreases |cands|
  {
    if |cands| > 0 {
      var path := cands[0].path;
      if path in existing {
        DedupeKeepsPathsUnique(existing, cands[1..]);
      } else {
        var rest := Dedupe(existing + [path], cands[1..]);
        NoDuplicatesAppend(existing, path);
        DedupeKeepsPathsUnique(existing + [path], cands[1..]);
        assert PlanPaths([cands[0]] + rest) == [path] + PlanPaths(rest);
        assert existing + PlanPaths([cands[0]] + rest) == (existing + [path]) + PlanPaths(rest);
      }
    }
  }

  lemma NoDuplicatesAppend(s: seq<string>, x: string)
    requires NoDuplicates(s) && x !in s
    ensures NoDuplicates(s + [x])
  {
    forall i, j | 0 <= i < j < |s| + 1 ensures (s + [x])[i] != (s + [x])[j] {
      assert (s + [x])[i] == s[i];
    }
  }

  /** After a run, every candidate's path is in the table. */
  lemma {:induction false} DedupeCoversCandidates(existing: seq<string>, cands: seq<Planned>)
    ensures forall i :: 0 <= i < |cands| ==> cands[i].path in existing + PlanPaths(Dedupe(existing, cands))
    decreases |cands|
  {
    if |cands| > 0 {
      var path := cands[0].path;
      var after := existing + PlanPaths(Dedupe(existing, cands));
      var existing' := if path in existing then existing else existing + [path];
      DedupeCoversCandidates(existing', cands[1..]);
      if path !in existing {
        var rest := Dedupe(existing', cands[1..]);
        assert PlanPaths([cands[0]] + rest) == [path] + PlanPaths(rest);
        assert after == existing' + PlanPaths(rest);
      }
      forall i | 0 <= i < |cands| ensures cands[i].path in after {
        if i > 0 {
          assert cands[i] == cands[1..][i - 1];
        }
      }
    }
  }

  /** When every candidate's path is already present, a run creates nothing. */
  lemma {:induction false} DedupeNothingWhenAllPresent(existing: seq<string>, cands: seq<Planned>)
    requires forall i :: 0 <= i < |cands| ==> cands[i].path in existing
    ensures Dedupe(existing, cands) == []
    decreases |cands|
  {
    if |cands| > 0 {
      assert forall i :: 0 <= i < |cands[1..]| ==> cands[1..][i] == cands[i + 1];
      DedupeNothingWhenAllPresent(existing, cands[1..]);
    }
  }

  /** After a run, the relative path of every listed file is in the table. */
  lemma PlanCoversFiles(existing: seq<string>, storageBase: string, files: seq<string>)
    ensures forall f :: f in files ==>
      RelativePath(storageBase, f) in existing + PlanPaths(Plan(existing, storageBase, files))
  {
    var cands := Candidates(storageBase, files);
    DedupeCoversCandidates(existing, cands);
    forall f | f in files
      ensures RelativePath(storageBase, f) in existing + PlanPaths(Plan(existing, storageBase, files))
    {
      var i :| 0 <= i < |files| && files[i] == f;
      assert cands[i].path == RelativePath(storageBase, f);
    }
  }

  /** Idempotence: a second run over the same file list creates nothing. */
  lemma SecondRunPlansNothing(existing: seq<string>, storageBase: string, files: seq<string>)
    ensures Plan(existing + PlanPaths(Plan(existing, storageBase, files)), storageBase, files) == []
  {
    var cands := Candidates(storageBase, files);
    DedupeCoversCandidates(existing, cands);
    DedupeNothingWhenAllPresent(existing + PlanPaths(Dedupe(existing, cands)), cands);
  }

  /** Every created entry is the candidate of one of the listed files. */
  lemma {:induction false} DedupeTakesCandidates(existing: seq<string>, cands: seq<Planned>)
    ensures forall p :: p in Dedupe(existing, cands) ==> p in cands
    decreases |cands|
  {
    if |cands| > 0 {
      var existing' := if cands[0].path in existing then existing else existing + [cands[0].path];
      DedupeTakesCandidates(existing', cands[1..]);
      assert forall p :: p in cands[1..] ==> p in cands;
    }
  }

  /** Planned entries carry the title, path and tags the command derives from one of the
      listed files, and no stored path holds a backslash. */
  lemma PlannedEntriesComeFromFiles(existing: seq<string>, storageBase: string, files: seq<string>)
    ensures forall p :: p in Plan(existing, storageBase, files) ==>
      && '\\' !in p.path
      && p.tagNames == DerivedTags(p.path)
      && exists f :: f in files && p == PlanFor(storageBase, f)
  {
    var cands := Candidates(storageBase, files);
    DedupeTakesCandidates(existing, cands);
    forall p | p in Plan(existing, storageBase, files)
      ensures '\\' !in p.path
      ensures p.tagNames == DerivedTags(p.path)
      ensures exists f :: f in files && p == PlanFor(storageBase, f)
    {
      var i :| 0 <= i < |cands| && cands[i] == p;
      var f := files[i];
      assert p == PlanFor(storageBase, f);
      assert p.path == RelativePath(storageBase, f);
      assert f in files;
    }
  }

  /** Unfolds one step of the run: `Plan` from file `i` on, given the paths present. */
  lemma DedupeStep(existing: seq<string>, cands: seq<Planned>, i: nat)
    requires i < |cands|
    ensures Dedupe(existing, cands[i..]) ==
      if cands[i].path in existing then Dedupe(existing, cands[i + 1..])
      else [cands[i]] + Dedupe(existing + [cands[i].path], cands[i + 1..])
  {
    assert cands[i..][0] == cands[i];
    assert cands[i..][1..] == cands[i + 1..];
  }

  /** `ImportScreenshots::handle`: fails when the root is missing, otherwise imports
      every listed file and reports how many were listed. */
  method Import(store: Store, rootExists: bool, storageBase: string, files: seq<string>)
    returns (result: ImportResult)
    requires store.Valid()
    modifies store
    ensures store.Valid()
    ensures !rootExists ==> result == PathNotFound && unchanged(store)
    ensures rootExists ==> result == Imported(|files|)
    ensures rootExists ==> ImportedAsPlanned(old(store.entries), old(store.tags), store.entries, store.tags, storageBase, files)
  {
    if !rootExists {
      return PathNotFound;
    }
    ImportAll(store, storageBase, files);
    return Imported(|files|);
  }

  /** The state after a run, given the state before: the old entries are kept as they
      were, the planned ones follow in order, each realising its plan, and the registry
      only grew, by names some planned entry carries. */
  ghost predicate ImportedAsPlanned(
    entries0: seq<Entry>, tags0: seq<Tag>, entries: seq<Entry>, tags: seq<Tag>, storageBase: string, files: seq<string>)
  {
    var plan := Plan(Paths(entries0), storageBase, files);
    && |entries| == |entries0| + |plan|
    && entries0 <= entries
    && Paths(entries) == Paths(entries0) + PlanPaths(plan)
    && (forall k :: 0 <= k < |plan| ==> Realises(entries[|entries0| + k], plan[k], tags))
    && tags0 <= tags
    && (forall j :: |tags0| <= j < |tags| ==> tags[j].name in PlanTagNames(plan))
  }

  /** The loop of `handle` over the listed files. */
  method ImportAll(store: Store, storageBase: string, files: seq<string>)
    requires store.Valid()
    modifies store
    ensures store.Valid()
    ensures ImportedAsPlanned(old(store.entries), old(store.tags), store.entries, store.tags, storageBase, files)
  {
    ghost var entries0, tags0 := store.entries, store.tags;
    ghost var cands := Candidates(storageBase, files);
    ghost var done: seq<Planned> := [];
    RunStart(entries0, tags0, cands);
    var i := 0;
    while i < |files|
      invariant 0 <= i <= |files|
      invariant store.Valid()
      invariant RunSoFar(entries0, tags0, cands, i, done, store.entries, store.tags)
    {
      ghost var entriesBefore, tagsBefore := store.entries, store.tags;
      var created := ImportFile(store, storageBase, files[i]);
      RunStep(entries0, tags0, cands, i, done, entriesBefore, tagsBefore, store.entries, store.tags, created);
      if created {
        done := done + [cands[i]];
      }
      i := i + 1;
    }
    RunComplete(entries0, tags0, storageBase, files, done, store.entries, store.tags);
  }

  /** What the loop has done after the first `i` candidates: the old entries are kept,
      the created ones follow, each realising its plan, and what remains to be created
      is the plan for the rest of the list against the paths now present. */
  ghost predicate RunSoFar(
    entries0: seq<Entry>, tags0: seq<Tag>, cands: seq<Planned>, i: nat, done: seq<Planned>,
    entries: seq<Entry>, tags: seq<Tag>)
  {
    && i <= |cands|
    && |entries| == |entries0| + |done|
    && entries0 <= entries
    && Paths(entries) == Paths(entries0) + PlanPaths(done)
    && Dedupe(Paths(entries0), cands) == done + Dedupe(Paths(entries), cands[i..])
    && (forall k :: 0 <= k < |done| ==> Realises(entries[|entries0| + k], done[k], tags))
    && tags0 <= tags
    && (forall j :: |tags0| <= j < |tags| ==> tags[j].name in PlanTagNames(done))
  }

  /** What `ImportFile` did to the tables for the file planned as `p`. */
  ghost predicate FileImported(
    entries0: seq<Entry>, tags0: seq<Tag>, entries: seq<Entry>, tags: seq<Tag>, p: Planned, created: bool)
  {
    && created == !HasPath(entries0, p.path)
    && (!created ==> entries == entries0 && tags == tags0)
    && (created ==> EntryAdded(entries0, tags0, entries, tags, p))
  }

  /** One entry realising `p` was appended; earlier entries keep their tag names, and
      the registry grew only by names `p` carries. */
  ghost predicate EntryAdded(entries0: seq<Entry>, tags0: seq<Tag>, entries: seq<Entry>, tags: seq<Tag>, p: Planned)
  {
    && |entries| == |entries0| + 1
    && entries0 <= entries
    && Realises(entries[|entries0|], p, tags)
    && (forall k :: 0 <= k < |entries0| ==> TagNames(entries[k], tags) == TagNames(entries0[k], tags0))
    && tags0 <= tags
    && (forall j :: |tags0| <= j < |tags| ==> tags[j].name in p.tagNames)
  }

  lemma RunStart(entries0: seq<Entry>, tags0: seq<Tag>, cands: seq<Planned>)
    ensures RunSoFar(entries0, tags0, cands, 0, [], entries0, tags0)
  {
    assert cands[0..] == cands;
    assert Paths(entries0) + PlanPaths([]) == Paths(entries0);
  }

  lemma RunStep(
    entries0: seq<Entry>, tags0: seq<Tag>, cands: seq<Planned>, i: nat, done: seq<Planned>,
    entriesBefore: seq<Entry>, tagsBefore: seq<Tag>, entriesAfter: seq<Entry>, tagsAfter: seq<Tag>, created: bool)
    requires i < |cands|
    requires RunSoFar(entries0, tags0, cands, i, done, entriesBefore, tagsBefore)
    requires FileImported(entriesBefore, tagsBefore, entriesAfter, tagsAfter, cands[i], created)
    ensures RunSoFar(entries0, tags0, cands, i + 1, if created then done + [cands[i]] else done, entriesAfter, tagsAfter)
  {
    DedupeStep(Paths(entriesBefore), cands, i);
    if created {
      RunStepCreated(entries0, tags0, cands, i, done, entriesBefore, tagsBefore, entriesAfter, tagsAfter);
    } else {
      RunStepSkipped(entries0, tags0, cands, i, done, entriesBefore, tagsBefore);
    }
  }

  lemma RunStepSkipped(
    entries0: seq<Entry>, tags0: seq<Tag>, cands: seq<Planned>, i: nat, done: seq<Planned>,
    entries: seq<Entry>, tags: seq<Tag>)
    requires i < |cands|
    requires RunSoFar(entries0, tags0, cands, i, done, entries, tags)
    requires Dedupe(Paths(entries), cands[i..]) == Dedupe(Paths(entries), cands[i + 1..])
    ensures RunSoFar(entries0, tags0, cands, i + 1, done, entries, tags)
  {
  }

  lemma RunStepCreated(
    entries0: seq<Entry>, tags0: seq<Tag>, cands: seq<Planned>, i: nat, done: seq<Planned>,
    entriesBefore: seq<Entry>, tagsBefore: seq<Tag>, entriesAfter: seq<Entry>, tagsAfter: seq<Tag>)
    requires i < |cands|
    requires RunSoFar(entries0, tags0, cands, i, done, entriesBefore, tagsBefore)
    requires cands[i].path !in Paths(entriesBefore)
    requires Dedupe(Paths(entriesBefore), cands[i..])
      == [cands[i]] + Dedupe(Paths(entriesBefore) + [cands[i].path], cands[i + 1..])
    requires EntryAdded(entriesBefore, tagsBefore, entriesAfter, tagsAfter, cands[i])
    ensures RunSoFar(entries0, tags0, cands, i + 1, done + [cands[i]], entriesAfter, tagsAfter)
  {
    StepKeepsInvariant(entries0, tags0, done, entriesBefore, tagsBefore, entriesAfter, tagsAfter, cands[i]);
    var rest := Dedupe(Paths(entriesAfter), cands[i + 1..]);
    assert done + ([cands[i]] + rest) == (done + [cands[i]]) + rest;
  }

  lemma RunComplete(
    entries0: seq<Entry>, tags0: seq<Tag>, storageBase: string, files: seq<string>, done: seq<Planned>,
    entries: seq<Entry>, tags: seq<Tag>)
    requires RunSoFar(entries0, tags0, Candidates(storageBase, files), |files|, done, entries, tags)
    ensures ImportedAsPlanned(entries0, tags0, entries, tags, storageBase, files)
  {
    var cands := Candidates(storageBase, files);
    assert cands[|files|..] == [];
    assert Plan(Paths(entries0), storageBase, files) == done;
  }

  /** The body of the loop in `handle`, for one file: skip it when its relative path is
      already stored, otherwise create its entry and link the tags derived from its folders.
      Entries created before keep their tags. */
  method ImportFile(store: Store, storageBase: string, file: string) returns (created: bool)
    requires store.Valid()
    modifies store
    ensures store.Valid()
    ensures FileImported(old(store.entries), old(store.tags), store.entries, store.tags, PlanFor(storageBase, file), created)
    ensures !created ==> unchanged(store)
  {
    var relativePath := StrReplace(file, storageBase, "");
    relativePath := StrReplace(relativePath, "\\", "/");
    if HasPath(store.entries, relativePath) {
      return false;
    }
    var parts := Explode('/', Dirname(relativePath));
    AddEntry(store, Planned(FilenameWithoutExtension(file), relativePath, parts[1..]));
    return true;
  }

  /** The creating half of the loop body: create the entry, get or create its tags and
      sync them. */
  method AddEntry(store: Store, p: Planned)
    requires store.Valid()
    modifies store
    ensures store.Valid()
    ensures EntryAdded(old(store.entries), old(store.tags), store.entries, store.tags, p)
  {
    ghost var entriesBefore, tagsBefore := store.entries, store.tags;
    var k := store.Create(Some(p.title), p.path);
    var tagIds := store.FirstOrCreateAll(p.tagNames);
    store.Sync(k, tagIds);
    ghost var more := store.tags[|tagsBefore|..];
    assert store.tags == tagsBefore + more;
    forall k | 0 <= k < |entriesBefore|
      ensures TagNames(store.entries[k], store.tags) == TagNames(entriesBefore[k], tagsBefore)
    {
      TagNamesStable(entriesBefore[k], tagsBefore, more);
    }
    SyncedNames(store.tags, store.entries[k], p.tagNames, tagIds);
  }

  /** The bookkeeping of one created entry in the loop of `handle`. */
  lemma StepKeepsInvariant(
    entries0: seq<Entry>, tags0: seq<Tag>, done: seq<Planned>,
    entriesBefore: seq<Entry>, tagsBefore: seq<Tag>,
    entriesAfter: seq<Entry>, tagsAfter: seq<Tag>, p: Planned)
    requires |entriesBefore| == |entries0| + |done|
    requires Paths(entriesBefore) == Paths(entries0) + PlanPaths(done)
    requires forall k :: 0 <= k < |done| ==> Realises(entriesBefore[|entries0| + k], done[k], tagsBefore)
    requires tags0 <= tagsBefore
    requires forall j :: |tags0| <= j < |tagsBefore| ==> tagsBefore[j].name in PlanTagNames(done)
    requires |entriesAfter| == |entriesBefore| + 1
    requires entriesBefore <= entriesAfter
    requires Realises(entriesAfter[|entriesBefore|], p, tagsAfter)
    requires forall k :: 0 <= k < |entriesBefore| ==>
      TagNames(entriesAfter[k], tagsAfter) == TagNames(entriesBefore[k], tagsBefore)
    requires tagsBefore <= tagsAfter
    requires forall j :: |tagsBefore| <= j < |tagsAfter| ==> tagsAfter[j].name in p.tagNames
    ensures Paths(entriesAfter) == Paths(entries0) + PlanPaths(done + [p])
    ensures Paths(entriesAfter) == Paths(entriesBefore) + [p.path]
    ensures forall k :: 0 <= k < |done + [p]| ==> Realises(entriesAfter[|entries0| + k], (done + [p])[k], tagsAfter)
    ensures forall j :: |tags0| <= j < |tagsAfter| ==> tagsAfter[j].name in PlanTagNames(done + [p])
  {
    var e := entriesAfter[|entriesBefore|];
    assert entriesAfter == entriesBefore + [e];
    StepPaths(entries0, done, entriesBefore, e, p);
    forall k | 0 <= k < |done + [p]| ensures Realises(entriesAfter[|entries0| + k], (done + [p])[k], tagsAfter) {
      if k < |done| {
        assert entriesAfter[|entries0| + k] == entriesBefore[|entries0| + k];
      }
    }
    StepTagNames(tags0, done, tagsBefore, tagsAfter, p);
  }

  /** Appending the entry planned as `p` appends its path. */
  lemma StepPaths(entries0: seq<Entry>, done: seq<Planned>, entriesBefore: seq<Entry>, e: Entry, p: Planned)
    requires Paths(entriesBefore) == Paths(entries0) + PlanPaths(done)
    requires e.filePath == p.path
    ensures Paths(entriesBefore + [e]) == Paths(entriesBefore) + [p.path]
    ensures Paths(entriesBefore + [e]) == Paths(entries0) + PlanPaths(done + [p])
  {
    assert PlanPaths(done + [p]) == PlanPaths(done) + [p.path];
    assert Paths(entriesBefore + [e]) == Paths(entriesBefore) + [p.path];
  }

  /** The registry grew, over the run so far, only by names of planned entries. */
  lemma StepTagNames(tags0: seq<Tag>, done: seq<Planned>, tagsBefore: seq<Tag>, tagsAfter: seq<Tag>, p: Planned)
    requires tags0 <= tagsBefore <= tagsAfter
    requires forall j :: |tags0| <= j < |tagsBefore| ==> tagsBefore[j].name in PlanTagNames(done)
    requires forall j :: |tagsBefore| <= j < |tagsAfter| ==> tagsAfter[j].name in p.tagNames
    ensures forall j :: |tags0| <= j < |tagsAfter| ==> tagsAfter[j].name in PlanTagNames(done + [p])
  {
    var plan' := done + [p];
    forall j | |tags0| <= j < |tagsAfter| ensures tagsAfter[j].name in PlanTagNames(plan') {
      if j < |tagsBefore| {
        var k, m :| 0 <= k < |done| && 0 <= m < |done[k].tagNames| && done[k].tagNames[m] == tagsBefore[j].name;
        assert plan'[k] == done[k];
        assert tagsAfter[j] == tagsBefore[j];
      } else {
        var m :| 0 <= m < |p.tagNames| && p.tagNames[m] == tagsAfter[j].name;
        assert plan'[|done|] == p;
      }
    }
  }

  /** A run keeps file paths unique. */
  lemma ImportKeepsPathsUnique(
    entries0: seq<Entry>, tags0: seq<Tag>, entries: seq<Entry>, tags: seq<Tag>, storageBase: string, files: seq<string>)
    requires ImportedAsPlanned(entries0, tags0, entries, tags, storageBase, files)
    requires UniquePaths(entries0)
    ensures UniquePaths(entries)
  {
    assert NoDuplicates(Paths(entries0));
    DedupeKeepsPathsUnique(Paths(entries0), Candidates(storageBase, files));
    assert NoDuplicates(Paths(entries));
    assert forall i :: 0 <= i < |entries| ==> Paths(entries)[i] == entries[i].filePath;
  }

  /** A run for which nothing is planned leaves both tables as they were. */
  lemma EmptyPlanChangesNothing(
    entries0: seq<Entry>, tags0: seq<Tag>, entries: seq<Entry>, tags: seq<Tag>, storageBase: string, files: seq<string>)
    requires ImportedAsPlanned(entries0, tags0, entries, tags, storageBase, files)
    requires Plan(Paths(entries0), storageBase, files) == []
    ensures entries == entries0 && tags == tags0
  {
    assert PlanTagNames([]) == {};
    FirstNewTag(tags0, tags, PlanTagNames([]));
  }

  /** The first tag past `tags0`, if any, carries one of `names`. Stated as an implication
      so that a caller whose `names` is empty learns `|tags| <= |tags0|` without reasoning
      in a contradictory branch. */
  lemma FirstNewTag(tags0: seq<Tag>, tags: seq<Tag>, names: set<string>)
    requires forall j :: |tags0| <= j < |tags| ==> tags[j].name in names
    ensures |tags| > |tags0| ==> tags[|tags0|].name in names
  {
  }

  /** Running the command a second time over the same file list changes nothing: no
      entry, no link and no tag is added. */
  lemma SecondImportChangesNothing(
    entries0: seq<Entry>, tags0: seq<Tag>, entries1: seq<Entry>, tags1: seq<Tag>,
    entries2: seq<Entry>, tags2: seq<Tag>, storageBase: string, files: seq<string>)
    requires ImportedAsPlanned(entries0, tags0, entries1, tags1, storageBase, files)
    requires ImportedAsPlanned(entries1, tags1, entries2, tags2, storageBase, files)
    ensures entries2 == entries1 && tags2 == tags1
  {
    SecondRunPlansNothing(Paths(entries0), storageBase, files);
    EmptyPlanChangesNothing(entries1, tags1, entries2, tags2, storageBase, files);
  }
}
