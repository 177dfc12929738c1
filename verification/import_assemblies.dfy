/**
 * ImportAssemblies: the import step that copies the game's managed assemblies into the game
 * package. Processors found by reflection rewrite each assembly path (AssemblyProcessor) and
 * the blacklist and whitelist (BlacklistProcessor, WhitelistProcessor); an assembly whose file
 * name is blacklisted and not whitelisted is skipped, every other one is copied next to a
 * freshly written `.meta` file.
 *
 * Processors are opaque functions, the metadata writer is a function of the assembly path, and
 * the file system is Disk.FileSystem.
 */
module ImportAssemblies {
  import opened Wrappers
  import opened Strings
  import opened Paths
  import opened Sequences
  import opened Disk

  // ---------------------------------------------------------------- importer discovery

  /** A processor instance: its type name and its Priority. */
  datatype Importer = Importer(typeName: string, priority: int)

  /**
   * A loaded type as CreateImporters<T> sees it: whether T is assignable from it, whether it is
   * abstract or an interface, and what `CreateInstance(t) as T` gives (None for null).
   */
  datatype LoadedType = LoadedType(name: string, assignable: bool, isAbstract: bool, isInterface: bool,
                                   instance: Option<Importer>)

  predicate Eligible(t: LoadedType)
  {
    t.assignable && !t.isAbstract && !t.isInterface && t.instance.Some?
  }

  /** The instances of the eligible types, in load order. */
  function Instances(types: seq<LoadedType>): (r: seq<Importer>)
    ensures |r| <= |types|
    ensures forall i :: i in r ==> exists t :: t in types && Eligible(t) && t.instance == Some(i)
    ensures forall k :: 0 <= k < |types| && Eligible(types[k]) ==> types[k].instance.value in r
  {
    if |types| == 0 then []
    else
      var rest := Instances(types[1..]);
      assert forall t :: t in types[1..] ==> t in types;
      (if Eligible(types[0]) then [types[0].instance.value] else []) + rest
  }

  /** OrderByDescending(t => t.Priority). */
  predicate HigherFirst(a: Importer, b: Importer)
  {
    a.priority >= b.priority
  }

  /** CreateImporters<T>: the eligible instances, highest priority first. */
  function CreateImporters(types: seq<LoadedType>): (r: seq<Importer>)
    ensures SortedBy(r, HigherFirst)
    ensures multiset(r) == multiset(Instances(types))
  {
    assert TotalPreorder(HigherFirst);
    SortBySorted(Instances(types), HigherFirst);
    SortBy(Instances(types), HigherFirst)
  }

  /** Exactly the instances of the eligible types are kept. */
  lemma CreateImportersKeepsEligible(types: seq<LoadedType>, i: Importer)
    ensures i in CreateImporters(types) <==> exists t :: t in types && Eligible(t) && t.instance == Some(i)
  {
    var r := CreateImporters(types);
    assert i in r <==> i in multiset(r);
    assert i in Instances(types) <==> i in multiset(Instances(types));
    if t :| t in types && Eligible(t) && t.instance == Some(i) {
      var k :| 0 <= k < |types| && types[k] == t;
    }
  }

  // ---------------------------------------------------------------- the skip rule and naming

  /** An assembly is skipped when its name is blacklisted and not whitelisted. */
  predicate Skipped(fileName: string, blacklist: set<string>, whitelist: set<string>)
  {
    fileName !in whitelist && fileName in blacklist
  }

  /** The whitelist overrides the blacklist; only blacklisted names are ever skipped. */
  lemma SkipRule(fileName: string, blacklist: set<string>, whitelist: set<string>)
    ensures fileName in whitelist ==> !Skipped(fileName, blacklist, whitelist)
    ensures fileName !in blacklist ==> !Skipped(fileName, blacklist, whitelist)
    ensures Skipped(fileName, blacklist, whitelist) <==> fileName in blacklist - whitelist
  {
  }

  /** The path an assembly is read from: '\' turned to '/', then each processor in list order. */
  function PreparePath(assemblyPath: string, processors: seq<string -> string>): string
  {
    RunAll(ReplaceChar(assemblyPath, '\\', '/'), processors)
  }

  /** The first processor sees the normalised path; each later one sees its predecessor's output. */
  lemma PreparePathOrder(assemblyPath: string, p: string -> string, processors: seq<string -> string>)
    ensures PreparePath(assemblyPath, [p] + processors) == RunAll(p(ReplaceChar(assemblyPath, '\\', '/')), processors)
    ensures PreparePath(assemblyPath, processors + [p]) == p(PreparePath(assemblyPath, processors))
  {
    RunAllFirst(ReplaceChar(assemblyPath, '\\', '/'), p, processors);
    assert (processors + [p])[..|processors|] == processors;
  }

  /** With no processors the path is only normalised: it keeps its length and loses every '\'. */
  lemma PreparePathWithoutProcessors(assemblyPath: string)
    ensures var r := PreparePath(assemblyPath, []);
            |r| == |assemblyPath| && '\\' !in r
  {
  }

  function DestinationFile(destinationFolder: string, fileName: string): string
  {
    Combine(destinationFolder, fileName)
  }

  function DestinationMetaData(destinationFolder: string, fileName: string): string
  {
    Combine(destinationFolder, fileName + ".meta")
  }

  /** The copy and its metadata sit side by side in the destination folder, named `<name>` and `<name>.meta`. */
  lemma DestinationNaming(destinationFolder: string, fileName: string)
    requires fileName != "" && Separator !in fileName
    ensures GetFileName(DestinationFile(destinationFolder, fileName)) == fileName
    ensures GetFileName(DestinationMetaData(destinationFolder, fileName)) == fileName + ".meta"
    ensures DestinationFile(destinationFolder, fileName) != DestinationMetaData(destinationFolder, fileName)
  {
    CombineFileName(destinationFolder, fileName);
    MetaFileName(fileName);
    CombineFileName(destinationFolder, fileName + ".meta");
  }

  lemma MetaFileName(fileName: string)
    requires Separator !in fileName
    ensures Separator !in fileName + ".meta" && fileName + ".meta" != ""
  {
    var meta := fileName + ".meta";
    forall k | 0 <= k < |meta| ensures meta[k] != Separator {
      if k < |fileName| {
        assert meta[k] == fileName[k];
      } else {
        assert meta[k] == ".meta"[k - |fileName|];
      }
    }
  }

  // ---------------------------------------------------------------- importing

  function CopyWarning(destinationFile: string): string
  {
    "Could not update assembly: " + destinationFile
  }

  /** The file system after some imports and the warnings logged so far. */
  datatype ImportState = ImportState(tree: Tree, warnings: seq<string>)

  /** What ImportFilteredAssemblies works with besides the assembly list. */
  datatype ImportConfig = ImportConfig(destinationFolder: string, blacklist: set<string>, whitelist: set<string>,
                                       processors: seq<string -> string>, metaData: string -> string)

  /**
   * The guarded block: delete the old copy, copy the assembly, write its metadata. File.Copy throws
   * when the source file or the destination folder is missing; the exception is logged.
   */
  function CopyAssembly(t: Tree, source: string, destination: string, meta: string, folder: string,
                        metaText: string): ImportState
  {
    var deleted := Apply(t, DeleteFile(destination));
    if source in deleted.files && folder in deleted.dirs then
      var copied := Apply(deleted, WriteFile(destination, deleted.files[source]));
      ImportState(Apply(copied, WriteFile(meta, metaText)), [])
    else ImportState(deleted, [CopyWarning(destination)])
  }

  /**
   * The copy holds the source's contents and the metadata is written, or, when the copy throws,
   * the old copy is gone and one warning names it. The directories and every other file stay as they were.
   */
  lemma CopyEffect(t: Tree, source: string, destination: string, meta: string, folder: string, metaText: string)
    requires destination != meta
    ensures var r := CopyAssembly(t, source, destination, meta, folder, metaText);
            && r.tree.dirs == t.dirs
            && (forall p :: p != destination && p != meta ==>
                  (p in r.tree.files <==> p in t.files) && (p in t.files ==> r.tree.files[p] == t.files[p]))
            && (if source != destination && source in t.files && folder in t.dirs then
                  && r.warnings == []
                  && destination in r.tree.files && r.tree.files[destination] == t.files[source]
                  && meta in r.tree.files && r.tree.files[meta] == metaText
                else
                  && r.warnings == [CopyWarning(destination)]
                  && destination !in r.tree.files
                  && (meta in r.tree.files <==> meta in t.files))
  {
    var deleted := Apply(t, DeleteFile(destination));
    assert deleted.files == t.files - {destination};
    if source in deleted.files && folder in deleted.dirs {
      var copied := Apply(deleted, WriteFile(destination, deleted.files[source]));
      assert copied.files == deleted.files[destination := t.files[source]];
    }
  }

  /** One assembly of ImportFilteredAssemblies. */
  function ImportOne(t: Tree, config: ImportConfig, assemblyPath: string): ImportState
  {
    var asmPath := PreparePath(assemblyPath, config.processors);
    var name := GetFileName(asmPath);
    if Skipped(name, config.blacklist, config.whitelist) then ImportState(t, [])
    else CopyAssembly(t, asmPath, DestinationFile(config.destinationFolder, name),
                      DestinationMetaData(config.destinationFolder, name), config.destinationFolder,
                      config.metaData(asmPath))
  }

  /** A skipped assembly changes nothing and logs nothing; any other one goes through the guarded copy. */
  lemma ImportOneCases(t: Tree, config: ImportConfig, assemblyPath: string)
    ensures var asmPath := PreparePath(assemblyPath, config.processors);
            var name := GetFileName(asmPath);
            var r := ImportOne(t, config, assemblyPath);
            && (Skipped(name, config.blacklist, config.whitelist) ==> r == ImportState(t, []))
            && (!Skipped(name, config.blacklist, config.whitelist) && name != "" ==>
                  (r.warnings == [] <==>
                     asmPath != DestinationFile(config.destinationFolder, name) && asmPath in t.files &&
                     config.destinationFolder in t.dirs))
  {
    var asmPath := PreparePath(assemblyPath, config.processors);
    var name := GetFileName(asmPath);
    if !Skipped(name, config.blacklist, config.whitelist) && name != "" {
      DestinationNaming(config.destinationFolder, name);
      CopyEffect(t, asmPath, DestinationFile(config.destinationFolder, name),
                 DestinationMetaData(config.destinationFolder, name), config.destinationFolder, config.metaData(asmPath));
    }
  }

  /** A list of items run through one step in order, the warnings of each step appended. */
  function ImportEach(t: Tree, assemblies: seq<string>, one: (Tree, string) -> ImportState): ImportState
  {
    if |assemblies| == 0 then ImportState(t, [])
    else
      var before := ImportEach(t, assemblies[..|assemblies| - 1], one);
      var step := one(before.tree, assemblies[|assemblies| - 1]);
      ImportState(step.tree, before.warnings + step.warnings)
  }

  lemma {:induction false} ImportEachAppend(t: Tree, xs: seq<string>, ys: seq<string>, one: (Tree, string) -> ImportState)
    ensures var first := ImportEach(t, xs, one);
            var second := ImportEach(first.tree, ys, one);
            ImportEach(t, xs + ys, one) == ImportState(second.tree, first.warnings + second.warnings)
  {
    var first := ImportEach(t, xs, one);
    if |ys| == 0 {
      assert xs + ys == xs;
    } else {
      var zs := xs + ys;
      var init := ys[..|ys| - 1];
      assert zs[..|zs| - 1] == xs + init;
      assert zs[|zs| - 1] == ys[|ys| - 1];
      ImportEachAppend(t, xs, init, one);
      var mid := ImportEach(first.tree, init, one);
      var step := one(mid.tree, ys[|ys| - 1]);
      assert first.warnings + (mid.warnings + step.warnings) == (first.warnings + mid.warnings) + step.warnings;
    }
  }

  function ImportStepOf(config: ImportConfig): (Tree, string) -> ImportState
  {
    (t: Tree, assemblyPath: string) => ImportOne(t, config, assemblyPath)
  }

  /** The assemblies in order; a failed copy is logged and the next assembly is still processed. */
  function ImportAll(t: Tree, config: ImportConfig, assemblies: seq<string>): ImportState
  {
    ImportEach(t, assemblies, ImportStepOf(config))
  }

  /** One more assembly at the end of the list. */
  lemma ImportAllSnoc(t: Tree, config: ImportConfig, xs: seq<string>, x: string)
    ensures var before := ImportAll(t, config, xs);
            var step := ImportOne(before.tree, config, x);
            ImportAll(t, config, xs + [x]) == ImportState(step.tree, before.warnings + step.warnings)
  {
    assert (xs + [x])[..|xs|] == xs;
  }

  /** Importing a list in two parts is importing the second part after the first: nothing stops early. */
  lemma ImportAllAppend(t: Tree, config: ImportConfig, xs: seq<string>, ys: seq<string>)
    ensures var first := ImportAll(t, config, xs);
            var second := ImportAll(first.tree, config, ys);
            ImportAll(t, config, xs + ys) == ImportState(second.tree, first.warnings + second.warnings)
  {
    ImportEachAppend(t, xs, ys, ImportStepOf(config));
  }

  /** Importing creates no folder: the destination folder has to exist beforehand. */
  lemma {:induction false} ImportAllKeepsDirectories(t: Tree, config: ImportConfig, assemblies: seq<string>)
    ensures ImportAll(t, config, assemblies).tree.dirs == t.dirs
  {
    if |assemblies| > 0 {
      var init := assemblies[..|assemblies| - 1];
      ImportAllKeepsDirectories(t, config, init);
      var before := ImportEach(t, init, ImportStepOf(config));
      ImportOneKeepsDirectories(before.tree, config, assemblies[|assemblies| - 1]);
    }
  }

  lemma ImportOneKeepsDirectories(t: Tree, config: ImportConfig, assemblyPath: string)
    ensures ImportOne(t, config, assemblyPath).tree.dirs == t.dirs
  {
    var asmPath := PreparePath(assemblyPath, config.processors);
    var name := GetFileName(asmPath);
    if !Skipped(name, config.blacklist, config.whitelist) {
      CopyKeepsDirectories(t, asmPath, DestinationFile(config.destinationFolder, name),
                           DestinationMetaData(config.destinationFolder, name), config.destinationFolder,
                           config.metaData(asmPath));
    }
  }

  lemma CopyKeepsDirectories(t: Tree, source: string, destination: string, meta: string, folder: string, metaText: string)
    ensures CopyAssembly(t, source, destination, meta, folder, metaText).tree.dirs == t.dirs
  {
  }

  /** `w` is the warning for assembly `a`: it was not skipped and `w` names its destination. */
  predicate WarnsAbout(config: ImportConfig, a: string, w: string)
  {
    var name := GetFileName(PreparePath(a, config.processors));
    !Skipped(name, config.blacklist, config.whitelist) && w == CopyWarning(DestinationFile(config.destinationFolder, name))
  }

  lemma ImportOneWarning(t: Tree, config: ImportConfig, a: string, w: string)
    requires w in ImportOne(t, config, a).warnings
    ensures WarnsAbout(config, a, w)
  {
  }

  /** Every warning names the destination of an assembly that was not skipped. */
  lemma {:induction false} WarningsNameKeptAssemblies(t: Tree, config: ImportConfig, assemblies: seq<string>, w: string)
    requires w in ImportAll(t, config, assemblies).warnings
    ensures exists a :: a in assemblies && WarnsAbout(config, a, w)
  {
    var n := |assemblies|;
    var init := assemblies[..n - 1];
    var before := ImportEach(t, init, ImportStepOf(config));
    var a := assemblies[n - 1];
    var step := ImportOne(before.tree, config, a);
    assert ImportAll(t, config, assemblies).warnings == before.warnings + step.warnings;
    if w in before.warnings {
      WarningsNameKeptAssemblies(t, config, init, w);
      var b :| b in init && WarnsAbout(config, b, w);
      assert b in assemblies;
    } else {
      ImportOneWarning(before.tree, config, a, w);
      assert a in assemblies;
    }
  }

  // ---------------------------------------------------------------- whitelist and blacklist

  function Self<T>(x: T): T
  {
    x
  }

  /** Select(GetFileName) over a listing. */
  function FileNames(paths: seq<string>): (r: seq<string>)
    ensures |r| == |paths|
    ensures forall k :: 0 <= k < |r| ==> r[k] == GetFileName(paths[k])
  {
    seq(|paths|, k requires 0 <= k < |paths| => GetFileName(paths[k]))
  }

  lemma FileNamesMembership(paths: seq<string>, n: string)
    ensures n in FileNames(paths) <==> exists p :: p in paths && GetFileName(p) == n
  {
    var names := FileNames(paths);
    if n in names {
      var k :| 0 <= k < |names| && names[k] == n;
      assert paths[k] in paths;
    }
    if p :| p in paths && GetFileName(p) == n {
      var k :| 0 <= k < |paths| && paths[k] == p;
      assert names[k] == n;
    }
  }

  /** Distinct() keeps every name and drops none. */
  lemma DistinctKeepsNames(names: seq<string>)
    ensures forall n :: n in DistinctBy(names, Self) <==> n in names
  {
    var r := DistinctBy(names, Self);
    assert forall n :: n in r <==> n in KeySet(r, Self);
    assert forall n :: n in names <==> n in KeySet(names, Self);
  }

  /** The file names of a listing, each once, in first-seen order (Select(GetFileName).Distinct()). */
  function DistinctFileNames(paths: seq<string>): (r: seq<string>)
    ensures forall i, j :: 0 <= i < j < |r| ==> r[i] != r[j]
    ensures forall n :: n in r <==> exists p :: p in paths && GetFileName(p) == n
  {
    var r := DistinctBy(FileNames(paths), Self);
    DistinctKeepsNames(FileNames(paths));
    forall n ensures n in r <==> exists p :: p in paths && GetFileName(p) == n {
      FileNamesMembership(paths, n);
    }
    r
  }

  /**
   * BuildBinaryWhitelist: the file names under the package folder (`listing`, None when the
   * folder does not exist). The processors run over the list, but their output is dropped.
   */
  method BuildBinaryWhitelist(listing: Option<seq<string>>, processors: seq<seq<string> -> seq<string>>)
    returns (whitelist: set<string>)
    ensures listing.None? ==> whitelist == {}
    ensures listing.Some? ==> forall n :: n in whitelist <==> exists p :: p in listing.value && GetFileName(p) == n
  {
    var installedGameAssemblies: seq<string> := [];
    if listing.Some? {
      installedGameAssemblies := DistinctFileNames(listing.value);
    }
    whitelist := set n | n in installedGameAssemblies;
    assert forall n :: n in whitelist <==> n in installedGameAssemblies;
    var enumerable := RunProcessors(installedGameAssemblies, processors);
  }

  /** A loaded assembly: whether it is dynamic, its Location, and whether GetFileName accepts that location. */
  datatype LoadedAssembly = LoadedAssembly(isDynamic: bool, location: string, locationValid: bool)

  predicate IsStatic(a: LoadedAssembly)
  {
    !a.isDynamic
  }

  /** `Path.GetFileName(location)`, or "" when it throws. */
  function NameOf(a: LoadedAssembly): string
  {
    if a.locationValid then GetFileName(a.location) else ""
  }

  /** The names BuildAssemblyBlacklist adds to its set, in the order it adds them. */
  function CollectedNames(byEditorFiles: bool, editorFiles: seq<string>, loaded: seq<LoadedAssembly>): seq<string>
  {
    if byEditorFiles then seq(|editorFiles|, k requires 0 <= k < |editorFiles| => GetFileName(editorFiles[k]))
    else
      var live := Filter(loaded, IsStatic);
      SortBy(seq(|live|, k requires 0 <= k < |live| => NameOf(live[k])), LexLe)
  }

  /** The blacklist: the collected names, each once, folded through the processors, as a set. */
  function Blacklist(names: seq<string>, processors: seq<seq<string> -> seq<string>>): set<string>
  {
    set n | n in RunAll(DistinctBy(names, Self), processors)
  }

  /** Without processors the blacklist is exactly the set of collected names. */
  lemma BlacklistWithoutProcessors(names: seq<string>)
    ensures Blacklist(names, []) == set n | n in names
  {
    DistinctKeepsNames(names);
  }

  /** A processor appended to the list sees the output of all the earlier ones. */
  lemma BlacklistLastProcessor(names: seq<string>, processors: seq<seq<string> -> seq<string>>, p: seq<string> -> seq<string>)
    ensures Blacklist(names, processors + [p]) == set n | n in p(RunAll(DistinctBy(names, Self), processors))
  {
    assert (processors + [p])[..|processors|] == processors;
  }

  /** BuildAssemblyBlacklist. */
  method BuildAssemblyBlacklist(byEditorFiles: bool, editorFiles: seq<string>, loaded: seq<LoadedAssembly>,
                                processors: seq<seq<string> -> seq<string>>)
    returns (blacklist: set<string>)
    ensures blacklist == Blacklist(CollectedNames(byEditorFiles, editorFiles, loaded), processors)
  {
    var names := CollectedNames(byEditorFiles, editorFiles, loaded);
    var result := AddNames(names);
    var enumerable := RunProcessors(result, processors);
    blacklist := set n | n in enumerable;
  }

  /** The result.Add loop: each name once, in the order first added. */
  method AddNames(names: seq<string>) returns (result: seq<string>)
    ensures result == DistinctBy(names, Self)
  {
    result := [];
    for i := 0 to |names|
      invariant result == DistinctBy(names[..i], Self)
    {
      DistinctFromSnoc(names[..i], names[i], Self, {});
      assert names[..i + 1] == names[..i] + [names[i]];
      assert names[i] in KeySet(names[..i], Self) <==> names[i] in result;
      if names[i] !in result {
        result := result + [names[i]];
      }
    }
    assert names[..|names|] == names;
  }

  /** ImportFilteredAssemblies: every assembly in order; returns the warnings it logged. */
  method ImportFilteredAssemblies(destinationFolder: string, assemblies: seq<string>, blacklist: set<string>,
                                  whitelist: set<string>, processors: seq<string -> string>,
                                  metaData: string -> string, fs: FileSystem)
    returns (warnings: seq<string>)
    modifies fs
    ensures ImportState(fs.State(), warnings) ==
            ImportAll(old(fs.State()), ImportConfig(destinationFolder, blacklist, whitelist, processors, metaData), assemblies)
  {
    ghost var config := ImportConfig(destinationFolder, blacklist, whitelist, processors, metaData);
    ghost var start := fs.State();
    warnings := [];
    for i := 0 to |assemblies|
      invariant ImportState(fs.State(), warnings) == ImportAll(start, config, assemblies[..i])
    {
      assert assemblies[..i + 1] == assemblies[..i] + [assemblies[i]];
      ImportAllSnoc(start, config, assemblies[..i], assemblies[i]);
      ghost var step := ImportOne(fs.State(), config, assemblies[i]);
      var asmPath := RunProcessors(ReplaceChar(assemblies[i], '\\', '/'), processors);
      var assemblyFileName := GetFileName(asmPath);
      if assemblyFileName !in whitelist && assemblyFileName in blacklist {
        assert step == ImportState(fs.State(), []);
        assert warnings + [] == warnings;
        continue;
      }
      var destinationFile := DestinationFile(destinationFolder, assemblyFileName);
      var destinationMetaData := DestinationMetaData(destinationFolder, assemblyFileName);
      var logged := CopyFiles(asmPath, destinationFile, destinationMetaData, destinationFolder, metaData(asmPath), fs);
      warnings := warnings + logged;
    }
    assert assemblies[..|assemblies|] == assemblies;
  }

  /** The try block of ImportFilteredAssemblies and its catch, which logs a warning. */
  method CopyFiles(asmPath: string, destinationFile: string, destinationMetaData: string, destinationFolder: string,
                   metaText: string, fs: FileSystem)
    returns (warnings: seq<string>)
    modifies fs
    ensures ImportState(fs.State(), warnings) ==
            CopyAssembly(old(fs.State()), asmPath, destinationFile, destinationMetaData, destinationFolder, metaText)
  {
    fs.Perform(DeleteFile(destinationFile));
    if asmPath in fs.files && destinationFolder in fs.dirs {
      fs.Perform(WriteFile(destinationFile, fs.files[asmPath]));
      fs.Perform(WriteFile(destinationMetaData, metaText));
      warnings := [];
    } else {
      warnings := [CopyWarning(destinationFile)];
    }
  }
}
