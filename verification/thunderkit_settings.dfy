/**
 * ThunderKitSettings: the editor settings asset. Modelled here are the quick-access lists
 * (SetQuickAccess), the paths and package name derived from the game executable, the
 * relativisation of a chosen image-cache folder, and the FirstLoad flag that decides whether
 * the settings window opens when the editor starts.
 */
module Settings {
  import opened Wrappers
  import opened Strings
  import opened Paths
  import opened Sequences

  // ---------------------------------------------------------------- quick access

  /**
   * A reference to a Pipeline or Manifest asset: its instance id (Unity's object identity), its
   * name, whether the reference is alive (Unity's bool conversion: not null and not destroyed),
   * and its QuickAccess flag.
   */
  datatype Asset = Asset(id: int, name: string, alive: bool, quickAccess: bool)

  function IdOf(a: Asset): int
  {
    a.id
  }

  /** OrderBy(qao => qao.name) with the ordinal string order. */
  predicate ByName(a: Asset, b: Asset)
  {
    LexLe(a.name, b.name)
  }

  lemma ByNameIsTotalPreorder()
    ensures TotalPreorder(ByName)
  {
    forall a: Asset, b: Asset ensures ByName(a, b) || ByName(b, a) {
      LexLeTotal(a.name, b.name);
    }
    forall a: Asset, b: Asset, c: Asset | ByName(a, b) && ByName(b, c) ensures ByName(a, c) {
      LexLeTransitive(a.name, b.name, c.name);
    }
  }

  predicate IsAlive(a: Asset)
  {
    a.alive
  }

  /** `(objects ?? Enumerable.Empty<T>()).Where(a => a)`. */
  function LiveEntries(objects: Option<seq<Asset>>): (r: seq<Asset>)
    ensures forall k :: 0 <= k < |r| ==> r[k].alive
  {
    Filter(if objects.None? then [] else objects.value, IsAlive)
  }

  /** Unity's `qao != x` for a live `qao`: a dead `x` compares as null, equal to no live object. */
  predicate DiffersFrom(x: Asset, a: Asset)
  {
    !(x.alive && a.id == x.id)
  }

  /** The ids of the live entries of a quick-access array. */
  function LiveIds(objects: Option<seq<Asset>>): set<int>
  {
    KeySet(LiveEntries(objects), IdOf)
  }

  lemma KeySetOfPermutation(s: seq<Asset>, t: seq<Asset>)
    requires multiset(s) == multiset(t)
    ensures KeySet(s, IdOf) == KeySet(t, IdOf)
  {
    forall y ensures y in s <==> y in t {
      assert y in s <==> y in multiset(s);
      assert y in t <==> y in multiset(t);
    }
  }

  lemma KeySetOfFilter(s: seq<Asset>, x: Asset)
    ensures KeySet(Filter(s, a => DiffersFrom(x, a)), IdOf) ==
            KeySet(s, IdOf) - (if x.alive then {x.id} else {})
  {
    var r := Filter(s, a => DiffersFrom(x, a));
    forall i | i in KeySet(s, IdOf) - (if x.alive then {x.id} else {})
      ensures i in KeySet(r, IdOf)
    {
      var y :| y in s && y.id == i;
      var k :| 0 <= k < |s| && s[k] == y;
      assert y in r;
    }
  }

  lemma KeySetOfChange(live: seq<Asset>, x: Asset, quickAccess: bool)
    ensures KeySet(Changed(live, x, quickAccess), IdOf) ==
            if quickAccess then KeySet(live, IdOf) + {x.id}
            else KeySet(live, IdOf) - (if x.alive then {x.id} else {})
  {
    if quickAccess {
      var s := live + [x];
      assert forall y :: y in s ==> y in live || y == x;
      forall i | i in KeySet(live, IdOf) + {x.id} ensures i in KeySet(s, IdOf) {
        if i == x.id {
          assert x in s;
        } else {
          var y :| y in live && y.id == i;
          assert y in s;
        }
      }
    } else {
      KeySetOfFilter(live, x);
    }
  }

  /** `OrderBy(qao => qao.name).Distinct()`: sorted by name, then the first entry of each identity. */
  function SortedDistinct(changed: seq<Asset>): (r: seq<Asset>)
    ensures SortedBy(r, ByName)
    ensures forall i, j :: 0 <= i < j < |r| ==> r[i].id != r[j].id
    ensures forall a :: a in r ==> a in changed
    ensures KeySet(r, IdOf) == KeySet(changed, IdOf)
  {
    var sorted := SortBy(changed, ByName);
    ByNameIsTotalPreorder();
    SortBySorted(changed, ByName);
    DistinctFromSorted(sorted, IdOf, {}, ByName);
    KeySetOfPermutation(sorted, changed);
    assert forall a :: a in sorted ==> a in changed by {
      forall a | a in sorted ensures a in changed {
        assert a in multiset(sorted);
      }
    }
    DistinctBy(sorted, IdOf)
  }

  /** The list before sorting: the live entries with `x` appended, or with `x` filtered out. */
  function Changed(live: seq<Asset>, x: Asset, quickAccess: bool): (r: seq<Asset>)
    ensures forall a :: a in r ==> a in live || (quickAccess && a == x)
  {
    if quickAccess then live + [x]
    else
      var r := Filter(live, a => DiffersFrom(x, a));
      assert forall a :: a in r ==> a in live by {
        forall a | a in r ensures a in live {
          var k :| 0 <= k < |r| && r[k] == a;
        }
      }
      r
  }

  /**
   * SetQuickAccess<T>(x, ref objects, quickAccess): the new array, or None when reading the
   * name of a null or destroyed `x` during the sort throws (the field then keeps its value).
   */
  function UpdateQuickAccess(objects: Option<seq<Asset>>, x: Asset, quickAccess: bool): (r: Option<seq<Asset>>)
    ensures r.None? <==> quickAccess && !x.alive
    ensures r.Some? ==> SortedBy(r.value, ByName)
    ensures r.Some? ==> forall i, j :: 0 <= i < j < |r.value| ==> r.value[i].id != r.value[j].id
    ensures r.Some? ==> forall a :: a in r.value ==>
              a.alive && (a in LiveEntries(objects) || (quickAccess && a == x))
    ensures r.Some? ==> KeySet(r.value, IdOf) ==
                        (if quickAccess then LiveIds(objects) + {x.id}
                         else LiveIds(objects) - (if x.alive then {x.id} else {}))
  {
    var live := LiveEntries(objects);
    if quickAccess && !x.alive then None
    else
      KeySetOfChange(live, x, quickAccess);
      assert forall a :: a in live ==> a.alive;
      Some(SortedDistinct(Changed(live, x, quickAccess)))
  }

  /** Adding leaves `x` in the list; removing a live `x` leaves no entry with its identity. */
  lemma QuickAccessMembership(objects: Option<seq<Asset>>, x: Asset, quickAccess: bool)
    requires x.alive
    ensures var r := UpdateQuickAccess(objects, x, quickAccess);
            && r.Some?
            && (quickAccess ==> exists a :: a in r.value && a.id == x.id)
            && (!quickAccess ==> forall a :: a in r.value ==> a.id != x.id)
  {
    var r := UpdateQuickAccess(objects, x, quickAccess).value;
    if quickAccess {
      assert x.id in KeySet(r, IdOf);
    } else {
      forall a | a in r ensures a.id != x.id {
        assert a.id in KeySet(r, IdOf);
      }
    }
  }

  /** Every live entry other than the one removed survives the update. */
  lemma QuickAccessKeepsOthers(objects: Option<seq<Asset>>, x: Asset, quickAccess: bool, y: Asset)
    requires x.alive
    requires y in LiveEntries(objects) && (quickAccess || y.id != x.id)
    ensures exists a :: a in UpdateQuickAccess(objects, x, quickAccess).value && a.id == y.id
  {
    var r := UpdateQuickAccess(objects, x, quickAccess).value;
    assert y.id in LiveIds(objects);
    assert y.id in KeySet(r, IdOf);
  }

  /** The quick-access list InitSettings rebuilds from the asset search: live and flagged, in search order. */
  function FlaggedAssets(found: seq<Asset>): (r: seq<Asset>)
    ensures forall k :: 0 <= k < |r| ==> r[k].alive && r[k].quickAccess && r[k] in found
    ensures forall k :: 0 <= k < |found| && found[k].alive && found[k].quickAccess ==> found[k] in r
  {
    Filter(found, (a: Asset) => a.alive && a.quickAccess)
  }

  // ---------------------------------------------------------------- derived paths

  /** `<GamePath>/<executable name without extension>_Data`. */
  function GameDataPath(gamePath: string, gameExecutable: string): string
  {
    Combine(gamePath, GetFileNameWithoutExtension(gameExecutable) + "_Data")
  }

  function ManagedAssembliesPath(gamePath: string, gameExecutable: string): string
  {
    Combine(GameDataPath(gamePath, gameExecutable), "Managed")
  }

  function StreamingAssetsPath(gamePath: string, gameExecutable: string): string
  {
    Combine(GameDataPath(gamePath, gameExecutable), "StreamingAssets")
  }

  function AddressableAssetsPath(gamePath: string, gameExecutable: string): string
  {
    Combine(StreamingAssetsPath(gamePath, gameExecutable), "aa")
  }

  function AddressableAssetsCatalog(gamePath: string, gameExecutable: string): string
  {
    Combine(AddressableAssetsPath(gamePath, gameExecutable), "catalog.json")
  }

  function AddressableAssetsSettings(gamePath: string, gameExecutable: string): string
  {
    Combine(AddressableAssetsPath(gamePath, gameExecutable), "settings.json")
  }

  /** The file name of a path holds no separator. */
  lemma StemHasNoSeparator(p: string)
    ensures Separator !in GetFileNameWithoutExtension(p)
  {
    var name := GetFileName(p);
    var stem := GetFileNameWithoutExtension(p);
    forall k | 0 <= k < |stem| ensures stem[k] != Separator {
      assert stem[k] == name[k];
    }
  }

  /** The lower-cased stem holds neither upper-case letters nor separators. */
  lemma LowerStemChars(p: string)
    ensures forall ch :: ch in ToLower(GetFileNameWithoutExtension(p)) ==> !IsAsciiUpper(ch) && ch != Separator
  {
    var stem := GetFileNameWithoutExtension(p);
    var lower := ToLower(stem);
    StemHasNoSeparator(p);
    forall ch | ch in lower ensures !IsAsciiUpper(ch) && ch != Separator {
      var k :| 0 <= k < |lower| && lower[k] == ch;
      assert stem[k] in stem;
    }
  }

  /** Combining onto a path that ends in a name inserts exactly one separator. */
  lemma CombineUnder(dir: string, name: string)
    requires dir != "" && dir[|dir| - 1] != Separator
    requires name != "" && name[0] != Separator
    ensures Combine(dir, name) == dir + "/" + name
    ensures Combine(dir, name)[|Combine(dir, name)| - 1] == name[|name| - 1]
  {
  }

  /** GameDataPath ends in the component `<exe>_Data`. */
  lemma GameDataPathName(gamePath: string, gameExecutable: string)
    ensures GetFileName(GameDataPath(gamePath, gameExecutable)) ==
            GetFileNameWithoutExtension(gameExecutable) + "_Data"
    ensures var data := GameDataPath(gamePath, gameExecutable);
            data != "" && data[|data| - 1] == 'a'
  {
    var leaf := GetFileNameWithoutExtension(gameExecutable) + "_Data";
    StemHasNoSeparator(gameExecutable);
    assert Separator !in leaf;
    CombineFileName(gamePath, leaf);
    var data := GameDataPath(gamePath, gameExecutable);
    assert data[|data| - |leaf|..] == leaf;
    assert data[|data| - 1] == leaf[|leaf| - 1];
  }

  /** The derived game paths nest in a fixed chain, one component per step. */
  lemma GamePathsNest(gamePath: string, gameExecutable: string)
    ensures var data := GameDataPath(gamePath, gameExecutable);
            && ManagedAssembliesPath(gamePath, gameExecutable) == data + "/" + "Managed"
            && StreamingAssetsPath(gamePath, gameExecutable) == data + "/" + "StreamingAssets"
    ensures var aa := AddressableAssetsPath(gamePath, gameExecutable);
            && aa == StreamingAssetsPath(gamePath, gameExecutable) + "/" + "aa"
            && AddressableAssetsCatalog(gamePath, gameExecutable) == aa + "/" + "catalog.json"
            && AddressableAssetsSettings(gamePath, gameExecutable) == aa + "/" + "settings.json"
  {
    var data := GameDataPath(gamePath, gameExecutable);
    GameDataPathName(gamePath, gameExecutable);
    CombineUnder(data, "Managed");
    CombineUnder(data, "StreamingAssets");
    var streaming := StreamingAssetsPath(gamePath, gameExecutable);
    CombineUnder(streaming, "aa");
    var aa := AddressableAssetsPath(gamePath, gameExecutable);
    CombineUnder(aa, "catalog.json");
    CombineUnder(aa, "settings.json");
  }

  /** The folder every package lives in, with its trailing separator. */
  function PackagesFolder(): string
  {
    "Packages/"
  }

  /** The name of the plugins folder inside a package. */
  function PluginsFolder(): string
  {
    "plugins"
  }

  lemma FolderNames()
    ensures |PackagesFolder()| == 9 && PackagesFolder()[8] == Separator
    ensures Separator !in PluginsFolder()
  {
  }

  /** PackageName: the executable's name without extension, lower-cased, its spaces split out and joined. */
  function PackageName(gameExecutable: string): (r: string)
    ensures r == Without(ToLower(GetFileNameWithoutExtension(gameExecutable)), ' ')
    ensures ' ' !in r && Separator !in r
    ensures forall k :: 0 <= k < |r| ==> !IsAsciiUpper(r[k])
  {
    var lower := ToLower(GetFileNameWithoutExtension(gameExecutable));
    ConcatSplit(lower, ' ');
    LowerStemChars(gameExecutable);
    Concat(Split(lower, ' '))
  }

  function PackagePath(gameExecutable: string): string
  {
    PackagesFolder() + PackageName(gameExecutable)
  }

  function PackageFilePath(gameExecutable: string): string
  {
    PackagesFolder() + GetFileNameWithoutExtension(gameExecutable)
  }

  function PackagePluginsPath(gameExecutable: string): string
  {
    PackagePath(gameExecutable) + [Separator] + PluginsFolder()
  }

  /** The package folder is named by PackageName and the plugins folder sits directly inside it. */
  lemma PackagePathsNest(gameExecutable: string)
    ensures GetFileName(PackagePath(gameExecutable)) == PackageName(gameExecutable)
    ensures PackagePath(gameExecutable) <= PackagePluginsPath(gameExecutable)
    ensures GetFileName(PackagePluginsPath(gameExecutable)) == PluginsFolder()
  {
    var path := PackagePath(gameExecutable);
    FolderNames();
    FileNameAfterSeparator(PackagesFolder(), PackageName(gameExecutable));
    FileNameAfterSeparator(path + [Separator], PluginsFolder());
    assert PackagePluginsPath(gameExecutable) == (path + [Separator]) + PluginsFolder();
  }

  lemma AppendCancels(a: string, x: string, y: string)
    requires a + x == a + y
    ensures x == y
  {
    assert x == (a + x)[|a|..];
  }

  /**
   * PackagePath and PackageFilePath name the same folder exactly when the executable's name has
   * no space and no upper-case letter.
   */
  lemma PackagePathIsFilePathIff(gameExecutable: string)
    ensures var stem := GetFileNameWithoutExtension(gameExecutable);
            PackagePath(gameExecutable) == PackageFilePath(gameExecutable) <==>
            (' ' !in stem && forall k :: 0 <= k < |stem| ==> !IsAsciiUpper(stem[k]))
  {
    var stem := GetFileNameWithoutExtension(gameExecutable);
    var name := PackageName(gameExecutable);
    if ' ' !in stem && forall k :: 0 <= k < |stem| ==> !IsAsciiUpper(stem[k]) {
      ToLowerOfLower(stem);
      WithoutAbsent(stem, ' ');
    }
    if PackagePath(gameExecutable) == PackageFilePath(gameExecutable) {
      AppendCancels(PackagesFolder(), name, stem);
    }
  }

  // ---------------------------------------------------------------- image cache folder

  /**
   * The folder chosen in BrowserForCacheFolder, as written: if it starts with the current
   * directory (its '\' turned to '/'), that prefix and any '/' after it are cut off.
   */
  function RelativeCachePath(path: string, currentDirectory: string): (r: string)
    ensures var cur := ReplaceChar(currentDirectory, '\\', '/');
            && (!(cur <= path) ==> r == path)
            && (cur <= path ==>
                  && |cur| + |r| <= |path| && r == path[|path| - |r|..]
                  && (r == [] || r[0] != '/')
                  && forall k :: |cur| <= k < |path| - |r| ==> path[k] == '/')
  {
    var cur := ReplaceChar(currentDirectory, '\\', '/');
    if cur <= path then TrimStart(path[|cur|..], '/') else path
  }

  /**
   * The prefix test is on characters, not on path components: a sibling folder whose name
   * extends the project folder's is cut inside its name, and the result, read relative to the
   * project folder, names a different folder. The component-wise version keeps the path.
   */
  lemma RelativeCachePathCutsInsideAName()
    ensures RelativeCachePath("/home/u/project2/cache", "/home/u/project") == "2/cache"
    ensures Combine("/home/u/project", "2/cache") != "/home/u/project2/cache"
    ensures RelativeCachePathInside("/home/u/project2/cache", "/home/u/project") == "/home/u/project2/cache"
  {
    var cur := ReplaceChar("/home/u/project", '\\', '/');
    assert cur == "/home/u/project";
    assert "/home/u/project2/cache"[15..] == "2/cache";
    assert Combine("/home/u/project", "2/cache")[15] == '/';
    assert "/home/u/project2/cache"[15] == '2';
    assert !Inside("/home/u/project2/cache", cur);
  }

  /** `path` lies inside `dir` (or is `dir`): the prefix ends at a separator. */
  predicate Inside(path: string, dir: string)
  {
    dir <= path && (|path| == |dir| || path[|dir|] == '/' || (dir != "" && dir[|dir| - 1] == '/'))
  }

  /** The relativisation with the prefix test done on whole path components. */
  function RelativeCachePathInside(path: string, currentDirectory: string): (r: string)
    ensures var cur := ReplaceChar(currentDirectory, '\\', '/');
            && (!Inside(path, cur) ==> r == path)
            && (Inside(path, cur) ==>
                  && |cur| + |r| <= |path| && r == path[|path| - |r|..]
                  && (r == [] || r[0] != '/')
                  && forall k :: |cur| <= k < |path| - |r| ==> path[k] == '/')
  {
    var cur := ReplaceChar(currentDirectory, '\\', '/');
    if Inside(path, cur) then TrimStart(path[|cur|..], '/') else path
  }

  /**
   * A path the corrected relativisation shortens, put back under the current directory, is the
   * chosen path again (up to repeated separators): the cut always falls on a separator.
   */
  lemma RelativeCachePathInsideResolves(path: string, currentDirectory: string)
    ensures var cur := ReplaceChar(currentDirectory, '\\', '/');
            var r := RelativeCachePathInside(path, currentDirectory);
            r != path && r != "" && cur != "" && cur[|cur| - 1] != '/' ==>
              path[..|cur|] == cur && path[|cur|] == '/' && path[|path| - |r|..] == r
  {
  }

  // ---------------------------------------------------------------- FirstLoad

  /** What starts InitSettings or EditorApplication_wantsToQuit. */
  datatype StartupEvent = Quit | Init(isCompiling: bool, isUpdating: bool)

  /** The FirstLoad flag after an event, and whether the settings window was shown. */
  datatype StartupStep = StartupStep(firstLoad: bool, shown: bool)

  function Step(firstLoad: bool, showOnStartup: bool, e: StartupEvent): StartupStep
  {
    match e
    case Quit => StartupStep(true, false)
    case Init(compiling, updating) =>
      if compiling || updating then StartupStep(firstLoad, false)
      else StartupStep(false, firstLoad && showOnStartup)
  }

  /** FirstLoad after a run of events. */
  function FinalFirstLoad(firstLoad: bool, showOnStartup: bool, events: seq<StartupEvent>): bool
  {
    if |events| == 0 then firstLoad
    else Step(FinalFirstLoad(firstLoad, showOnStartup, events[..|events| - 1]), showOnStartup, events[|events| - 1]).firstLoad
  }

  /** How many times the settings window was shown during a run of events. */
  function TimesShown(firstLoad: bool, showOnStartup: bool, events: seq<StartupEvent>): nat
  {
    if |events| == 0 then 0
    else
      TimesShown(firstLoad, showOnStartup, events[..|events| - 1]) +
      (if Step(FinalFirstLoad(firstLoad, showOnStartup, events[..|events| - 1]), showOnStartup, events[|events| - 1]).shown then 1 else 0)
  }

  function QuitCount(events: seq<StartupEvent>): nat
  {
    if |events| == 0 then 0
    else QuitCount(events[..|events| - 1]) + (if events[|events| - 1].Quit? then 1 else 0)
  }

  /** The settings window opens at most once per quit (plus once for a fresh asset). */
  lemma {:induction false} ShownAtMostOncePerQuit(firstLoad: bool, showOnStartup: bool, events: seq<StartupEvent>)
    ensures TimesShown(firstLoad, showOnStartup, events) + (if FinalFirstLoad(firstLoad, showOnStartup, events) then 1 else 0)
            <= (if firstLoad then 1 else 0) + QuitCount(events)
  {
    if |events| > 0 {
      ShownAtMostOncePerQuit(firstLoad, showOnStartup, events[..|events| - 1]);
    }
  }

  /** With ShowOnStartup off the window never opens, whatever happens. */
  lemma {:induction false} NeverShownWhenDisabled(firstLoad: bool, events: seq<StartupEvent>)
    ensures TimesShown(firstLoad, false, events) == 0
  {
    if |events| > 0 {
      NeverShownWhenDisabled(firstLoad, events[..|events| - 1]);
    }
  }

  /** A quit followed by a start with the guard passed reopens the window exactly when ShowOnStartup. */
  lemma QuitThenInitShows(firstLoad: bool, showOnStartup: bool)
    ensures TimesShown(firstLoad, showOnStartup, [Quit, Init(false, false)]) == (if showOnStartup then 1 else 0)
    ensures !FinalFirstLoad(firstLoad, showOnStartup, [Quit, Init(false, false)])
  {
    assert [Quit, Init(false, false)][..1] == [Quit];
    assert [Quit][..0] == [];
  }

  // ---------------------------------------------------------------- the settings asset

  datatype Platform = LinuxEditor | WindowsEditor | OSXEditor | OtherPlatform

  datatype BrowseOutcome = Updated | Cancelled | Unsupported

  /** The editor's event lists, as far as the static setup method touches them. */
  class EditorHooks {
    var quitHandlers: nat
    var compilationHandlers: nat
    var initSettingsHandlers: nat

    constructor ()
      ensures quitHandlers == 0 && compilationHandlers == 0 && initSettingsHandlers == 0
    {
      quitHandlers, compilationHandlers, initSettingsHandlers := 0, 0, 0;
    }

    /** SetupPostCompilationAssemblyCopy: `-=` then `+=` leaves a quit and a compilation handler count of 1 when it was 0 and unchanged otherwise; InitSettings is added once more. */
    method SetupPostCompilationAssemblyCopy()
      modifies this
      ensures quitHandlers == (if old(quitHandlers) == 0 then 1 else old(quitHandlers))
      ensures compilationHandlers == (if old(compilationHandlers) == 0 then 1 else old(compilationHandlers))
      ensures initSettingsHandlers == old(initSettingsHandlers) + 1
    {
      if quitHandlers > 0 { quitHandlers := quitHandlers - 1; }
      quitHandlers := quitHandlers + 1;
      if compilationHandlers > 0 { compilationHandlers := compilationHandlers - 1; }
      compilationHandlers := compilationHandlers + 1;
      initSettingsHandlers := initSettingsHandlers + 1;
    }
  }

  class ThunderKitSettings {
    var firstLoad: bool
    var showOnStartup: bool
    var gameExecutable: string
    var gamePath: string
    var imageCachePath: string
    var quickAccessPipelines: Option<seq<Asset>>
    var quickAccessManifests: Option<seq<Asset>>

    /** A fresh settings asset with its field initialisers, after Initialize. */
    constructor ()
      ensures firstLoad && showOnStartup
      ensures gameExecutable == "" && gamePath == ""
      ensures imageCachePath == "Library/MarkdownImageCache"
      ensures quickAccessPipelines.None? && quickAccessManifests.None?
    {
      firstLoad := true;
      showOnStartup := true;
      gameExecutable := "";
      gamePath := "";
      imageCachePath := "Library/MarkdownImageCache";
      quickAccessPipelines := None;
      quickAccessManifests := None;
    }

    /** EditorApplication_wantsToQuit: the next start counts as a first load; quitting is allowed. */
    method WantsToQuit() returns (allow: bool)
      modifies this`firstLoad
      ensures firstLoad == Step(old(firstLoad), showOnStartup, Quit).firstLoad
      ensures allow
    {
      firstLoad := true;
      allow := true;
    }

    /**
     * InitSettings. Guarded by compilation or asset updating it does nothing; otherwise it removes
     * itself from the update loop, rebuilds both quick-access lists from the asset search, and
     * shows the window only on a first load with ShowOnStartup set.
     */
    method InitSettings(isCompiling: bool, isUpdating: bool, hooks: EditorHooks,
                        foundPipelines: seq<Asset>, foundManifests: seq<Asset>) returns (shown: bool)
      modifies this`firstLoad, this`quickAccessPipelines, this`quickAccessManifests, hooks`initSettingsHandlers
      ensures var step := Step(old(firstLoad), showOnStartup, Init(isCompiling, isUpdating));
              firstLoad == step.firstLoad && shown == step.shown
      ensures isCompiling || isUpdating ==>
                && quickAccessPipelines == old(quickAccessPipelines)
                && quickAccessManifests == old(quickAccessManifests)
                && hooks.initSettingsHandlers == old(hooks.initSettingsHandlers)
      ensures !(isCompiling || isUpdating) ==>
                && quickAccessPipelines == Some(FlaggedAssets(foundPipelines))
                && quickAccessManifests == Some(FlaggedAssets(foundManifests))
                && hooks.initSettingsHandlers == (if old(hooks.initSettingsHandlers) == 0 then 0 else old(hooks.initSettingsHandlers) - 1)
    {
      if isCompiling || isUpdating {
        return false;
      }
      if hooks.initSettingsHandlers > 0 {
        hooks.initSettingsHandlers := hooks.initSettingsHandlers - 1;
      }
      quickAccessPipelines := Some(FlaggedAssets(foundPipelines));
      quickAccessManifests := Some(FlaggedAssets(foundManifests));
      if !firstLoad || !showOnStartup {
        firstLoad := false;
        return false;
      }
      shown := true;
      firstLoad := false;
    }

    /**
     * BrowserForCacheFolder with the folder the dialog returned ("" when cancelled) and the
     * current directory; the folder is made relative by the string-prefix cut of RelativeCachePath.
     */
    method BrowseForCacheFolder(platform: Platform, selected: string, currentDirectory: string)
      returns (outcome: BrowseOutcome)
      modifies this`imageCachePath
      ensures platform != LinuxEditor && platform != WindowsEditor ==>
                outcome == Unsupported && imageCachePath == old(imageCachePath)
      ensures (platform == LinuxEditor || platform == WindowsEditor) && selected == "" ==>
                outcome == Cancelled && imageCachePath == old(imageCachePath)
      ensures (platform == LinuxEditor || platform == WindowsEditor) && selected != "" ==>
                outcome == Updated && imageCachePath == RelativeCachePath(selected, currentDirectory)
    {
      match platform
      case LinuxEditor | WindowsEditor =>
        if selected == "" {
          return Cancelled;
        }
        imageCachePath := RelativeCachePath(selected, currentDirectory);
        return Updated;
      case _ =>
        return Unsupported;
    }

    /** SetQuickAccess(Pipeline, bool); returns false when the sort throws and the field is kept. */
    method SetPipelineQuickAccess(pipeline: Asset, quickAccess: bool) returns (completed: bool)
      modifies this`quickAccessPipelines
      ensures var r := UpdateQuickAccess(old(quickAccessPipelines), pipeline, quickAccess);
              && completed == r.Some?
              && quickAccessPipelines == (if r.Some? then r else old(quickAccessPipelines))
    {
      var r := UpdateQuickAccess(quickAccessPipelines, pipeline, quickAccess);
      if r.Some? {
        quickAccessPipelines := r;
      }
      completed := r.Some?;
    }

    /** SetQuickAccess(Manifest, bool); returns false when the sort throws and the field is kept. */
    method SetManifestQuickAccess(manifest: Asset, quickAccess: bool) returns (completed: bool)
      modifies this`quickAccessManifests
      ensures var r := UpdateQuickAccess(old(quickAccessManifests), manifest, quickAccess);
              && completed == r.Some?
              && quickAccessManifests == (if r.Some? then r else old(quickAccessManifests))
    {
      var r := UpdateQuickAccess(quickAccessManifests, manifest, quickAccess);
      if r.Some? {
        quickAccessManifests := r;
      }
      completed := r.Some?;
    }
  }
}
