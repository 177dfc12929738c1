# ThunderKit editor core in Dafny

This project models four parts of the ThunderKit editor package, the Unity editor extension that
imports a game's assemblies into a Unity project and installs mods from Thunderstore archives:

- **LocalThunderstoreSource** (`local_thunderstore_source.dfy`, module `LocalThunderstore`): a
  package source that reads the `.zip` archives of a local folder. Loading registers one package
  group per archive that holds a `manifest.json`. Installing extracts every archive whose
  `author-name` equals the requested version's group id. The class keeps the repository path,
  the catalog that AddPackageGroup fills, and whether the source is subscribed to
  `InitializeSources`. Install writes through the file-system object `Disk.FileSystem`.
- **PackageVersion** (`package_version.dfy`, module `PackageVersions`): value identity by
  dependency id, and the unchecked 32-bit hash.
- **ThunderKitSettings** (`thunderkit_settings.dfy`, module `Settings`):
  - the settings object: FirstLoad, ShowOnStartup, ImageCachePath and the quick-access arrays;
  - the startup and quit handlers and the editor event lists they touch;
  - the derived game and package paths;
  - the cache-folder browser;
  - SetQuickAccess.
- **ImportAssemblies** (`import_assemblies.dfy`, module `ImportAssemblies`):
  - the processor lists built by CreateImporters;
  - the binary whitelist and the assembly blacklist;
  - the import loop, which copies each kept assembly with its `.meta` file into the package folder.

Shared modules:

| file | module | contents |
|---|---|---|
| `wrappers.dfy` | `Wrappers` | Option and Outcome |
| `strings.dfy` | `Strings` | ordinal string operations |
| `paths.dfy` | `Paths` | System.IO.Path on a `/`-separated file system |
| `sequences.dfy` | `Sequences` | sorting, distinct-by-key, filtering, folds, and the search and processor loops, each with its proofs |
| `disk.dfy` | `Disk` | a tree of directories and files, operations on it, and the `FileSystem` class |

Conventions:

- **Collaborators become parameters.** The things the code reaches through collaborators are
  parameters of the model:
  - the archive listing and each archive's entries (`None` when the folder or the archive cannot be read);
  - the JSON decoder of a manifest;
  - the asset search results;
  - the folder chosen in a dialog;
  - the loaded types and assemblies;
  - the processors, as functions;
  - the metadata writer, as a function of the assembly path.
- **Exceptions become values.** Each one the code would propagate becomes an error value: an
  `Outcome` or an `error` field, or `None`. Each one it catches becomes the logged warning.

## Model

| member | source | states |
|---|---|---|
| LocalThunderstore.VersionIdToGroupId | TrialOfTheSun/Library/PackageCache/com.passivepicasso.thunderkit@5012c9132d28/Editor/Thunderstore/LocalThunderstoreSource.cs:37 | None exactly when the id has no '-' (Substring(0, -1) throws); otherwise the prefix before the last '-', with no '-' after the cut |
| LocalThunderstore.VersionIdRoundTrip | TrialOfTheSun/Library/PackageCache/com.passivepicasso.thunderkit@5012c9132d28/Editor/Thunderstore/LocalThunderstoreSource.cs:37 | a group id followed by '-' and a dash-free version segment maps back to that group id |
| LocalThunderstore.VersionIdExample | TrialOfTheSun/Library/PackageCache/com.passivepicasso.thunderkit@5012c9132d28/Editor/Thunderstore/LocalThunderstoreSource.cs:37 | "acme-supermod-1.0.0" maps to "acme-supermod": only the last segment is dropped |
| LocalThunderstore.AuthorOf | TrialOfTheSun/Library/PackageCache/com.passivepicasso.thunderkit@5012c9132d28/Editor/Thunderstore/LocalThunderstoreSource.cs:56 | Split('-')[0]: a prefix of the version id with no '-', followed by '-' unless it is the whole id |
| LocalThunderstore.AuthorOfPrefixed | TrialOfTheSun/Library/PackageCache/com.passivepicasso.thunderkit@5012c9132d28/Editor/Thunderstore/LocalThunderstoreSource.cs:55-56 | every version id of the form author-rest yields that author |
| Strings.SplitJoin | TrialOfTheSun/Library/PackageCache/com.passivepicasso.thunderkit@5012c9132d28/Editor/Thunderstore/LocalThunderstoreSource.cs:56 | String.Split loses nothing: joining its pieces with the separator gives back the string |
| Strings.SplitPieces | TrialOfTheSun/Library/PackageCache/com.passivepicasso.thunderkit@5012c9132d28/Editor/Thunderstore/LocalThunderstoreSource.cs:56 | no piece String.Split returns contains the separator |
| LocalThunderstore.LoadWithoutPathRegistersNothing | TrialOfTheSun/Library/PackageCache/com.passivepicasso.thunderkit@5012c9132d28/Editor/Thunderstore/LocalThunderstoreSource.cs:40 | a null or empty LocalRepositoryPath registers no group and raises nothing |
| LocalThunderstore.ScanStopsAtError | TrialOfTheSun/Library/PackageCache/com.passivepicasso.thunderkit@5012c9132d28/Editor/Thunderstore/LocalThunderstoreSource.cs:42-70 | an exception from one archive ends the pass: later archives change neither the groups nor the error |
| LocalThunderstore.AtMostOneGroupPerArchive | TrialOfTheSun/Library/PackageCache/com.passivepicasso.thunderkit@5012c9132d28/Editor/Thunderstore/LocalThunderstoreSource.cs:45-68 | the loop breaks after the first manifest entry, so no archive registers more than one group |
| LocalThunderstore.GroupsComeFromArchives | TrialOfTheSun/Library/PackageCache/com.passivepicasso.thunderkit@5012c9132d28/Editor/Thunderstore/LocalThunderstoreSource.cs:55-66 | every registered group is GroupFor of a listed archive and the decoded first manifest.json entry of that archive: author and version id from the archive name, name, description, version number and dependencies from the manifest, id author-name, empty release notes |
| LocalThunderstore.CompletedScanRegistersManifestGroups | TrialOfTheSun/Library/PackageCache/com.passivepicasso.thunderkit@5012c9132d28/Editor/Thunderstore/LocalThunderstoreSource.cs:42-70 | a pass that ends normally registers exactly the groups of the archives whose manifest decodes, in listing order |
| LocalThunderstore.ArchivesRegisterTheirGroups | TrialOfTheSun/Library/PackageCache/com.passivepicasso.thunderkit@5012c9132d28/Editor/Thunderstore/LocalThunderstoreSource.cs:45-67 | conversely, after a pass that ends normally, every listed archive with a decodable manifest.json entry has its group in the catalog |
| LocalThunderstore.ArchiveWithoutManifestIsSkipped | TrialOfTheSun/Library/PackageCache/com.passivepicasso.thunderkit@5012c9132d28/Editor/Thunderstore/LocalThunderstoreSource.cs:47 | an archive with no entry whose file name is manifest.json contributes nothing and does not stop the pass |
| LocalThunderstore.CompletedScanCountsManifests | TrialOfTheSun/Library/PackageCache/com.passivepicasso.thunderkit@5012c9132d28/Editor/Thunderstore/LocalThunderstoreSource.cs:42-70 | a pass that ends normally registers exactly one group per archive holding a manifest.json entry |
| LocalThunderstore.RegisteredVersionMapsToItsGroup | TrialOfTheSun/Library/PackageCache/com.passivepicasso.thunderkit@5012c9132d28/Editor/Thunderstore/LocalThunderstoreSource.cs:37 | for an archive named author-name-version, VersionIdToGroupId of the registered version id is the group's id |
| LocalThunderstore.ManifestEntryIsMentioned | TrialOfTheSun/Library/PackageCache/com.passivepicasso.thunderkit@5012c9132d28/Editor/Thunderstore/LocalThunderstoreSource.cs:80 | every entry the load accepts as the manifest also satisfies install's Contains("manifest.json") test |
| LocalThunderstore.MentionedEntryNeedNotBeManifest | TrialOfTheSun/Library/PackageCache/com.passivepicasso.thunderkit@5012c9132d28/Editor/Thunderstore/LocalThunderstoreSource.cs:80 | the converse fails: install accepts "manifest.json.bak", which load does not |
| LocalThunderstore.DirectoryOps | TrialOfTheSun/Library/PackageCache/com.passivepicasso.thunderkit@5012c9132d28/Editor/Thunderstore/LocalThunderstoreSource.cs:91-92 | the first extraction loop only creates directories |
| LocalThunderstore.FileOps | TrialOfTheSun/Library/PackageCache/com.passivepicasso.thunderkit@5012c9132d28/Editor/Thunderstore/LocalThunderstoreSource.cs:95-96 | the second extraction loop only writes files |
| LocalThunderstore.DirectoriesBeforeFiles | TrialOfTheSun/Library/PackageCache/com.passivepicasso.thunderkit@5012c9132d28/Editor/Thunderstore/LocalThunderstoreSource.cs:91-96 | in an archive's extraction every directory creation precedes every file write |
| LocalThunderstore.ExtractionWritesEveryEntry | TrialOfTheSun/Library/PackageCache/com.passivepicasso.thunderkit@5012c9132d28/Editor/Thunderstore/LocalThunderstoreSource.cs:91-96 | after extraction every directory entry exists under the package directory and every file entry's path is a file; the file holds that entry's data unless a later file entry is extracted to the same path (overwrite) |
| LocalThunderstore.InstallStopsAtError | TrialOfTheSun/Library/PackageCache/com.passivepicasso.thunderkit@5012c9132d28/Editor/Thunderstore/LocalThunderstoreSource.cs:76-98 | an exception from one archive ends the install: later archives add no operation |
| LocalThunderstore.InstallExtractsExactlyTheMatches | TrialOfTheSun/Library/PackageCache/com.passivepicasso.thunderkit@5012c9132d28/Editor/Thunderstore/LocalThunderstoreSource.cs:76-97 | with no exception, the operations are exactly the extractions of the matching archives in listing order: there is no break |
| LocalThunderstore.NoMatchWritesNothing | TrialOfTheSun/Library/PackageCache/com.passivepicasso.thunderkit@5012c9132d28/Editor/Thunderstore/LocalThunderstoreSource.cs:89 | when no archive matches the group id, install writes nothing and raises nothing |
| LocalThunderstore.InstallIsAdditive | TrialOfTheSun/Library/PackageCache/com.passivepicasso.thunderkit@5012c9132d28/Editor/Thunderstore/LocalThunderstoreSource.cs:91-96 | install never deletes: its trace only creates directories and writes files |
| LocalThunderstore.InstallTwiceIsInstallOnce | TrialOfTheSun/Library/PackageCache/com.passivepicasso.thunderkit@5012c9132d28/Editor/Thunderstore/LocalThunderstoreSource.cs:94 | with Overwrite set, installing the same version twice leaves the same tree as installing it once |
| LocalThunderstore.LocalThunderstoreSource.constructor | TrialOfTheSun/Library/PackageCache/com.passivepicasso.thunderkit@5012c9132d28/Editor/Thunderstore/LocalThunderstoreSource.cs:32 | a source holds its repository path, an empty catalog and no event subscription |
| LocalThunderstore.LocalThunderstoreSource.OnEnable | TrialOfTheSun/Library/PackageCache/com.passivepicasso.thunderkit@5012c9132d28/Editor/Thunderstore/LocalThunderstoreSource.cs:18-22 | detach then attach: the handler is attached exactly once |
| LocalThunderstore.LocalThunderstoreSource.OnDisable | TrialOfTheSun/Library/PackageCache/com.passivepicasso.thunderkit@5012c9132d28/Editor/Thunderstore/LocalThunderstoreSource.cs:23-30 | the handler is detached (OnDisable and OnDestroy) |
| LocalThunderstore.LocalThunderstoreSource.AddPackageGroup | TrialOfTheSun/Library/PackageCache/com.passivepicasso.thunderkit@5012c9132d28/Editor/Thunderstore/LocalThunderstoreSource.cs:58-67 | the group is appended to the catalog |
| LocalThunderstore.LocalThunderstoreSource.OnLoadPackages | TrialOfTheSun/Library/PackageCache/com.passivepicasso.thunderkit@5012c9132d28/Editor/Thunderstore/LocalThunderstoreSource.cs:38-71 | the catalog gains exactly Load's groups, and the outcome is Load's error |
| LocalThunderstore.LocalThunderstoreSource.LoadArchive | TrialOfTheSun/Library/PackageCache/com.passivepicasso.thunderkit@5012c9132d28/Editor/Thunderstore/LocalThunderstoreSource.cs:44-69 | the catalog grows by, and the error is, what ScanArchive gives for this archive alone: its group, nothing without a manifest, or its exception |
| LocalThunderstore.LocalThunderstoreSource.RegisterManifest | TrialOfTheSun/Library/PackageCache/com.passivepicasso.thunderkit@5012c9132d28/Editor/Thunderstore/LocalThunderstoreSource.cs:53-67 | a manifest that decodes adds exactly GroupFor's group; one that decodes to null raises ManifestMalformed and adds nothing |
| LocalThunderstore.LocalThunderstoreSource.OnInstallPackageFiles | TrialOfTheSun/Library/PackageCache/com.passivepicasso.thunderkit@5012c9132d28/Editor/Thunderstore/LocalThunderstoreSource.cs:73-99 | the file system after the call is Install's trace applied to the one before, and the outcome is Install's error |
| LocalThunderstore.LocalThunderstoreSource.InstallArchive | TrialOfTheSun/Library/PackageCache/com.passivepicasso.thunderkit@5012c9132d28/Editor/Thunderstore/LocalThunderstoreSource.cs:78-97 | one archive: its identification error, no change for another group, or its extraction |
| LocalThunderstore.LocalThunderstoreSource.ExtractArchive | TrialOfTheSun/Library/PackageCache/com.passivepicasso.thunderkit@5012c9132d28/Editor/Thunderstore/LocalThunderstoreSource.cs:91-96 | the two loops apply exactly ExtractionOps: directories first, then files |
| LocalThunderstore.LocalThunderstoreSource.CreateDirectories | TrialOfTheSun/Library/PackageCache/com.passivepicasso.thunderkit@5012c9132d28/Editor/Thunderstore/LocalThunderstoreSource.cs:91-92 | the first extraction loop applies exactly DirectoryOps: one CreateDirectory per directory entry, in archive order |
| LocalThunderstore.LocalThunderstoreSource.WriteFiles | TrialOfTheSun/Library/PackageCache/com.passivepicasso.thunderkit@5012c9132d28/Editor/Thunderstore/LocalThunderstoreSource.cs:94-96 | the second extraction loop applies exactly FileOps: one overwriting write per file entry, in archive order |
| Sequences.FindFirst | TrialOfTheSun/Library/PackageCache/com.passivepicasso.thunderkit@5012c9132d28/Editor/Thunderstore/LocalThunderstoreSource.cs:45-68 | the entry loop with its break stops at FirstIndex: the first entry passing the test, or none |
| LocalThunderstore.LocalThunderstoreSource.ReloadPagesAsyncInternal | TrialOfTheSun/Library/PackageCache/com.passivepicasso.thunderkit@5012c9132d28/Editor/Thunderstore/LocalThunderstoreSource.cs:101-104 | the returned task is already complete |
| PackageVersions.EqualsIffSameDependencyId | TrialOfTheSun/Library/PackageCache/com.passivepicasso.thunderkit@5012c9132d28/Editor/Core/Data/PackageVersion.cs:16-20 | two versions are equal exactly when their dependency ids are |
| PackageVersions.NeverEqualsOtherType | TrialOfTheSun/Library/PackageCache/com.passivepicasso.thunderkit@5012c9132d28/Editor/Core/Data/PackageVersion.cs:18 | null or an object of another type is never equal to a version |
| PackageVersions.EqualsIsEquivalence | TrialOfTheSun/Library/PackageCache/com.passivepicasso.thunderkit@5012c9132d28/Editor/Core/Data/PackageVersion.cs:16-20 | Equals is reflexive, symmetric and transitive on versions |
| PackageVersions.EqualsIgnoresOtherFields | TrialOfTheSun/Library/PackageCache/com.passivepicasso.thunderkit@5012c9132d28/Editor/Core/Data/PackageVersion.cs:16-20 | changing version, markdown, group id, dependencies or name changes no equality |
| PackageVersions.EqualsIsNotStructural | TrialOfTheSun/Library/PackageCache/com.passivepicasso.thunderkit@5012c9132d28/Editor/Core/Data/PackageVersion.cs:16-20 | two versions differing only in their version string are equal |
| PackageVersions.Wrap32 | TrialOfTheSun/Library/PackageCache/com.passivepicasso.thunderkit@5012c9132d28/Editor/Core/Data/PackageVersion.cs:24 | the unchecked int addition: the result is a 32-bit value congruent to the sum modulo 2^32 |
| PackageVersions.GetHashCode | TrialOfTheSun/Library/PackageCache/com.passivepicasso.thunderkit@5012c9132d28/Editor/Core/Data/PackageVersion.cs:22-25 | the hash is a 32-bit value |
| PackageVersions.HashAgreesWithEquals | TrialOfTheSun/Library/PackageCache/com.passivepicasso.thunderkit@5012c9132d28/Editor/Core/Data/PackageVersion.cs:22-25 | equal versions hash alike for any string hash of the runtime |
| PackageVersions.HashIsSeedPlusIdHash | TrialOfTheSun/Library/PackageCache/com.passivepicasso.thunderkit@5012c9132d28/Editor/Core/Data/PackageVersion.cs:24 | the hash is 996503521 plus the string hash of the dependency id, modulo 2^32 |
| Settings.ByNameIsTotalPreorder | TrialOfTheSun/Library/PackageCache/com.passivepicasso.thunderkit@5012c9132d28/Editor/Core/Data/ThunderKitSettings.cs:350 | ordering by name is total and transitive, as OrderBy needs |
| Settings.LiveEntries | TrialOfTheSun/Library/PackageCache/com.passivepicasso.thunderkit@5012c9132d28/Editor/Core/Data/ThunderKitSettings.cs:343 | null array as empty; only live objects are kept, all of them |
| Settings.UpdateQuickAccess | TrialOfTheSun/Library/PackageCache/com.passivepicasso.thunderkit@5012c9132d28/Editor/Core/Data/ThunderKitSettings.cs:341-351 | None exactly when adding a dead object (reading its name throws); otherwise sorted by name, one entry per object, every entry live and from the old list or the added object, identities = old live ones plus the added one, or minus the removed one |
| Settings.QuickAccessMembership | TrialOfTheSun/Library/PackageCache/com.passivepicasso.thunderkit@5012c9132d28/Editor/Core/Data/ThunderKitSettings.cs:345-348 | adding a live object leaves it listed; removing it leaves no entry for it |
| Settings.QuickAccessKeepsOthers | TrialOfTheSun/Library/PackageCache/com.passivepicasso.thunderkit@5012c9132d28/Editor/Core/Data/ThunderKitSettings.cs:343-350 | every live entry other than the removed object survives the update |
| Settings.FlaggedAssets | TrialOfTheSun/Library/PackageCache/com.passivepicasso.thunderkit@5012c9132d28/Editor/Core/Data/ThunderKitSettings.cs:111-122 | the rebuilt quick-access list holds exactly the live assets with QuickAccess set |
| Settings.GameDataPathName | TrialOfTheSun/Library/PackageCache/com.passivepicasso.thunderkit@5012c9132d28/Editor/Core/Data/ThunderKitSettings.cs:142 | the data folder's name is the executable's name without extension followed by _Data |
| Settings.GamePathsNest | TrialOfTheSun/Library/PackageCache/com.passivepicasso.thunderkit@5012c9132d28/Editor/Core/Data/ThunderKitSettings.cs:143-147 | Managed and StreamingAssets sit in the data folder, aa in StreamingAssets, catalog.json and settings.json in aa |
| Settings.PackageName | TrialOfTheSun/Library/PackageCache/com.passivepicasso.thunderkit@5012c9132d28/Editor/Core/Data/ThunderKitSettings.cs:156-163 | the lower-cased executable name with its spaces removed: no space, no separator, no upper-case letter |
| Strings.ConcatSplit | TrialOfTheSun/Library/PackageCache/com.passivepicasso.thunderkit@5012c9132d28/Editor/Core/Data/ThunderKitSettings.cs:161 | concatenating the pieces of Split(' ') is the string with every space removed |
| Settings.PackagePathsNest | TrialOfTheSun/Library/PackageCache/com.passivepicasso.thunderkit@5012c9132d28/Editor/Core/Data/ThunderKitSettings.cs:164-166 | the package folder is named PackageName under Packages and plugins sits directly inside it |
| Settings.PackagePathIsFilePathIff | TrialOfTheSun/Library/PackageCache/com.passivepicasso.thunderkit@5012c9132d28/Editor/Core/Data/ThunderKitSettings.cs:164-165 | PackagePath and PackageFilePath coincide exactly when the executable name has no space and no upper-case letter |
| Settings.RelativeCachePath | TrialOfTheSun/Library/PackageCache/com.passivepicasso.thunderkit@5012c9132d28/Editor/Core/Data/ThunderKitSettings.cs:297-299 | as written: a path starting with the current directory loses that prefix and the '/' after it; any other path is kept |
| Settings.RelativeCachePathCutsInsideAName | TrialOfTheSun/Library/PackageCache/com.passivepicasso.thunderkit@5012c9132d28/Editor/Core/Data/ThunderKitSettings.cs:298-299 | as written the prefix test cuts a sibling folder inside its name: /home/u/project2/cache becomes 2/cache |
| Settings.RelativeCachePathInside | TrialOfTheSun/Library/PackageCache/com.passivepicasso.thunderkit@5012c9132d28/Editor/Core/Data/ThunderKitSettings.cs:297-299 | corrected: the prefix is cut only on a path-component boundary |
| Settings.RelativeCachePathInsideResolves | TrialOfTheSun/Library/PackageCache/com.passivepicasso.thunderkit@5012c9132d28/Editor/Core/Data/ThunderKitSettings.cs:297-299 | a path the corrected version shortens is the current directory, a separator, then the result |
| Settings.ShownAtMostOncePerQuit | TrialOfTheSun/Library/PackageCache/com.passivepicasso.thunderkit@5012c9132d28/Editor/Core/Data/ThunderKitSettings.cs:129-136 | over any run of quits and starts, the window opens at most once per quit, plus once for a fresh asset |
| Settings.NeverShownWhenDisabled | TrialOfTheSun/Library/PackageCache/com.passivepicasso.thunderkit@5012c9132d28/Editor/Core/Data/ThunderKitSettings.cs:129-133 | with ShowOnStartup off the window never opens |
| Settings.QuitThenInitShows | TrialOfTheSun/Library/PackageCache/com.passivepicasso.thunderkit@5012c9132d28/Editor/Core/Data/ThunderKitSettings.cs:129-136 | a quit followed by an unguarded start opens the window exactly when ShowOnStartup, and clears FirstLoad |
| Settings.EditorHooks.SetupPostCompilationAssemblyCopy | TrialOfTheSun/Library/PackageCache/com.passivepicasso.thunderkit@5012c9132d28/Editor/Core/Data/ThunderKitSettings.cs:35-43 | each `-=` then `+=` leaves the quit and compilation handler counts at 1 when they were 0, and unchanged otherwise; InitSettings gains one more subscription |
| Settings.ThunderKitSettings.constructor | TrialOfTheSun/Library/PackageCache/com.passivepicasso.thunderkit@5012c9132d28/Editor/Core/Data/ThunderKitSettings.cs:168-181 | FirstLoad and ShowOnStartup are on, ImageCachePath is Library/MarkdownImageCache, the quick-access arrays are null |
| Settings.ThunderKitSettings.WantsToQuit | TrialOfTheSun/Library/PackageCache/com.passivepicasso.thunderkit@5012c9132d28/Editor/Core/Data/ThunderKitSettings.cs:56-63 | FirstLoad is set and quitting is allowed |
| Settings.ThunderKitSettings.InitSettings | TrialOfTheSun/Library/PackageCache/com.passivepicasso.thunderkit@5012c9132d28/Editor/Core/Data/ThunderKitSettings.cs:101-139 | while compiling or updating nothing changes; otherwise the handler is removed, both lists are rebuilt, and the window opens exactly on a first load with ShowOnStartup, FirstLoad then cleared |
| Settings.ThunderKitSettings.BrowseForCacheFolder | TrialOfTheSun/Library/PackageCache/com.passivepicasso.thunderkit@5012c9132d28/Editor/Core/Data/ThunderKitSettings.cs:288-312 | unsupported platforms and a cancelled dialog keep ImageCachePath; otherwise it becomes the choice relativised by prefix string (RelativeCachePath, as written) |
| Settings.ThunderKitSettings.SetPipelineQuickAccess | TrialOfTheSun/Library/PackageCache/com.passivepicasso.thunderkit@5012c9132d28/Editor/Core/Data/ThunderKitSettings.cs:338 | the pipeline list becomes UpdateQuickAccess's result, or is kept when that throws |
| Settings.ThunderKitSettings.SetManifestQuickAccess | TrialOfTheSun/Library/PackageCache/com.passivepicasso.thunderkit@5012c9132d28/Editor/Core/Data/ThunderKitSettings.cs:339 | the manifest list becomes UpdateQuickAccess's result, or is kept when that throws |
| ImportAssemblies.Instances | TrialOfTheSun/Library/PackageCache/com.passivepicasso.thunderkit@5012c9132d28/Editor/Core/Config/Common/ImportAssemblies.cs:64-67 | the instances of exactly the assignable, concrete, non-interface types whose instance is not null |
| ImportAssemblies.CreateImporters | TrialOfTheSun/Library/PackageCache/com.passivepicasso.thunderkit@5012c9132d28/Editor/Core/Config/Common/ImportAssemblies.cs:64-69 | the eligible instances, ordered by descending Priority, none lost or added |
| ImportAssemblies.CreateImportersKeepsEligible | TrialOfTheSun/Library/PackageCache/com.passivepicasso.thunderkit@5012c9132d28/Editor/Core/Config/Common/ImportAssemblies.cs:64-67 | an importer is listed exactly when some eligible loaded type produced it |
| ImportAssemblies.SkipRule | TrialOfTheSun/Library/PackageCache/com.passivepicasso.thunderkit@5012c9132d28/Editor/Core/Config/Common/ImportAssemblies.cs:202-205 | an assembly is skipped exactly when its name is blacklisted and not whitelisted: the whitelist overrides the blacklist |
| ImportAssemblies.PreparePathOrder | TrialOfTheSun/Library/PackageCache/com.passivepicasso.thunderkit@5012c9132d28/Editor/Core/Config/Common/ImportAssemblies.cs:198-200 | '\\' becomes '/' first; then the processors run in list order, each on the previous output |
| ImportAssemblies.PreparePathWithoutProcessors | TrialOfTheSun/Library/PackageCache/com.passivepicasso.thunderkit@5012c9132d28/Editor/Core/Config/Common/ImportAssemblies.cs:198 | with no processors the path only loses its backslashes |
| ImportAssemblies.DestinationNaming | TrialOfTheSun/Library/PackageCache/com.passivepicasso.thunderkit@5012c9132d28/Editor/Core/Config/Common/ImportAssemblies.cs:207-209 | the copy is destinationFolder/<name>, its metadata destinationFolder/<name>.meta, two distinct files |
| ImportAssemblies.CopyEffect | TrialOfTheSun/Library/PackageCache/com.passivepicasso.thunderkit@5012c9132d28/Editor/Core/Config/Common/ImportAssemblies.cs:211-221 | the copy holds the source's contents and the metadata is written, or one warning names the destination and the old copy is gone; nothing else changes |
| ImportAssemblies.ImportOneCases | TrialOfTheSun/Library/PackageCache/com.passivepicasso.thunderkit@5012c9132d28/Editor/Core/Config/Common/ImportAssemblies.cs:202-221 | a skipped assembly changes nothing; a kept one logs no warning exactly when the source and destination folder exist |
| ImportAssemblies.ImportAllAppend | TrialOfTheSun/Library/PackageCache/com.passivepicasso.thunderkit@5012c9132d28/Editor/Core/Config/Common/ImportAssemblies.cs:196-222 | a failed copy does not stop the loop: importing xs then ys is importing xs+ys |
| ImportAssemblies.ImportAllKeepsDirectories | TrialOfTheSun/Library/PackageCache/com.passivepicasso.thunderkit@5012c9132d28/Editor/Core/Config/Common/ImportAssemblies.cs:196-222 | importing creates no directory |
| ImportAssemblies.WarningsNameKeptAssemblies | TrialOfTheSun/Library/PackageCache/com.passivepicasso.thunderkit@5012c9132d28/Editor/Core/Config/Common/ImportAssemblies.cs:218-221 | every warning names the destination of a listed assembly that was not skipped |
| ImportAssemblies.DistinctFileNames | TrialOfTheSun/Library/PackageCache/com.passivepicasso.thunderkit@5012c9132d28/Editor/Core/Config/Common/ImportAssemblies.cs:125-128 | the distinct file names of the listing, each once |
| ImportAssemblies.BuildBinaryWhitelist | TrialOfTheSun/Library/PackageCache/com.passivepicasso.thunderkit@5012c9132d28/Editor/Core/Config/Common/ImportAssemblies.cs:121-137 | an empty set when the package folder is missing, else exactly the file names under it; the processors' output is dropped |
| ImportAssemblies.BlacklistWithoutProcessors | TrialOfTheSun/Library/PackageCache/com.passivepicasso.thunderkit@5012c9132d28/Editor/Core/Config/Common/ImportAssemblies.cs:186-191 | with no processors the blacklist is exactly the set of collected names |
| ImportAssemblies.BlacklistLastProcessor | TrialOfTheSun/Library/PackageCache/com.passivepicasso.thunderkit@5012c9132d28/Editor/Core/Config/Common/ImportAssemblies.cs:188-189 | each processor works on the output of the ones before it |
| ImportAssemblies.BuildAssemblyBlacklist | TrialOfTheSun/Library/PackageCache/com.passivepicasso.thunderkit@5012c9132d28/Editor/Core/Config/Common/ImportAssemblies.cs:143-192 | the set of the collected names, de-duplicated in insertion order and folded through the processors in order |
| ImportAssemblies.AddNames | TrialOfTheSun/Library/PackageCache/com.passivepicasso.thunderkit@5012c9132d28/Editor/Core/Config/Common/ImportAssemblies.cs:145-183 | the result.Add loops keep each collected name once, in the order it was first added (DistinctBy) |
| Sequences.RunProcessors | TrialOfTheSun/Library/PackageCache/com.passivepicasso.thunderkit@5012c9132d28/Editor/Core/Config/Common/ImportAssemblies.cs:186-189 | each processor in list order replaces the value by its output (RunAll); the same loop shape as lines 134-135 and 199-200 |
| ImportAssemblies.ImportFilteredAssemblies | TrialOfTheSun/Library/PackageCache/com.passivepicasso.thunderkit@5012c9132d28/Editor/Core/Config/Common/ImportAssemblies.cs:194-223 | the file system and warnings after the loop are ImportAll of the file system before it |
| ImportAssemblies.CopyFiles | TrialOfTheSun/Library/PackageCache/com.passivepicasso.thunderkit@5012c9132d28/Editor/Core/Config/Common/ImportAssemblies.cs:211-221 | the try block and its catch are CopyAssembly: delete the old copy, then copy and write the metadata, or log one warning naming the destination |

All source paths are under `TrialOfTheSun/Library/PackageCache/com.passivepicasso.thunderkit@5012c9132d28/Editor/`.

### Where the code differs from its documentation

The model follows the code where it differs from the package's own description.

- **Loading stops at the first bad archive.** OnLoadPackages has no try/catch. The first
  unreadable archive or malformed manifest ends the whole load, and the groups registered before
  it stay (`ScanStopsAtError`); it does not skip that archive and continue.
- **A missing package is silently ignored.** When no archive matches, OnInstallPackageFiles does
  nothing and reports nothing (`NoMatchWritesNothing`). It raises no not-found error.
- **Every matching archive is extracted.** Install has no `break` (`InstallExtractsExactlyTheMatches`).
- **Install's manifest test is looser.** Install finds the manifest with the first entry whose key
  *contains* `manifest.json`; load tests the file name. `First` throws when there is none
  (`MentionedEntryNeedNotBeManifest`).
- **Install does not check the repository path.** A null or empty LocalRepositoryPath makes
  `Directory.GetFiles` throw. Load instead returns early.
- **Imports and the whitelist use different folders.** Execute imports into
  `Packages/<executable name>`, but BuildBinaryWhitelist reads `PackagePath`, which is lower-cased
  and has its spaces removed. `Settings.PackagePathIsFilePathIff` states exactly when the two
  folders are the same.

## Left out

- **Unity editor plumbing:**
  - UI Toolkit;
  - AssetDatabase;
  - EditorUtility.SetDirty and SaveAssets;
  - the settings window;
  - dialogs;
  - locking and unlocking assembly reloads.

  Their effects on the modelled state are the parameters above.
- Reflection discovery of processors (InitializeConfigurators) and of loaded types is not modelled; CreateImporters takes the loaded types as values.
- CreateImporters: the ordering is proved sorted and a permutation, but not stable; OrderByDescending also keeps equal priorities in load order.
- UpdateQuickAccess: the result is proved sorted by name, one entry per identity, with the right identities, but not stable; OrderBy also keeps entries with equal names in list order, which decides which of two entries with the same identity Distinct keeps.
- ImportAssemblies.Execute and AssertDestinations (orchestration: enumerating `*.dll` files, creating the two package folders, importing the plugins folder) are not modelled; their pieces are.
- PackageHelper.WriteAssemblyMetaData is not part of this model; the metadata text is a function of the assembly path, and writing it is assumed not to throw.
- ImportAssemblies.CopyEffect: File.Copy is modelled as failing only when the source file or destination folder is missing (or the source is the destination itself); permission and sharing failures are not modelled.
- ImportAssemblies.BuildAssemblyBlacklist: the processors see the collected names in insertion order, which is how .NET enumerates a HashSet that was only added to; the language does not promise that order.
- ImportAssemblies.BuildBinaryWhitelist: a processor that mutates the set it is given in place is not modelled (their output is dropped, so only such mutation could matter).
- ExtractArchive: extraction is modelled as never failing. An exception from Directory.CreateDirectory or WriteToDirectory (an invalid path, a full disk, a denied permission) would escape OnInstallPackageFiles and leave a partial install (earlier archives and entries already written); that outcome is not modelled. CreateDirectory also creates every missing parent folder, and WriteToDirectory the intermediate folders of a file entry, whereas `MakeDirectory` adds the one path; SharpCompress's own path handling is not modelled either, and a file entry is written at `Combine(packageDirectory, key)`.
- SharpCompress archive reading and JsonUtility decoding are parameters (`Archive.entries`, `Decoder`); their failure is `None`.
- The PackageSource base class (catalog merging, LoadPackages, InstallPackage, dependency resolution) is not part of this model; AddPackageGroup only appends to `catalog`.
- Task asynchrony: ReloadPagesAsyncInternal returns an already completed task, modelled as `completed == true`.
- CopyAssemblyCSharp (file attributes and FileUtil.ReplaceFile) and ImageElementFactory_CacheUpdated (cache size as a truncated float) are not modelled: file attributes and floating point.
- ImageElementFactory.CachePath, assigned in InitSettings and BrowserForCacheFolder, is not part of this model.
- Windows paths: the model uses '/' as the only separator; Path.Combine and GetFileName with '\\' and drive letters are not modelled.
- Culture-sensitive string operations (ToLower, OrderBy on names, StartsWith, LastIndexOf("-")) are modelled ordinally, with ASCII case mapping.
- Null strings (GameExecutable, GamePath, archive paths) are not modelled, except where the code tests for null (LocalRepositoryPath, the quick-access arrays).
- Unity object identity is an instance id and Unity's bool conversion (null or destroyed) is the `alive` flag.
- PackageVersions.GetHashCode: the runtime string hash is a parameter (it is randomised per process).
- The remaining settings fields (Is64Bit, date formats, ShowLogWindow, GenerateAssetsProject, FixLocalDiskPackages, MarkdownOpenMode) and their UI bindings are not modelled: nothing in the core reads them.

## Findings

| source | as written | input that shows it | evidently intended | confidence | as-written member | corrected member |
|---|---|---|---|---|---|---|
| TrialOfTheSun/Library/PackageCache/com.passivepicasso.thunderkit@5012c9132d28/Editor/Core/Data/ThunderKitSettings.cs:297-299 | the chosen cache folder is made relative when it starts with the current directory as a string, so the cut can fall inside a folder name | current directory `/home/u/project`, chosen folder `/home/u/project2/cache`: the stored path is `2/cache`, which names `/home/u/project/2/cache` | only a folder inside the current directory is made relative; others stay absolute | medium; not executed | Settings.RelativeCachePathCutsInsideAName | Settings.RelativeCachePathInside |
