/**
 * LocalThunderstoreSource: a package source over a local folder of Thunderstore archives.
 * Loading registers one package group per archive that holds a `manifest.json`; installing
 * extracts every archive whose author-name group id is the requested version's group id.
 *
 * The folder listing (Directory.GetFiles(path, "*.zip")), the archive reader and the JSON
 * decoder are inputs: an archive is its path and its entries (or None when it cannot be
 * opened), and `decode` stands for JsonUtility.FromJson (None when it throws).
 */
module LocalThunderstore {
  import opened Wrappers
  import opened Strings
  import opened Paths
  import opened Sequences
  import opened Disk
  import PackageVersions

  datatype Entry = Entry(key: string, isDirectory: bool, data: string)

  datatype Archive = Archive(path: string, entries: Option<seq<Entry>>)

  /** The Thunderstore manifest.json record, as decoded. */
  datatype ThunderstoreManifest = ThunderstoreManifest(
    name: string,
    description: string,
    versionNumber: string,
    dependencies: seq<string>)

  datatype PackageVersionInfo = PackageVersionInfo(
    version: string,
    dependencyId: string,
    dependencies: seq<string>,
    versionMarkdown: string)

  datatype PackageGroupInfo = PackageGroupInfo(
    author: string,
    name: string,
    description: string,
    dependencyId: string,
    versions: seq<PackageVersionInfo>)

  /** The exceptions that escape OnLoadPackages / OnInstallPackageFiles. */
  datatype SourceError =
    | InvalidRepositoryPath         // Directory.GetFiles(null or "")
    | RepositoryNotFound            // Directory.GetFiles on a missing folder
    | ArchiveUnreadable(path: string) // ArchiveFactory.Open
    | ManifestMissing(path: string)   // Enumerable.First with no match
    | ManifestMalformed(path: string) // JsonUtility.FromJson

  type Decoder = string -> Option<ThunderstoreManifest>

  const ManifestFileName: string := "manifest.json"
  const SourceName: string := "Local Thunderstore"
  const SourceGroup: string := "Thunderstore"

  // ---------------------------------------------------------------- identifiers

  /** VersionIdToGroupId: the id cut at its last '-'; Substring throws when there is none. */
  function VersionIdToGroupId(dependencyId: string): (r: Option<string>)
    ensures r.None? <==> '-' !in dependencyId
    ensures r.Some? ==> && |r.value| < |dependencyId|
                        && dependencyId[..|r.value|] == r.value
                        && dependencyId[|r.value|] == '-'
                        && '-' !in dependencyId[|r.value| + 1..]
  {
    var cut := LastIndexOf(dependencyId, '-');
    if cut < 0 then None else Some(dependencyId[..cut])
  }

  /** A group id followed by a hyphenated version segment maps back to the group id. */
  lemma VersionIdRoundTrip(groupId: string, versionSegment: string)
    requires '-' !in versionSegment
    ensures VersionIdToGroupId(groupId + "-" + versionSegment) == Some(groupId)
  {
    var id := groupId + "-" + versionSegment;
    var r := VersionIdToGroupId(id);
    assert id[|groupId|] == '-';
    assert forall k :: |groupId| < k < |id| ==> id[k] == versionSegment[k - |groupId| - 1];
    var cut := LastIndexOf(id, '-');
    assert cut == |groupId|;
    assert id[..cut] == groupId;
  }

  /** The last-hyphen rule on a literal: only the final segment is dropped. */
  lemma VersionIdExample()
    ensures VersionIdToGroupId("acme-supermod-1.0.0") == Some("acme-supermod")
  {
    VersionIdRoundTrip("acme-supermod", "1.0.0");
    assert "acme-supermod" + "-" + "1.0.0" == "acme-supermod-1.0.0";
  }

  /** Path.GetFileNameWithoutExtension of the archive: the version id of what it holds. */
  function ArchiveStem(path: string): string
  {
    GetFileNameWithoutExtension(path)
  }

  /** versionId.Split('-')[0]: everything before the first '-', or all of it. */
  function AuthorOf(versionId: string): (author: string)
    ensures author <= versionId
    ensures '-' !in author
    ensures |author| < |versionId| ==> versionId[|author|] == '-'
  {
    SplitHead(versionId, '-');
    Split(versionId, '-')[0]
  }

  /** The author-name id that both load and install derive for an archive and its manifest. */
  function GroupIdOf(path: string, m: ThunderstoreManifest): string
  {
    AuthorOf(ArchiveStem(path)) + "-" + m.name
  }

  /** The author is the same for every version id that starts with `author-`. */
  lemma AuthorOfPrefixed(author: string, rest: string)
    requires '-' !in author
    ensures AuthorOf(author + "-" + rest) == author
  {
    var id := author + "-" + rest;
    var a := AuthorOf(id);
    assert id[..|author|] == author;
    assert forall k :: 0 <= k < |author| ==> id[k] != '-';
    assert id[|author|] == '-';
    assert |a| <= |author| by {
      assert forall k :: 0 <= k < |a| ==> a[k] == id[k];
    }
    assert a == id[..|a|];
  }

  // ---------------------------------------------------------------- loading

  /** The load test: the entry's file name is exactly manifest.json. */
  predicate IsManifestEntry(e: Entry)
  {
    GetFileName(e.key) == ManifestFileName
  }

  /** The group AddPackageGroup receives for an archive and its decoded manifest. */
  function GroupFor(path: string, m: ThunderstoreManifest): PackageGroupInfo
  {
    var versionId := ArchiveStem(path);
    var author := AuthorOf(versionId);
    PackageGroupInfo(author, m.name, m.description, author + "-" + m.name,
                     [PackageVersionInfo(m.versionNumber, versionId, m.dependencies, "")])
  }

  datatype ArchiveScan = Registered(group: PackageGroupInfo) | NoManifest | Broken(error: SourceError)

  /** One archive of the load pass: its first entry named manifest.json, if any, decoded. */
  function ScanArchive(a: Archive, decode: Decoder): ArchiveScan
  {
    match a.entries
    case None => Broken(ArchiveUnreadable(a.path))
    case Some(es) =>
      match FirstIndex(es, IsManifestEntry)
      case None => NoManifest
      case Some(i) =>
        ManifestScan(a.path, es[i].data, decode)
  }

  /** The manifest.json entry of the archive at `path` decoded: null throws, otherwise its group. */
  function ManifestScan(path: string, data: string, decode: Decoder): ArchiveScan
  {
    match decode(data)
    case None => Broken(ManifestMalformed(path))
    case Some(m) => Registered(GroupFor(path, m))
  }

  /** Groups registered so far, and the exception that ended the pass, if one did. */
  datatype ScanResult = ScanResult(groups: seq<PackageGroupInfo>, error: Option<SourceError>)

  /** The load pass over the listed archives, in listing order; an exception ends it. */
  function ScanAll(archives: seq<Archive>, decode: Decoder): ScanResult
  {
    if |archives| == 0 then ScanResult([], None)
    else
      ScanNext(ScanAll(archives[..|archives| - 1], decode), ScanArchive(archives[|archives| - 1], decode))
  }

  /** The pass after one more archive: nothing once an exception has ended it. */
  function ScanNext(before: ScanResult, scan: ArchiveScan): ScanResult
  {
    if before.error.Some? then before
    else match scan
      case Registered(g) => ScanResult(before.groups + [g], None)
      case NoManifest => before
      case Broken(e) => ScanResult(before.groups, Some(e))
  }

  /** OnLoadPackages as a whole: a null or empty repository path registers nothing. */
  function Load(repositoryPath: Option<string>, listing: Option<seq<Archive>>, decode: Decoder): ScanResult
  {
    if repositoryPath.None? || repositoryPath.value == "" then ScanResult([], None)
    else if listing.None? then ScanResult([], Some(RepositoryNotFound))
    else ScanAll(listing.value, decode)
  }

  lemma LoadWithoutPathRegistersNothing(listing: Option<seq<Archive>>, decode: Decoder)
    ensures Load(None, listing, decode) == ScanResult([], None)
    ensures Load(Some(""), listing, decode) == ScanResult([], None)
  {
  }

  /** Once an exception has ended the pass, later archives change nothing. */
  lemma {:induction false} ScanStopsAtError(archives: seq<Archive>, n: nat, decode: Decoder)
    requires n <= |archives|
    requires ScanAll(archives[..n], decode).error.Some?
    ensures ScanAll(archives, decode) == ScanAll(archives[..n], decode)
  {
    if n < |archives| {
      var init := archives[..|archives| - 1];
      assert init[..n] == archives[..n];
      ScanStopsAtError(init, n, decode);
    } else {
      assert archives[..n] == archives;
    }
  }

  /** One more archive of the pass, seen through ScanArchive. */
  lemma ScanStep(archives: seq<Archive>, n: nat, decode: Decoder)
    requires n < |archives|
    ensures ScanAll(archives[..n + 1], decode) == ScanNext(ScanAll(archives[..n], decode), ScanArchive(archives[n], decode))
  {
    assert archives[..n + 1][..n] == archives[..n];
  }

  /** A step of a running pass adds to what the pass has registered what the archive alone registers. */
  lemma ScanNextFrom(before: ScanResult, scan: ArchiveScan)
    requires before.error.None?
    ensures var alone := ScanNext(ScanResult([], None), scan);
            ScanNext(before, scan) == ScanResult(before.groups + alone.groups, alone.error)
  {
    if scan.NoManifest? {
      assert before.groups + [] == before.groups;
    }
  }

  /** Every archive registers at most one group. */
  lemma {:induction false} AtMostOneGroupPerArchive(archives: seq<Archive>, decode: Decoder)
    ensures |ScanAll(archives, decode).groups| <= |archives|
  {
    if |archives| > 0 {
      AtMostOneGroupPerArchive(archives[..|archives| - 1], decode);
    }
  }

  /** The archive's first entry named manifest.json, decoded; None when there is none or it decodes to null. */
  function ManifestOf(a: Archive, decode: Decoder): Option<ThunderstoreManifest>
  {
    match a.entries
    case None => None
    case Some(es) =>
      match FirstIndex(es, IsManifestEntry)
      case None => None
      case Some(i) => decode(es[i].data)
  }

  /** `g` is the group built from the archive's file name and its decoded manifest. */
  predicate GroupFromArchive(g: PackageGroupInfo, a: Archive, decode: Decoder)
  {
    ManifestOf(a, decode).Some? && g == GroupFor(a.path, ManifestOf(a, decode).value)
  }

  /** What one archive registers is the group of its manifest. */
  lemma RegisteredIsGroupFor(a: Archive, decode: Decoder)
    ensures ScanArchive(a, decode).Registered? <==> ManifestOf(a, decode).Some?
    ensures ScanArchive(a, decode).Registered? ==> GroupFromArchive(ScanArchive(a, decode).group, a, decode)
  {
  }

  /**
   * Each registered group is the group of a listed archive: its author and version id come from
   * the archive's file name; its name, description, version number and dependencies from its manifest.
   */
  lemma {:induction false} GroupsComeFromArchives(archives: seq<Archive>, decode: Decoder)
    ensures forall g :: g in ScanAll(archives, decode).groups ==>
              exists a :: a in archives && GroupFromArchive(g, a, decode)
  {
    if |archives| > 0 {
      var init := archives[..|archives| - 1];
      var last := archives[|archives| - 1];
      var before := ScanAll(init, decode);
      var scan := ScanArchive(last, decode);
      assert ScanAll(archives, decode) == ScanNext(before, scan);
      GroupsComeFromArchives(init, decode);
      RegisteredIsGroupFor(last, decode);
      ScanNextGroups(before, scan);
      assert archives == init + [last];
      forall g | g in ScanNext(before, scan).groups
        ensures exists a :: a in archives && GroupFromArchive(g, a, decode)
      {
        if g in before.groups {
          var a :| a in init && GroupFromArchive(g, a, decode);
          assert a in archives;
        } else {
          assert GroupFromArchive(g, last, decode);
        }
      }
    }
  }

  /** A step of a pass adds at most the group the archive registers. */
  lemma ScanNextGroups(before: ScanResult, scan: ArchiveScan)
    ensures forall g :: g in ScanNext(before, scan).groups ==>
              g in before.groups || (scan.Registered? && g == scan.group)
  {
  }

  /** The groups of the archives whose manifest decodes, in listing order. */
  function ManifestGroups(archives: seq<Archive>, decode: Decoder): seq<PackageGroupInfo>
  {
    if |archives| == 0 then []
    else
      var last := archives[|archives| - 1];
      ManifestGroups(archives[..|archives| - 1], decode) +
      (match ManifestOf(last, decode) case None => [] case Some(m) => [GroupFor(last.path, m)])
  }

  /** A pass that ends normally registers exactly ManifestGroups, in order. */
  lemma {:induction false} CompletedScanRegistersManifestGroups(archives: seq<Archive>, decode: Decoder)
    requires ScanAll(archives, decode).error.None?
    ensures ScanAll(archives, decode).groups == ManifestGroups(archives, decode)
  {
    if |archives| > 0 {
      var init := archives[..|archives| - 1];
      var last := archives[|archives| - 1];
      var before := ScanAll(init, decode);
      assert before.error.None?;
      CompletedScanRegistersManifestGroups(init, decode);
      RegisteredIsGroupFor(last, decode);
      match ScanArchive(last, decode)
      case Registered(g) =>
        assert ScanAll(archives, decode).groups == before.groups + [g];
      case NoManifest =>
      case Broken(_) =>
        assert false;
    }
  }

  /** ManifestGroups holds the group of every archive whose manifest decodes. */
  lemma {:induction false} ManifestGroupsCover(archives: seq<Archive>, decode: Decoder)
    ensures forall a :: a in archives && ManifestOf(a, decode).Some? ==>
              GroupFor(a.path, ManifestOf(a, decode).value) in ManifestGroups(archives, decode)
  {
    if |archives| > 0 {
      var init := archives[..|archives| - 1];
      var last := archives[|archives| - 1];
      ManifestGroupsCover(init, decode);
      assert archives == init + [last];
      forall a | a in archives && ManifestOf(a, decode).Some?
        ensures GroupFor(a.path, ManifestOf(a, decode).value) in ManifestGroups(archives, decode)
      {
        if a != last {
          assert a in init;
        }
      }
    }
  }

  /** Conversely, a pass that ends normally registers the group of every archive holding a manifest. */
  lemma ArchivesRegisterTheirGroups(archives: seq<Archive>, decode: Decoder)
    requires ScanAll(archives, decode).error.None?
    ensures forall a :: a in archives && ManifestOf(a, decode).Some? ==>
              GroupFor(a.path, ManifestOf(a, decode).value) in ScanAll(archives, decode).groups
  {
    CompletedScanRegistersManifestGroups(archives, decode);
    ManifestGroupsCover(archives, decode);
  }

  /** An archive without a manifest.json entry contributes nothing and stops nothing. */
  lemma ArchiveWithoutManifestIsSkipped(archives: seq<Archive>, a: Archive, decode: Decoder)
    requires a.entries.Some?
    requires forall k :: 0 <= k < |a.entries.value| ==> !IsManifestEntry(a.entries.value[k])
    ensures ScanAll(archives + [a], decode) == ScanAll(archives, decode)
  {
    assert (archives + [a])[..|archives|] == archives;
  }

  function CountWithManifest(archives: seq<Archive>): nat
  {
    if |archives| == 0 then 0
    else
      var last := archives[|archives| - 1];
      CountWithManifest(archives[..|archives| - 1]) +
      (if last.entries.Some? && FirstIndex(last.entries.value, IsManifestEntry).Some? then 1 else 0)
  }

  /** A pass that ends normally registers exactly one group per archive holding a manifest. */
  lemma {:induction false} CompletedScanCountsManifests(archives: seq<Archive>, decode: Decoder)
    requires ScanAll(archives, decode).error.None?
    ensures |ScanAll(archives, decode).groups| == CountWithManifest(archives)
  {
    if |archives| > 0 {
      var init := archives[..|archives| - 1];
      var before := ScanAll(init, decode);
      assert before.error.None?;
      CompletedScanCountsManifests(init, decode);
      match ScanArchive(archives[|archives| - 1], decode)
      case Registered(g) =>
        assert ScanAll(archives, decode).groups == before.groups + [g];
      case NoManifest =>
      case Broken(_) =>
        assert false;
    }
  }

  /**
   * For an archive named `author-name-version` whose manifest is named `name`, the version
   * id the group carries maps back (by VersionIdToGroupId) to the group's own id.
   */
  lemma RegisteredVersionMapsToItsGroup(path: string, m: ThunderstoreManifest, author: string, version: string)
    requires ArchiveStem(path) == author + "-" + m.name + "-" + version
    requires '-' !in author && '-' !in version
    ensures VersionIdToGroupId(GroupFor(path, m).versions[0].dependencyId) == Some(GroupFor(path, m).dependencyId)
  {
    var stem, group := ArchiveStem(path), GroupFor(path, m);
    HyphenJoinAssoc(author, m.name, version);
    AuthorOfPrefixed(author, m.name + "-" + version);
    VersionIdRoundTrip(author + "-" + m.name, version);
    assert group.versions[0].dependencyId == stem;
    assert group.dependencyId == AuthorOf(stem) + "-" + m.name;
  }

  lemma HyphenJoinAssoc(a: string, b: string, c: string)
    ensures a + "-" + b + "-" + c == a + "-" + (b + "-" + c)
  {
  }

  // ---------------------------------------------------------------- installing

  /** The install test: the entry's key contains manifest.json anywhere. */
  predicate MentionsManifest(e: Entry)
  {
    Contains(e.key, ManifestFileName)
  }

  /** Every entry load accepts is accepted by install. */
  lemma ManifestEntryIsMentioned(e: Entry)
    requires IsManifestEntry(e)
    ensures MentionsManifest(e)
  {
    var name := GetFileName(e.key);
    assert OccursAt(e.key, ManifestFileName, |e.key| - |name|);
  }

  /** ... but not conversely: install also accepts a key that merely contains manifest.json. */
  lemma MentionedEntryNeedNotBeManifest()
    ensures var e := Entry("manifest.json.bak", false, "");
            MentionsManifest(e) && !IsManifestEntry(e)
  {
    var bak := "manifest.json.bak";
    assert OccursAt(bak, ManifestFileName, 0);
    assert Separator !in bak;
    assert GetFileName(bak) == bak;
  }

  /** Directory.CreateDirectory for every directory entry, in archive order. */
  function DirectoryOps(dir: string, es: seq<Entry>): (ops: seq<FsOp>)
    ensures forall k :: 0 <= k < |ops| ==> ops[k].MakeDirectory?
  {
    if |es| == 0 then []
    else
      var e := es[|es| - 1];
      DirectoryOps(dir, es[..|es| - 1]) + (if e.isDirectory then [MakeDirectory(Combine(dir, e.key))] else [])
  }

  /** WriteToDirectory (full path, overwrite) for every file entry, in archive order. */
  function FileOps(dir: string, es: seq<Entry>): (ops: seq<FsOp>)
    ensures forall k :: 0 <= k < |ops| ==> ops[k].WriteFile?
  {
    if |es| == 0 then []
    else
      var e := es[|es| - 1];
      FileOps(dir, es[..|es| - 1]) + (if e.isDirectory then [] else [WriteFile(Combine(dir, e.key), e.data)])
  }

  /** What extracting one archive does: all directories first, then all files. */
  function ExtractionOps(dir: string, es: seq<Entry>): seq<FsOp>
  {
    DirectoryOps(dir, es) + FileOps(dir, es)
  }

  /** Every directory is created before any file is written. */
  lemma DirectoriesBeforeFiles(dir: string, es: seq<Entry>)
    ensures var ops := ExtractionOps(dir, es);
            forall i, j :: 0 <= i < |ops| && 0 <= j < |ops| && ops[i].WriteFile? && ops[j].MakeDirectory? ==> j < i
  {
    var d, f := DirectoryOps(dir, es), FileOps(dir, es);
    var ops := d + f;
    forall i, j | 0 <= i < |ops| && 0 <= j < |ops| && ops[i].WriteFile? && ops[j].MakeDirectory?
      ensures j < i
    {
    }
  }

  /** No file entry after the `k`th is extracted to the same path. */
  predicate LastWriteTo(dir: string, es: seq<Entry>, k: int)
    requires 0 <= k < |es|
  {
    forall j :: k < j < |es| && !es[j].isDirectory ==> Combine(dir, es[j].key) != Combine(dir, es[k].key)
  }

  /**
   * After extraction every directory entry exists and every file entry has been written; a file
   * holds the data of the last file entry extracted to its path (overwrite: the later entry wins).
   */
  lemma {:induction false} ExtractionWritesEveryEntry(t: Tree, dir: string, es: seq<Entry>)
    ensures var after := ApplyAll(t, ExtractionOps(dir, es));
            forall k :: 0 <= k < |es| ==>
              if es[k].isDirectory then Combine(dir, es[k].key) in after.dirs
              else Combine(dir, es[k].key) in after.files &&
                   (LastWriteTo(dir, es, k) ==> after.files[Combine(dir, es[k].key)] == es[k].data)
  {
    var d, f := DirectoryOps(dir, es), FileOps(dir, es);
    ApplyAllAppend(t, d, f);
    DirectoryOpsCreate(t, dir, es);
    var mid := ApplyAll(t, d);
    FileOpsWrite(mid, dir, es);
    FileOpsKeepDirs(mid, dir, es);
  }

  lemma {:induction false} DirectoryOpsCreate(t: Tree, dir: string, es: seq<Entry>)
    ensures var after := ApplyAll(t, DirectoryOps(dir, es));
            forall k :: 0 <= k < |es| && es[k].isDirectory ==> Combine(dir, es[k].key) in after.dirs
  {
    if |es| > 0 {
      var init := es[..|es| - 1];
      var e := es[|es| - 1];
      DirectoryOpsCreate(t, dir, init);
      var tail := if e.isDirectory then [MakeDirectory(Combine(dir, e.key))] else [];
      ApplyAllAppend(t, DirectoryOps(dir, init), tail);
      var before := ApplyAll(t, DirectoryOps(dir, init));
      assert ApplyAll(before, tail).dirs >= before.dirs by {
        if e.isDirectory {
          assert tail[..0] == [];
        }
      }
      forall k | 0 <= k < |es| && es[k].isDirectory
        ensures Combine(dir, es[k].key) in ApplyAll(t, DirectoryOps(dir, es)).dirs
      {
        if k < |es| - 1 {
          assert es[k] == init[k];
        } else {
          assert tail[..0] == [];
        }
      }
    }
  }

  lemma {:induction false} FileOpsWrite(t: Tree, dir: string, es: seq<Entry>)
    ensures var after := ApplyAll(t, FileOps(dir, es));
            forall k :: 0 <= k < |es| && !es[k].isDirectory ==>
              Combine(dir, es[k].key) in after.files &&
              (LastWriteTo(dir, es, k) ==> after.files[Combine(dir, es[k].key)] == es[k].data)
  {
    if |es| > 0 {
      var init := es[..|es| - 1];
      var e := es[|es| - 1];
      FileOpsWrite(t, dir, init);
      var before := ApplyAll(t, FileOps(dir, init)).files;
      var after := ApplyAll(t, FileOps(dir, es)).files;
      assert after == if e.isDirectory then before else before[Combine(dir, e.key) := e.data] by {
        if e.isDirectory {
          assert FileOps(dir, es) == FileOps(dir, init) + [];
          assert FileOps(dir, init) + [] == FileOps(dir, init);
        } else {
          ApplyAllSnoc(t, FileOps(dir, init), WriteFile(Combine(dir, e.key), e.data));
        }
      }
      forall k | 0 <= k < |es| && !es[k].isDirectory
        ensures Combine(dir, es[k].key) in after
        ensures LastWriteTo(dir, es, k) ==> after[Combine(dir, es[k].key)] == es[k].data
      {
        if k < |es| - 1 {
          assert es[k] == init[k];
          if LastWriteTo(dir, es, k) {
            LastWriteInPrefix(dir, es, k);
          }
        }
      }
    }
  }

  /** A last write among all entries is a last write among all but the final one, which goes elsewhere. */
  lemma LastWriteInPrefix(dir: string, es: seq<Entry>, k: int)
    requires 0 <= k < |es| - 1 && LastWriteTo(dir, es, k)
    ensures LastWriteTo(dir, es[..|es| - 1], k)
    ensures !es[|es| - 1].isDirectory ==> Combine(dir, es[|es| - 1].key) != Combine(dir, es[k].key)
  {
    var init := es[..|es| - 1];
    forall j | k < j < |init| && !init[j].isDirectory
      ensures Combine(dir, init[j].key) != Combine(dir, init[k].key)
    {
      assert init[j] == es[j];
    }
  }

  lemma {:induction false} FileOpsKeepDirs(t: Tree, dir: string, es: seq<Entry>)
    ensures ApplyAll(t, FileOps(dir, es)).dirs == t.dirs
  {
    if |es| > 0 {
      var init := es[..|es| - 1];
      var e := es[|es| - 1];
      FileOpsKeepDirs(t, dir, init);
      var tail := if e.isDirectory then [] else [WriteFile(Combine(dir, e.key), e.data)];
      ApplyAllAppend(t, FileOps(dir, init), tail);
      if !e.isDirectory {
        assert tail[..0] == [];
      }
    }
  }

  /** The group id install derives for an archive, or the exception deriving it throws. */
  datatype ArchiveIdentity = Identified(groupId: string, entries: seq<Entry>) | Unidentified(error: SourceError)

  function IdentifyForInstall(a: Archive, decode: Decoder): ArchiveIdentity
  {
    match a.entries
    case None => Unidentified(ArchiveUnreadable(a.path))
    case Some(es) =>
      match FirstIndex(es, MentionsManifest)
      case None => Unidentified(ManifestMissing(a.path))
      case Some(i) =>
        match decode(es[i].data)
        case None => Unidentified(ManifestMalformed(a.path))
        case Some(m) => Identified(GroupIdOf(a.path, m), es)
  }

  /** The trace of file-system operations install performs, and the exception that ended it. */
  datatype InstallResult = InstallResult(ops: seq<FsOp>, error: Option<SourceError>)

  /** The install pass over the listed archives: no break, every match is extracted. */
  function InstallAll(archives: seq<Archive>, groupId: string, dir: string, decode: Decoder): InstallResult
  {
    if |archives| == 0 then InstallResult([], None)
    else
      InstallNext(InstallAll(archives[..|archives| - 1], groupId, dir, decode),
                  IdentifyForInstall(archives[|archives| - 1], decode), groupId, dir)
  }

  /** The install pass after one more archive: nothing once an exception has ended it. */
  function InstallNext(before: InstallResult, identity: ArchiveIdentity, groupId: string, dir: string): InstallResult
  {
    if before.error.Some? then before
    else match identity
      case Unidentified(e) => InstallResult(before.ops, Some(e))
      case Identified(id, es) =>
        if id != groupId then before
        else InstallResult(before.ops + ExtractionOps(dir, es), None)
  }

  /** OnInstallPackageFiles as a whole. */
  function Install(repositoryPath: Option<string>, listing: Option<seq<Archive>>,
                   version: PackageVersions.PackageVersion, dir: string, decode: Decoder): InstallResult
  {
    if repositoryPath.None? || repositoryPath.value == "" then InstallResult([], Some(InvalidRepositoryPath))
    else if listing.None? then InstallResult([], Some(RepositoryNotFound))
    else InstallAll(listing.value, version.groupDependencyId, dir, decode)
  }

  /** Once an exception has ended the pass, later archives change nothing. */
  lemma {:induction false} InstallStopsAtError(archives: seq<Archive>, n: nat, groupId: string, dir: string, decode: Decoder)
    requires n <= |archives|
    requires InstallAll(archives[..n], groupId, dir, decode).error.Some?
    ensures InstallAll(archives, groupId, dir, decode) == InstallAll(archives[..n], groupId, dir, decode)
  {
    if n < |archives| {
      var init := archives[..|archives| - 1];
      assert init[..n] == archives[..n];
      InstallStopsAtError(init, n, groupId, dir, decode);
    } else {
      assert archives[..n] == archives;
    }
  }

  /** One more archive of the install pass, seen through IdentifyForInstall. */
  lemma InstallStep(archives: seq<Archive>, n: nat, groupId: string, dir: string, decode: Decoder)
    requires n < |archives|
    requires InstallAll(archives[..n], groupId, dir, decode).error.None?
    ensures var before := InstallAll(archives[..n], groupId, dir, decode);
            InstallAll(archives[..n + 1], groupId, dir, decode) ==
              match IdentifyForInstall(archives[n], decode)
              case Unidentified(e) => InstallResult(before.ops, Some(e))
              case Identified(id, es) =>
                if id != groupId then before else InstallResult(before.ops + ExtractionOps(dir, es), None)
  {
    assert archives[..n + 1][..n] == archives[..n];
  }

  /** What one archive contributes when it is identified: its extraction if it matches, else nothing. */
  function ArchiveOps(a: Archive, groupId: string, dir: string, decode: Decoder): seq<FsOp>
  {
    IdentityOps(IdentifyForInstall(a, decode), groupId, dir)
  }

  function IdentityOps(identity: ArchiveIdentity, groupId: string, dir: string): seq<FsOp>
  {
    match identity
    case Identified(id, es) => if id == groupId then ExtractionOps(dir, es) else []
    case Unidentified(_) => []
  }

  /** A step that leaves the pass running appends what the archive contributes. */
  lemma InstallNextOps(before: InstallResult, identity: ArchiveIdentity, groupId: string, dir: string)
    requires InstallNext(before, identity, groupId, dir).error.None?
    ensures before.error.None?
    ensures InstallNext(before, identity, groupId, dir).ops == before.ops + IdentityOps(identity, groupId, dir)
  {
    if identity.Identified? && identity.groupId != groupId {
      assert before.ops + [] == before.ops;
    }
  }

  /** The archives install extracts, by an independent definition: the matching ones, in order. */
  function MatchingExtraction(archives: seq<Archive>, groupId: string, dir: string, decode: Decoder): seq<FsOp>
  {
    if |archives| == 0 then []
    else MatchingExtraction(archives[..|archives| - 1], groupId, dir, decode) + ArchiveOps(archives[|archives| - 1], groupId, dir, decode)
  }

  /**
   * When no exception ends it, install extracts exactly the archives whose derived author-name
   * equals the version's group id, each completely, in listing order; the others write nothing.
   */
  lemma {:induction false} InstallExtractsExactlyTheMatches(archives: seq<Archive>, groupId: string, dir: string, decode: Decoder)
    requires InstallAll(archives, groupId, dir, decode).error.None?
    ensures InstallAll(archives, groupId, dir, decode).ops == MatchingExtraction(archives, groupId, dir, decode)
  {
    if |archives| > 0 {
      var init := archives[..|archives| - 1];
      var last := archives[|archives| - 1];
      var before := InstallAll(init, groupId, dir, decode);
      var identity := IdentifyForInstall(last, decode);
      InstallNextOps(before, identity, groupId, dir);
      InstallExtractsExactlyTheMatches(init, groupId, dir, decode);
    }
  }

  /** No matching archive: install is a silent no-op. */
  lemma {:induction false} NoMatchWritesNothing(archives: seq<Archive>, groupId: string, dir: string, decode: Decoder)
    requires forall k :: 0 <= k < |archives| ==>
               IdentifyForInstall(archives[k], decode).Identified? &&
               IdentifyForInstall(archives[k], decode).groupId != groupId
    ensures InstallAll(archives, groupId, dir, decode) == InstallResult([], None)
  {
    if |archives| > 0 {
      var init := archives[..|archives| - 1];
      assert forall k :: 0 <= k < |init| ==> init[k] == archives[k];
      NoMatchWritesNothing(init, groupId, dir, decode);
    }
  }

  /** The install trace only creates directories and writes files. */
  lemma {:induction false} InstallIsAdditive(archives: seq<Archive>, groupId: string, dir: string, decode: Decoder)
    ensures Additive(InstallAll(archives, groupId, dir, decode).ops)
  {
    if |archives| > 0 {
      var init := archives[..|archives| - 1];
      InstallIsAdditive(init, groupId, dir, decode);
      var before := InstallAll(init, groupId, dir, decode);
      if before.error.None? {
        match IdentifyForInstall(archives[|archives| - 1], decode)
        case Unidentified(_) =>
        case Identified(id, es) =>
          var ext := ExtractionOps(dir, es);
          var ops := before.ops + ext;
          forall k | 0 <= k < |ops| ensures !ops[k].DeleteFile? {
            if k >= |before.ops| {
              assert ops[k] == ext[k - |before.ops|];
              var d := DirectoryOps(dir, es);
              if k - |before.ops| < |d| {
                assert ext[k - |before.ops|] == d[k - |before.ops|];
              } else {
                assert ext[k - |before.ops|] == FileOps(dir, es)[k - |before.ops| - |d|];
              }
            } else {
              assert ops[k] == before.ops[k];
            }
          }
      }
    }
  }

  /** Installing the same version twice leaves the same tree as installing it once. */
  lemma InstallTwiceIsInstallOnce(t: Tree, repositoryPath: Option<string>, listing: Option<seq<Archive>>,
                                  version: PackageVersions.PackageVersion, dir: string, decode: Decoder)
    ensures var ops := Install(repositoryPath, listing, version, dir, decode).ops;
            ApplyAll(ApplyAll(t, ops), ops) == ApplyAll(t, ops)
  {
    var ops := Install(repositoryPath, listing, version, dir, decode).ops;
    if repositoryPath.Some? && repositoryPath.value != "" && listing.Some? {
      InstallIsAdditive(listing.value, version.groupDependencyId, dir, decode);
    }
    AdditiveIdempotent(t, ops);
  }

  // ---------------------------------------------------------------- the source object

  class LocalThunderstoreSource {
    var localRepositoryPath: Option<string>
    /** Every group handed to AddPackageGroup, in order (the catalog's merge policy is not modelled). */
    var catalog: seq<PackageGroupInfo>
    /** Whether InitializeSource is attached to the InitializeSources event. */
    var subscribed: bool

    constructor (path: Option<string>)
      ensures localRepositoryPath == path && catalog == [] && !subscribed
    {
      localRepositoryPath := path;
      catalog := [];
      subscribed := false;
    }

    /** OnEnable: detach then attach, so the handler is attached exactly once. */
    method OnEnable()
      modifies this`subscribed
      ensures subscribed
    {
      subscribed := false;
      subscribed := true;
    }

    /** OnDisable and OnDestroy: detach. */
    method OnDisable()
      modifies this`subscribed
      ensures !subscribed
    {
      subscribed := false;
    }

    method AddPackageGroup(g: PackageGroupInfo)
      modifies this`catalog
      ensures catalog == old(catalog) + [g]
    {
      catalog := catalog + [g];
    }

    /** OnLoadPackages: registers one group per archive that has a manifest.json entry. */
    method OnLoadPackages(listing: Option<seq<Archive>>, decode: Decoder) returns (outcome: Outcome<SourceError>)
      modifies this`catalog
      ensures var res := Load(localRepositoryPath, listing, decode);
              && catalog == old(catalog) + res.groups
              && outcome == (if res.error.Some? then Fail(res.error.value) else Pass)
    {
      if localRepositoryPath.None? || localRepositoryPath.value == "" {
        return Pass;
      }
      if listing.None? {
        return Fail(RepositoryNotFound);
      }
      var archives := listing.value;
      var i := 0;
      while i < |archives|
        invariant 0 <= i <= |archives|
        invariant ScanAll(archives[..i], decode).error.None?
        invariant catalog == old(catalog) + ScanAll(archives[..i], decode).groups
      {
        ScanStep(archives, i, decode);
        ghost var before := ScanAll(archives[..i], decode);
        ghost var scan := ScanArchive(archives[i], decode);
        var error := LoadArchive(archives[i], decode);
        ScanNextFrom(before, scan);
        ghost var after := ScanAll(archives[..i + 1], decode);
        assert catalog == old(catalog) + after.groups && error == after.error;
        if error.Some? {
          ScanStopsAtError(archives, i + 1, decode);
          return Fail(error.value);
        }
        i := i + 1;
      }
      assert archives[..i] == archives;
      return Pass;
    }

    /** The body of the OnLoadPackages loop for one archive: the entry search ends at the first manifest.json. */
    method LoadArchive(archive: Archive, decode: Decoder) returns (error: Option<SourceError>)
      modifies this`catalog
      ensures var step := ScanNext(ScanResult([], None), ScanArchive(archive, decode));
              catalog == old(catalog) + step.groups && error == step.error
    {
      var filePath := archive.path;
      if archive.entries.None? {
        return Some(ArchiveUnreadable(filePath));
      }
      var entries := archive.entries.value;
      var found := FindFirst(entries, IsManifestEntry);
      if found.None? {
        return None;
      }
      error := RegisterManifest(filePath, entries[found.value].data, decode);
      assert ScanArchive(archive, decode) == ManifestScan(filePath, entries[found.value].data, decode);
    }

    /** The manifest.json entry found: decode it (null throws) and add its group. */
    method RegisterManifest(filePath: string, data: string, decode: Decoder) returns (error: Option<SourceError>)
      modifies this`catalog
      ensures var step := ScanNext(ScanResult([], None), ManifestScan(filePath, data, decode));
              catalog == old(catalog) + step.groups && error == step.error
    {
      var tsp := decode(data);
      if tsp.None? {
        return Some(ManifestMalformed(filePath));
      }
      AddPackageGroup(GroupFor(filePath, tsp.value));
      return None;
    }

    /** OnInstallPackageFiles: extracts every archive whose author-name is the version's group id. */
    method OnInstallPackageFiles(version: PackageVersions.PackageVersion, packageDirectory: string,
                                 listing: Option<seq<Archive>>, decode: Decoder, fs: FileSystem)
      returns (outcome: Outcome<SourceError>)
      modifies fs
      ensures var res := Install(localRepositoryPath, listing, version, packageDirectory, decode);
              && fs.State() == ApplyAll(old(fs.State()), res.ops)
              && outcome == (if res.error.Some? then Fail(res.error.value) else Pass)
    {
      if localRepositoryPath.None? || localRepositoryPath.value == "" {
        return Fail(InvalidRepositoryPath);
      }
      if listing.None? {
        return Fail(RepositoryNotFound);
      }
      var archives := listing.value;
      var groupId := version.groupDependencyId;
      ghost var start := fs.State();
      var i := 0;
      while i < |archives|
        invariant 0 <= i <= |archives|
        invariant InstallAll(archives[..i], groupId, packageDirectory, decode).error.None?
        invariant fs.State() == ApplyAll(start, InstallAll(archives[..i], groupId, packageDirectory, decode).ops)
      {
        InstallStep(archives, i, groupId, packageDirectory, decode);
        ghost var before := InstallAll(archives[..i], groupId, packageDirectory, decode).ops;
        ghost var mid := fs.State();
        var error := InstallArchive(archives[i], groupId, packageDirectory, decode, fs);
        if error.Some? {
          InstallStopsAtError(archives, i + 1, groupId, packageDirectory, decode);
          return Fail(error.value);
        }
        ApplyAllAppend(start, before, ArchiveOps(archives[i], groupId, packageDirectory, decode));
        i := i + 1;
      }
      assert archives[..i] == archives;
      return Pass;
    }

    /** The body of the OnInstallPackageFiles loop for one archive. */
    method InstallArchive(archive: Archive, groupId: string, packageDirectory: string, decode: Decoder, fs: FileSystem)
      returns (error: Option<SourceError>)
      modifies fs
      ensures match IdentifyForInstall(archive, decode)
              case Unidentified(e) => error == Some(e) && fs.State() == old(fs.State())
              case Identified(_, _) =>
                error.None? && fs.State() == ApplyAll(old(fs.State()), ArchiveOps(archive, groupId, packageDirectory, decode))
    {
      var filePath := archive.path;
      if archive.entries.None? {
        return Some(ArchiveUnreadable(filePath));
      }
      var entries := archive.entries.value;
      var first := FirstIndex(entries, MentionsManifest);
      if first.None? {
        return Some(ManifestMissing(filePath));
      }
      var manifest := decode(entries[first.value].data);
      if manifest.None? {
        return Some(ManifestMalformed(filePath));
      }
      if GroupIdOf(filePath, manifest.value) == groupId {
        ExtractArchive(entries, packageDirectory, fs);
      }
      return None;
    }

    /** The two extraction loops of OnInstallPackageFiles: directories first, then files. */
    method ExtractArchive(entries: seq<Entry>, packageDirectory: string, fs: FileSystem)
      modifies fs
      ensures fs.State() == ApplyAll(old(fs.State()), ExtractionOps(packageDirectory, entries))
    {
      ghost var start := fs.State();
      CreateDirectories(entries, packageDirectory, fs);
      ghost var mid := fs.State();
      WriteFiles(entries, packageDirectory, fs);
      ApplyAllAppend(start, DirectoryOps(packageDirectory, entries), FileOps(packageDirectory, entries));
    }

    /** The first extraction loop: Directory.CreateDirectory for every directory entry. */
    method CreateDirectories(entries: seq<Entry>, packageDirectory: string, fs: FileSystem)
      modifies fs
      ensures fs.State() == ApplyAll(old(fs.State()), DirectoryOps(packageDirectory, entries))
    {
      ghost var start := fs.State();
      var j := 0;
      while j < |entries|
        invariant 0 <= j <= |entries|
        invariant fs.State() == ApplyAll(start, DirectoryOps(packageDirectory, entries[..j]))
      {
        assert entries[..j + 1][..j] == entries[..j];
        ghost var done := DirectoryOps(packageDirectory, entries[..j]);
        if entries[j].isDirectory {
          var op := MakeDirectory(Combine(packageDirectory, entries[j].key));
          fs.Perform(op);
          assert DirectoryOps(packageDirectory, entries[..j + 1]) == done + [op];
          ApplyAllSnoc(start, done, op);
        } else {
          assert DirectoryOps(packageDirectory, entries[..j + 1]) == done + [];
          assert done + [] == done;
        }
        j := j + 1;
      }
      assert entries[..j] == entries;
    }

    /** The second extraction loop: WriteToDirectory, overwriting, for every file entry. */
    method WriteFiles(entries: seq<Entry>, packageDirectory: string, fs: FileSystem)
      modifies fs
      ensures fs.State() == ApplyAll(old(fs.State()), FileOps(packageDirectory, entries))
    {
      ghost var start := fs.State();
      var j := 0;
      while j < |entries|
        invariant 0 <= j <= |entries|
        invariant fs.State() == ApplyAll(start, FileOps(packageDirectory, entries[..j]))
      {
        assert entries[..j + 1][..j] == entries[..j];
        ghost var done := FileOps(packageDirectory, entries[..j]);
        if !entries[j].isDirectory {
          var op := WriteFile(Combine(packageDirectory, entries[j].key), entries[j].data);
          fs.Perform(op);
          assert FileOps(packageDirectory, entries[..j + 1]) == done + [op];
          ApplyAllSnoc(start, done, op);
        } else {
          assert FileOps(packageDirectory, entries[..j + 1]) == done + [];
          assert done + [] == done;
        }
        j := j + 1;
      }
      assert entries[..j] == entries;
    }

    /** ReloadPagesAsyncInternal: a local folder has no further pages; it completes at once. */
    method ReloadPagesAsyncInternal() returns (completed: bool)
      ensures completed
    {
      completed := true;
    }
  }
}
