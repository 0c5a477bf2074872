/**
 * The star package manager: installs the latest GitHub release asset that
 * matches the running platform into the install directory `./stars`, and
 * records it in the manifest `./stars/.stars`.
 *
 * The network and the file system are inputs: the release response, the
 * outcome of the download, of creating the install directory, of removing a
 * file and of writing the manifest are given to each operation.  The state is
 * the manifest (missing, unreadable, or a sequence of records) and the set of
 * file names in the install directory.
 */
module Star {
  import opened Wrappers
  import opened GoStrings

  // ---------------------------------------------------------------------------
  // Data
  // ---------------------------------------------------------------------------

  /** One record of the manifest. */
  datatype Package = Package(user: string, repo: string, version: string, file: string)

  /** The manifest file: absent, present but not decodable, or a decoded record list. */
  datatype Manifest = Missing | Unreadable | Present(records: seq<Package>)

  /** What the package manager owns on disk. */
  datatype Disk = Disk(manifest: Manifest, files: set<string>)

  datatype Asset = Asset(name: string, url: string)

  /** The decoded `releases/latest` document: `tag_name` and `assets`. */
  datatype Release = Release(tag: string, assets: seq<Asset>)

  /** The answer to the release request: a transport error, or a status and a body that may not decode. */
  datatype ReleaseResponse = TransportFailure | Response(status: int, body: Option<Release>)

  /** How downloading the asset into the install directory ends. */
  datatype DownloadOutcome =
    | Downloaded
    | RequestFailed   // transport error or a status other than 200: nothing is written
    | CreateFailed    // the destination file cannot be created
    | CopyFailed      // the file is created, then writing the body fails: a partial file remains

  /** How rewriting the manifest ends. */
  datatype SaveOutcome =
    | Saved
    | SaveCreateFailed  // the manifest cannot be opened for writing: it is left as it was
    | SaveEncodeFailed  // the manifest was truncated, then writing failed: it no longer decodes

  /** Everything Install learns from the outside world, in the order it asks. */
  datatype InstallEnv = InstallEnv(
    platform: string,
    release: ReleaseResponse,
    mkdirOk: bool,
    download: DownloadOutcome,
    save: SaveOutcome)

  /** Everything Uninstall learns from the outside world. */
  datatype UninstallEnv = UninstallEnv(removeOk: bool, save: SaveOutcome)

  datatype Error =
    | UnsupportedPlatform
    | ReleaseRequestFailed
    | ReleaseStatus(code: int)
    | ReleaseDecodeFailed
    | NoCompatibleRelease(platform: string)
    | InstallDirFailed
    | DownloadFailed(stage: DownloadOutcome)
    | ManifestMissing
    | ManifestUnreadable
    | ManifestWriteFailed
    | PackageNotFound(user: string, repo: string)
    | RemovalFailed(file: string)
    | UninstallFailed(reason: Error)

  /** The disk after an operation, and the error it returned, if any. */
  datatype Outcome = Outcome(disk: Disk, err: Option<Error>)

  const StatusOK := 200

  /** The platform token for which Install refuses to run. */
  const UnknownPlatform := "unknown-unknown"

  // ---------------------------------------------------------------------------
  // Platform and asset selection
  // ---------------------------------------------------------------------------

  /** getPlatform: the operating system and the architecture joined by a hyphen. */
  function GetPlatform(goos: string, goarch: string): (r: string)
    ensures |r| == |goos| + 1 + |goarch|
    ensures HasPrefix(r, goos) && r[|goos|] == '-' && r[|goos| + 1..] == goarch
  {
    goos + ['-'] + goarch
  }

  /** The only hyphen of "unknown-unknown" is at index 7. */
  lemma {:induction false} UnknownPlatformHyphen(goos: string, goarch: string)
    requires '-' !in goos
    requires goos + ['-'] + goarch == UnknownPlatform
    ensures |goos| == 7
  {
    var u := "unknown";
    assert UnknownPlatform == u + ['-'] + u;
    CharIndexAfter(goos, '-', goarch);
    CharIndexAfter(u, '-', u);
  }

  /**
   * With an operating system name free of hyphens (as every Go GOOS is), the
   * token is "unknown-unknown" only for the pair ("unknown", "unknown").
   */
  lemma {:induction false} UnknownPlatformOnlyForUnknownPair(goos: string, goarch: string)
    requires '-' !in goos
    ensures GetPlatform(goos, goarch) == UnknownPlatform <==> goos == "unknown" && goarch == "unknown"
  {
    if GetPlatform(goos, goarch) == UnknownPlatform {
      UnknownPlatformHyphen(goos, goarch);
      var u := "unknown";
      assert UnknownPlatform == u + ['-'] + u;
      SplitAround(goos, '-', goarch, u, u);
    }
  }

  /** The first element of `s` that satisfies `p`, by index. */
  function FirstIndex<T>(s: seq<T>, p: T -> bool): (r: Option<nat>)
    ensures r.Some? ==> r.value < |s| && p(s[r.value])
    ensures r.Some? ==> forall j :: 0 <= j < r.value ==> !p(s[j])
    ensures r.None? ==> forall j :: 0 <= j < |s| ==> !p(s[j])
  {
    if s == [] then None
    else if p(s[0]) then Some(0)
    else
      match FirstIndex(s[1..], p)
      case None => None
      case Some(k) => Some(k + 1)
  }

  /** An asset fits the platform when its lower-cased name contains the token. */
  predicate Matches(asset: Asset, platform: string) {
    Contains(ToLower(asset.name), platform)
  }

  /** The asset Install picks: the first, in the given order, that fits the platform. */
  function SelectAsset(assets: seq<Asset>, platform: string): (r: Option<nat>)
    ensures r.Some? ==> r.value < |assets| && Matches(assets[r.value], platform)
    ensures r.Some? ==> forall j :: 0 <= j < r.value ==> !Matches(assets[j], platform)
    ensures r.None? ==> forall j :: 0 <= j < |assets| ==> !Matches(assets[j], platform)
  {
    FirstIndex(assets, (a: Asset) => Matches(a, platform))
  }

  /** The release tag and the asset that Install goes on to download. */
  datatype Selection = Selection(tag: string, asset: Asset)

  /**
   * The part of Install that only reads: the platform check, the release
   * request and the asset choice.
   */
  function Resolve(platform: string, response: ReleaseResponse): (r: Result<Selection, Error>)
    ensures platform == UnknownPlatform ==> r == Failure(UnsupportedPlatform)
    ensures r.Success? ==>
      && response.Response? && response.status == StatusOK && response.body.Some?
      && r.value.tag == response.body.value.tag
      && var k := SelectAsset(response.body.value.assets, platform);
         k.Some? && r.value.asset == response.body.value.assets[k.value]
    ensures r.Success? ==> r.value.asset.url != ""
    ensures response.Response? && response.status == StatusOK && response.body.Some? && platform != UnknownPlatform ==>
      (r.Success? <==> var k := SelectAsset(response.body.value.assets, platform);
                       k.Some? && response.body.value.assets[k.value].url != "")
    ensures r.Failure? && response.Response? && response.status == StatusOK && response.body.Some? && platform != UnknownPlatform ==>
      r.error == NoCompatibleRelease(platform)
  {
    if platform == UnknownPlatform then Failure(UnsupportedPlatform)
    else match response
      case TransportFailure => Failure(ReleaseRequestFailed)
      case Response(status, body) =>
        if status != StatusOK then Failure(ReleaseStatus(status))
        else if body.None? then Failure(ReleaseDecodeFailed)
        else
          var k := SelectAsset(body.value.assets, platform);
          if k.None? || body.value.assets[k.value].url == "" then Failure(NoCompatibleRelease(platform))
          else Success(Selection(body.value.tag, body.value.assets[k.value]))
  }

  /**
   * The example release of a tool built for macOS and Linux on amd64: a
   * linux-amd64 host picks the second asset, a linux-386 host none.
   */
  lemma ExampleSelection()
    ensures var assets := [Asset("tool-darwin-amd64.tar.gz", "d"), Asset("tool-linux-amd64.tar.gz", "l")];
      && SelectAsset(assets, "linux-amd64") == Some(1)
      && SelectAsset(assets, "linux-386") == None
  {
    var darwin, linux := "tool-darwin-amd64.tar.gz", "tool-linux-amd64.tar.gz";
    ExampleDarwinAsset(darwin);
    ExampleLinuxAsset(linux);
    ExampleLinuxAssetOn386(linux);
    var assets := [Asset(darwin, "d"), Asset(linux, "l")];
    assert !Matches(assets[0], "linux-amd64") && Matches(assets[1], "linux-amd64");
    assert !Matches(assets[0], "linux-386") && !Matches(assets[1], "linux-386");
  }

  lemma ExampleDarwinAsset(darwin: string)
    requires darwin == "tool-darwin-amd64.tar.gz"
    ensures !Matches(Asset(darwin, "d"), "linux-amd64") && !Matches(Asset(darwin, "d"), "linux-386")
  {
    forall i | 0 <= i < |darwin| ensures !IsUpper(darwin[i]) && darwin[i] != 'x' && darwin[i] != '3' { }
    NotContainsLowerMissingChar(darwin, "linux-amd64", 4);
    NotContainsLowerMissingChar(darwin, "linux-386", 6);
  }

  lemma ExampleLinuxAsset(linux: string)
    requires linux == "tool-linux-amd64.tar.gz"
    ensures Matches(Asset(linux, "l"), "linux-amd64")
  {
    forall i | 0 <= i < |linux| ensures !IsUpper(linux[i]) { }
    assert OccursAt(linux, "linux-amd64", 5);
    ContainsLowerAt(linux, "linux-amd64", 5);
  }

  lemma ExampleLinuxAssetOn386(linux: string)
    requires linux == "tool-linux-amd64.tar.gz"
    ensures !Matches(Asset(linux, "l"), "linux-386")
  {
    forall i | 0 <= i < |linux| ensures !IsUpper(linux[i]) && linux[i] != '3' { }
    NotContainsLowerMissingChar(linux, "linux-386", 6);
  }

  // ---------------------------------------------------------------------------
  // The manifest and the install directory
  // ---------------------------------------------------------------------------

  /** listInstalledPackages: the records, or the error of opening or decoding the manifest. */
  function Load(m: Manifest): (r: Result<seq<Package>, Error>)
    ensures r.Success? <==> m.Present?
    ensures m.Missing? ==> r == Failure(ManifestMissing)
    ensures m.Unreadable? ==> r == Failure(ManifestUnreadable)
  {
    match m
    case Missing => Failure(ManifestMissing)
    case Unreadable => Failure(ManifestUnreadable)
    case Present(records) => Success(records)
  }

  /** The records of the manifest when it is readable, a missing manifest counting as empty. */
  function Prior(m: Manifest): seq<Package> {
    if m.Present? then m.records else []
  }

  /** saveInstalledPackages: the manifest after trying to write `records`. */
  function Save(m: Manifest, records: seq<Package>, outcome: SaveOutcome): (Manifest, Option<Error>) {
    match outcome
    case Saved => (Present(records), None)
    case SaveCreateFailed => (m, Some(ManifestWriteFailed))
    case SaveEncodeFailed => (Unreadable, Some(ManifestWriteFailed))
  }

  /**
   * updateStarsFile: append `pkg` to the manifest; a missing manifest counts
   * as empty, an undecodable one stops the update.
   */
  function AppendRecord(m: Manifest, pkg: Package, outcome: SaveOutcome): (r: (Manifest, Option<Error>))
    ensures m.Unreadable? ==> r == (m, Some(ManifestUnreadable))
    ensures r.1.None? <==> !m.Unreadable? && outcome == Saved
    ensures r.1.None? ==> r.0 == Present(Prior(m) + [pkg])
    ensures r.1.Some? ==> r.0 == m || r.0 == Unreadable
  {
    if m.Unreadable? then (m, Some(ManifestUnreadable))
    else Save(m, Prior(m) + [pkg], outcome)
  }

  /**
   * downloadExecutable into installDir/name.  An empty name denotes the
   * install directory itself, which cannot be created as a file.
   */
  function Download(files: set<string>, name: string, outcome: DownloadOutcome): (set<string>, Option<Error>) {
    match outcome
    case RequestFailed => (files, Some(DownloadFailed(RequestFailed)))
    case CreateFailed => (files, Some(DownloadFailed(CreateFailed)))
    case _ =>
      if name == "" then (files, Some(DownloadFailed(CreateFailed)))
      else if outcome == CopyFailed then (files + {name}, Some(DownloadFailed(CopyFailed)))
      else (files + {name}, None)
  }

  /**
   * os.Remove of installDir/name succeeds: the file is there and may be
   * removed.  The empty name denotes the install directory, which still holds
   * the manifest and so cannot be removed.
   */
  predicate Removable(files: set<string>, name: string, removeOk: bool) {
    removeOk && name != "" && name in files
  }

  // ---------------------------------------------------------------------------
  // Install
  // ---------------------------------------------------------------------------

  /** The record a successful Install appends. */
  function RecordFor(pkg: Package, sel: Selection): Package {
    Package(pkg.user, pkg.repo, sel.tag, sel.asset.name)
  }

  /** Install as a function of the disk before it and the outside world. */
  function InstallOn(d: Disk, pkg: Package, env: InstallEnv): (r: Outcome)
    // nothing is touched before the download starts
    ensures Resolve(env.platform, env.release).Failure? ==>
      r == Outcome(d, Some(Resolve(env.platform, env.release).error))
    ensures !env.mkdirOk ==> r.disk == d && r.err.Some?
    // files are only added, and only the selected asset's
    ensures d.files <= r.disk.files
    ensures r.disk.files != d.files ==>
      Resolve(env.platform, env.release).Success?
      && r.disk.files == d.files + {Resolve(env.platform, env.release).value.asset.name}
    // the manifest changes only after a complete download
    ensures r.disk.manifest != d.manifest ==>
      Resolve(env.platform, env.release).Success? && env.download == Downloaded
      && r.disk.files == d.files + {Resolve(env.platform, env.release).value.asset.name}
    // success appends exactly one record, with no check for an existing one
    ensures r.err.None? <==>
      Resolve(env.platform, env.release).Success? && env.mkdirOk && env.download == Downloaded
      && Resolve(env.platform, env.release).value.asset.name != ""
      && !d.manifest.Unreadable? && env.save == Saved
    ensures r.err.None? ==>
      r.disk.manifest == Present(Prior(d.manifest) + [RecordFor(pkg, Resolve(env.platform, env.release).value)])
    // once the file is written (fully or partly) it stays, whatever happens to the manifest
    ensures (&& Resolve(env.platform, env.release).Success? && env.mkdirOk
             && (env.download == Downloaded || env.download == CopyFailed)
             && Resolve(env.platform, env.release).value.asset.name != "") ==>
      r.disk.files == d.files + {Resolve(env.platform, env.release).value.asset.name}
    // a failed Install records nothing: the manifest is as before, or truncated by a failed write
    ensures r.err.Some? ==>
      r.disk.manifest == d.manifest || (r.disk.manifest == Unreadable && env.save == SaveEncodeFailed)
  {
    match Resolve(env.platform, env.release)
    case Failure(e) => Outcome(d, Some(e))
    case Success(sel) =>
      if !env.mkdirOk then Outcome(d, Some(InstallDirFailed))
      else
        var (files', downloadErr) := Download(d.files, sel.asset.name, env.download);
        if downloadErr.Some? then Outcome(Disk(d.manifest, files'), downloadErr)
        else
          var (manifest', saveErr) := AppendRecord(d.manifest, RecordFor(pkg, sel), env.save);
          Outcome(Disk(manifest', files'), saveErr)
  }

  // ---------------------------------------------------------------------------
  // Uninstall
  // ---------------------------------------------------------------------------

  predicate SameIdentity(p: Package, user: string, repo: string) {
    p.user == user && p.repo == repo
  }

  /** The first record for (user, repo), by index. */
  function FindInstalled(records: seq<Package>, user: string, repo: string): (r: Option<nat>)
    ensures r.Some? ==> r.value < |records| && SameIdentity(records[r.value], user, repo)
    ensures r.Some? ==> forall j :: 0 <= j < r.value ==> !SameIdentity(records[j], user, repo)
    ensures r.None? ==> forall j :: 0 <= j < |records| ==> !SameIdentity(records[j], user, repo)
  {
    FirstIndex(records, (p: Package) => SameIdentity(p, user, repo))
  }

  /** The records not for (user, repo), in their original order. */
  function Without(records: seq<Package>, user: string, repo: string): (r: seq<Package>)
    ensures forall p :: p in r <==> p in records && !SameIdentity(p, user, repo)
    ensures |r| <= |records|
  {
    if records == [] then []
    else (if SameIdentity(records[0], user, repo) then [] else [records[0]]) + Without(records[1..], user, repo)
  }

  /** Filtering distributes over concatenation, so it keeps the relative order of the records it keeps. */
  lemma {:induction false} WithoutAppend(a: seq<Package>, b: seq<Package>, user: string, repo: string)
    ensures Without(a + b, user, repo) == Without(a, user, repo) + Without(b, user, repo)
  {
    if a == [] {
      assert a + b == b;
    } else {
      assert (a + b)[0] == a[0];
      assert (a + b)[1..] == a[1..] + b;
      WithoutAppend(a[1..], b, user, repo);
    }
  }

  /** With no record for (user, repo), filtering changes nothing. */
  lemma {:induction false} WithoutNoMatch(records: seq<Package>, user: string, repo: string)
    requires forall j :: 0 <= j < |records| ==> !SameIdentity(records[j], user, repo)
    ensures Without(records, user, repo) == records
  {
    if records != [] {
      WithoutNoMatch(records[1..], user, repo);
      assert records == [records[0]] + records[1..];
    }
  }

  /** Uninstall as a function of the disk before it and the outside world. */
  function UninstallOn(d: Disk, pkg: Package, env: UninstallEnv): (r: Outcome)
    // a manifest that is missing or does not decode is an error, and nothing changes
    ensures d.manifest.Missing? ==> r == Outcome(d, Some(ManifestMissing))
    ensures d.manifest.Unreadable? ==> r == Outcome(d, Some(ManifestUnreadable))
    ensures d.manifest.Present? && FindInstalled(d.manifest.records, pkg.user, pkg.repo).None? ==>
      r == Outcome(d, Some(PackageNotFound(pkg.user, pkg.repo)))
    // at most the file of the first matching record is removed
    ensures r.disk.files <= d.files
    ensures r.disk.files != d.files ==>
      && d.manifest.Present?
      && var k := FindInstalled(d.manifest.records, pkg.user, pkg.repo);
         k.Some? && r.disk.files == d.files - {d.manifest.records[k.value].file}
    // the manifest is rewritten only once that file is gone
    ensures r.disk.manifest != d.manifest ==> r.disk.files != d.files
    ensures r.err.None? <==>
      && d.manifest.Present?
      && var k := FindInstalled(d.manifest.records, pkg.user, pkg.repo);
         k.Some? && Removable(d.files, d.manifest.records[k.value].file, env.removeOk) && env.save == Saved
    // success drops every record for (user, repo) and keeps the others in order
    ensures r.err.None? ==>
      r.disk.manifest == Present(Without(d.manifest.records, pkg.user, pkg.repo))
    // a failed removal leaves the disk and the manifest as they were
    ensures d.manifest.Present? ==>
      var k := FindInstalled(d.manifest.records, pkg.user, pkg.repo);
      k.Some? && !Removable(d.files, d.manifest.records[k.value].file, env.removeOk) ==>
      r == Outcome(d, Some(RemovalFailed(d.manifest.records[k.value].file)))
    // a removal that succeeds is kept, even when the manifest write after it fails
    ensures d.manifest.Present? ==>
      var k := FindInstalled(d.manifest.records, pkg.user, pkg.repo);
      k.Some? && Removable(d.files, d.manifest.records[k.value].file, env.removeOk) ==>
      r.disk.files == d.files - {d.manifest.records[k.value].file}
    // a failed manifest write after the removal leaves the manifest as before or truncated
    ensures r.err.Some? ==>
      r.disk.manifest == d.manifest || (r.disk.manifest == Unreadable && env.save == SaveEncodeFailed)
  {
    match d.manifest
    case Missing => Outcome(d, Some(ManifestMissing))
    case Unreadable => Outcome(d, Some(ManifestUnreadable))
    case Present(records) =>
      match FindInstalled(records, pkg.user, pkg.repo)
      case None => Outcome(d, Some(PackageNotFound(pkg.user, pkg.repo)))
      case Some(k) =>
        var file := records[k].file;
        if !Removable(d.files, file, env.removeOk) then Outcome(d, Some(RemovalFailed(file)))
        else
          var (manifest', saveErr) := Save(d.manifest, Without(records, pkg.user, pkg.repo), env.save);
          Outcome(Disk(manifest', d.files - {file}), saveErr)
  }

  // ---------------------------------------------------------------------------
  // Update
  // ---------------------------------------------------------------------------

  /** Update: Uninstall, then Install only if Uninstall succeeded. */
  function UpdateOn(d: Disk, pkg: Package, uninstallEnv: UninstallEnv, installEnv: InstallEnv): (r: Outcome)
    ensures UninstallOn(d, pkg, uninstallEnv).err.Some? ==>
      r == Outcome(UninstallOn(d, pkg, uninstallEnv).disk, Some(UninstallFailed(UninstallOn(d, pkg, uninstallEnv).err.value)))
    ensures UninstallOn(d, pkg, uninstallEnv).err.None? ==>
      r == InstallOn(UninstallOn(d, pkg, uninstallEnv).disk, pkg, installEnv)
  {
    var removed := UninstallOn(d, pkg, uninstallEnv);
    if removed.err.Some? then Outcome(removed.disk, Some(UninstallFailed(removed.err.value)))
    else InstallOn(removed.disk, pkg, installEnv)
  }

  // ---------------------------------------------------------------------------
  // Properties across operations
  // ---------------------------------------------------------------------------

  /**
   * A successful Install of a package that was not installed makes the list
   * hold exactly one record for it: the last one, with the release tag and
   * the selected asset.
   */
  lemma {:induction false} InstallListsOneRecord(d: Disk, pkg: Package, env: InstallEnv)
    requires forall j :: 0 <= j < |Prior(d.manifest)| ==> !SameIdentity(Prior(d.manifest)[j], pkg.user, pkg.repo)
    requires InstallOn(d, pkg, env).err.None?
    ensures var sel := Resolve(env.platform, env.release).value;
      && Load(InstallOn(d, pkg, env).disk.manifest) == Success(Prior(d.manifest) + [RecordFor(pkg, sel)])
      && var records := Prior(d.manifest) + [RecordFor(pkg, sel)];
         FindInstalled(records, pkg.user, pkg.repo) == Some(|records| - 1)
         && |Without(records, pkg.user, pkg.repo)| == |records| - 1
  {
    var sel := Resolve(env.platform, env.release).value;
    var prior := Prior(d.manifest);
    var records := prior + [RecordFor(pkg, sel)];
    assert forall j :: 0 <= j < |prior| ==> records[j] == prior[j];
    assert SameIdentity(records[|records| - 1], pkg.user, pkg.repo);
    WithoutAppend(prior, [RecordFor(pkg, sel)], pkg.user, pkg.repo);
    WithoutNoMatch(prior, pkg.user, pkg.repo);
    assert Without([RecordFor(pkg, sel)], pkg.user, pkg.repo) == [];
  }

  /**
   * Install followed by Uninstall of a package that was not installed, with
   * both succeeding, leaves the records listed before (none, when there was
   * no manifest file yet) and the install directory as it was.
   */
  lemma {:induction false} InstallThenUninstall(d: Disk, pkg: Package, env: InstallEnv, uenv: UninstallEnv)
    requires !d.manifest.Unreadable?
    requires forall j :: 0 <= j < |Prior(d.manifest)| ==> !SameIdentity(Prior(d.manifest)[j], pkg.user, pkg.repo)
    requires InstallOn(d, pkg, env).err.None?
    requires Resolve(env.platform, env.release).value.asset.name !in d.files
    requires uenv == UninstallEnv(true, Saved)
    ensures UninstallOn(InstallOn(d, pkg, env).disk, pkg, uenv) == Outcome(Disk(Present(Prior(d.manifest)), d.files), None)
  {
    var prior := Prior(d.manifest);
    var sel := Resolve(env.platform, env.release).value;
    var rec := RecordFor(pkg, sel);
    var installed := InstallOn(d, pkg, env).disk;
    var records := prior + [rec];
    assert installed.manifest == Present(records);
    assert forall j :: 0 <= j < |prior| ==> records[j] == prior[j];
    assert SameIdentity(records[|records| - 1], pkg.user, pkg.repo);
    assert FindInstalled(records, pkg.user, pkg.repo) == Some(|records| - 1);
    WithoutAppend(prior, [rec], pkg.user, pkg.repo);
    WithoutNoMatch(prior, pkg.user, pkg.repo);
    assert Without([rec], pkg.user, pkg.repo) == [];
    assert installed.files - {sel.asset.name} == d.files;
  }

  /** From a manifest that is already there, Install then Uninstall restores the disk exactly. */
  lemma InstallThenUninstallRestores(d: Disk, pkg: Package, env: InstallEnv, uenv: UninstallEnv)
    requires d.manifest.Present?
    requires forall j :: 0 <= j < |d.manifest.records| ==> !SameIdentity(d.manifest.records[j], pkg.user, pkg.repo)
    requires InstallOn(d, pkg, env).err.None?
    requires Resolve(env.platform, env.release).value.asset.name !in d.files
    requires uenv == UninstallEnv(true, Saved)
    ensures UninstallOn(InstallOn(d, pkg, env).disk, pkg, uenv) == Outcome(d, None)
  {
    InstallThenUninstall(d, pkg, env, uenv);
  }

  /**
   * When the file is removed but the manifest cannot be written, the record
   * stays while its file is gone, so every later Uninstall of the package
   * fails at the removal.
   */
  lemma UninstallStuckAfterFailedWrite(d: Disk, pkg: Package, env: UninstallEnv, later: UninstallEnv)
    requires d.manifest.Present?
    requires FindInstalled(d.manifest.records, pkg.user, pkg.repo).Some?
    requires Removable(d.files, d.manifest.records[FindInstalled(d.manifest.records, pkg.user, pkg.repo).value].file, env.removeOk)
    requires env.save == SaveCreateFailed
    ensures var file := d.manifest.records[FindInstalled(d.manifest.records, pkg.user, pkg.repo).value].file;
      var after := UninstallOn(d, pkg, env).disk;
      && after == Disk(d.manifest, d.files - {file})
      && UninstallOn(after, pkg, later) == Outcome(after, Some(RemovalFailed(file)))
  {
  }

  /**
   * An Update whose Install step fails leaves the package uninstalled: no
   * record for it is listed, and when Install stopped before downloading, the
   * file the old record named is gone too.  There is no rollback.
   */
  lemma UpdateFailureLeavesAbsent(d: Disk, pkg: Package, uenv: UninstallEnv, ienv: InstallEnv)
    requires UninstallOn(d, pkg, uenv).err.None?
    requires UpdateOn(d, pkg, uenv, ienv).err.Some?
    ensures var r := UpdateOn(d, pkg, uenv, ienv).disk;
      r.manifest.Present? ==> forall j :: 0 <= j < |r.manifest.records| ==> !SameIdentity(r.manifest.records[j], pkg.user, pkg.repo)
    ensures Resolve(ienv.platform, ienv.release).Failure? || !ienv.mkdirOk ==>
      var k := FindInstalled(d.manifest.records, pkg.user, pkg.repo).value;
      UpdateOn(d, pkg, uenv, ienv).disk.files == d.files - {d.manifest.records[k].file}
  {
  }

  /**
   * When two records share an identity, a successful Uninstall drops both
   * records but deletes only the first one's file; the later record's file
   * stays in the install directory with no record naming it.
   */
  lemma UninstallOrphansDuplicateFile(d: Disk, pkg: Package, env: UninstallEnv, i: nat, j: nat)
    requires d.manifest.Present? && i < j < |d.manifest.records|
    requires FindInstalled(d.manifest.records, pkg.user, pkg.repo) == Some(i)
    requires SameIdentity(d.manifest.records[j], pkg.user, pkg.repo)
    requires d.manifest.records[j].file != d.manifest.records[i].file
    requires d.manifest.records[j].file in d.files
    requires UninstallOn(d, pkg, env).err.None?
    ensures var r := UninstallOn(d, pkg, env).disk;
      d.manifest.records[j].file in r.files && d.manifest.records[j] !in r.manifest.records
  {
  }

  // ---------------------------------------------------------------------------
  // The package manager's state, updated in place
  // ---------------------------------------------------------------------------

  /** The manifest and the install directory, as the four operations change them. */
  class Stars {
    var manifest: Manifest
    var files: set<string>

    function State(): Disk
      reads this
    {
      Disk(manifest, files)
    }

    constructor (manifest: Manifest, files: set<string>)
      ensures State() == Disk(manifest, files)
    {
      this.manifest := manifest;
      this.files := files;
    }

    /** listInstalledPackages */
    method ListInstalledPackages() returns (r: Result<seq<Package>, Error>)
      ensures r == Load(manifest)
      ensures r.Success? ==> manifest == Present(r.value)
    {
      match manifest
      case Missing => r := Failure(ManifestMissing);
      case Unreadable => r := Failure(ManifestUnreadable);
      case Present(records) => r := Success(records);
    }

    /** ListInstalledStars: the manifest's records; a missing manifest is an error. */
    method ListInstalledStars() returns (r: Result<seq<Package>, Error>)
      ensures r == Load(manifest)
    {
      r := ListInstalledPackages();
    }

    /** saveInstalledPackages: rewrite the whole manifest. */
    method SaveInstalledPackages(records: seq<Package>, outcome: SaveOutcome) returns (err: Option<Error>)
      modifies this`manifest
      ensures (manifest, err) == Save(old(manifest), records, outcome)
    {
      match outcome
      case Saved =>
        manifest := Present(records);
        err := None;
      case SaveCreateFailed =>
        err := Some(ManifestWriteFailed);
      case SaveEncodeFailed =>
        manifest := Unreadable;
        err := Some(ManifestWriteFailed);
    }

    /** updateStarsFile: read the manifest, append `pkg`, write it back. */
    method UpdateStarsFile(pkg: Package, outcome: SaveOutcome) returns (err: Option<Error>)
      modifies this`manifest
      ensures (manifest, err) == AppendRecord(old(manifest), pkg, outcome)
    {
      var packages: seq<Package>;
      var loaded := ListInstalledPackages();
      if loaded.Failure? {
        if loaded.error != ManifestMissing {
          return Some(loaded.error);
        }
        packages := [];
      } else {
        packages := loaded.value;
      }
      packages := packages + [pkg];
      err := SaveInstalledPackages(packages, outcome);
    }

    /** downloadExecutable into installDir/name. */
    method DownloadExecutable(name: string, outcome: DownloadOutcome) returns (err: Option<Error>)
      modifies this`files
      ensures (files, err) == Download(old(files), name, outcome)
    {
      if outcome == RequestFailed {
        return Some(DownloadFailed(RequestFailed));
      }
      if outcome == CreateFailed || name == "" {
        return Some(DownloadFailed(CreateFailed));
      }
      files := files + {name};
      if outcome == CopyFailed {
        return Some(DownloadFailed(CopyFailed));
      }
      err := None;
    }

    /** Install the latest release of pkg.user/pkg.repo for env.platform. */
    method Install(pkg: Package, env: InstallEnv) returns (err: Option<Error>)
      modifies this
      ensures Outcome(State(), err) == InstallOn(old(State()), pkg, env)
    {
      var platform := env.platform;
      if platform == UnknownPlatform {
        return Some(UnsupportedPlatform);
      }
      if env.release.TransportFailure? {
        return Some(ReleaseRequestFailed);
      }
      if env.release.status != StatusOK {
        return Some(ReleaseStatus(env.release.status));
      }
      if env.release.body.None? {
        return Some(ReleaseDecodeFailed);
      }
      var assets := env.release.body.value.assets;

      var downloadURL := "";
      var file := pkg.file;
      var i := 0;
      while i < |assets|
        invariant 0 <= i <= |assets|
        invariant forall j :: 0 <= j < i ==> !Matches(assets[j], platform)
        invariant downloadURL == ""
      {
        if Contains(ToLower(assets[i].name), platform) {
          downloadURL := assets[i].url;
          file := assets[i].name;
          assert SelectAsset(assets, platform) == Some(i);
          break;
        }
        i := i + 1;
      }

      if downloadURL == "" {
        return Some(NoCompatibleRelease(platform));
      }
      assert Resolve(platform, env.release) == Success(Selection(env.release.body.value.tag, assets[i]));
      var version := env.release.body.value.tag;
      if !env.mkdirOk {
        return Some(InstallDirFailed);
      }
      err := DownloadExecutable(file, env.download);
      if err.Some? {
        return;
      }
      err := UpdateStarsFile(Package(pkg.user, pkg.repo, version, file), env.save);
    }

    /** Uninstall pkg.user/pkg.repo: delete its file, then drop its records from the manifest. */
    method Uninstall(pkg: Package, env: UninstallEnv) returns (err: Option<Error>)
      modifies this
      ensures Outcome(State(), err) == UninstallOn(old(State()), pkg, env)
    {
      var loaded := ListInstalledPackages();
      if loaded.Failure? {
        return Some(loaded.error);
      }
      var packages := loaded.value;

      // The path of the first matching record; joining it to the install
      // directory never gives the empty path, so "found" is "a record matched".
      var found := false;
      var file := "";
      var i := 0;
      while i < |packages|
        invariant 0 <= i <= |packages|
        invariant forall j :: 0 <= j < i ==> !SameIdentity(packages[j], pkg.user, pkg.repo)
        invariant !found
      {
        if packages[i].user == pkg.user && packages[i].repo == pkg.repo {
          found := true;
          file := packages[i].file;
          assert FindInstalled(packages, pkg.user, pkg.repo) == Some(i);
          break;
        }
        i := i + 1;
      }

      assert found ==> i < |packages| && FindInstalled(packages, pkg.user, pkg.repo) == Some(i) && file == packages[i].file;
      if !found {
        return Some(PackageNotFound(pkg.user, pkg.repo));
      }
      if !Removable(files, file, env.removeOk) {
        return Some(RemovalFailed(file));
      }
      files := files - {file};

      var updated := RemainingPackages(packages, pkg.user, pkg.repo);
      err := SaveInstalledPackages(updated, env.save);
    }

    /** The loop of Uninstall that collects the records not for (user, repo). */
    static method RemainingPackages(packages: seq<Package>, user: string, repo: string) returns (updated: seq<Package>)
      ensures updated == Without(packages, user, repo)
    {
      updated := [];
      var n := 0;
      while n < |packages|
        invariant 0 <= n <= |packages|
        invariant updated == Without(packages[..n], user, repo)
      {
        assert packages[..n + 1] == packages[..n] + [packages[n]];
        WithoutAppend(packages[..n], [packages[n]], user, repo);
        assert Without([packages[n]], user, repo) == if SameIdentity(packages[n], user, repo) then [] else [packages[n]];
        if packages[n].user != user || packages[n].repo != repo {
          updated := updated + [packages[n]];
        }
        n := n + 1;
      }
      assert packages[..|packages|] == packages;
    }

    /** Update: uninstall, then install again; a failed install is not rolled back. */
    method Update(pkg: Package, uninstallEnv: UninstallEnv, installEnv: InstallEnv) returns (err: Option<Error>)
      modifies this
      ensures Outcome(State(), err) == UpdateOn(old(State()), pkg, uninstallEnv, installEnv)
    {
      err := Uninstall(pkg, uninstallEnv);
      if err.Some? {
        return Some(UninstallFailed(err.value));
      }
      err := Install(pkg, installEnv);
    }
  }
}
