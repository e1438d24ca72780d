/** `CratesLSPExtension::language_server_binary_path`: find, or download and
    install, the `crates-lsp` executable and remember where it is.

    The procedure is a pure function of the in-memory cache cell, the
    working directory and the host's answers. It returns the outcome, the
    new cache cell, the new working directory and the trace of host calls. */
module Resolver {
  import opened Results
  import opened Platforms
  import opened Workdir
  import opened HostApi
  import Text

  /** The GitHub repository the releases come from. */
  const Repository: string := "MathiasPius/crates-lsp"

  /** The first two host calls of every resolution that misses the cache:
      announce the update check, then ask for the latest release that has
      assets and is not a pre-release. */
  const Probe: seq<Event> := [SetStatus(CheckingForUpdate), FetchRelease(Repository, true, false)]

  /** The folder a release is unpacked into. */
  function VersionDir(version: string): string {
    ToolName + "-" + version
  }

  /** Where the executable of `version` lives on OS `os`. */
  function BinaryPath(version: string, os: Os): string {
    VersionDir(version) + "/" + BinaryName(os)
  }

  /** The executable sits directly inside the version folder, so its path
      is distinct from the folder's and belongs to it. */
  lemma BinaryPathInsideVersionDir(version: string, os: Os)
    ensures Under(BinaryPath(version, os), VersionDir(version))
    ensures BinaryPath(version, os) != VersionDir(version)
    ensures Text.Lacks(version, '/') ==> TopName(BinaryPath(version, os)) == VersionDir(version)
  {
    var dir := VersionDir(version);
    assert BinaryPath(version, os) == dir + "/" + BinaryName(os);
    assert |BinaryPath(version, os)| > |dir|;
    if Text.Lacks(version, '/') {
      assert Text.Lacks(dir, '/');
      TopNameOfUnder(BinaryPath(version, os), dir);
    }
  }

  /** The error for a release without this platform's asset: the asset name
      in Rust's debug formatting, which for these names is just quoting. */
  function AssetMissing(name: string): string {
    "no asset found matching \"" + name + "\""
  }

  /** The first asset named exactly `name`, as `Iterator::find` returns it. */
  function FindAsset(assets: seq<Asset>, name: string): (r: Option<Asset>)
    ensures r.None? <==> forall i :: 0 <= i < |assets| ==> assets[i].name != name
    ensures r.Some? ==> exists i :: 0 <= i < |assets| && assets[i] == r.value
                                  && forall j :: 0 <= j < i ==> assets[j].name != name
    ensures r.Some? ==> r.value.name == name
  {
    if |assets| == 0 then None
    else if assets[0].name == name then Some(assets[0])
    else
      var r := FindAsset(assets[1..], name);
      assert r.Some? ==> exists i :: 0 <= i < |assets[1..]| && assets[1..][i] == r.value
                                  && forall j :: 0 <= j < i ==> assets[1..][j].name != name;
      if r.Some? then
        var i :| 0 <= i < |assets[1..]| && assets[1..][i] == r.value
                 && forall j :: 0 <= j < i ==> assets[1..][j].name != name;
        assert assets[i + 1] == r.value;
        assert forall j :: 0 <= j < i + 1 ==> assets[j].name != name by {
          forall j | 0 <= j < i + 1 ensures assets[j].name != name {
            if j > 0 {
              assert assets[j] == assets[1..][j - 1];
            }
          }
        }
        r
      else
        assert forall i :: 0 <= i < |assets| ==> assets[i].name != name by {
          forall i | 0 <= i < |assets| ensures assets[i].name != name {
            if i > 0 {
              assert assets[i] == assets[1..][i - 1];
            }
          }
        }
        r
  }

  /** `k` lies under none of the entries in `removed`. */
  predicate Spared(k: string, removed: seq<string>) {
    forall i :: 0 <= i < |removed| ==> !Under(k, removed[i])
  }

  /** Sparing a list headed by `n` is sparing `n` and the rest. */
  lemma SparedCons(k: string, n: string, removed: seq<string>)
    ensures Spared(k, [n] + removed) <==> !Under(k, n) && Spared(k, removed)
  {
    var l := [n] + removed;
    assert l[0] == n;
    assert forall i :: 0 <= i < |removed| ==> l[i + 1] == removed[i];
  }

  /** The error of the first unreadable item of a listing, if any. */
  function FirstFault(items: seq<DirItem>): (r: Option<string>)
    ensures r.None? <==> forall i :: 0 <= i < |items| ==> items[i].Named?
    ensures r.Some? ==> Unreadable(r.value) in items
  {
    if |items| == 0 then None
    else
      match items[0]
      case Unreadable(e) => Some(e)
      case Named(_) =>
        assert forall i :: 1 <= i < |items| ==> items[i] == items[1..][i - 1];
        FirstFault(items[1..])
  }

  /** The entries the clean-up loop tries to delete, in listing order: every
      listed name other than `keep`, up to the first unreadable item. */
  function Attempts(items: seq<DirItem>, keep: string): (r: seq<string>)
    ensures forall i :: 0 <= i < |r| ==> r[i] != keep && Named(r[i]) in items
  {
    if |items| == 0 then []
    else
      match items[0]
      case Unreadable(_) => []
      case Named(n) =>
        var rest := Attempts(items[1..], keep);
        assert forall i :: 1 <= i < |items| ==> items[i] == items[1..][i - 1];
        if n == keep then rest
        else
          assert forall i :: 1 <= i < |[n] + rest| ==> ([n] + rest)[i] == rest[i - 1];
          [n] + rest
  }

  /** What the clean-up loop leaves: the error that stopped it, if any, the
      working directory afterwards, the entries it tried to delete, and the
      ones whose deletion succeeded. */
  datatype Sweep = Sweep(fault: Option<string>, world: World, attempted: seq<string>, removed: seq<string>)

  /** Whether `fs::remove_dir_all(n)` succeeds: it opens `n` as a directory,
      so it refuses a regular file, and otherwise the host decides. */
  predicate Deletes(w: World, n: string, removable: set<string>) {
    n in removable && !IsFile(w, n)
  }

  /** The clean-up loop over `read_dir(".")`: an unreadable item stops the
      loop with its error, every entry other than `keep` gets a deletion
      attempt, and a failed deletion is ignored. */
  function SweepEntries(w: World, items: seq<DirItem>, keep: string, removable: set<string>): (r: Sweep)
    ensures r.fault == FirstFault(items)
    ensures r.attempted == Attempts(items, keep)
    ensures forall i :: 0 <= i < |r.removed| ==> r.removed[i] in r.attempted && r.removed[i] in removable
    ensures forall n :: n in r.attempted && n in removable && n !in r.removed ==> IsFile(w, n)
    ensures r.world.Keys <= w.Keys
    ensures forall k :: k in r.world ==> r.world[k] == w[k] && Spared(k, r.removed)
    ensures forall k :: k in w && Spared(k, r.removed) ==> k in r.world
    decreases |items|
  {
    if |items| == 0 then Sweep(None, w, [], [])
    else
      match items[0]
      case Unreadable(e) => Sweep(Some(e), w, [], [])
      case Named(n) =>
        var gone := n != keep && Deletes(w, n, removable);
        var rest := SweepEntries(if gone then RemoveAll(w, n) else w, items[1..], keep, removable);
        assert forall i :: 1 <= i < |items| ==> items[i] == items[1..][i - 1];
        if n == keep then rest
        else
          var removed := if gone then [n] + rest.removed else rest.removed;
          var r := Sweep(rest.fault, rest.world, [n] + rest.attempted, removed);
          assert forall k :: Spared(k, r.removed) <==> Spared(k, rest.removed) && !(gone && Under(k, n)) by {
            forall k ensures Spared(k, r.removed) <==> Spared(k, rest.removed) && !(gone && Under(k, n)) {
              if gone {
                assert r.removed == [n] + rest.removed;
                SparedCons(k, n, rest.removed);
              }
            }
          }
          assert forall k :: k in w && Spared(k, r.removed) ==> k in r.world by {
            forall k | k in w && Spared(k, r.removed) ensures k in r.world {
              if gone {
                RemoveAllKeeps(w, n, k);
              }
            }
          }
          r
  }

  /** The trace of the clean-up loop's deletion attempts. */
  function Removals(attempted: seq<string>): seq<Event> {
    seq(|attempted|, i requires 0 <= i < |attempted| => RemoveEntry(attempted[i]))
  }

  /** The outcome of one resolution. */
  datatype Step = Step(result: Result<string>, cache: Option<string>, world: World, events: seq<Event>)

  /** The cache cell holds a path that is still a regular file. */
  predicate CacheLive(cache: Option<string>, w: World) {
    cache.Some? && IsFile(w, cache.value)
  }

  /** One call of `language_server_binary_path`. */
  function Resolve(cache: Option<string>, w: World, h: Host): (s: Step)
    ensures CacheLive(cache, w) ==> s == Step(Ok(cache.value), cache, w, [])
    ensures !CacheLive(cache, w) ==>
              || s.events == Probe
              || (&& h.release.Ok?
                  && FindAsset(h.release.value.assets, AssetName(h.platform)).Some?
                  && Installs(s.events, VersionDir(h.release.value.version),
                              FindAsset(h.release.value.assets, AssetName(h.platform)).value.downloadUrl,
                              FileTypeFor(h.platform.os), BinaryPath(h.release.value.version, h.platform.os)))
    ensures s.result.Ok? ==> s.cache == Some(s.result.value)
    ensures s.result.Err? ==> s.cache == cache
    ensures s.result.Ok? && !CacheLive(cache, w) ==>
              h.release.Ok? && s.result.value == BinaryPath(h.release.value.version, h.platform.os)
    ensures forall k :: k in s.world && !(h.release.Ok? && Under(k, VersionDir(h.release.value.version))) ==>
              k in w && s.world[k] == w[k]
  {
    if CacheLive(cache, w) then Step(Ok(cache.value), cache, w, [])
    else
      match h.release
      case Err(e) => Step(Err(e), cache, w, Probe)
      case Ok(release) =>
        var name := AssetName(h.platform);
        match FindAsset(release.assets, name)
        case None => Step(Err(AssetMissing(name)), cache, w, Probe)
        case Some(asset) => Prepare(cache, w, h, release.version, asset)
  }

  /** The calls of the install step: the "Downloading" status and the
      download, then possibly the permission change, then possibly the
      listing of the working directory followed only by deletions of
      entries other than the version folder. */
  predicate InstallTrace(events: seq<Event>, url: string, dir: string, fileType: DownloadedFileType, bin: string) {
    && |events| >= 2
    && events[0] == SetStatus(Downloading)
    && events[1] == Download(url, dir, fileType)
    && (|events| > 2 ==> events[2] == MakeExecutable(bin))
    && (|events| > 3 ==> events[3] == ListDir("."))
    && forall i :: 4 <= i < |events| ==> events[i].RemoveEntry? && events[i].entry != dir
  }

  /** The trace of a resolution that found its asset: the common probe and
      the creation of the version folder, possibly followed by an install. */
  predicate Installs(events: seq<Event>, dir: string, url: string, fileType: DownloadedFileType, bin: string) {
    && |events| >= 3
    && events[..3] == Probe + [CreateDir(dir)]
    && (|events| > 3 ==> InstallTrace(events[3..], url, dir, fileType, bin))
  }

  /** Nothing in such a trace deletes the version folder. */
  lemma InstallsSparesDir(events: seq<Event>, dir: string, url: string, fileType: DownloadedFileType, bin: string)
    requires Installs(events, dir, url, fileType, bin)
    ensures forall e :: e in events && e.RemoveEntry? ==> e.entry != dir
  {
    forall e | e in events && e.RemoveEntry?
      ensures e.entry != dir
    {
      var i :| 0 <= i < |events| && events[i] == e;
      if i >= 3 {
        assert events[3..][i - 3] == e;
      }
    }
  }

  /** The resolution once the asset is known: create the version folder,
      and install into it unless the executable is already there. */
  function Prepare(cache: Option<string>, w: World, h: Host, version: string, asset: Asset): (s: Step)
    ensures Installs(s.events, VersionDir(version), asset.downloadUrl, FileTypeFor(h.platform.os),
                     BinaryPath(version, h.platform.os))
    ensures s.result.Ok? ==> s.result.value == BinaryPath(version, h.platform.os)
    ensures s.cache == if s.result.Ok? then Some(s.result.value) else cache
    ensures forall k :: k in s.world && !Under(k, VersionDir(version)) ==> k in w && s.world[k] == w[k]
  {
    var dir := VersionDir(version);
    var bin := BinaryPath(version, h.platform.os);
    var head := Probe + [CreateDir(dir)];
    match CreateDirAll(w, dir, h.createDirFault)
    case Err(e) => Step(Err("failed to create directory '" + dir + "': " + e), cache, w, head)
    case Ok(created) =>
      if IsFile(created, bin) then Step(Ok(bin), Some(bin), created, head)
      else
        var s := Install(cache, created, h, dir, bin, asset.downloadUrl);
        assert (head + s.events)[..3] == head;
        assert (head + s.events)[3..] == s.events;
        Step(s.result, s.cache, s.world, head + s.events)
  }

  /** Download, unpack and mark executable, then clean up. The trace holds
      this step's own calls. */
  function Install(cache: Option<string>, w: World, h: Host, dir: string, bin: string, url: string): (s: Step)
    ensures InstallTrace(s.events, url, dir, FileTypeFor(h.platform.os), bin)
    ensures s.result.Ok? ==> s.result.value == bin
    ensures s.cache == if s.result.Ok? then Some(bin) else cache
    ensures forall k :: k in s.world && !Under(k, dir) ==> k in w && s.world[k] == w[k]
  {
    var fetch := [SetStatus(Downloading), Download(url, dir, FileTypeFor(h.platform.os))];
    match h.download
    case Err(e) => Step(Err("failed to download file: " + e), cache, w, fetch)
    case Ok(names) =>
      var unpacked := Extract(w, dir, names);
      var chmod := fetch + [MakeExecutable(bin)];
      match h.chmodFault
      case Some(e) => Step(Err(e), cache, unpacked, chmod)
      case None =>
        var s := Cleanup(cache, unpacked, h, dir, bin);
        var events := chmod + s.events;
        assert forall i :: 3 <= i < |events| ==> events[i] == s.events[i - 3];
        Step(s.result, s.cache, s.world, events)
  }

  /** List the working directory and delete every entry other than the
      version folder; a failed deletion is ignored. The trace holds this
      step's own calls. */
  function Cleanup(cache: Option<string>, w: World, h: Host, dir: string, bin: string): (s: Step)
    ensures |s.events| >= 1 && s.events[0] == ListDir(".")
    ensures forall i :: 1 <= i < |s.events| ==> s.events[i].RemoveEntry? && s.events[i].entry != dir
    ensures s.result.Ok? ==> s.result.value == bin
    ensures s.cache == if s.result.Ok? then Some(bin) else cache
    ensures s.world.Keys <= w.Keys
    ensures forall k :: k in s.world ==> s.world[k] == w[k]
  {
    match h.listing
    case Err(e) => Step(Err("failed to list working directory " + e), cache, w, [ListDir(".")])
    case Ok(items) =>
      var sweep := SweepEntries(w, items, dir, h.removable);
      var events := [ListDir(".")] + Removals(sweep.attempted);
      assert forall i :: 1 <= i < |events| ==> events[i] == RemoveEntry(sweep.attempted[i - 1]);
      match sweep.fault
      case Some(e) => Step(Err("failed to load directory entry " + e), cache, sweep.world, events)
      case None => Step(Ok(bin), Some(bin), sweep.world, events)
  }

  // ---------------------------------------------------------------------
  // The clean-up loop

  /** Every entry before the first unreadable item, other than the version
      folder, gets a deletion attempt. */
  lemma {:induction false} SweepAttemptsEveryOtherEntry(items: seq<DirItem>, keep: string, i: nat)
    requires i < |items|
    requires forall j :: 0 <= j <= i ==> items[j].Named?
    requires items[i].name != keep
    ensures items[i].name in Attempts(items, keep)
    decreases i
  {
    if i > 0 {
      assert items[1..][i - 1] == items[i];
      SweepAttemptsEveryOtherEntry(items[1..], keep, i - 1);
    }
  }

  /** The loop stops at the first unreadable item, with that item's error,
      having attempted only entries listed before it. */
  lemma {:induction false} SweepStopsAtFirstUnreadable(items: seq<DirItem>, keep: string, i: nat)
    requires i < |items| && items[i].Unreadable?
    requires forall j :: 0 <= j < i ==> items[j].Named?
    ensures FirstFault(items) == Some(items[i].error)
    ensures forall n :: n in Attempts(items, keep) ==> Named(n) in items[..i]
    decreases i
  {
    if i > 0 {
      assert items[1..][i - 1] == items[i];
      assert forall j :: 0 <= j < i - 1 ==> items[1..][j] == items[j + 1];
      SweepStopsAtFirstUnreadable(items[1..], keep, i - 1);
      assert items[1..][..i - 1] == items[1..i];
      assert forall m :: Named(m) in items[1..i] ==> Named(m) in items[..i];
    }
  }

  /** The version folder survives the loop when entry names are single path
      components, as `read_dir` yields them. */
  lemma SweepSparesKeep(w: World, items: seq<DirItem>, keep: string, removable: set<string>)
    requires Text.Lacks(keep, '/')
    requires forall n :: Named(n) in items ==> Text.Lacks(n, '/')
    ensures forall k :: k in w && Under(k, keep) ==> k in SweepEntries(w, items, keep, removable).world
  {
    var r := SweepEntries(w, items, keep, removable);
    forall k | k in w && Under(k, keep)
      ensures k in r.world
    {
      TopNameOfUnder(k, keep);
      forall i | 0 <= i < |r.removed|
        ensures !Under(k, r.removed[i])
      {
        if Under(k, r.removed[i]) {
          TopNameOfUnder(k, r.removed[i]);
          assert false;
        }
      }
    }
  }

  /** `remove_dir_all` refuses a regular file, so a file at the top of the
      working directory outlives the loop. */
  lemma {:induction false} SweepKeepsTopLevelFiles(w: World, items: seq<DirItem>, keep: string,
                                                   removable: set<string>, k: string)
    requires IsFile(w, k) && Text.Lacks(k, '/')
    ensures k in SweepEntries(w, items, keep, removable).world
    decreases |items|
  {
    if |items| > 0 && items[0].Named? {
      var n := items[0].name;
      var next := if n != keep && Deletes(w, n, removable) then RemoveAll(w, n) else w;
      if next != w {
        assert k != n;
        assert !(n + "/" <= k) by {
          if |n + "/"| <= |k| {
            assert k[|n|] != '/';
            assert (n + "/")[|n|] == '/';
          }
        }
        RemoveAllKeeps(w, n, k);
      }
      SweepKeepsTopLevelFiles(next, items[1..], keep, removable, k);
    }
  }

  /** When every entry is listed and readable and the host lets every
      deletion through, only the version folder is left, apart from the
      regular files at the top, which `remove_dir_all` refuses. */
  lemma SweepLeavesOnlyKeep(w: World, items: seq<DirItem>, keep: string, removable: set<string>)
    requires forall i :: 0 <= i < |items| ==> items[i].Named?
    requires forall k :: k in w && !Under(k, keep) ==> Named(TopName(k)) in items
    requires forall n :: Named(n) in items ==> n in removable
    ensures forall k :: k in SweepEntries(w, items, keep, removable).world ==>
              Under(k, keep) || IsFile(w, TopName(k))
  {
    var r := SweepEntries(w, items, keep, removable);
    forall k | k in r.world && !Under(k, keep)
      ensures IsFile(w, TopName(k))
    {
      var t := TopName(k);
      UnderTopName(k);
      var i :| 0 <= i < |items| && items[i] == Named(t);
      SweepAttemptsEveryOtherEntry(items, keep, i);
    }
  }

  // ---------------------------------------------------------------------
  // Whole resolutions

  /** A failed release query is returned as it is, before anything touches
      the disk. */
  lemma ReleaseFailureStopsEarly(cache: Option<string>, w: World, h: Host)
    requires !CacheLive(cache, w) && h.release.Err?
    ensures Resolve(cache, w, h) == Step(Err(h.release.error), cache, w, Probe)
  {
  }

  /** A release without this platform's asset is an error naming the asset,
      reported before the version folder is created, before the
      "Downloading" status and before any download. */
  lemma AssetMissStopsEarly(cache: Option<string>, w: World, h: Host)
    requires !CacheLive(cache, w) && h.release.Ok?
    requires forall a :: a in h.release.value.assets ==> a.name != AssetName(h.platform)
    ensures Resolve(cache, w, h) == Step(Err(AssetMissing(AssetName(h.platform))), cache, w, Probe)
  {
    var assets := h.release.value.assets;
    assert forall i :: 0 <= i < |assets| ==> assets[i] in assets;
  }

  /** An executable already installed for the latest version is reused:
      no "Downloading" status, no download, no clean-up. Only the version
      folder is (re)created. */
  lemma InstalledVersionIsReused(cache: Option<string>, w: World, h: Host)
    requires !CacheLive(cache, w) && h.release.Ok?
    requires exists a :: a in h.release.value.assets && a.name == AssetName(h.platform)
    requires CreateDirAll(w, VersionDir(h.release.value.version), h.createDirFault).Ok?
    requires IsFile(w, BinaryPath(h.release.value.version, h.platform.os))
    ensures var s := Resolve(cache, w, h);
            var bin := BinaryPath(h.release.value.version, h.platform.os);
            && s.result == Ok(bin)
            && s.cache == Some(bin)
            && s.events == Probe + [CreateDir(VersionDir(h.release.value.version))]
            && s.world == CreateDirAll(w, VersionDir(h.release.value.version), h.createDirFault).value
  {
    var version := h.release.value.version;
    var a :| a in h.release.value.assets && a.name == AssetName(h.platform);
    var i :| 0 <= i < |h.release.value.assets| && h.release.value.assets[i] == a;
    var bin := BinaryPath(version, h.platform.os);
    assert bin != VersionDir(version) by {
      assert |bin| > |VersionDir(version)|;
    }
  }


  /** The version folder is never among the entries the clean-up deletes. */
  lemma VersionDirNeverRemoved(cache: Option<string>, w: World, h: Host)
    ensures forall e :: e in Resolve(cache, w, h).events && e.RemoveEntry? ==>
              h.release.Ok? && e.entry != VersionDir(h.release.value.version)
  {
    var s := Resolve(cache, w, h);
    if s.events != [] && s.events != Probe {
      var release := h.release.value;
      InstallsSparesDir(s.events, VersionDir(release.version),
                        FindAsset(release.assets, AssetName(h.platform)).value.downloadUrl,
                        FileTypeFor(h.platform.os), BinaryPath(release.version, h.platform.os));
    }
  }

  /** The host behaves like the real one where the resolver relies on it:
      release versions are plain names, the archive holds the executable at
      its top level, and `read_dir` yields single path components. */
  ghost predicate Conventional(h: Host) {
    && (h.release.Ok? ==> Text.Lacks(h.release.value.version, '/'))
    && (h.download.Ok? ==> BinaryName(h.platform.os) in h.download.value)
    && (h.listing.Ok? ==> forall n :: Named(n) in h.listing.value ==> Text.Lacks(n, '/'))
  }

  /** The version folder of a plain version name is a single path component. */
  lemma VersionDirIsEntry(version: string)
    requires Text.Lacks(version, '/')
    ensures Text.Lacks(VersionDir(version), '/')
    ensures TopName(VersionDir(version)) == VersionDir(version)
  {
    Text.BeforeOfLacking(VersionDir(version), '/');
  }

  /** A successful install leaves the executable in place: the clean-up
      cannot reach into the version folder. */
  lemma InstallLeavesBinary(cache: Option<string>, w: World, h: Host, dir: string, bin: string, url: string)
    requires Conventional(h) && Text.Lacks(dir, '/')
    requires bin == dir + "/" + BinaryName(h.platform.os)
    ensures var s := Install(cache, w, h, dir, bin, url);
            s.result.Ok? ==> IsFile(s.world, bin)
  {
    if h.download.Ok? && h.chmodFault.None? && h.listing.Ok? {
      var unpacked := Extract(w, dir, h.download.value);
      assert IsFile(unpacked, bin);
      SweepSparesKeep(unpacked, h.listing.value, dir, h.removable);
    }
  }

  /** Whatever path a resolution returns is a regular file afterwards. */
  lemma ResolvedBinaryIsInstalled(cache: Option<string>, w: World, h: Host)
    requires Conventional(h)
    ensures var s := Resolve(cache, w, h);
            s.result.Ok? ==> IsFile(s.world, s.result.value)
  {
    if !CacheLive(cache, w) && h.release.Ok? {
      var release := h.release.value;
      var found := FindAsset(release.assets, AssetName(h.platform));
      if found.Some? {
        var dir := VersionDir(release.version);
        var bin := BinaryPath(release.version, h.platform.os);
        var created := CreateDirAll(w, dir, h.createDirFault);
        if created.Ok? && !IsFile(created.value, bin) {
          VersionDirIsEntry(release.version);
          InstallLeavesBinary(cache, created.value, h, dir, bin, found.value.downloadUrl);
        }
      }
    }
  }

  /** Resolving again right after a success returns the same path from the
      cache, whatever the host would answer, and calls nothing. */
  lemma ResolveIdempotent(cache: Option<string>, w: World, h: Host, later: Host)
    requires Conventional(h)
    ensures var s := Resolve(cache, w, h);
            s.result.Ok? ==> Resolve(s.cache, s.world, later) == Step(s.result, s.cache, s.world, [])
  {
    ResolvedBinaryIsInstalled(cache, w, h);
  }

  /** The resolution gets past the cache, the release query, the asset
      lookup and the folder creation, and finds no executable installed:
      it is about to download. */
  predicate ReachesDownload(cache: Option<string>, w: World, h: Host) {
    && !CacheLive(cache, w)
    && h.release.Ok?
    && FindAsset(h.release.value.assets, AssetName(h.platform)).Some?
    && var created := CreateDirAll(w, VersionDir(h.release.value.version), h.createDirFault);
       && created.Ok?
       && !IsFile(created.value, BinaryPath(h.release.value.version, h.platform.os))
  }

  /** `Resolve` hands over to `Install` exactly when it reaches the download. */
  lemma ResolveInstalls(cache: Option<string>, w: World, h: Host)
    requires ReachesDownload(cache, w, h)
    ensures var release := h.release.value;
            var dir := VersionDir(release.version);
            var s := Install(cache, CreateDirAll(w, dir, h.createDirFault).value, h, dir,
                             BinaryPath(release.version, h.platform.os),
                             FindAsset(release.assets, AssetName(h.platform)).value.downloadUrl);
            Resolve(cache, w, h) == Step(s.result, s.cache, s.world, Probe + [CreateDir(dir)] + s.events)
  {
  }

  /** Every failure after the download starts is reported, with its context,
      except failed deletions. */
  lemma InstallFailuresPropagate(cache: Option<string>, w: World, h: Host)
    requires ReachesDownload(cache, w, h)
    ensures var s := Resolve(cache, w, h);
      && (h.download.Err? ==> s.result == Err("failed to download file: " + h.download.error))
      && (h.download.Ok? && h.chmodFault.Some? ==> s.result == Err(h.chmodFault.value))
      && (h.download.Ok? && h.chmodFault.None? && h.listing.Err? ==>
            s.result == Err("failed to list working directory " + h.listing.error))
      && (h.download.Ok? && h.chmodFault.None? && h.listing.Ok? ==>
            forall i :: 0 <= i < |h.listing.value| && h.listing.value[i].Unreadable?
                        && (forall j :: 0 <= j < i ==> h.listing.value[j].Named?) ==>
              s.result == Err("failed to load directory entry " + h.listing.value[i].error))
      && (h.download.Ok? && h.chmodFault.None? && h.listing.Ok? &&
          (forall i :: 0 <= i < |h.listing.value| ==> h.listing.value[i].Named?) ==>
            s.result == Ok(BinaryPath(h.release.value.version, h.platform.os)))
  {
    ResolveInstalls(cache, w, h);
    var release := h.release.value;
    var dir := VersionDir(release.version);
    if h.download.Ok? && h.chmodFault.None? && h.listing.Ok? {
      var unpacked := Extract(CreateDirAll(w, dir, h.createDirFault).value, dir, h.download.value);
      var items := h.listing.value;
      forall i | 0 <= i < |items| && items[i].Unreadable? && (forall j :: 0 <= j < i ==> items[j].Named?)
        ensures Resolve(cache, w, h).result == Err("failed to load directory entry " + items[i].error)
      {
        SweepStopsAtFirstUnreadable(items, dir, i);
      }
    }
  }

  /** Whether a stale entry could be deleted never changes the outcome, the
      cache or the calls made; only what is left on disk. */
  lemma CleanupFailuresAreHarmless(cache: Option<string>, w: World, h: Host, removable: set<string>)
    ensures var a := Resolve(cache, w, h);
            var b := Resolve(cache, w, h.(removable := removable));
            a.result == b.result && a.cache == b.cache && a.events == b.events
  {
    if ReachesDownload(cache, w, h) {
      var h2 := h.(removable := removable);
      ResolveInstalls(cache, w, h);
      ResolveInstalls(cache, w, h2);
      if h.download.Ok? && h.chmodFault.None? {
        var dir := VersionDir(h.release.value.version);
        var unpacked := Extract(CreateDirAll(w, dir, h.createDirFault).value, dir, h.download.value);
        CleanupIgnoresRemovability(cache, unpacked, h, dir, BinaryPath(h.release.value.version, h.platform.os),
                                   removable);
      }
    }
  }

  /** The clean-up's outcome, cache and calls do not depend on which
      deletions succeed. */
  lemma CleanupIgnoresRemovability(cache: Option<string>, w: World, h: Host, dir: string, bin: string,
                                   removable: set<string>)
    ensures var a := Cleanup(cache, w, h, dir, bin);
            var b := Cleanup(cache, w, h.(removable := removable), dir, bin);
            a.result == b.result && a.cache == b.cache && a.events == b.events
  {
  }

  /** After a download whose clean-up saw every entry of the working
      directory, with the host letting every deletion through, only the new
      version folder is left besides the regular files that were already at
      the top (`remove_dir_all` refuses those). Run twice with two versions,
      only the second version folder survives. */
  lemma SingleVersionAfterInstall(cache: Option<string>, w: World, h: Host)
    requires h.listing.Ok?
    requires forall i :: 0 <= i < |h.listing.value| ==> h.listing.value[i].Named?
    requires forall k :: k in w ==> Named(TopName(k)) in h.listing.value
    requires forall n :: Named(n) in h.listing.value ==> n in h.removable
    ensures var s := Resolve(cache, w, h);
            s.result.Ok? && SetStatus(Downloading) in s.events ==>
              && h.release.Ok?
              && forall k :: k in s.world ==>
                   Under(k, VersionDir(h.release.value.version)) || IsFile(w, TopName(k))
  {
    DownloadingMeansReached(cache, w, h);
    if ReachesDownload(cache, w, h) {
      ResolveInstalls(cache, w, h);
      var version := h.release.value.version;
      var dir := VersionDir(version);
      var created := CreateDirAll(w, dir, h.createDirFault).value;
      var s := Install(cache, created, h, dir, BinaryPath(version, h.platform.os),
                       FindAsset(h.release.value.assets, AssetName(h.platform)).value.downloadUrl);
      if s.result.Ok? {
        InstallLeavesOnlyVersion(cache, created, h, dir, BinaryPath(version, h.platform.os),
                                 FindAsset(h.release.value.assets, AssetName(h.platform)).value.downloadUrl);
        forall k | k in s.world && !Under(k, dir)
          ensures IsFile(w, TopName(k))
        {
          var t := TopName(k);
          UnderTopName(k);
          if Under(t, dir) {
            UnderTransitive(k, t, dir);
          }
        }
      }
    }
  }

  /** Only a resolution that gets as far as the download announces it. */
  lemma DownloadingMeansReached(cache: Option<string>, w: World, h: Host)
    ensures SetStatus(Downloading) in Resolve(cache, w, h).events ==> ReachesDownload(cache, w, h)
  {
    if !ReachesDownload(cache, w, h) && !CacheLive(cache, w) && h.release.Ok?
       && FindAsset(h.release.value.assets, AssetName(h.platform)).Some? {
      var dir := VersionDir(h.release.value.version);
      assert Resolve(cache, w, h).events == Probe + [CreateDir(dir)];
    }
  }

  /** The install step: after a successful install whose clean-up saw every
      entry, with every deletion allowed, only the version folder and the
      top-level regular files are left. */
  lemma InstallLeavesOnlyVersion(cache: Option<string>, w: World, h: Host, dir: string, bin: string, url: string)
    requires h.listing.Ok?
    requires forall i :: 0 <= i < |h.listing.value| ==> h.listing.value[i].Named?
    requires forall k :: k in w && !Under(k, dir) ==> Named(TopName(k)) in h.listing.value
    requires forall n :: Named(n) in h.listing.value ==> n in h.removable
    ensures var s := Install(cache, w, h, dir, bin, url);
            s.result.Ok? ==> forall k :: k in s.world ==> Under(k, dir) || IsFile(w, TopName(k))
  {
    if h.download.Ok? && h.chmodFault.None? {
      var unpacked := Extract(w, dir, h.download.value);
      CleanupLeavesOnlyVersion(cache, unpacked, h, dir, bin);
      var c := Cleanup(cache, unpacked, h, dir, bin);
      forall k | k in c.world && !Under(k, dir)
        ensures IsFile(w, TopName(k))
      {
        var t := TopName(k);
        UnderTopName(k);
        if Under(t, dir) {
          UnderTransitive(k, t, dir);
        }
      }
    }
  }

  /** The clean-up step on its own: with every entry listed, readable and
      allowed to go, it leaves only the version folder and the regular files
      at the top. */
  lemma CleanupLeavesOnlyVersion(cache: Option<string>, w: World, h: Host, dir: string, bin: string)
    requires h.listing.Ok?
    requires forall i :: 0 <= i < |h.listing.value| ==> h.listing.value[i].Named?
    requires forall k :: k in w && !Under(k, dir) ==> Named(TopName(k)) in h.listing.value
    requires forall n :: Named(n) in h.listing.value ==> n in h.removable
    ensures forall k :: k in Cleanup(cache, w, h, dir, bin).world ==> Under(k, dir) || IsFile(w, TopName(k))
  {
    SweepLeavesOnlyKeep(w, h.listing.value, dir, h.removable);
  }

  /** Without a live cached file, every resolution starts with the update
      check and the release query. */
  lemma MissStartsWithProbe(cache: Option<string>, w: World, h: Host)
    requires !CacheLive(cache, w)
    ensures Probe <= Resolve(cache, w, h).events
  {
    var s := Resolve(cache, w, h);
    if s.events != Probe {
      var release := h.release.value;
      var dir := VersionDir(release.version);
      var url := FindAsset(release.assets, AssetName(h.platform)).value.downloadUrl;
      if s.events == Probe + [CreateDir(dir)] {
        assert s.events[..2] == Probe;
      } else {
        assert s.events[..5][..2] == Probe;
      }
    }
  }

  /** A cached path whose file has gone is not trusted: the resolution
      starts over with the update check and the release query. */
  lemma StaleCacheIsRechecked(cache: Option<string>, w: World, h: Host)
    requires cache.Some? && !IsFile(w, cache.value)
    ensures Probe <= Resolve(cache, w, h).events
  {
    MissStartsWithProbe(cache, w, h);
  }

  /** A version folder that cannot be created is an error naming it; the
      disk and the cache are as before and nothing is downloaded. */
  lemma CreateDirFailureStopsEarly(cache: Option<string>, w: World, h: Host)
    requires !CacheLive(cache, w) && h.release.Ok?
    requires FindAsset(h.release.value.assets, AssetName(h.platform)).Some?
    requires CreateDirAll(w, VersionDir(h.release.value.version), h.createDirFault).Err?
    ensures var dir := VersionDir(h.release.value.version);
            var e := CreateDirAll(w, dir, h.createDirFault).error;
            Resolve(cache, w, h)
            == Step(Err("failed to create directory '" + dir + "': " + e), cache, w, Probe + [CreateDir(dir)])
  {
  }

  // ---------------------------------------------------------------------
  // Release tags containing '/'

  /** A release tagged "a/b" installs into "crates-lsp-a/b", but the entry
      `read_dir` lists is "crates-lsp-a", which differs from the version
      folder's name; the clean-up deletes it, and with it the executable the
      resolution then returns and caches. */
  lemma SlashedVersionLosesBinary()
    ensures var p := Platform(Linux, X8664);
            var h := Host(p, Ok(Release("a/b", [Asset(AssetName(p), "u")])), None, Ok({"crates-lsp"}),
                          None, Ok([Named("crates-lsp-a")]), {"crates-lsp-a"});
            var s := Resolve(None, map[], h);
            s.result == Ok(BinaryPath("a/b", Linux)) && !IsFile(s.world, BinaryPath("a/b", Linux))
  {
    var p := Platform(Linux, X8664);
    var h := Host(p, Ok(Release("a/b", [Asset(AssetName(p), "u")])), None, Ok({"crates-lsp"}),
                  None, Ok([Named("crates-lsp-a")]), {"crates-lsp-a"});
    var dir := VersionDir("a/b");
    var bin := BinaryPath("a/b", Linux);
    var top := "crates-lsp-a";
    assert dir == "crates-lsp-a/b" && bin == "crates-lsp-a/b/crates-lsp";
    assert Under(bin, top) by {
      assert top + "/" <= bin;
    }
    var created: World := map[dir := Dir];
    assert CreateDirAll(map[], dir, None) == Ok(created);
    assert !IsFile(created, bin);
    assert ReachesDownload(None, map[], h);
    ResolveInstalls(None, map[], h);
    var unpacked := Extract(created, dir, {"crates-lsp"});
    assert unpacked.Keys == {dir, bin} by {
      assert Inside(dir, {"crates-lsp"}) == {bin};
    }
    assert top !in unpacked;
    var sweep := SweepEntries(unpacked, [Named(top)], dir, h.removable);
    assert sweep.removed == [top];
    assert bin !in sweep.world;
  }

  /** The entry the clean-up has to spare for an install into `dir` to
      survive: the top-level entry that `dir` lies in. For a plain version
      it is the version folder itself, the name the source compares with. */
  function SparedEntry(dir: string): (r: string)
    ensures Text.Lacks(r, '/')
    ensures Under(dir, r)
    ensures Text.Lacks(dir, '/') ==> r == dir
  {
    UnderTopName(dir);
    if Text.Lacks(dir, '/') then
      Text.BeforeOfLacking(dir, '/');
      TopName(dir)
    else
      TopName(dir)
  }

  /** Sparing `SparedEntry(dir)` instead of `dir` keeps everything inside
      the version folder, whatever the version string holds. */
  lemma SparedEntryKeepsInstall(w: World, items: seq<DirItem>, dir: string, removable: set<string>)
    requires forall n :: Named(n) in items ==> Text.Lacks(n, '/')
    ensures forall k :: k in w && Under(k, dir) ==>
              k in SweepEntries(w, items, SparedEntry(dir), removable).world
  {
    var keep := SparedEntry(dir);
    SweepSparesKeep(w, items, keep, removable);
    forall k | k in w && Under(k, dir)
      ensures Under(k, keep)
    {
      UnderTransitive(k, dir, keep);
    }
  }
}
