# crates-lsp binary resolution, modelled in Dafny

This project models the core of the `zed-crates-lsp` editor extension. The core is
`CratesLSPExtension::language_server_binary_path`. It finds the `crates-lsp` language-server
executable, or downloads and installs it, and remembers where it is. The thin
`language_server_command` wrapper and the extension constructor are modelled too.

A resolution is a pure function, `Resolver.Resolve(cache, world, host)`. Its inputs are:

- the in-memory cache cell (`cached_binary_path`);
- the working directory (`Workdir.World`): a map from relative path to `File` or `Dir`;
- the host's answers (`HostApi.Host`): the platform, the latest release (or its error), and the
  outcomes of `create_dir_all`, `download_file`, `make_file_executable`, `read_dir`, and which
  entries the host lets `remove_dir_all` delete. `remove_dir_all` opens its argument as a
  directory, so it never deletes a regular file, whatever the host allows.

It returns a `Step`: the result (a path or an error message), the new cache cell, the new working
directory, and the trace of host calls (`Event`s). The trace includes the two installation
statuses sent to the editor.

Modules:

- `Results`: `Option` and `Result`.
- `Text`: splitting a string at the first separator.
- `Platforms`: OS/architecture enums, the token tables, the asset name and its parser, the
  executable name and the archive format.
- `Workdir`: the working directory, `create_dir_all`, unpacking, and `remove_dir_all`.
- `HostApi`: assets, releases, directory items, events and the host record.
- `Resolver`: asset lookup, the clean-up loop, and the resolution with its properties.
- `Extension`: the extension value, `new` and `language_server_command`.

Clean-up is best-effort only for deletions. A failure to list the working directory, or to read
one of its entries, is propagated with `?` (src/lib.rs:88-91). Only a failed `remove_dir_all`
(src/lib.rs:93) is ignored. See `Resolver.InstallFailuresPropagate` and
`Resolver.CleanupFailuresAreHarmless`.

## Model

| member | source | states |
|---|---|---|
| Platforms.ArchTokenInverse | src/lib.rs:41-45 | Each architecture token reads back as its architecture and contains no '-'. |
| Platforms.OsTokenInverse | src/lib.rs:46-50 | Each OS token reads back as its OS. |
| Platforms.AssetNameParts | src/lib.rs:39-51 | An asset name is `crates-lsp-`, then the architecture token, '-', and the OS token. |
| Platforms.AssetNameMacAarch64 | src/lib.rs:39-51 | The asset for macOS on aarch64 is `crates-lsp-aarch64-apple-darwin.tar.gz`. |
| Platforms.AssetNameMacX86 | src/lib.rs:39-51 | The asset for macOS on x86 is `crates-lsp-x86-apple-darwin.tar.gz`. |
| Platforms.AssetNameMacX8664 | src/lib.rs:39-51 | The asset for macOS on x86_64 is `crates-lsp-x86_64-apple-darwin.tar.gz`. |
| Platforms.AssetNameLinuxAarch64 | src/lib.rs:39-51 | The asset for Linux on aarch64 is `crates-lsp-aarch64-unknown-linux-gnu.tar.gz`. |
| Platforms.AssetNameLinuxX86 | src/lib.rs:39-51 | The asset for Linux on x86 is `crates-lsp-x86-unknown-linux-gnu.tar.gz`. |
| Platforms.AssetNameLinuxX8664 | src/lib.rs:39-51 | The asset for Linux on x86_64 is `crates-lsp-x86_64-unknown-linux-gnu.tar.gz`. |
| Platforms.AssetNameWindowsAarch64 | src/lib.rs:39-51 | The asset for Windows on aarch64 is `crates-lsp-aarch64-pc-windows-msvc.zip`. |
| Platforms.AssetNameWindowsX86 | src/lib.rs:39-51 | The asset for Windows on x86 is `crates-lsp-x86-pc-windows-msvc.zip`. |
| Platforms.AssetNameWindowsX8664 | src/lib.rs:39-51 | The asset for Windows on x86_64 is `crates-lsp-x86_64-pc-windows-msvc.zip`. |
| Platforms.ParseAssetNameRoundTrip | src/lib.rs:39-51 | Parsing an asset name gives back the platform it was built for. |
| Platforms.ParseAssetNameSound | src/lib.rs:39-51 | Any string that parses to a platform is exactly that platform's asset name. |
| Platforms.AssetNameInjective | src/lib.rs:39-57 | Two platforms share an asset name if and only if they are equal, so the exact-name lookup never selects another platform's archive. |
| Platforms.FileTypeMatchesExtension | src/lib.rs:72-75 | The archive kind is Zip exactly when the asset name ends in `.zip`, and GzipTar exactly when it ends in `.tar.gz`. |
| Workdir.CreateDirAll | src/lib.rs:61-62 | `create_dir_all` succeeds if and only if the folder already is a directory, or is absent and the OS does not refuse. On success it adds only that directory. |
| Workdir.Extract | src/lib.rs:83 | Unpacking puts every archive entry as a file inside the version folder and changes nothing outside it. |
| Workdir.RemoveAll | src/lib.rs:93 | A successful `remove_dir_all` only removes paths and never changes a survivor. The entry itself is gone. For a top-level entry, the removed paths are exactly those whose top-level name is that entry. |
| Workdir.TopNameOfUnder | src/lib.rs:90-92 | A path lies under at most one single-component entry, the one named before its first '/'. |
| Resolver.FindAsset | src/lib.rs:53-57 | The lookup finds nothing if and only if no asset has the name. Otherwise it returns the first asset with exactly that name. |
| Resolver.BinaryPathInsideVersionDir | src/lib.rs:59-70 | The executable path lies inside `crates-lsp-<version>` and differs from it. For a plain version, its top-level entry is that folder. |
| Resolver.FirstFault | src/lib.rs:90-91 | A listing yields no error if and only if every item is readable. An error it yields is one of the listing's own items. |
| Resolver.Attempts | src/lib.rs:90-94 | The entries the loop tries to delete are listed names and never the version folder. |
| Resolver.SweepEntries | src/lib.rs:88-95 | The loop's error and attempts depend on the listing alone, never on the disk or on which deletions succeed. Every successful deletion was attempted and allowed by the host. An allowed attempt fails only on a regular file. Paths are only removed, never changed. A path survives if and only if no successful deletion covers it. |
| Resolver.SweepKeepsTopLevelFiles | src/lib.rs:93 | A regular file at the top of the working directory survives the clean-up, because `remove_dir_all` refuses it. |
| Resolver.SweepAttemptsEveryOtherEntry | src/lib.rs:90-94 | Every entry before the first unreadable item, other than the version folder, gets a deletion attempt. |
| Resolver.SweepStopsAtFirstUnreadable | src/lib.rs:90-91 | The loop fails with the first unreadable item's error. It has attempted only entries listed before that item. |
| Resolver.SweepSparesKeep | src/lib.rs:92-93 | With single-component names, nothing inside the version folder is deleted. |
| Resolver.SweepLeavesOnlyKeep | src/lib.rs:88-95 | If every entry is listed and readable and the host allows every deletion, only paths in the version folder and top-level regular files remain. |
| Resolver.Resolve | src/lib.rs:14-101 | A live cached file is returned with no host call and no change. Otherwise the update status and release query come first and the trace follows `Installs`. The cache is set to the returned path on success and left as it was on every error. A success off the cache returns `BinaryPath(version, os)`. Nothing outside the version folder is created or changed. |
| Resolver.Prepare | src/lib.rs:59-81 | After the lookup, the trace is the folder creation, possibly followed by the download steps. Any success returns the binary path. |
| Resolver.Install | src/lib.rs:77-96 | The install step's calls start with the "Downloading" status and the download. The download fetches the asset URL into the version folder in the platform's archive format. Only the permission change, the listing and deletions of other entries may follow. Nothing outside the version folder is created or changed. |
| Resolver.Cleanup | src/lib.rs:88-96 | The clean-up lists the working directory first and then only deletes entries other than the version folder. It only removes paths, never adds or changes one. Any success returns the binary path. |
| Resolver.InstallsSparesDir | src/lib.rs:92 | No trace of that shape deletes the version folder. |
| Resolver.VersionDirNeverRemoved | src/lib.rs:88-95 | No resolution ever attempts to delete the version folder it installs into. |
| Resolver.ReleaseFailureStopsEarly | src/lib.rs:24-35 | A failed release query is returned unchanged, after only the status and the query, with disk and cache untouched. |
| Resolver.AssetMissStopsEarly | src/lib.rs:53-57 | A release without the platform's asset yields `no asset found matching "<name>"`. No folder is created, no download happens, and disk and cache are untouched. |
| Resolver.CreateDirFailureStopsEarly | src/lib.rs:59-62 | A version folder that cannot be created yields an error naming it. Nothing is downloaded, and disk and cache are untouched. |
| Resolver.InstalledVersionIsReused | src/lib.rs:77 | An executable already present for the latest version is returned and cached. There is no "Downloading" status, no download and no clean-up. |
| Resolver.MissStartsWithProbe | src/lib.rs:18-35 | Without a live cached file, every resolution starts with the "CheckingForUpdate" status and the release query for the fixed repository. |
| Resolver.StaleCacheIsRechecked | src/lib.rs:18-29 | A cached path whose file is gone is not returned. The resolution starts over with the update check. |
| Resolver.ResolveInstalls | src/lib.rs:77-96 | Once nothing is installed, the resolution is the install step on the created folder. |
| Resolver.InstallFailuresPropagate | src/lib.rs:83-100 | Download, permission, listing and entry-read failures each return their own message. With all of them absent, the result is the binary path. |
| Resolver.CleanupFailuresAreHarmless | src/lib.rs:93 | Whether stale entries can be deleted never changes the result, the cache or the calls made. |
| Resolver.DownloadingMeansReached | src/lib.rs:77-81 | The "Downloading" status is sent only by a resolution that missed the cache, found its asset, created the folder and found no executable. |
| Resolver.InstallLeavesOnlyVersion | src/lib.rs:83-95 | After a successful install whose clean-up saw every entry, with every deletion allowed, only paths in the version folder and top-level regular files remain. |
| Resolver.CleanupLeavesOnlyVersion | src/lib.rs:88-95 | The same for the clean-up step on its own. |
| Resolver.CleanupIgnoresRemovability | src/lib.rs:88-96 | The clean-up step's result, cache and calls are the same whichever deletions the host allows. |
| Resolver.SingleVersionAfterInstall | src/lib.rs:88-95 | After a successful download whose clean-up saw every entry, with every deletion allowed, only the new version folder remains, apart from the top-level regular files that were already there. |
| Resolver.VersionDirIsEntry | src/lib.rs:59 | A plain version names a single top-level folder. |
| Resolver.InstallLeavesBinary | src/lib.rs:83-95 | If the archive holds the executable, a successful install leaves it as a regular file. |
| Resolver.ResolvedBinaryIsInstalled | src/lib.rs:18-100 | Given a host that behaves conventionally, every returned path is a regular file afterwards. |
| Resolver.ResolveIdempotent | src/lib.rs:18-22 | After a success, the next resolution returns the same path from the cache, with no host call, whatever the host would answer. |
| Extension.New | src/lib.rs:105-109 | A new extension has an empty cache. |
| Extension.LanguageServerCommand | src/lib.rs:111-121 | The command is the resolved path with no arguments and no environment. A resolution error is returned unchanged, and cache, disk and calls are those of the resolution. |
| Extension.FirstCommandChecksForUpdate | src/lib.rs:105-121 | A fresh extension's first request always starts with the update check and the release query. |
| Extension.CommandIsStable | src/lib.rs:111-121 | After one command is produced, asking again yields the same command with no host call. |
| Resolver.SlashedVersionLosesBinary | src/lib.rs:59-100 | For the release tag `a/b`, the clean-up deletes the listed entry `crates-lsp-a` that holds the install. The resolution still returns `crates-lsp-a/b/crates-lsp` and caches it, though that file is gone. |
| Resolver.SparedEntry | src/lib.rs:92 | The entry to spare is the top-level entry that holds the version folder. It is a single path component, and for a plain version it is the version folder itself. |
| Resolver.SparedEntryKeepsInstall | src/lib.rs:88-95 | A clean-up that spares `SparedEntry(dir)` keeps everything inside the version folder, whatever the version string holds. |

## Left out

- HTTP, TLS, the GitHub API and archive extraction are not modelled. `latest_github_release` and `download_file` are oracle answers in `Host`. A download either fails with a message or yields the set of file names it unpacks.
- `make_file_executable` is an opaque fallible step. Its effect on permission bits is not modelled.
- `set_language_server_installation_status` has no modelled effect. Each call appears as a `SetStatus` event in the trace.
- `current_platform` is a field of the host record. It is read once per resolution, after the release query, and has no effect, so it does not appear in the trace.
- `register_extension!`, the `zed::Extension` trait glue, the `LanguageServerId` argument and the unused worktree are not modelled. They only carry the host's registration.
- Concurrency is not modelled. The extension is single-threaded and has no locking.
- The details of `fs::metadata` are not modelled: symbolic links, permissions and the distinction between a metadata error and a non-file.
- `create_dir_all` does not add keys for parent folders in the model. The `read_dir` listing still names the real top-level entry, so a version containing '/' is modelled: see "## Findings".
- The OS error for `create_dir_all` on an existing file is replaced by the constant `Workdir.FileInTheWay`. The real text depends on the operating system.
- `remove_dir_all` either deletes an entry completely or leaves it untouched. Partial deletion is not modelled. It refuses regular files. Symbolic links are not modelled, so the model does not cover `remove_dir_all` deleting a link itself.
- A failed download is assumed to leave nothing behind on disk.
- The `read_dir` listing is an oracle and is not derived from the working directory. The lemmas that need the two to agree take that agreement as a hypothesis.
- Entry names that are not valid UTF-8 are not modelled. The source compares `to_str()` with the folder name, so such entries would always get a deletion attempt.
- Resolver.ResolvedBinaryIsInstalled: assumes a conventional host (`Resolver.Conventional`): a version without '/', an archive that holds the executable at its top level, and single-component entry names. The source gives no guarantee beyond that.
- Resolver.ResolveIdempotent: holds under the same conventional-host assumption, because the fast path needs the returned file to still exist.
- Extension.CommandIsStable: holds under the same conventional-host assumption.

## Findings

| source | as written | input that shows it | evidently intended | confidence | as-written member | corrected member |
|---|---|---|---|---|---|---|
| src/lib.rs:59-100 | The clean-up spares only the entry whose name equals `crates-lsp-<version>`. | A release tagged `a/b`: the install goes to `crates-lsp-a/b`, `read_dir` lists `crates-lsp-a`, which is then deleted, and the missing path is returned and cached. Every later call downloads again. | Spare the top-level entry that holds the version folder. | medium, not executed; release tags rarely contain '/' | Resolver.SlashedVersionLosesBinary | Resolver.SparedEntry, with Resolver.SparedEntryKeepsInstall |

`Resolver.Resolve` keeps the code as written. For a plain version, `Resolver.SparedEntry` is the version folder itself, so the corrected clean-up and the written one are the same call. The properties stated under a conventional host (`Resolver.ResolvedBinaryIsInstalled`, `Resolver.ResolveIdempotent`) are the intended behaviour on the inputs where the two agree.
