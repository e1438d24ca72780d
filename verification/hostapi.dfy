/** The part of the editor's extension API the resolver talks to.

    Every host call is an oracle: a `Host` value fixes, for one resolution,
    what `current_platform`, `latest_github_release`, `create_dir_all`,
    `download_file`, `make_file_executable`, `read_dir` and `remove_dir_all`
    answer. What the resolver does with the host is recorded as a sequence
    of `Event`s, in call order. */
module HostApi {
  import opened Results
  import opened Platforms

  /** A downloadable file attached to a release. */
  datatype Asset = Asset(name: string, downloadUrl: string)

  /** The latest release: its version string and its assets, in listed order. */
  datatype Release = Release(version: string, assets: seq<Asset>)

  /** What the editor is told about the server's installation. */
  datatype InstallStatus = CheckingForUpdate | Downloading

  /** One item produced by iterating `read_dir`: an entry name, or the error
      the iterator yielded instead. */
  datatype DirItem = Named(name: string) | Unreadable(error: string)

  /** A call into the host or the file system that has an effect or talks
      to the outside world. */
  datatype Event =
    | SetStatus(status: InstallStatus)
    | FetchRelease(repo: string, requireAssets: bool, preRelease: bool)
    | CreateDir(path: string)
    | Download(url: string, dir: string, fileType: DownloadedFileType)
    | MakeExecutable(path: string)
    | ListDir(path: string)
    | RemoveEntry(entry: string)

  /** The answers the host and the file system give during one resolution.
      `createDirFault` and `chmodFault` are the errors `create_dir_all` (on a
      missing directory) and `make_file_executable` report, if any;
      `download` is either the transport error or the file names the archive
      unpacks to; `listing` is the outcome of `read_dir(".")`; `removable`
      holds the entries the host lets `remove_dir_all` delete (a regular
      file is refused whatever this set says). */
  datatype Host = Host(
    platform: Platform,
    release: Result<Release>,
    createDirFault: Option<string>,
    download: Result<set<string>>,
    chmodFault: Option<string>,
    listing: Result<seq<DirItem>>,
    removable: set<string>)
}
