/** The host platform and the release-asset naming convention built on it.

    The upstream project publishes one archive per (architecture, OS) pair,
    named `crates-lsp-<arch token>-<os token>`, where the OS token also
    carries the archive format. The tables are closed: three architectures,
    three operating systems, nine names. */
module Platforms {
  import opened Results
  import Text

  datatype Os = Mac | Linux | Windows

  datatype Architecture = Aarch64 | X86 | X8664

  /** What `current_platform` reports: the running OS and CPU architecture. */
  datatype Platform = Platform(os: Os, arch: Architecture)

  /** How `download_file` unpacks what it fetches. */
  datatype DownloadedFileType = GzipTar | Zip

  /** Name shared by the upstream project, its assets and its version folders. */
  const ToolName: string := "crates-lsp"

  function ArchToken(a: Architecture): string {
    match a
    case Aarch64 => "aarch64"
    case X86 => "x86"
    case X8664 => "x86_64"
  }

  function OsToken(o: Os): string {
    match o
    case Mac => "apple-darwin.tar.gz"
    case Linux => "unknown-linux-gnu.tar.gz"
    case Windows => "pc-windows-msvc.zip"
  }

  /** The release asset that holds the server for platform `p`. */
  function AssetName(p: Platform): string {
    ToolName + "-" + ArchToken(p.arch) + "-" + OsToken(p.os)
  }

  /** The executable's file name inside the unpacked archive. */
  function BinaryName(o: Os): string {
    match o
    case Windows => ToolName + ".exe"
    case Mac | Linux => ToolName
  }

  /** The archive format the asset for OS `o` is unpacked with. */
  function FileTypeFor(o: Os): DownloadedFileType {
    match o
    case Windows => Zip
    case Mac | Linux => GzipTar
  }

  /** Inverse of `ArchToken`. */
  function ArchOfToken(t: string): (r: Option<Architecture>)
    ensures r.Some? ==> ArchToken(r.value) == t
  {
    if t == "aarch64" then Some(Aarch64)
    else if t == "x86" then Some(X86)
    else if t == "x86_64" then Some(X8664)
    else None
  }

  /** Inverse of `OsToken`. */
  function OsOfToken(t: string): (r: Option<Os>)
    ensures r.Some? ==> OsToken(r.value) == t
  {
    if t == "apple-darwin.tar.gz" then Some(Mac)
    else if t == "unknown-linux-gnu.tar.gz" then Some(Linux)
    else if t == "pc-windows-msvc.zip" then Some(Windows)
    else None
  }

  /** Reads an asset name back into the platform it was built for: strip the
      tool prefix, then split at the first '-' (no architecture token has one). */
  function ParseAssetName(s: string): Option<Platform> {
    var prefix := ToolName + "-";
    if !(prefix <= s) then None
    else
      var rest := s[|prefix|..];
      match (ArchOfToken(Text.Before(rest, '-')), OsOfToken(Text.After(rest, '-')))
      case (Some(a), Some(o)) =>
        if |Text.Before(rest, '-')| < |rest| then Some(Platform(o, a)) else None
      case _ => None
  }

  /** Every architecture token reads back as its architecture. */
  lemma ArchTokenInverse(a: Architecture)
    ensures ArchOfToken(ArchToken(a)) == Some(a)
    ensures Text.Lacks(ArchToken(a), '-')
  {
  }

  /** Every OS token reads back as its OS. */
  lemma OsTokenInverse(o: Os)
    ensures OsOfToken(OsToken(o)) == Some(o)
  {
  }

  /** An asset name is the tool prefix followed by the two tokens joined by '-'. */
  lemma AssetNameParts(p: Platform)
    ensures (ToolName + "-") <= AssetName(p)
    ensures AssetName(p)[|ToolName + "-"|..] == ArchToken(p.arch) + ['-'] + OsToken(p.os)
  {
    assert AssetName(p) == (ToolName + "-") + (ArchToken(p.arch) + ['-'] + OsToken(p.os));
  }

  // The nine asset names the upstream releases carry, one per platform.

  lemma AssetNameMacAarch64()
    ensures AssetName(Platform(Mac, Aarch64)) == "crates-lsp-aarch64-apple-darwin.tar.gz"
  {
  }

  lemma AssetNameMacX86()
    ensures AssetName(Platform(Mac, X86)) == "crates-lsp-x86-apple-darwin.tar.gz"
  {
  }

  lemma AssetNameMacX8664()
    ensures AssetName(Platform(Mac, X8664)) == "crates-lsp-x86_64-apple-darwin.tar.gz"
  {
  }

  lemma AssetNameLinuxAarch64()
    ensures AssetName(Platform(Linux, Aarch64)) == "crates-lsp-aarch64-unknown-linux-gnu.tar.gz"
  {
  }

  lemma AssetNameLinuxX86()
    ensures AssetName(Platform(Linux, X86)) == "crates-lsp-x86-unknown-linux-gnu.tar.gz"
  {
  }

  lemma AssetNameLinuxX8664()
    ensures AssetName(Platform(Linux, X8664)) == "crates-lsp-x86_64-unknown-linux-gnu.tar.gz"
  {
  }

  lemma AssetNameWindowsAarch64()
    ensures AssetName(Platform(Windows, Aarch64)) == "crates-lsp-aarch64-pc-windows-msvc.zip"
  {
  }

  lemma AssetNameWindowsX86()
    ensures AssetName(Platform(Windows, X86)) == "crates-lsp-x86-pc-windows-msvc.zip"
  {
  }

  lemma AssetNameWindowsX8664()
    ensures AssetName(Platform(Windows, X8664)) == "crates-lsp-x86_64-pc-windows-msvc.zip"
  {
  }

  /** Parsing recovers the platform an asset name was built from. */
  lemma ParseAssetNameRoundTrip(p: Platform)
    ensures ParseAssetName(AssetName(p)) == Some(p)
  {
    AssetNameParts(p);
    ArchTokenInverse(p.arch);
    OsTokenInverse(p.os);
    Text.SplitJoined(ArchToken(p.arch), '-', OsToken(p.os));
  }

  /** Only asset names parse: a name that parses is the name of its platform. */
  lemma ParseAssetNameSound(s: string, p: Platform)
    requires ParseAssetName(s) == Some(p)
    ensures s == AssetName(p)
  {
    var prefix := ToolName + "-";
    var rest := s[|prefix|..];
    assert !Text.Lacks(rest, '-');
    Text.JoinSplit(rest, '-');
    assert s == prefix + rest;
  }

  /** Distinct platforms look for distinct assets, so an exact-name lookup
      can never pick up another platform's archive. */
  lemma AssetNameInjective(p: Platform, q: Platform)
    ensures AssetName(p) == AssetName(q) <==> p == q
  {
    ParseAssetNameRoundTrip(p);
    ParseAssetNameRoundTrip(q);
  }

  /** The archive format `download_file` is told to use agrees with the
      extension of the asset it downloads. */
  lemma FileTypeMatchesExtension(p: Platform)
    ensures FileTypeFor(p.os) == Zip <==> Text.EndsWith(AssetName(p), ".zip")
    ensures FileTypeFor(p.os) == GzipTar <==> Text.EndsWith(AssetName(p), ".tar.gz")
  {
    var head := ToolName + "-" + ArchToken(p.arch) + "-";
    assert AssetName(p) == head + OsToken(p.os);
    Text.EndsWithAppend(head, OsToken(p.os), ".zip");
    Text.EndsWithAppend(head, OsToken(p.os), ".tar.gz");
  }
}
