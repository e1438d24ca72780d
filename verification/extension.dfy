/** The extension object the editor holds: one cache cell, created empty,
    and the command that launches the language server. */
module Extension {
  import opened Results
  import opened Workdir
  import opened HostApi
  import Resolver

  /** `CratesLSPExtension`: the path resolved last, if any. */
  datatype CratesLsp = CratesLsp(cachedBinaryPath: Option<string>)

  /** How the editor starts the server: program, arguments, environment. */
  datatype Command = Command(command: string, args: seq<string>, env: seq<(string, string)>)

  /** The outcome of asking for the command: the command or the error, the
      extension with its updated cache, the disk afterwards and the host
      calls made. */
  datatype Launch = Launch(result: Result<Command>, ext: CratesLsp, world: World, events: seq<Event>)

  /** `Extension::new`: nothing resolved yet. */
  function New(): (e: CratesLsp)
    ensures e.cachedBinaryPath.None?
  {
    CratesLsp(None)
  }

  /** `language_server_command`: resolve the binary and launch it with no
      arguments and no extra environment; a resolution error is returned
      unchanged. */
  function LanguageServerCommand(e: CratesLsp, w: World, h: Host): (l: Launch)
    ensures var s := Resolver.Resolve(e.cachedBinaryPath, w, h);
            && (s.result.Ok? <==> l.result.Ok?)
            && (s.result.Ok? ==> l.result.value == Command(s.result.value, [], []))
            && (s.result.Err? ==> l.result.error == s.result.error)
            && l.ext.cachedBinaryPath == s.cache
            && l.world == s.world
            && l.events == s.events
  {
    var s := Resolver.Resolve(e.cachedBinaryPath, w, h);
    var result := match s.result
      case Ok(path) => Ok(Command(path, [], []))
      case Err(msg) => Err(msg);
    Launch(result, CratesLsp(s.cache), s.world, s.events)
  }

  /** A fresh extension always checks for an update on its first request. */
  lemma FirstCommandChecksForUpdate(w: World, h: Host)
    ensures Resolver.Probe <= LanguageServerCommand(New(), w, h).events
  {
    Resolver.MissStartsWithProbe(None, w, h);
  }

  /** Once a command has been produced, asking again yields the same command
      without any host call, whatever the host would answer. */
  lemma CommandIsStable(e: CratesLsp, w: World, h: Host, later: Host)
    requires Resolver.Conventional(h)
    ensures var first := LanguageServerCommand(e, w, h);
            first.result.Ok? ==>
              LanguageServerCommand(first.ext, first.world, later)
              == Launch(first.result, first.ext, first.world, [])
  {
    Resolver.ResolveIdempotent(e.cachedBinaryPath, w, h, later);
  }
}
