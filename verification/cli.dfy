/**
 The command line (`main`): with no argument the usage text is printed and the
 process exits with status 1; when the first argument does not name an
 existing directory the process exits with status 2; otherwise one run of the
 organizer is made in the mode the flags select, and the process exits with
 status 0 whatever happens to individual moves or to the log file.

 Turning the first argument into a path is a parameter (`resolve`), as are the
 listing of the directory and the outcomes of the moves and of the log write.
 */
module Cli {
  import opened FileSystem
  import opened Flags
  import opened Organizer

  datatype RunResult = Usage | NotADirectory(dir: Path) | Organized(dir: Path, mode: Mode, out: Outcome)

  /** The exit status of a run. */
  function ExitCode(r: RunResult): int {
    match r
    case Usage => 1
    case NotADirectory(_) => 2
    case Organized(_, _, _) => 0
  }

  /**
   One invocation. The flags are read first, then the directory is checked,
   and only then is the directory organized.
   */
  function Run(args: seq<string>, resolve: string -> Path, fs: FileSystem,
               entries: seq<string>, oks: seq<bool>, logOk: bool): (r: RunResult)
    requires |oks| == |entries|
    ensures ExitCode(r) == 1 <==> |args| == 0
    ensures ExitCode(r) == 2 <==> |args| > 0 && !IsDirectory(fs, resolve(args[0]))
    ensures r.Organized? ==>
              && r.dir == resolve(args[0])
              && IsDirectory(fs, r.dir)
              && (r.mode == DryRun <==> LastFlagIsDry(args[1..]))
              && r.out == Organize(r.dir, r.mode, fs, entries, oks, logOk)
  {
    match ParseArgs(args)
    case MissingDirectory => Usage
    case Parsed(name, mode) =>
      var dir := resolve(name);
      if !IsDirectory(fs, dir) then NotADirectory(dir)
      else Organized(dir, mode, Organize(dir, mode, fs, entries, oks, logOk))
  }

  /**
   A run whose last recognised flag asks for a preview leaves the filesystem
   exactly as it was and writes no log file.
   */
  lemma PreviewChangesNothing(args: seq<string>, resolve: string -> Path, fs: FileSystem,
                              entries: seq<string>, oks: seq<bool>, logOk: bool)
    requires |oks| == |entries|
    requires |args| > 0 && LastFlagIsDry(args[1..])
    ensures var r := Run(args, resolve, fs, entries, oks, logOk);
            r.Organized? ==> r.out.fs == fs && r.out.logFile.None?
  {
  }

  /**
   With only a directory argument the run is in apply mode, and the log file
   is written unless writing fails or a directory named `organizer.log` is in
   the way.
   */
  lemma DirectoryAloneApplies(dir: string, resolve: string -> Path, fs: FileSystem,
                              entries: seq<string>, oks: seq<bool>, logOk: bool)
    requires |oks| == |entries|
    requires IsDirectory(fs, resolve(dir))
    ensures var r := Run([dir], resolve, fs, entries, oks, logOk);
            && r.Organized? && r.mode == Apply
            && (r.out.logFile.Some? <==> logOk && !IsDirectory(fs, LogPath(resolve(dir))))
  {
    assert [dir][1..] == [];
  }
}
