/**
 Command-line parsing: the first argument names the directory, every later
 argument is compared case-insensitively with the dry-run and apply flags,
 left to right, so the last recognised flag decides the mode (the flag loop
 of `main`).
 */
module Flags {
  import opened Strings

  datatype Mode = Apply | DryRun

  const DryFlags: set<string> := {"--dry", "-d", "--preview"}
  const RunFlags: set<string> := {"--run", "-r", "--apply"}

  predicate IsDryFlag(arg: string) {
    Lower(arg) in DryFlags
  }

  predicate IsRunFlag(arg: string) {
    Lower(arg) in RunFlags
  }

  predicate IsFlag(arg: string) {
    IsDryFlag(arg) || IsRunFlag(arg)
  }

  /** One pass of the loop body: the dry test, then the independent run test. */
  function StepFlag(mode: Mode, arg: string): (r: Mode)
    ensures IsRunFlag(arg) ==> r == Apply
    ensures IsDryFlag(arg) && !IsRunFlag(arg) ==> r == DryRun
    ensures !IsFlag(arg) ==> r == mode
  {
    var a := Lower(arg);
    var m := if a in DryFlags then DryRun else mode;
    if a in RunFlags then Apply else m
  }

  /** The loop over `flags`, left to right, from the default mode. */
  function FoldFlags(flags: seq<string>): (r: Mode)
    ensures |flags| == 0 ==> r == Apply
    ensures |flags| > 0 && IsRunFlag(flags[|flags| - 1]) ==> r == Apply
    ensures |flags| > 0 && IsDryFlag(flags[|flags| - 1]) && !IsRunFlag(flags[|flags| - 1]) ==> r == DryRun
  {
    if |flags| == 0 then Apply
    else StepFlag(FoldFlags(flags[..|flags| - 1]), flags[|flags| - 1])
  }

  /** Reference meaning: some dry flag is followed by no recognised flag. */
  predicate LastFlagIsDry(flags: seq<string>) {
    exists i :: 0 <= i < |flags| && IsDryFlag(flags[i]) && forall j :: i < j < |flags| ==> !IsFlag(flags[j])
  }

  /** An unrecognised argument appended after a dry flag leaves it the last recognised one. */
  lemma LastFlagIsDryExtend(flags: seq<string>)
    requires |flags| > 0 && !IsFlag(flags[|flags| - 1])
    requires LastFlagIsDry(flags[..|flags| - 1])
    ensures LastFlagIsDry(flags)
  {
    var n := |flags| - 1;
    var init := flags[..n];
    var i :| 0 <= i < n && IsDryFlag(init[i]) && forall j :: i < j < n ==> !IsFlag(init[j]);
    assert IsDryFlag(flags[i]) && forall j :: i < j < |flags| ==> !IsFlag(flags[j]);
  }

  /** Dropping an unrecognised last argument keeps a dry flag the last recognised one. */
  lemma LastFlagIsDryShrink(flags: seq<string>)
    requires |flags| > 0 && !IsFlag(flags[|flags| - 1])
    requires LastFlagIsDry(flags)
    ensures LastFlagIsDry(flags[..|flags| - 1])
  {
    var n := |flags| - 1;
    var init := flags[..n];
    var i :| 0 <= i < |flags| && IsDryFlag(flags[i]) && forall j :: i < j < |flags| ==> !IsFlag(flags[j]);
    assert IsDryFlag(init[i]) && forall j :: i < j < n ==> !IsFlag(init[j]);
  }

  /** The mode is dry-run exactly when the last recognised flag is a dry flag. */
  lemma {:induction false} LastFlagWins(flags: seq<string>)
    ensures FoldFlags(flags) == DryRun <==> LastFlagIsDry(flags)
  {
    if |flags| > 0 {
      var n := |flags| - 1;
      LastFlagWins(flags[..n]);
      if IsRunFlag(flags[n]) {
        assert !LastFlagIsDry(flags);
      } else if IsDryFlag(flags[n]) {
        assert LastFlagIsDry(flags);
      } else {
        if LastFlagIsDry(flags[..n]) {
          LastFlagIsDryExtend(flags);
        }
        if LastFlagIsDry(flags) {
          LastFlagIsDryShrink(flags);
        }
      }
    }
  }

  /** Flags that differ only in letter case have the same effect. */
  lemma {:induction false} FlagsIgnoreCase(a: seq<string>, b: seq<string>)
    requires |a| == |b|
    requires forall i :: 0 <= i < |a| ==> Lower(a[i]) == Lower(b[i])
    ensures FoldFlags(a) == FoldFlags(b)
  {
    if |a| > 0 {
      FlagsIgnoreCase(a[..|a| - 1], b[..|b| - 1]);
    }
  }

  /** Result of reading the argument list. */
  datatype ParsedArgs = MissingDirectory | Parsed(dir: string, mode: Mode)

  /** Reads the argument list; with no argument at all the usage text is printed instead. */
  function ParseArgs(args: seq<string>): (r: ParsedArgs)
    ensures r.MissingDirectory? <==> |args| == 0
    ensures r.Parsed? ==> r.dir == args[0]
    ensures r.Parsed? ==> (r.mode == DryRun <==> LastFlagIsDry(args[1..]))
  {
    if |args| == 0 then MissingDirectory
    else
      LastFlagWins(args[1..]);
      Parsed(args[0], FoldFlags(args[1..]))
  }

  /** The flag loop as written, over the arguments after the directory. */
  method ParseDryFlag(args: seq<string>) returns (dry: bool)
    requires |args| >= 1
    ensures dry <==> LastFlagIsDry(args[1..])
  {
    dry := false;
    var i := 1;
    while i < |args|
      invariant 1 <= i <= |args|
      invariant dry <==> FoldFlags(args[1..i]) == DryRun
    {
      var a := Lower(args[i]);
      if a == "--dry" || a == "-d" || a == "--preview" {
        dry := true;
      }
      if a == "--run" || a == "-r" || a == "--apply" {
        dry := false;
      }
      assert args[1..i + 1][..i - 1] == args[1..i];
      i := i + 1;
    }
    assert args[1..i] == args[1..];
    LastFlagWins(args[1..]);
  }

  lemma FlagExamples()
    ensures FoldFlags([]) == Apply
    ensures FoldFlags(["--DRY"]) == DryRun
  {
    assert Lower("--DRY") == "--dry";
  }

  /** A later run flag overrides an earlier dry flag. */
  lemma RunOverridesDryExample()
    ensures FoldFlags(["--dry", "--run"]) == Apply
  {
    assert IsRunFlag(["--dry", "--run"][1]) by {
      LowerIsLower("--run");
    }
  }

  /** An unrecognised argument appended to the flags changes nothing. */
  lemma UnrecognisedArgumentIgnored(flags: seq<string>, arg: string)
    requires !IsFlag(arg)
    ensures FoldFlags(flags + [arg]) == FoldFlags(flags)
  {
    assert (flags + [arg])[..|flags|] == flags;
  }
}
