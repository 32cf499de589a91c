/**
 The organizing pass (`organize`): a left-to-right walk over a snapshot of the
 target directory's entry names. Directories and the log file are skipped;
 every other entry gets a destination under `<target>/<category>/`, made
 unique against the current filesystem, and one log record. In apply mode the
 category directory is created when missing and the file is moved; in dry-run
 mode the filesystem is left alone. Whether a move succeeds is an input (one
 outcome per entry), as is whether writing the log file succeeds.
 */
module Organizer {
  import opened Strings
  import opened Optional
  import opened FileSystem
  import opened Categories
  import opened UniquePath
  import opened Flags

  const LogName: string := "organizer.log"

  /** The log file is recognised in any letter case. */
  predicate IsLogName(name: string) {
    Lower(name) == LogName
  }

  lemma LogNameIsLogName()
    ensures IsLogName(LogName)
  {
    assert IsLower(LogName);
    LowerIsLower(LogName);
  }

  /** Where the log file of a run over `target` is written. */
  function LogPath(target: Path): Path {
    Child(target, LogName)
  }

  /** One planned move: source, resolved destination, and whether the file was moved. */
  datatype Record = Record(src: Path, dest: Path, moved: bool)

  /** The log line of a record: `src -> dest`. */
  function LogLine(rec: Record): string {
    Render(rec.src) + " -> " + Render(rec.dest)
  }

  function LogLines(records: seq<Record>): (lines: seq<string>)
    ensures |lines| == |records|
    ensures forall i :: 0 <= i < |records| ==> lines[i] == LogLine(records[i])
  {
    seq(|records|, i requires 0 <= i < |records| => LogLine(records[i]))
  }

  /** Filesystem and records so far, threaded through the pass. */
  datatype State = State(fs: FileSystem, records: seq<Record>)

  /** Entries the pass leaves alone: directories and the log file. */
  predicate Skipped(fs: FileSystem, target: Path, name: string) {
    IsDirectory(fs, Child(target, name)) || IsLogName(name)
  }

  /** The directory a file of this name belongs in. */
  function CategoryDir(target: Path, name: string): Path {
    Child(target, Classify(name))
  }

  /** A record of a run over `target`: a top-level source and a destination in that file's category directory. */
  predicate Shaped(target: Path, rec: Record) {
    && rec.src.Child? && rec.src.parent == target && !IsLogName(rec.src.name)
    && rec.dest.Child? && rec.dest.parent == CategoryDir(target, rec.src.name)
  }

  /** Shaped records have their sources one level and their destinations two levels below `target`. */
  predicate ShapedDepths(target: Path, rec: Record) {
    Shaped(target, rec) ==> Depth(rec.src) == Depth(target) + 1 && Depth(rec.dest) == Depth(target) + 2
  }

  lemma ShapedHasDepths(target: Path, rec: Record)
    ensures ShapedDepths(target, rec)
  {
    if Shaped(target, rec) {
      assert rec.src == Child(target, rec.src.name);
      assert rec.dest == Child(CategoryDir(target, rec.src.name), rec.dest.name);
    }
  }

  /**
   What the records say agrees with the filesystem: every moved file has left
   its source and sits at its destination, and no two moves share a destination.
   */
  predicate Consistent(target: Path, st: State) {
    && (forall i :: 0 <= i < |st.records| ==> Shaped(target, st.records[i]))
    && (forall i :: 0 <= i < |st.records| && st.records[i].moved ==>
          st.records[i].src !in st.fs.files && st.records[i].dest in st.fs.files)
    && (forall i, j :: 0 <= i < j < |st.records| && st.records[i].moved && st.records[j].moved ==>
          st.records[i].dest != st.records[j].dest)
  }

  /**
   One iteration of the loop over directory entries. A processed entry gets a
   record whose destination is in its category directory and did not exist; in
   apply mode the category directory is created when nothing is there, and a
   successful move takes the file from its source to that destination. A move
   into a category path that is a plain file fails.
   */
  function Step(target: Path, mode: Mode, st: State, name: string, moveOk: bool): (st': State)
    ensures Skipped(st.fs, target, name) ==> st' == st
    ensures !Skipped(st.fs, target, name) ==>
              && |st'.records| == |st.records| + 1
              && st'.records[..|st.records|] == st.records
              && var rec := st'.records[|st.records|];
                 && rec.src == Child(target, name)
                 && rec.dest.Child?
                 && rec.dest.parent == CategoryDir(target, name)
                 && !Exists(st.fs, rec.dest)
                 && rec.dest == ResolveUniquePath(st.fs, Child(CategoryDir(target, name), name))
                 && (rec.moved ==> mode == Apply && moveOk && rec.src in st.fs.files && IsDirectory(st'.fs, CategoryDir(target, name)))
                 && (rec.moved ==> st'.fs.files == st.fs.files - {rec.src} + {rec.dest})
                 && (!rec.moved ==> st'.fs.files == st.fs.files)
                 && (mode == Apply && moveOk && rec.src in st.fs.files && CategoryDir(target, name) !in st.fs.files ==> rec.moved)
    ensures mode == DryRun ==> st'.fs == st.fs
    ensures st'.fs.dirs ==
              if mode == Apply && !Skipped(st.fs, target, name) && !Exists(st.fs, CategoryDir(target, name))
              then st.fs.dirs + {CategoryDir(target, name)}
              else st.fs.dirs
  {
    if Skipped(st.fs, target, name) then st
    else
      var src := Child(target, name);
      var catDir := CategoryDir(target, name);
      var dest := ResolveUniquePath(st.fs, Child(catDir, name));
      if mode == DryRun then
        State(st.fs, st.records + [Record(src, dest, false)])
      else
        var fs1 := if Exists(st.fs, catDir) then st.fs else st.fs.(dirs := st.fs.dirs + {catDir});
        var moved := moveOk && src in fs1.files && IsDirectory(fs1, catDir);
        var fs2 := if moved then fs1.(files := fs1.files - {src} + {dest}) else fs1;
        State(fs2, st.records + [Record(src, dest, moved)])
  }

  /**
   The log file is never moved or recorded, however its name is capitalised,
   and neither is a directory.
   */
  lemma SkipsLogFileAndDirectories(target: Path, mode: Mode, st: State, name: string, moveOk: bool)
    requires Lower(name) == LogName || IsDirectory(st.fs, Child(target, name))
    ensures Step(target, mode, st, name, moveOk) == st
  {
  }

  /** A step loses no file: a move never lands on an existing path. */
  lemma StepConservesFiles(target: Path, mode: Mode, st: State, name: string, moveOk: bool)
    ensures |Step(target, mode, st, name, moveOk).fs.files| == |st.fs.files|
  {
    var st' := Step(target, mode, st, name, moveOk);
    if !Skipped(st.fs, target, name) {
      var rec := st'.records[|st.records|];
      if rec.moved {
        assert rec.dest !in st.fs.files - {rec.src};
      }
    }
  }

  /** A step keeps every file a file and every directory a directory. */
  lemma StepKeepsWellFormed(target: Path, mode: Mode, st: State, name: string, moveOk: bool)
    requires WellFormed(st.fs)
    ensures WellFormed(Step(target, mode, st, name, moveOk).fs)
  {
  }

  /**
   A step touches no other existing top-level entry: it only moves its own
   source, creates a missing category directory, and adds a path one level deeper.
   */
  lemma StepFrame(target: Path, mode: Mode, st: State, name: string, moveOk: bool, p: Path)
    requires p.Child? && p.parent == target && p != Child(target, name)
    requires Exists(st.fs, p)
    ensures var st' := Step(target, mode, st, name, moveOk);
            && (p in st'.fs.files <==> p in st.fs.files)
            && (p in st'.fs.dirs <==> p in st.fs.dirs)
  {
    var st' := Step(target, mode, st, name, moveOk);
    assert Depth(p) == Depth(target) + 1;
    if !Skipped(st.fs, target, name) {
      var dest := st'.records[|st.records|].dest;
      assert dest == Child(CategoryDir(target, name), dest.name);
      assert Depth(dest) == Depth(target) + 2;
    }
  }

  /** A step keeps the records in agreement with the filesystem. */
  lemma StepKeepsConsistent(target: Path, mode: Mode, st: State, name: string, moveOk: bool)
    requires Consistent(target, st)
    ensures Consistent(target, Step(target, mode, st, name, moveOk))
  {
    var st' := Step(target, mode, st, name, moveOk);
    if !Skipped(st.fs, target, name) {
      var n := |st.records|;
      var rec := st'.records[n];
      assert Shaped(target, rec);
      ShapedHasDepths(target, rec);
      forall i | 0 <= i < n ensures ShapedDepths(target, st.records[i]) {
        ShapedHasDepths(target, st.records[i]);
      }
      forall i | 0 <= i < |st'.records| && st'.records[i].moved
        ensures st'.records[i].src !in st'.fs.files && st'.records[i].dest in st'.fs.files
      {
        if i < n {
          assert st'.records[i] == st.records[i];
        }
      }
      forall i, j | 0 <= i < j < |st'.records| && st'.records[i].moved && st'.records[j].moved
        ensures st'.records[i].dest != st'.records[j].dest
      {
        if j == n {
          assert st'.records[i] == st.records[i];
          assert st.records[i].dest in st.fs.files;
        } else {
          assert st'.records[i] == st.records[i] && st'.records[j] == st.records[j];
        }
      }
    }
  }

  /** The loop over a snapshot of entry names, with one move outcome per entry. */
  function Pass(target: Path, mode: Mode, st: State, entries: seq<string>, oks: seq<bool>): (r: State)
    requires |oks| == |entries|
    ensures |st.records| <= |r.records| <= |st.records| + |entries|
    ensures r.records[..|st.records|] == st.records
    ensures mode == DryRun ==> r.fs == st.fs
    ensures st.fs.dirs <= r.fs.dirs
    decreases |entries|
  {
    if |entries| == 0 then st
    else
      var st1 := Step(target, mode, st, entries[0], oks[0]);
      var r := Pass(target, mode, st1, entries[1..], oks[1..]);
      assert r.records[..|st.records|] == r.records[..|st1.records|][..|st.records|];
      r
  }

  /** Every record a pass adds has a top-level source and a destination inside a category directory. */
  lemma {:induction false} PassShapes(target: Path, mode: Mode, st: State, entries: seq<string>, oks: seq<bool>)
    requires |oks| == |entries|
    ensures var r := Pass(target, mode, st, entries, oks);
            forall i :: |st.records| <= i < |r.records| ==> Shaped(target, r.records[i])
    decreases |entries|
  {
    if |entries| > 0 {
      var st1 := Step(target, mode, st, entries[0], oks[0]);
      PassShapes(target, mode, st1, entries[1..], oks[1..]);
      var r := Pass(target, mode, st, entries, oks);
      assert r == Pass(target, mode, st1, entries[1..], oks[1..]);
      forall i | |st.records| <= i < |r.records| ensures Shaped(target, r.records[i]) {
        if i < |st1.records| {
          assert r.records[i] == r.records[..|st1.records|][i];
          assert r.records[i] == st1.records[i];
          assert !Skipped(st.fs, target, entries[0]);
          assert i == |st.records|;
          assert Shaped(target, st1.records[i]);
        }
      }
    }
  }

  /** The only directories a pass creates are category directories directly under `target`. */
  lemma {:induction false} PassCreatesOnlyCategoryDirs(target: Path, mode: Mode, st: State, entries: seq<string>, oks: seq<bool>)
    requires |oks| == |entries|
    ensures var r := Pass(target, mode, st, entries, oks);
            forall d :: d in r.fs.dirs && d !in st.fs.dirs ==>
              d.Child? && d.parent == target && IsCategoryName(d.name)
    decreases |entries|
  {
    if |entries| > 0 {
      var st1 := Step(target, mode, st, entries[0], oks[0]);
      PassCreatesOnlyCategoryDirs(target, mode, st1, entries[1..], oks[1..]);
    }
  }

  /** A pass loses no file: there are as many files afterwards as before. */
  lemma {:induction false} PassConservesFiles(target: Path, mode: Mode, st: State, entries: seq<string>, oks: seq<bool>)
    requires |oks| == |entries|
    ensures |Pass(target, mode, st, entries, oks).fs.files| == |st.fs.files|
    decreases |entries|
  {
    if |entries| > 0 {
      var st1 := Step(target, mode, st, entries[0], oks[0]);
      StepConservesFiles(target, mode, st, entries[0], oks[0]);
      PassConservesFiles(target, mode, st1, entries[1..], oks[1..]);
    }
  }

  /** A pass never makes a path both a file and a directory. */
  lemma {:induction false} PassKeepsWellFormed(target: Path, mode: Mode, st: State, entries: seq<string>, oks: seq<bool>)
    requires |oks| == |entries|
    requires WellFormed(st.fs)
    ensures WellFormed(Pass(target, mode, st, entries, oks).fs)
    decreases |entries|
  {
    if |entries| > 0 {
      var st1 := Step(target, mode, st, entries[0], oks[0]);
      PassKeepsWellFormed(target, mode, st1, entries[1..], oks[1..]);
    }
  }

  /**
   After a pass every moved file has left the top level and sits at its
   destination, and no two moves landed on the same path.
   */
  lemma {:induction false} PassKeepsConsistent(target: Path, mode: Mode, st: State, entries: seq<string>, oks: seq<bool>)
    requires |oks| == |entries|
    requires Consistent(target, st)
    ensures Consistent(target, Pass(target, mode, st, entries, oks))
    decreases |entries|
  {
    if |entries| > 0 {
      var st1 := Step(target, mode, st, entries[0], oks[0]);
      StepKeepsConsistent(target, mode, st, entries[0], oks[0]);
      PassKeepsConsistent(target, mode, st1, entries[1..], oks[1..]);
    }
  }

  /** Entry names as a directory listing of `target` gives them: distinct, each present. */
  predicate Snapshot(fs: FileSystem, target: Path, entries: seq<string>) {
    && (forall i, j :: 0 <= i < j < |entries| ==> entries[i] != entries[j])
    && (forall i :: 0 <= i < |entries| ==> Exists(fs, Child(target, entries[i])))
  }

  /** Sources, in listing order, of the entries a pass over `fs` does not skip. */
  function Processed(fs: FileSystem, target: Path, entries: seq<string>): seq<Path> {
    if |entries| == 0 then []
    else
      (if Skipped(fs, target, entries[0]) then [] else [Child(target, entries[0])])
      + Processed(fs, target, entries[1..])
  }

  /** Sources of a sequence of records, in order. */
  function Sources(records: seq<Record>): (srcs: seq<Path>)
    ensures |srcs| == |records|
    ensures forall i :: 0 <= i < |records| ==> srcs[i] == records[i].src
  {
    seq(|records|, i requires 0 <= i < |records| => records[i].src)
  }

  /** Whether an entry is skipped depends only on whether it is a directory. */
  lemma {:induction false} ProcessedFrame(fs1: FileSystem, fs2: FileSystem, target: Path, entries: seq<string>)
    requires forall i :: 0 <= i < |entries| ==>
               (IsDirectory(fs1, Child(target, entries[i])) <==> IsDirectory(fs2, Child(target, entries[i])))
    ensures Processed(fs1, target, entries) == Processed(fs2, target, entries)
  {
    if |entries| > 0 {
      ProcessedFrame(fs1, fs2, target, entries[1..]);
    }
  }

  /**
   A pass over a listing adds exactly one record per entry that is neither a
   directory nor the log file, in listing order, whatever the move outcomes.
   */
  lemma {:induction false} PassSources(target: Path, mode: Mode, st: State, entries: seq<string>, oks: seq<bool>)
    requires |oks| == |entries|
    requires Snapshot(st.fs, target, entries)
    ensures var r := Pass(target, mode, st, entries, oks);
            Sources(r.records[|st.records|..]) == Processed(st.fs, target, entries)
    decreases |entries|
  {
    if |entries| > 0 {
      var st1 := Step(target, mode, st, entries[0], oks[0]);
      var rest := entries[1..];
      SnapshotAfterStep(target, mode, st, entries, oks[0]);
      PassSources(target, mode, st1, rest, oks[1..]);
      ProcessedFrame(st1.fs, st.fs, target, rest);
      PassUnfold(target, mode, st, entries, oks);
      var head := st1.records[|st.records|..];
      var tail := Pass(target, mode, st1, rest, oks[1..]).records[|st1.records|..];
      SourcesAppend(head, tail);
      StepSources(target, mode, st, entries[0], oks[0]);
    }
  }

  /** The records a pass adds are those of its first step followed by those of the rest. */
  lemma PassUnfold(target: Path, mode: Mode, st: State, entries: seq<string>, oks: seq<bool>)
    requires |oks| == |entries| && |entries| > 0
    ensures var st1 := Step(target, mode, st, entries[0], oks[0]);
            var r := Pass(target, mode, st, entries, oks);
            && r == Pass(target, mode, st1, entries[1..], oks[1..])
            && r.records[|st.records|..] == st1.records[|st.records|..] + r.records[|st1.records|..]
  {
    var st1 := Step(target, mode, st, entries[0], oks[0]);
    var r := Pass(target, mode, st, entries, oks);
    assert r == Pass(target, mode, st1, entries[1..], oks[1..]);
    SliceSplit(r.records, st1.records, |st.records|);
  }

  lemma SliceSplit<T>(s: seq<T>, prefix: seq<T>, k: nat)
    requires k <= |prefix| <= |s| && s[..|prefix|] == prefix
    ensures s[k..] == prefix[k..] + s[|prefix|..]
  {
    assert s == s[..|prefix|] + s[|prefix|..];
  }

  /** A step adds the source of its entry when it does not skip it, and nothing otherwise. */
  lemma StepSources(target: Path, mode: Mode, st: State, name: string, moveOk: bool)
    ensures var st1 := Step(target, mode, st, name, moveOk);
            Sources(st1.records[|st.records|..]) ==
              if Skipped(st.fs, target, name) then [] else [Child(target, name)]
  {
  }

  lemma SourcesAppend(a: seq<Record>, b: seq<Record>)
    ensures Sources(a + b) == Sources(a) + Sources(b)
  {
  }

  /** After one step the rest of the listing is still a listing, with the same directories. */
  lemma SnapshotAfterStep(target: Path, mode: Mode, st: State, entries: seq<string>, moveOk: bool)
    requires Snapshot(st.fs, target, entries) && |entries| > 0
    ensures var st1 := Step(target, mode, st, entries[0], moveOk);
            && Snapshot(st1.fs, target, entries[1..])
            && forall i :: 0 <= i < |entries| - 1 ==>
                 (IsDirectory(st1.fs, Child(target, entries[1..][i])) <==> IsDirectory(st.fs, Child(target, entries[1..][i])))
  {
    var rest := entries[1..];
    forall i | 0 <= i < |rest|
      ensures Exists(Step(target, mode, st, entries[0], moveOk).fs, Child(target, rest[i]))
      ensures IsDirectory(Step(target, mode, st, entries[0], moveOk).fs, Child(target, rest[i])) <==> IsDirectory(st.fs, Child(target, rest[i]))
    {
      assert rest[i] == entries[i + 1];
      StepFrame(target, mode, st, entries[0], moveOk, Child(target, rest[i]));
    }
    forall i, j | 0 <= i < j < |rest| ensures rest[i] != rest[j] {
      assert rest[i] == entries[i + 1] && rest[j] == entries[j + 1];
    }
  }

  /** Sources of the records that were moved. */
  function MovedSources(records: seq<Record>): set<Path> {
    set i | 0 <= i < |records| && records[i].moved :: records[i].src
  }

  /** Destinations of the records that were moved. */
  function MovedDests(records: seq<Record>): set<Path> {
    set i | 0 <= i < |records| && records[i].moved :: records[i].dest
  }

  lemma MovedAppend(a: seq<Record>, b: seq<Record>)
    ensures MovedSources(a + b) == MovedSources(a) + MovedSources(b)
    ensures MovedDests(a + b) == MovedDests(a) + MovedDests(b)
  {
    var ab := a + b;
    forall p | p in MovedSources(a) ensures p in MovedSources(a + b) {
      var i :| 0 <= i < |a| && a[i].moved && a[i].src == p;
      assert ab[i] == a[i];
    }
    forall p | p in MovedDests(a) ensures p in MovedDests(a + b) {
      var i :| 0 <= i < |a| && a[i].moved && a[i].dest == p;
      assert ab[i] == a[i];
    }
    forall p | p in MovedSources(a + b) ensures p in MovedSources(a) + MovedSources(b) {
      var i :| 0 <= i < |ab| && ab[i].moved && ab[i].src == p;
      if i >= |a| {
        assert b[i - |a|] == ab[i];
      }
    }
    forall p | p in MovedSources(b) ensures p in MovedSources(a + b) {
      var i :| 0 <= i < |b| && b[i].moved && b[i].src == p;
      assert ab[i + |a|] == b[i];
    }
    forall p | p in MovedDests(a + b) ensures p in MovedDests(a) + MovedDests(b) {
      var i :| 0 <= i < |ab| && ab[i].moved && ab[i].dest == p;
      if i >= |a| {
        assert b[i - |a|] == ab[i];
      }
    }
    forall p | p in MovedDests(b) ensures p in MovedDests(a + b) {
      var i :| 0 <= i < |b| && b[i].moved && b[i].dest == p;
      assert ab[i + |a|] == b[i];
    }
  }

  /**
   After a pass the files are exactly the files before, less the moved
   sources, plus their destinations: nothing else appears or disappears.
   */
  lemma {:induction false} PassFiles(target: Path, mode: Mode, st: State, entries: seq<string>, oks: seq<bool>)
    requires |oks| == |entries|
    ensures var r := Pass(target, mode, st, entries, oks);
            var added := r.records[|st.records|..];
            r.fs.files == st.fs.files - MovedSources(added) + MovedDests(added)
    decreases |entries|
  {
    if |entries| > 0 {
      var st1 := Step(target, mode, st, entries[0], oks[0]);
      var rest := entries[1..];
      var r := Pass(target, mode, st1, rest, oks[1..]);
      var head := st1.records[|st.records|..];
      var tail := r.records[|st1.records|..];
      assert Pass(target, mode, st, entries, oks) == r && r.records[|st.records|..] == head + tail by {
        PassUnfold(target, mode, st, entries, oks);
      }
      assert r.fs.files == st1.fs.files - MovedSources(tail) + MovedDests(tail) by {
        PassFiles(target, mode, st1, rest, oks[1..]);
      }
      assert st1.fs.files == st.fs.files - MovedSources(head) + MovedDests(head) by {
        StepFiles(target, mode, st, entries[0], oks[0]);
      }
      assert MovedDests(head) !! MovedSources(tail) by {
        StepFiles(target, mode, st, entries[0], oks[0]);
        AddedShaped(target, mode, st1, rest, oks[1..], r);
        HeadTailDisjoint(target, head, tail);
      }
      ComposeFiles(st.fs.files, st1.fs.files, r.fs.files, head, tail);
    }
  }

  /** The records a pass adds, taken as their own sequence, are all shaped. */
  lemma AddedShaped(target: Path, mode: Mode, st: State, entries: seq<string>, oks: seq<bool>, r: State)
    requires |oks| == |entries|
    requires r == Pass(target, mode, st, entries, oks)
    ensures forall i :: 0 <= i < |r.records[|st.records|..]| ==> Shaped(target, r.records[|st.records|..][i])
  {
    PassShapes(target, mode, st, entries, oks);
    var added := r.records[|st.records|..];
    assert var p := Pass(target, mode, st, entries, oks);
           forall i :: |st.records| <= i < |p.records| ==> Shaped(target, p.records[i]);
    forall i | 0 <= i < |added| ensures Shaped(target, added[i]) {
      assert added[i] == r.records[|st.records| + i];
    }
  }

  /** Two rounds of moves compose into one over the concatenated records. */
  lemma ComposeFiles(f0: set<Path>, f1: set<Path>, f2: set<Path>, head: seq<Record>, tail: seq<Record>)
    requires f1 == f0 - MovedSources(head) + MovedDests(head)
    requires f2 == f1 - MovedSources(tail) + MovedDests(tail)
    requires MovedDests(head) !! MovedSources(tail)
    ensures f2 == f0 - MovedSources(head + tail) + MovedDests(head + tail)
  {
    MovedAppend(head, tail);
    SetAlgebra(f0, MovedSources(head), MovedDests(head), MovedSources(tail), MovedDests(tail));
  }

  lemma SetAlgebra<T>(f: set<T>, a: set<T>, b: set<T>, c: set<T>, d: set<T>)
    requires b !! c
    ensures (f - a + b) - c + d == f - (a + c) + (b + d)
  {
  }

  /** What one step does to the files, in terms of its own record. */
  lemma StepFiles(target: Path, mode: Mode, st: State, name: string, moveOk: bool)
    ensures var st1 := Step(target, mode, st, name, moveOk);
            var head := st1.records[|st.records|..];
            && st1.fs.files == st.fs.files - MovedSources(head) + MovedDests(head)
            && forall i :: 0 <= i < |head| ==> Shaped(target, head[i])
  {
    var st1 := Step(target, mode, st, name, moveOk);
    var head := st1.records[|st.records|..];
    if !Skipped(st.fs, target, name) {
      assert head == [st1.records[|st.records|]];
    } else {
      assert head == [];
    }
  }

  /** Destinations lie one level below the sources, so no destination is ever a later source. */
  lemma HeadTailDisjoint(target: Path, head: seq<Record>, tail: seq<Record>)
    requires forall i :: 0 <= i < |head| ==> Shaped(target, head[i])
    requires forall i :: 0 <= i < |tail| ==> Shaped(target, tail[i])
    ensures MovedDests(head) !! MovedSources(tail)
  {
    forall i | 0 <= i < |head| ensures ShapedDepths(target, head[i]) {
      ShapedHasDepths(target, head[i]);
    }
    forall i | 0 <= i < |tail| ensures ShapedDepths(target, tail[i]) {
      ShapedHasDepths(target, tail[i]);
    }
  }

  /** No top-level file bears the name of a category, so every category path can be a directory. */
  predicate NoCategoryFile(fs: FileSystem, target: Path) {
    forall p :: p in fs.files && p.Child? && p.parent == target ==> !IsCategoryName(p.name)
  }

  /** A step adds no top-level file, so it keeps category names free of files. */
  lemma StepKeepsNoCategoryFile(target: Path, mode: Mode, st: State, name: string, moveOk: bool)
    requires NoCategoryFile(st.fs, target)
    ensures NoCategoryFile(Step(target, mode, st, name, moveOk).fs, target)
  {
    var st' := Step(target, mode, st, name, moveOk);
    if !Skipped(st.fs, target, name) {
      var rec := st'.records[|st.records|];
      assert rec.dest == Child(CategoryDir(target, name), rec.dest.name);
      assert Depth(rec.dest) == Depth(target) + 2;
    }
  }

  /**
   In apply mode every processed entry's category path is a directory after
   the pass, whether or not the move succeeded, as long as no plain file
   bears a category name.
   */
  lemma {:induction false} PassMakesCategoryDirs(target: Path, st: State, entries: seq<string>, oks: seq<bool>)
    requires |oks| == |entries|
    requires NoCategoryFile(st.fs, target)
    ensures var r := Pass(target, Apply, st, entries, oks);
            forall i :: |st.records| <= i < |r.records| ==>
              r.records[i].src.Child? && IsDirectory(r.fs, CategoryDir(target, r.records[i].src.name))
    decreases |entries|
  {
    if |entries| > 0 {
      var st1 := Step(target, Apply, st, entries[0], oks[0]);
      var r := Pass(target, Apply, st1, entries[1..], oks[1..]);
      StepKeepsNoCategoryFile(target, Apply, st, entries[0], oks[0]);
      PassMakesCategoryDirs(target, st1, entries[1..], oks[1..]);
      PassUnfold(target, Apply, st, entries, oks);
      forall i | |st.records| <= i < |r.records|
        ensures r.records[i].src.Child? && IsDirectory(r.fs, CategoryDir(target, r.records[i].src.name))
      {
        if i < |st1.records| {
          assert r.records[i] == r.records[..|st1.records|][i];
          StepMakesCategoryDir(target, st, entries[0], oks[0]);
        }
      }
    }
  }

  /** An apply step that records its entry leaves the entry's category path a directory. */
  lemma StepMakesCategoryDir(target: Path, st: State, name: string, moveOk: bool)
    requires NoCategoryFile(st.fs, target)
    ensures var st1 := Step(target, Apply, st, name, moveOk);
            forall i :: |st.records| <= i < |st1.records| ==>
              st1.records[i].src == Child(target, name) && IsDirectory(st1.fs, CategoryDir(target, name))
  {
    assert CategoryDir(target, name) !in st.fs.files;
  }

  /**
   In apply mode, with every move succeeding and no plain file in the way of a
   category directory, every entry the pass processes is moved.
   */
  lemma {:induction false} PassMovesAll(target: Path, st: State, entries: seq<string>, oks: seq<bool>)
    requires |oks| == |entries| && forall i :: 0 <= i < |oks| ==> oks[i]
    requires WellFormed(st.fs) && Snapshot(st.fs, target, entries) && NoCategoryFile(st.fs, target)
    ensures var r := Pass(target, Apply, st, entries, oks);
            forall i :: |st.records| <= i < |r.records| ==> r.records[i].moved
    decreases |entries|
  {
    if |entries| > 0 {
      var st1 := Step(target, Apply, st, entries[0], oks[0]);
      var rest := entries[1..];
      var r := Pass(target, Apply, st1, rest, oks[1..]);
      SnapshotAfterStep(target, Apply, st, entries, oks[0]);
      StepKeepsWellFormed(target, Apply, st, entries[0], oks[0]);
      StepKeepsNoCategoryFile(target, Apply, st, entries[0], oks[0]);
      PassMovesAll(target, st1, rest, oks[1..]);
      PassUnfold(target, Apply, st, entries, oks);
      forall i | |st.records| <= i < |r.records| ensures r.records[i].moved {
        if i < |st1.records| {
          assert r.records[i] == r.records[..|st1.records|][i];
          assert Exists(st.fs, Child(target, entries[0]));
          assert CategoryDir(target, entries[0]) !in st.fs.files;
        }
      }
    }
  }

  /** An entry that is neither a directory nor the log file is among the processed sources. */
  lemma {:induction false} ProcessedContains(fs: FileSystem, target: Path, entries: seq<string>, k: int)
    requires 0 <= k < |entries| && !Skipped(fs, target, entries[k])
    ensures Child(target, entries[k]) in Processed(fs, target, entries)
  {
    if k > 0 {
      ProcessedContains(fs, target, entries[1..], k - 1);
    }
  }

  /** The entry names of a listing name every top-level file. */
  predicate Covers(fs: FileSystem, target: Path, entries: seq<string>) {
    forall p :: p in fs.files && p.Child? && p.parent == target ==> p.name in entries
  }

  /**
   An apply pass over a complete listing in which every move succeeds leaves
   no top-level file behind except log files.
   */
  lemma ApplyLeavesOnlyLogFiles(target: Path, fs: FileSystem, entries: seq<string>, oks: seq<bool>)
    requires |oks| == |entries| && forall i :: 0 <= i < |oks| ==> oks[i]
    requires WellFormed(fs) && Snapshot(fs, target, entries) && Covers(fs, target, entries)
    requires NoCategoryFile(fs, target)
    ensures var r := Pass(target, Apply, State(fs, []), entries, oks);
            forall p :: p in r.fs.files && p.Child? && p.parent == target ==> IsLogName(p.name)
  {
    var st := State(fs, []);
    var r := Pass(target, Apply, st, entries, oks);
    var added := r.records[0..];
    assert added == r.records;
    PassFiles(target, Apply, st, entries, oks);
    PassMovesAll(target, st, entries, oks);
    PassSources(target, Apply, st, entries, oks);
    PassShapes(target, Apply, st, entries, oks);
    forall p | p in r.fs.files && p.Child? && p.parent == target ensures IsLogName(p.name) {
      if !IsLogName(p.name) {
        assert Depth(p) == Depth(target) + 1;
        assert p !in MovedDests(added) by {
          forall i | 0 <= i < |added| ensures added[i].dest != p {
            ShapedHasDepths(target, added[i]);
          }
        }
        assert p in fs.files;
        var k :| 0 <= k < |entries| && entries[k] == p.name;
        assert p == Child(target, entries[k]);
        assert !Skipped(fs, target, entries[k]);
        ProcessedContains(fs, target, entries, k);
        assert false;
      }
    }
  }

  /** A pass over a listing whose only top-level files are log files changes nothing. */
  lemma {:induction false} NothingLeftToMove(target: Path, mode: Mode, st: State, entries: seq<string>, oks: seq<bool>)
    requires |oks| == |entries|
    requires forall i :: 0 <= i < |entries| ==> Exists(st.fs, Child(target, entries[i]))
    requires forall p :: p in st.fs.files && p.Child? && p.parent == target ==> IsLogName(p.name)
    ensures Pass(target, mode, st, entries, oks) == st
    decreases |entries|
  {
    if |entries| > 0 {
      var p := Child(target, entries[0]);
      assert Exists(st.fs, p);
      assert Skipped(st.fs, target, entries[0]);
      forall i | 0 <= i < |entries| - 1 ensures Exists(st.fs, Child(target, entries[1..][i])) {
        assert entries[1..][i] == entries[i + 1];
      }
      NothingLeftToMove(target, mode, st, entries[1..], oks[1..]);
    }
  }

  /**
   What a run leaves behind: the filesystem, the records in order, the log
   lines reported, and the content of the log file if one was written.
   */
  datatype Outcome = Outcome(fs: FileSystem, records: seq<Record>, lines: seq<string>, logFile: Option<seq<string>>)

  /** No category directory is called `organizer.log`. */
  lemma LogNameIsNoCategory()
    ensures !IsCategoryName(LogName)
  {
    assert |LogName| == 13;
    assert forall i :: 0 <= i < |Table| ==> |Table[i].name| < 13;
  }

  /**
   The whole pass followed by the log flush: in apply mode the log file is
   (re)written at `<target>/organizer.log` when writing succeeds, which it
   cannot when a directory of that name is in the way; in dry-run mode the
   lines are only reported.
   */
  function Organize(target: Path, mode: Mode, fs: FileSystem, entries: seq<string>, oks: seq<bool>, logOk: bool): (out: Outcome)
    requires |oks| == |entries|
    ensures |out.records| <= |entries|
    ensures |out.lines| == |out.records|
    ensures forall i :: 0 <= i < |out.records| ==>
              out.lines[i] == Render(out.records[i].src) + " -> " + Render(out.records[i].dest)
    ensures mode == DryRun ==> out.fs == fs && out.logFile.None?
    ensures out.logFile.Some? <==> mode == Apply && logOk && !IsDirectory(fs, LogPath(target))
    ensures out.logFile.Some? ==> out.logFile.value == out.lines && LogPath(target) in out.fs.files
    ensures fs.dirs <= out.fs.dirs
  {
    var st := Pass(target, mode, State(fs, []), entries, oks);
    var lines := LogLines(st.records);
    PassCreatesOnlyCategoryDirs(target, mode, State(fs, []), entries, oks);
    LogNameIsNoCategory();
    if mode == DryRun || !logOk || IsDirectory(st.fs, LogPath(target)) then Outcome(st.fs, st.records, lines, None)
    else Outcome(st.fs.(files := st.fs.files + {LogPath(target)}), st.records, lines, Some(lines))
  }

  /** A run never makes a path both a file and a directory. */
  lemma OrganizeKeepsWellFormed(target: Path, mode: Mode, fs: FileSystem, entries: seq<string>, oks: seq<bool>, logOk: bool)
    requires |oks| == |entries|
    requires WellFormed(fs)
    ensures WellFormed(Organize(target, mode, fs, entries, oks, logOk).fs)
  {
    PassKeepsWellFormed(target, mode, State(fs, []), entries, oks);
  }

  /**
   The log has exactly one line per entry that is neither a directory nor the
   log file, in listing order, each naming that entry, whether or not its move
   succeeded; its destination lies in the entry's category directory.
   */
  lemma OrganizeLogsEachProcessedEntry(target: Path, mode: Mode, fs: FileSystem, entries: seq<string>, oks: seq<bool>, logOk: bool)
    requires |oks| == |entries|
    requires Snapshot(fs, target, entries)
    ensures var out := Organize(target, mode, fs, entries, oks, logOk);
            var srcs := Processed(fs, target, entries);
            && |out.lines| == |srcs|
            && forall i :: 0 <= i < |srcs| ==>
                 && out.records[i].src == srcs[i]
                 && srcs[i].Child? && srcs[i].parent == target
                 && out.records[i].dest.Child?
                 && out.records[i].dest.parent == CategoryDir(target, srcs[i].name)
                 && out.lines[i] == Render(srcs[i]) + " -> " + Render(out.records[i].dest)
  {
    var st := State(fs, []);
    var r := Pass(target, mode, st, entries, oks);
    PassSources(target, mode, st, entries, oks);
    PassShapes(target, mode, st, entries, oks);
    assert r.records[0..] == r.records;
  }

  /**
   In apply mode the files after the run are the files before, less the moved
   sources, plus their destinations and the log file; no file is lost, so
   their number only grows by a newly created log file.
   */
  lemma ApplyLosesNoFile(target: Path, fs: FileSystem, entries: seq<string>, oks: seq<bool>, logOk: bool)
    requires |oks| == |entries|
    ensures var out := Organize(target, Apply, fs, entries, oks, logOk);
            && out.fs.files == fs.files - MovedSources(out.records) + MovedDests(out.records)
                               + (if out.logFile.Some? then {LogPath(target)} else {})
            && |out.fs.files| == |fs.files| + (if out.logFile.Some? && LogPath(target) !in fs.files then 1 else 0)
  {
    var st := State(fs, []);
    var r := Pass(target, Apply, st, entries, oks);
    var out := Organize(target, Apply, fs, entries, oks, logOk);
    assert out.records == r.records;
    assert out.fs.files == r.fs.files + (if out.logFile.Some? then {LogPath(target)} else {});
    assert r.fs.files == fs.files - MovedSources(r.records) + MovedDests(r.records) by {
      assert r.records[0..] == r.records;
      PassFiles(target, Apply, st, entries, oks);
    }
    assert |r.fs.files| == |fs.files| by {
      PassConservesFiles(target, Apply, st, entries, oks);
    }
    var lp := LogPath(target);
    assert lp in r.fs.files <==> lp in fs.files by {
      PassShapes(target, Apply, st, entries, oks);
      assert var p := Pass(target, Apply, st, entries, oks);
             forall i :: 0 <= i < |p.records| ==> Shaped(target, p.records[i]);
      RecordsAvoidLogPath(target, r.records);
    }
    if out.logFile.Some? {
      assert out.fs.files == r.fs.files + {lp};
      if lp in r.fs.files {
        assert out.fs.files == r.fs.files;
      }
    }
  }

  /** No record of a run has the log file as its source or its destination. */
  lemma RecordsAvoidLogPath(target: Path, records: seq<Record>)
    requires forall i :: 0 <= i < |records| ==> Shaped(target, records[i])
    ensures LogPath(target) !in MovedSources(records) && LogPath(target) !in MovedDests(records)
  {
    LogNameIsLogName();
    forall i | 0 <= i < |records| ensures records[i].src != LogPath(target) && records[i].dest != LogPath(target) {
      ShapedHasDepths(target, records[i]);
    }
  }

  /** In apply mode every moved file sits at its own destination, and no two moves share one. */
  lemma ApplyMovesAreSettled(target: Path, fs: FileSystem, entries: seq<string>, oks: seq<bool>, logOk: bool)
    requires |oks| == |entries|
    ensures var out := Organize(target, Apply, fs, entries, oks, logOk);
            && (forall i :: 0 <= i < |out.records| && out.records[i].moved ==>
                  out.records[i].src !in out.fs.files && out.records[i].dest in out.fs.files)
            && (forall i, j :: 0 <= i < j < |out.records| && out.records[i].moved && out.records[j].moved ==>
                  out.records[i].dest != out.records[j].dest)
  {
    var st := State(fs, []);
    var r := Pass(target, Apply, st, entries, oks);
    PassKeepsConsistent(target, Apply, st, entries, oks);
    PassShapes(target, Apply, st, entries, oks);
    assert r.records[0..] == r.records;
    var lp := LogPath(target);
    LogNameIsLogName();
    forall i | 0 <= i < |r.records| ensures r.records[i].src != lp {
    }
  }

  /**
   Applying twice: when the first run's listing named every top-level file and
   every move succeeded, a second run over any listing of the result processes
   nothing, logs nothing and moves nothing; at most its log file is rewritten.
   */
  lemma SecondApplyMovesNothing(target: Path, fs: FileSystem, entries: seq<string>, oks: seq<bool>, logOk: bool,
                                entries2: seq<string>, oks2: seq<bool>, logOk2: bool)
    requires |oks| == |entries| && forall i :: 0 <= i < |oks| ==> oks[i]
    requires WellFormed(fs) && Snapshot(fs, target, entries) && Covers(fs, target, entries)
    requires NoCategoryFile(fs, target)
    requires |oks2| == |entries2|
    requires forall i :: 0 <= i < |entries2| ==>
               Exists(Organize(target, Apply, fs, entries, oks, logOk).fs, Child(target, entries2[i]))
    ensures var out := Organize(target, Apply, fs, entries, oks, logOk);
            var again := Organize(target, Apply, out.fs, entries2, oks2, logOk2);
            && again.records == [] && again.lines == []
            && again.fs.dirs == out.fs.dirs
            && again.fs.files - {LogPath(target)} == out.fs.files - {LogPath(target)}
  {
    var out := Organize(target, Apply, fs, entries, oks, logOk);
    ApplyLeavesOnlyLogFiles(target, fs, entries, oks);
    LogNameIsLogName();
    assert forall p :: p in out.fs.files && p.Child? && p.parent == target ==> IsLogName(p.name);
    NothingLeftToMove(target, Apply, State(out.fs, []), entries2, oks2);
  }

  /**
   A dry run resolves every destination against the filesystem it started
   from: earlier planned moves are not seen, and nothing is moved.
   */
  lemma {:induction false} DryPassResolvesAgainstInput(target: Path, st: State, entries: seq<string>, oks: seq<bool>)
    requires |oks| == |entries|
    ensures var r := Pass(target, DryRun, st, entries, oks);
            forall i :: |st.records| <= i < |r.records| ==>
              && !r.records[i].moved
              && r.records[i].src.Child?
              && r.records[i].dest == ResolveUniquePath(st.fs, Child(CategoryDir(target, r.records[i].src.name), r.records[i].src.name))
    decreases |entries|
  {
    if |entries| > 0 {
      var st1 := Step(target, DryRun, st, entries[0], oks[0]);
      DryPassResolvesAgainstInput(target, st1, entries[1..], oks[1..]);
      var r := Pass(target, DryRun, st, entries, oks);
      assert r == Pass(target, DryRun, st1, entries[1..], oks[1..]);
      forall i | |st.records| <= i < |st1.records|
        ensures r.records[i] == st1.records[i]
      {
        assert r.records[i] == r.records[..|st1.records|][i];
      }
    }
  }

  /**
   A dry run plans every processed entry against the filesystem as it was
   before the run, and moves nothing. Planned destinations can therefore
   coincide: see `UniquePath.DryRunCollision`.
   */
  lemma DryRunResolvesAgainstInput(target: Path, fs: FileSystem, entries: seq<string>, oks: seq<bool>, logOk: bool)
    requires |oks| == |entries|
    requires Snapshot(fs, target, entries)
    ensures var out := Organize(target, DryRun, fs, entries, oks, logOk);
            var srcs := Processed(fs, target, entries);
            && |out.records| == |srcs|
            && forall i :: 0 <= i < |srcs| ==>
                 && out.records[i].src == srcs[i]
                 && srcs[i].Child?
                 && !out.records[i].moved
                 && out.records[i].dest == ResolveUniquePath(fs, Child(CategoryDir(target, srcs[i].name), srcs[i].name))
  {
    var st := State(fs, []);
    var r := Pass(target, DryRun, st, entries, oks);
    PassSources(target, DryRun, st, entries, oks);
    PassShapes(target, DryRun, st, entries, oks);
    DryPassResolvesAgainstInput(target, st, entries, oks);
    assert r.records[0..] == r.records;
  }
}
