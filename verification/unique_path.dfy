/**
 Collision-safe destination naming (`resolveUniquePath`): a destination that
 is free is used as is; otherwise the name is split at its last dot and
 `base (1)ext`, `base (2)ext`, ... are tried in the same directory until one
 is free.
 */
module UniquePath {
  import opened Strings
  import opened FileSystem

  /** A file name split at its last dot; `ext` keeps the dot. */
  datatype NameParts = NameParts(base: string, ext: string)

  /** Split at the last dot, or all base and no extension when there is no dot. */
  function SplitName(name: string): (parts: NameParts)
    ensures parts.base + parts.ext == name
    ensures parts.ext == "" <==> '.' !in name
    ensures parts.ext != "" ==> parts.ext[0] == '.' && '.' !in parts.ext[1..]
  {
    LastIndexOfAbsent(name, '.');
    var idx := LastIndexOf(name, '.');
    if idx == -1 then NameParts(name, "")
    else
      assert name[idx..][1..] == name[idx + 1..];
      NameParts(name[..idx], name[idx..])
  }

  /** Any base followed by a dot-led, dot-free tail is split exactly there. */
  lemma SplitNameAtLastDot(base: string, ext: string)
    requires |ext| >= 1 && ext[0] == '.' && '.' !in ext[1..]
    ensures SplitName(base + ext) == NameParts(base, ext)
  {
    var name := base + ext;
    var idx := LastIndexOf(name, '.');
    assert name[|base|] == '.';
    assert idx == |base|;
    assert name[..idx] == base && name[idx..] == ext;
  }

  /** The `n`th renaming of a split name: `base (n)ext`. */
  function SuffixedName(parts: NameParts, n: nat): (r: string)
    ensures |r| > |parts.base + parts.ext|
  {
    parts.base + " (" + NatToDecimal(n) + ")" + parts.ext
  }

  /** A renamed file keeps its extension: splitting the new name gives back the old extension. */
  lemma RenamingKeepsExtension(name: string, n: nat)
    ensures SplitName(SuffixedName(SplitName(name), n)).ext == SplitName(name).ext
  {
    var parts := SplitName(name);
    var head := parts.base + " (" + NatToDecimal(n) + ")";
    assert SuffixedName(parts, n) == head + parts.ext;
    if parts.ext != "" {
      SplitNameAtLastDot(head, parts.ext);
    } else {
      var d := NatToDecimal(n);
      assert parts.base == name;
      forall k | 0 <= k < |head| ensures head[k] != '.' {
        if k < |name| {
          assert head[k] == name[k];
        } else if |name| + 2 <= k < |name| + 2 + |d| {
          assert head[k] == d[k - |name| - 2];
          assert IsDigit(d[k - |name| - 2]);
        }
      }
      assert '.' !in head;
    }
  }

  /** Different counters give different names. */
  lemma SuffixedNameInjective(parts: NameParts, m: nat, n: nat)
    requires SuffixedName(parts, m) == SuffixedName(parts, n)
    ensures m == n
  {
    var a := SuffixedName(parts, m);
    var b := SuffixedName(parts, n);
    var lo := |parts.base| + 2;
    assert |NatToDecimal(m)| == |NatToDecimal(n)|;
    var hi := lo + |NatToDecimal(m)|;
    assert a[lo..hi] == NatToDecimal(m);
    assert b[lo..hi] == NatToDecimal(n);
    NatToDecimalInjective(m, n);
  }

  /** The `n`th path tried for `dest`: same directory, `n`th renaming of its name. */
  function Candidate(dest: Path, n: nat): (c: Path)
    requires dest.Child?
    ensures c.Child? && c.parent == dest.parent
    ensures c.name != dest.name
  {
    Child(dest.parent, SuffixedName(SplitName(dest.name), n))
  }

  /** Candidates 1 .. n-1 all exist. */
  predicate AllTaken(fs: FileSystem, dest: Path, n: nat)
    requires dest.Child?
  {
    forall k :: 1 <= k < n ==> Exists(fs, Candidate(dest, k))
  }

  /** `n` is the smallest counter from 1 whose candidate does not exist. */
  predicate LeastFree(fs: FileSystem, dest: Path, n: nat)
    requires dest.Child?
  {
    n >= 1 && !Exists(fs, Candidate(dest, n)) && AllTaken(fs, dest, n)
  }

  /** There is at most one smallest free counter. */
  lemma LeastFreeUnique(fs: FileSystem, dest: Path, m: nat, n: nat)
    requires dest.Child?
    requires LeastFree(fs, dest, m) && LeastFree(fs, dest, n)
    ensures m == n
  {
  }

  ghost function CandidateSet(dest: Path, n: nat): set<Path>
    requires dest.Child?
  {
    set k | 1 <= k < n :: Candidate(dest, k)
  }

  /** Candidates 1 .. n-1 are n-1 different paths. */
  lemma {:induction false} CandidateSetSize(dest: Path, n: nat)
    requires dest.Child? && n >= 1
    ensures |CandidateSet(dest, n)| == n - 1
  {
    if n > 1 {
      CandidateSetSize(dest, n - 1);
      var last := Candidate(dest, n - 1);
      assert CandidateSet(dest, n) == CandidateSet(dest, n - 1) + {last};
      if last in CandidateSet(dest, n - 1) {
        var k :| 1 <= k < n - 1 && Candidate(dest, k) == last;
        SuffixedNameInjective(SplitName(dest.name), k, n - 1);
        assert false;
      }
    }
  }

  /** As long as every candidate so far is taken, the counter is bounded by the paths that exist. */
  lemma TakenBound(fs: FileSystem, dest: Path, n: nat)
    requires dest.Child? && n >= 1 && AllTaken(fs, dest, n)
    ensures n - 1 <= |AllPaths(fs)|
  {
    CandidateSetSize(dest, n);
    assert CandidateSet(dest, n) <= AllPaths(fs);
    SubsetCardinality(CandidateSet(dest, n), AllPaths(fs));
  }

  lemma {:induction false} SubsetCardinality<T>(a: set<T>, b: set<T>)
    requires a <= b
    ensures |a| <= |b|
  {
    if a != {} {
      var x :| x in a;
      SubsetCardinality(a - {x}, b - {x});
    }
  }

  /** The search of the do-while loop from counter `n`, with its termination measure. */
  function Probe(fs: FileSystem, dest: Path, n: nat): (r: Path)
    requires dest.Child? && n >= 1 && AllTaken(fs, dest, n)
    ensures exists m :: m >= n && LeastFree(fs, dest, m) && r == Candidate(dest, m)
    decreases |AllPaths(fs)| + 1 - n
  {
    if !Exists(fs, Candidate(dest, n)) then Candidate(dest, n)
    else
      TakenBound(fs, dest, n + 1);
      Probe(fs, dest, n + 1)
  }

  /** The destination actually used for a move to `dest`. */
  function ResolveUniquePath(fs: FileSystem, dest: Path): (r: Path)
    requires dest.Child?
    ensures !Exists(fs, r)
    ensures r.Child? && r.parent == dest.parent
    ensures !Exists(fs, dest) ==> r == dest
    ensures Exists(fs, dest) ==> exists n :: LeastFree(fs, dest, n) && r == Candidate(dest, n)
  {
    if !Exists(fs, dest) then dest else Probe(fs, dest, 1)
  }

  /** The do-while loop as written, returning the same path as the search above. */
  method ResolveUniquePathLoop(fs: FileSystem, dest: Path) returns (r: Path)
    requires dest.Child?
    ensures r == ResolveUniquePath(fs, dest)
    ensures Exists(fs, dest) ==> exists n :: LeastFree(fs, dest, n) && r == Candidate(dest, n)
  {
    if !Exists(fs, dest) {
      return dest;
    }
    var counter := 1;
    var candidate := Candidate(dest, counter);
    counter := counter + 1;
    while Exists(fs, candidate)
      invariant counter >= 2
      invariant candidate == Candidate(dest, counter - 1)
      invariant AllTaken(fs, dest, counter - 1)
      decreases |AllPaths(fs)| + 2 - counter
    {
      TakenBound(fs, dest, counter);
      candidate := Candidate(dest, counter);
      counter := counter + 1;
    }
    r := candidate;
    assert LeastFree(fs, dest, counter - 1);
    var m :| LeastFree(fs, dest, m) && ResolveUniquePath(fs, dest) == Candidate(dest, m);
    LeastFreeUnique(fs, dest, m, counter - 1);
  }

  /** With `file.txt` and `file (1).txt` taken and `file (2).txt` free, another `file.txt` becomes `file (2).txt`. */
  lemma SecondCollisionExample(fs: FileSystem, dir: Path)
    requires Exists(fs, Child(dir, "file.txt")) && Exists(fs, Child(dir, "file (1).txt"))
    requires !Exists(fs, Child(dir, "file (2).txt"))
    ensures ResolveUniquePath(fs, Child(dir, "file.txt")) == Child(dir, "file (2).txt")
  {
    var dest := Child(dir, "file.txt");
    FileTxtRenaming(dir);
    FileTxtSecondRenaming(dir);
    assert LeastFree(fs, dest, 2);
    var n :| LeastFree(fs, dest, n) && ResolveUniquePath(fs, dest) == Candidate(dest, n);
    LeastFreeUnique(fs, dest, n, 2);
  }

  /** The `n`th candidate for `base ext`, where `ext` is dot-led and dot-free, is `base (n)ext`. */
  lemma CandidateOfSplit(dir: Path, base: string, ext: string, n: nat)
    requires |ext| >= 1 && ext[0] == '.' && '.' !in ext[1..]
    ensures Candidate(Child(dir, base + ext), n) == Child(dir, base + " (" + NatToDecimal(n) + ")" + ext)
  {
    SplitNameAtLastDot(base, ext);
  }

  /** The literal names of the renaming examples, spelled out piece by piece. */
  lemma ExampleSpellings()
    ensures NatToDecimal(1) == "1" && NatToDecimal(2) == "2"
    ensures "file" + ".txt" == "file.txt"
    ensures "file (1)" + ".txt" == "file (1).txt"
    ensures "file" + " (" + "1" + ")" + ".txt" == "file (1).txt"
    ensures "file" + " (" + "2" + ")" + ".txt" == "file (2).txt"
    ensures "file (1)" + " (" + "1" + ")" + ".txt" == "file (1) (1).txt"
  {
  }

  /** The second renaming of `file.txt` is `file (2).txt`. */
  lemma FileTxtSecondRenaming(dir: Path)
    ensures Candidate(Child(dir, "file.txt"), 2) == Child(dir, "file (2).txt")
  {
    CandidateOfSplit(dir, "file", ".txt", 2);
    ExampleSpellings();
  }

  /** A trailing dot is kept as the extension when renaming: `notes.` becomes `notes (1).`. */
  lemma TrailingDotExample(dir: Path)
    ensures var fs := FileSystem({Child(dir, "notes.")}, {});
            ResolveUniquePath(fs, Child(dir, "notes.")) == Child(dir, "notes (1).")
  {
    var fs := FileSystem({Child(dir, "notes.")}, {});
    var dest := Child(dir, "notes.");
    assert SplitName("notes.") == NameParts("notes", ".");
    assert Candidate(dest, 1) == Child(dir, "notes (1).");
    assert LeastFree(fs, dest, 1);
    var n :| LeastFree(fs, dest, n) && ResolveUniquePath(fs, dest) == Candidate(dest, n);
    LeastFreeUnique(fs, dest, n, 1);
  }

  /** When the destination is taken but its first renaming is free, the first renaming is used. */
  lemma ResolvesToFirstRenaming(fs: FileSystem, dest: Path)
    requires dest.Child? && Exists(fs, dest) && !Exists(fs, Candidate(dest, 1))
    ensures ResolveUniquePath(fs, dest) == Candidate(dest, 1)
  {
    assert LeastFree(fs, dest, 1);
    var n :| LeastFree(fs, dest, n) && ResolveUniquePath(fs, dest) == Candidate(dest, n);
    LeastFreeUnique(fs, dest, n, 1);
  }

  /** The first renaming of `file.txt` is `file (1).txt`. */
  lemma FileTxtRenaming(dir: Path)
    ensures Candidate(Child(dir, "file.txt"), 1) == Child(dir, "file (1).txt")
  {
    CandidateOfSplit(dir, "file", ".txt", 1);
    ExampleSpellings();
  }

  /** The first renaming of `file (1).txt` is `file (1) (1).txt`. */
  lemma FileOneTxtRenaming(dir: Path)
    ensures Candidate(Child(dir, "file (1).txt"), 1) == Child(dir, "file (1) (1).txt")
  {
    CandidateOfSplit(dir, "file (1)", ".txt", 1);
    ExampleSpellings();
  }

  /**
   Resolving against an unchanged filesystem sends `file.txt` and `file (1).txt`
   to the same path when `file.txt` is taken and `file (1).txt` is free, which
   is how two entries of a dry run can be planned onto one destination.
   */
  lemma DryRunCollision(fs: FileSystem, dir: Path)
    requires Exists(fs, Child(dir, "file.txt")) && !Exists(fs, Child(dir, "file (1).txt"))
    ensures ResolveUniquePath(fs, Child(dir, "file.txt")) == Child(dir, "file (1).txt")
    ensures ResolveUniquePath(fs, Child(dir, "file (1).txt")) == Child(dir, "file (1).txt")
  {
    FileTxtRenaming(dir);
    ResolvesToFirstRenaming(fs, Child(dir, "file.txt"));
  }

  /**
   Once the first file has been moved to `file (1).txt`, resolving
   `file (1).txt` gives `file (1) (1).txt`: in apply mode the two entries get
   different destinations.
   */
  lemma ApplyAfterFirstMove(fs: FileSystem, dir: Path)
    requires Exists(fs, Child(dir, "file (1).txt")) && !Exists(fs, Child(dir, "file (1) (1).txt"))
    ensures ResolveUniquePath(fs, Child(dir, "file (1).txt")) == Child(dir, "file (1) (1).txt")
  {
    FileOneTxtRenaming(dir);
    ResolvesToFirstRenaming(fs, Child(dir, "file (1).txt"));
  }
}
