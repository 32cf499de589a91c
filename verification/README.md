# FileOrganizer, modelled in Dafny

FileOrganizer is a command-line tool. It sorts the top-level files of one directory into category folders (`Images`, `Videos`, `Audio`, `Documents`, `Archives`, `Others`) according to their extension. It:

- never overwrites an existing file, appending ` (1)`, ` (2)`, … to the name instead;
- can preview its plan without touching anything (dry run);
- records every planned move as a line `source -> destination`, written to `organizer.log` in the target directory on every run in apply mode, even when nothing moves.

This project models the tool's decision logic over an abstract filesystem and proves what that logic promises.

- `strings.dfy` (`Strings`): ASCII lower-casing, last index of a character, and decimal rendering of a counter, with its round trip.
- `optional.dfy` (`Optional`): an option type for "no category".
- `extension.dfy` (`Extension`): `getFileExtension`.
- `categories.dfy` (`Categories`): the ordered category table, the first-match lookup `categoryOfExtension`, and the `Others` fallback with the lower-casing done at the call site.
- `filesystem.dfy` (`FileSystem`): paths, and a filesystem made of a set of file paths and a set of directory paths.
- `unique_path.dfy` (`UniquePath`): `resolveUniquePath`. It is a function whose termination rests on a counting argument: candidates for distinct counters are distinct, so some counter at most one more than the number of existing paths is free. The do-while loop as written is also modelled, as a method proved equal to the function.
- `flags.dfy` (`Flags`): the flag loop of `main`, as a fold in which the last recognised flag wins.
- `organizer.dfy` (`Organizer`): `organize`, as a fold of one step per entry over a snapshot of the directory listing, followed by the log flush.
- `cli.dfy` (`Cli`): `main`, its two early exits and the hand-off to `organize`.

The abstract filesystem works as follows:

- A path exists when it is a file or a directory.
- A move takes a file path out of the file set and puts the destination in.
- Creating a category directory adds it to the directory set.

Some inputs that the program gets from the environment are parameters of the model:

- the listing of the target directory, as a sequence of entry names;
- whether each move succeeds, as one boolean per entry;
- whether writing the log file succeeds;
- how the first argument becomes a path.

The model keeps two known quirks of the program unchanged:

- A dry run resolves every destination against the unchanged filesystem. Two entries can therefore be planned onto the same path: with `Documents/file.txt` present, `file.txt` and `file (1).txt` both preview to `Documents/file (1).txt`. In apply mode the first move is visible, so the second file goes to `Documents/file (1) (1).txt`.
- A name ending in a dot, such as `notes.`, has no extension, so it goes to `Others`. It is still renamed as `notes (1).`, because renaming splits at the last dot whatever follows it.

Only the last extension counts: `archive.tar.gz` has extension `gz` and therefore goes to `Archives`.

## Model

| member | source | states |
|---|---|---|
| Extension.FileExtension | fileorganizer.java:183-187 | The extension contains no dot. It is empty exactly when the name has no dot or ends with one. Otherwise it is the suffix that immediately follows a dot. |
| Extension.ExtensionIsAfterLastDot | fileorganizer.java:183-187 | Any non-empty, dot-free suffix that follows a dot is the extension; this pins the result down uniquely. |
| Extension.FileExtensionLower | fileorganizer.java:121 | Lower-casing the name and then taking the extension gives the lower-cased extension. |
| Extension.Examples | fileorganizer.java:183-187 | `archive.tar.gz` gives `gz`, `.bashrc` gives `bashrc`, and `notes.` and `README` give the empty string. |
| Categories.FirstMatch | fileorganizer.java:176-179 | The lookup finds nothing exactly when no category of the table lists the extension. Otherwise it returns the first category, in table order, that lists it. |
| Categories.DefaultTableDisjoint | fileorganizer.java:53-57 | No extension is listed by two categories of the default table. |
| Categories.DefaultTableWellFormed | fileorganizer.java:53-57 | Every extension of the default table is non-empty, dot-free and lower-case, as the lookup of a lower-cased extension needs. |
| Categories.CategoryOfExtension | fileorganizer.java:174-180 | The empty extension has no category. An extension has none exactly when no category lists it. Otherwise the result is the name of the first category, in table order, that lists it. |
| Categories.OwnerIsFound | fileorganizer.java:174-180 | An extension listed by category k is looked up to exactly that category's name. |
| Categories.Classify | fileorganizer.java:121-125 | A file is always put in a table category or in `Others`. |
| Categories.ClassifyKnown | fileorganizer.java:121-125 | A file whose lower-cased extension is listed by category k goes to category k. |
| Categories.ClassifyOthers | fileorganizer.java:121-125 | A file goes to `Others` exactly when no category lists its lower-cased extension; an empty extension always does. |
| Categories.ClassifyIgnoresCase | fileorganizer.java:121 | Names that are equal up to letter case go to the same category. |
| Categories.ClassifyUpperJpg | fileorganizer.java:121-125 | `PHOTO.JPG` and `b.JPG` both go to `Images`. |
| Categories.ClassifyTarGz | fileorganizer.java:121-125 | `archive.tar.gz` goes to `Archives`. |
| Categories.ClassifyNotesTxt | fileorganizer.java:121-125 | `notes.txt` goes to `Documents`. |
| Categories.ClassifyDocuments | fileorganizer.java:121-125 | Every name ending in `.txt` goes to `Documents`, whatever precedes the last dot. |
| Categories.ClassifyNoExtension | fileorganizer.java:121-125 | `README` and `notes.` go to `Others`. |
| UniquePath.SplitName | fileorganizer.java:193-196 | Base and extension concatenate back to the name. The extension is empty exactly when there is no dot. Otherwise it starts with the dot and contains no further dot. |
| UniquePath.SplitNameAtLastDot | fileorganizer.java:194-196 | A name is split exactly before a dot that is followed by no other dot. |
| UniquePath.SuffixedName | fileorganizer.java:202 | The renaming `base (n)ext` is strictly longer than the name it renames. |
| UniquePath.RenamingKeepsExtension | fileorganizer.java:193-202 | A renamed file keeps its extension: splitting `base (n)ext` at its last dot gives back `ext`. |
| UniquePath.Candidate | fileorganizer.java:202-203 | The nth candidate lies in the destination's directory and has a name different from the destination's. |
| UniquePath.CandidateOfSplit | fileorganizer.java:193-203 | For a name `base ext` whose `ext` starts with its last dot, the nth candidate is `base (n)ext` in the same directory. |
| UniquePath.SuffixedNameInjective | fileorganizer.java:202 | Different counters give different candidate names. |
| UniquePath.Probe | fileorganizer.java:198-205 | Searching from counter n, when candidates 1 to n-1 exist, returns the candidate for the least free counter, which is at least n. |
| UniquePath.TakenBound | fileorganizer.java:201-205 | If candidates 1 to n-1 all exist, then n is at most one more than the number of existing paths, which bounds the search. |
| UniquePath.ResolveUniquePath | fileorganizer.java:190-207 | The result never exists and lies in the same directory. It is the destination itself when that is free. Otherwise it is the candidate `base (n)ext` for the least n ≥ 1 whose candidate is free. |
| UniquePath.ResolveUniquePathLoop | fileorganizer.java:190-207 | The do-while loop as written terminates and returns the same path as the function. |
| UniquePath.SecondCollisionExample | fileorganizer.java:198-206 | With `file.txt` and `file (1).txt` present and `file (2).txt` free, `file.txt` resolves to `file (2).txt`. |
| UniquePath.TrailingDotExample | fileorganizer.java:194-202 | `notes.` is renamed `notes (1).`. |
| UniquePath.ResolvesToFirstRenaming | fileorganizer.java:191-206 | When the destination exists but its first renaming does not, the first renaming is returned. |
| UniquePath.DryRunCollision | fileorganizer.java:190-207 | Against the same filesystem, `file.txt` (taken) and `file (1).txt` (free) resolve to the same path `file (1).txt`. |
| UniquePath.ApplyAfterFirstMove | fileorganizer.java:190-207 | Once `file (1).txt` exists, it resolves to `file (1) (1).txt`. |
| Strings.Lower | fileorganizer.java:80 | Lower-casing keeps the length and lower-cases each character on its own. |
| Strings.LowerIsLower | fileorganizer.java:118-121 | A lower-cased string has no upper-case letter, and lower-casing an already lower-case string leaves it unchanged. |
| Strings.NatToDecimal | fileorganizer.java:202 | The rendering of a counter is a non-empty string of digits without a leading zero; it starts with `0` only for zero. |
| Strings.DecimalRoundTrip | fileorganizer.java:202 | Reading back the decimal rendering of a counter gives the counter. |
| Strings.LastIndexOf | fileorganizer.java:184 | The result is -1 or an index holding the character, and no later index holds it. |
| Strings.LastIndexOfAbsent | fileorganizer.java:194-196 | The last index is -1 exactly when the character does not occur. |
| Flags.StepFlag | fileorganizer.java:80-82 | A run flag, in any letter case, selects apply; a dry flag that is not also a run flag selects dry-run; any other argument keeps the mode. |
| Flags.FoldFlags | fileorganizer.java:76-83 | With no recognised flag the mode is apply. Otherwise a last argument that is a run flag gives apply, and one that is a dry flag gives dry-run. |
| Flags.LastFlagWins | fileorganizer.java:78-82 | The loop ends in dry-run mode exactly when some dry flag is followed by no recognised flag. In particular the default is apply, and unrecognised arguments are ignored. |
| Flags.FlagsIgnoreCase | fileorganizer.java:80 | Argument lists equal up to letter case select the same mode. |
| Flags.ParseArgs | fileorganizer.java:70-83 | No argument means the usage path. Otherwise the directory is the first argument, and the mode is dry-run exactly when the last recognised flag is a dry flag. |
| Flags.ParseDryFlag | fileorganizer.java:75-83 | The loop as written leaves `dry` true exactly when the last recognised flag is a dry flag. |
| Flags.FlagExamples | fileorganizer.java:75-83 | No flag gives apply, and `--DRY` gives dry-run. |
| Flags.RunOverridesDryExample | fileorganizer.java:79-83 | `--dry --run` gives apply: the later run flag overrides the dry flag. |
| Flags.UnrecognisedArgumentIgnored | fileorganizer.java:79-83 | Appending an argument that is neither a dry nor a run flag, in any letter case, leaves the mode unchanged. |
| Organizer.SkipsLogFileAndDirectories | fileorganizer.java:117-118 | An entry that is a directory, or whose name is `organizer.log` in any letter case, is neither recorded nor moved. |
| Organizer.Step | fileorganizer.java:115-156 | Directories and the log file, in any letter case, are skipped without change. Any other entry gets one appended record with its own source and, as destination, the collision-free path for its name inside its category directory, resolved against the filesystem as it stands at that step, earlier moves included: the name itself when free, otherwise the least free `base (n)ext`. A move happens only in apply mode, when the move succeeds, the source is a file and the category path is a directory; it then replaces the source by the destination. Dry-run changes nothing. In apply mode a missing category directory is created for every processed entry, whatever happens to the move, and no other directory is. |
| Organizer.StepConservesFiles | fileorganizer.java:131-151 | A step never changes the number of files: a move never lands on an existing path. |
| Organizer.StepFrame | fileorganizer.java:127-156 | A step leaves every other existing top-level entry as it was. |
| Organizer.Pass | fileorganizer.java:114-158 | The loop keeps earlier records as a prefix and adds at most one record per entry. Dry-run leaves the filesystem unchanged, and directories are never removed. |
| Organizer.PassSources | fileorganizer.java:115-134 | The added records' sources are, in listing order, exactly the entries that are neither directories nor the log file. |
| Organizer.PassShapes | fileorganizer.java:117-131 | Every added record has a top-level source that is not the log file and a destination directly inside that file's category directory. |
| Organizer.PassCreatesOnlyCategoryDirs | fileorganizer.java:137-144 | The only directories created are category directories directly under the target. |
| Organizer.PassFiles | fileorganizer.java:151 | The files afterwards are the files before, less the moved sources, plus their destinations. |
| Organizer.PassConservesFiles | fileorganizer.java:131-151 | A pass never changes the number of files. |
| Organizer.PassKeepsWellFormed | fileorganizer.java:137-156 | No path becomes both a file and a directory. |
| Organizer.PassKeepsConsistent | fileorganizer.java:131-151 | Every moved file has left its source and sits at its destination, and no two moves share a destination. |
| Organizer.PassMakesCategoryDirs | fileorganizer.java:137-144 | In apply mode, when no plain file has a category name, every processed entry's category path is a directory after the pass, whether or not its move succeeded. |
| Organizer.PassMovesAll | fileorganizer.java:137-156 | In apply mode, when every move succeeds and no plain file has a category name, every processed entry is moved. |
| Organizer.ApplyLeavesOnlyLogFiles | fileorganizer.java:115-156 | After a successful apply pass over a complete listing, the only top-level files left are log files. |
| Organizer.NothingLeftToMove | fileorganizer.java:117-118 | A pass over a directory whose only top-level files are log files changes nothing and records nothing. |
| Organizer.DryPassResolvesAgainstInput | fileorganizer.java:131-148 | In a dry run, each added record is unmoved, and its destination is resolved against the filesystem the pass started from. |
| Organizer.Organize | fileorganizer.java:107-171 | There is one log line `src -> dest` per record. A dry run changes nothing and writes no log. A log file is written exactly in apply mode when writing succeeds and no directory of that name is in the way; it then holds exactly the lines. |
| Organizer.OrganizeKeepsWellFormed | fileorganizer.java:137-167 | A run never makes a path both a file and a directory. |
| Organizer.OrganizeLogsEachProcessedEntry | fileorganizer.java:115-134 | The log has exactly one line per processed entry, in listing order, and it is kept whether or not the move succeeded. Each line names the entry and a destination in its category directory. |
| Organizer.DryRunResolvesAgainstInput | fileorganizer.java:131-148 | A dry run plans every processed entry against the filesystem as it was before the run, and moves nothing. |
| Organizer.ApplyLosesNoFile | fileorganizer.java:150-167 | In apply mode the files afterwards are the files before, less the moved sources, plus their destinations and any log file written. Their number grows only by a newly created log file. |
| Organizer.ApplyMovesAreSettled | fileorganizer.java:151 | In apply mode every moved file is off the top level and at its own destination, and no two moves share one. |
| Organizer.SecondApplyMovesNothing | fileorganizer.java:115-156 | A second apply run after a complete, successful first run processes, logs and moves nothing. |
| Cli.Run | fileorganizer.java:70-96 | No argument gives exit status 1. A first argument that is not an existing directory gives exit status 2. Otherwise the result is one organizing run over that directory, in dry-run mode exactly when the last recognised flag asks for it. |
| Cli.PreviewChangesNothing | fileorganizer.java:75-96 | When the last recognised flag is a dry flag, an organizing run leaves the filesystem exactly as it was and writes no log file. |
| Cli.DirectoryAloneApplies | fileorganizer.java:75-96 | With only a directory argument the run is in apply mode. The log file is written exactly when writing succeeds and no directory of that name is in the way. |

## Left out

- Real I/O is not modelled. `Files.exists`, `Files.isDirectory`, `Files.move`, `Files.createDirectories`, the directory stream and `toAbsolutePath` act on an abstract filesystem of path sets.
- The directory stream is a fixed listing taken before the loop. The program iterates a live stream that its own moves alter, and that concurrency-like behaviour is not modelled.
- Why a move fails is not modelled. Each move outcome is an input; a move also fails when its source is no longer a file or its category path is a plain file.
- Organizer.Step: `Files.createDirectories` is assumed to succeed. If it throws, the real run aborts, and `main` prints the error and returns.
- Organizer.Organize: the log file is only the sequence of lines. The timestamped header, the buffered writer and the reason a write fails are left out; a write failure is an input.
- Organizer.OrganizeLogsEachProcessedEntry: log lines render paths relative to the model's root. They are not `toAbsolutePath` strings.
- Cli.Run: how the first argument becomes a path is a parameter. Console output, the usage text and the error messages are left out; only the exit status is kept.
- Strings.Lower: Java's `toLowerCase` and `equalsIgnoreCase` are locale- and Unicode-aware; the model lower-cases ASCII letters only.
- UniquePath.ResolveUniquePath: the counter is an unbounded natural. Java's `int` counter would wrap after 2^31 - 1 collisions.
- `REPLACE_EXISTING` on the move is not relied on. Destinations are proved fresh, so it never has an effect.
