# srcrr: project-directory search, modelled in Dafny

`srcrr` is a small command-line helper. It reads the colon-separated list of
search roots in `SRCPATH` and keeps the roots that exist. Then it does one of
three things:

- `--dirs` prints the roots, one per line.
- `--list` prints every immediate subdirectory of every root, sorted.
- a `PROJECT-NAME` makes it find the first subdirectory with that name. It
  prints a shell fragment that `cd`s into the directory and sources the
  `srcrrrc` files. It prints nothing if there is no match.

This project models `src/main.rs` apart from argument parsing and the items
listed under "Left out". The filesystem is an input to the model:

- `FileSystem.ReadDir` gives, for every path, either the `read_dir` error or
  the listing. A listing is a sequence of entries in enumeration order.
- Each entry is `Unreadable`, `MetadataFailed`, `File(name)` (anything that is
  not a directory) or `Dir(name, path)`.
- `FileSystem.Present` gives, for every path, whether `fs::metadata` succeeds.

Every lemma except the two examples (`Search.FindSucceedsWhereLoadAllFails`
and `Locations.MissingRootDropped`, which each fix one filesystem) therefore
holds for every possible filesystem contents.

Files:

- `wrappers.dfy`: `Option` and `Result`.
- `paths.dfy`: the Rust `std::path` semantics the program relies on: `str::split`, `Path::components`, path equality and path order.
- `filesystem.dfy`: the abstract filesystem.
- `search.dfy`: `walk_dir`, `find` and `load_all_projects`. Each is a method with the source's loop, proved equal to a specification function (`WalkResult`, `FindResult`, `LoadAllResult`). Lemmas then say what those functions mean.
- `locations.dfy`: building the root list from `SRCPATH`.
- `cli.dfy`: `main`'s three branches, the sort and `emit_shell`.

Two details of Rust semantics are modelled on purpose:

- At src/main.rs:87, `d.path().file_name().unwrap() == name` compares an `&OsStr` with a `&PathBuf`. This compares *paths*, that is, component sequences. So the target `proj/` matches the directory `proj` (`Paths.TrailingSeparatorIgnored`), and a target with two components never matches (`Paths.NameMatchesIff`).
- `Vec<PathBuf>::sort` orders paths by their components, not by their raw strings. `Paths.PathLe` models this order, lexicographic over `Component` in its declared order, and it is proved total and transitive.

This version of srcrr has no `--fzf` or `--prefix` flag, and an unset
`SRCPATH` panics rather than exiting with status 1.

## Model

| member | source | states |
|---|---|---|
| `Search.WalkDir` | src/main.rs:80-99 | the loop over the entries returns exactly `WalkResult`: the `read_dir` error, every directory path when no name is sought, or the first match only |
| `Search.WalkResult` | src/main.rs:80-99 | `walk_dir` fails exactly when `read_dir` of the directory fails, and returns at most one path when a name is sought |
| `Search.DirPaths` | src/main.rs:82-98 | the paths of the `Dir` entries of a listing, in enumeration order (what `walk_dir` collects with no target) |
| `Search.FirstMatch` | src/main.rs:86-90 | the path of the first `Dir` entry whose file name is the same path as the target, or nothing |
| `Search.FindResult` | src/main.rs:70-78 | `find` over the roots in order: the first root's `read_dir` error, the first root's first match, or `Ok(None)` after the last root |
| `Search.LoadAllResult` | src/main.rs:61-68 | `load_all_projects`: the first root's `read_dir` error, or else the concatenation of every root's directory paths |
| `Paths.SamePath` | src/main.rs:87 | Rust path equality: the two paths have the same component sequence |
| `Paths.PathLe` | src/main.rs:48 | the `PathBuf` order: lexicographic over components, `RootDir < CurDir < ParentDir < Normal`, names by character order |
| `Locations.SearchRoots` | src/main.rs:32-37 | the `locations` vector: the `:`-separated pieces of `SRCPATH` for which `fs::metadata` succeeds, in order |
| `Cli.Lines` | src/main.rs:40-42 | the text the `println!` loops write: each line followed by a line break (also lines 49-51) |
| `Cli.EmitShell` | src/main.rs:101-110 | the text `emit_shell` prints: `cd `, the directory, then `ShellTail` (`;`, a line break, the fixed rc-sourcing lines `RcSourcing`, and `println!`'s line break) |
| `Search.DirPathsMembers` | src/main.rs:82-98 | with no target, a path is returned exactly when some entry is a directory with that path |
| `Search.DirPathsAppend` | src/main.rs:82-98 | the no-target scan distributes over concatenation of entry runs, so the directories come out in enumeration order |
| `Search.SkippedEntryIgnored` | src/main.rs:82-96 | unreadable entries, entries whose metadata fails and non-directories can be inserted anywhere without changing the result |
| `Search.MatchIndex` | src/main.rs:82-90 | the position where the scan for a name stops: no entry before it matches, and the entry there matches unless it is past the end |
| `Search.FirstMatchSome` | src/main.rs:86-90 | a target scan returns `p` if and only if `p` is the path of a matching directory entry with no matching entry before it |
| `Search.FirstMatchNone` | src/main.rs:86-98 | a target scan returns nothing if and only if no directory entry matches |
| `Search.FirstMatchIgnoresLater` | src/main.rs:88-89 | after a match, later entries cannot change the result |
| `Search.FirstMatchIsListed` | src/main.rs:84-93 | the path a target scan returns is also among the paths of the no-target scan |
| `Search.Find` | src/main.rs:70-78 | the loop over the roots returns exactly `FindResult` |
| `Search.FindSkipsClearPrefix` | src/main.rs:71-76 | roots that list without error and hold no match can be dropped from the front without changing the result |
| `Search.DecidingRoot` | src/main.rs:71-76 | the first root that fails to list or holds a match; all roots before it list cleanly without a match |
| `Search.FindFound` | src/main.rs:70-75 | `find` returns `Some(p)` if and only if some root's first match is `p` and every earlier root lists without error and without a match |
| `Search.FindNothing` | src/main.rs:71-77 | `find` returns `Ok(None)` if and only if every root lists without error and none holds a match |
| `Search.FindFails` | src/main.rs:71-72 | `find` fails with `e` if and only if some root fails to list with `e` and every earlier root lists without error and without a match |
| `Search.FindIgnoresLaterRoots` | src/main.rs:71-75 | once the given roots decide the search (a match or an error), adding any roots after them leaves the result unchanged |
| `Search.LoadAllProjects` | src/main.rs:61-68 | the loop over the roots returns exactly `LoadAllResult` |
| `Search.FirstFailureAppend` | src/main.rs:63-64 | the first listing error of two runs of roots is that of the first run, if it has one |
| `Search.AllProjectsAppend` | src/main.rs:63-66 | the per-root scans of two runs of roots concatenate in order |
| `Search.LoadAllFails` | src/main.rs:63-64 | `load_all_projects` fails with `e` if and only if some root fails with `e` and every earlier root lists; no partial result is returned |
| `Search.LoadAllSucceeds` | src/main.rs:61-68 | `load_all_projects` succeeds if and only if every root lists, and then returns the in-order concatenation of `walk_dir(root, None)` |
| `Search.LoadAllAppend` | src/main.rs:63-66 | loading two runs of roots that both load gives the concatenation of the two results |
| `Search.AllProjectsMembers` | src/main.rs:61-68 | a path is among all projects if and only if some root lists a directory entry with that path |
| `Search.FindWithinAllProjects` | src/main.rs:61-78 | when every root lists, `find` cannot fail, and any path it finds is one of the listed projects |
| `Search.FindSucceedsWhereLoadAllFails` | src/main.rs:61-78 | an example: a match in the first root is found even though the second root fails to list, while loading all projects fails with that root's error |
| `Paths.Split` | src/main.rs:34 | `split(":")` yields one more piece than there are separators, and no piece contains the separator |
| `Paths.JoinSplit` | src/main.rs:34 | joining the pieces with the separator gives back the original string |
| `Paths.SplitJoin` | src/main.rs:34 | splitting the join of separator-free pieces gives back exactly those pieces |
| `Paths.Components` | src/main.rs:87 | a leading `/` is the root component; after that, components are only `..` and normal names (non-empty, not `.` or `..`, without `/`) |
| `Paths.NameMatchesIff` | src/main.rs:87 | a file name matches the target exactly when the target's only component is that name |
| `Paths.TrailingSeparatorIgnored` | src/main.rs:87 | a trailing `/` does not change a non-empty path, so `proj/` finds the directory `proj` |
| `Paths.PathLeTotal` | src/main.rs:48 | any two paths are comparable under the `PathBuf` order |
| `Paths.PathLeTransitive` | src/main.rs:48 | the `PathBuf` order is transitive |
| `Paths.PathLeAntisymmetric` | src/main.rs:48 | two paths are each at most the other exactly when they have the same components |
| `Locations.KeepPresent` | src/main.rs:35-37 | the kept roots all exist, keep their order (a subsequence), and hold every existing piece as often as it occurs and no other |
| `Locations.SearchRootsMembers` | src/main.rs:32-37 | a root is kept if and only if it is one of the `:`-separated pieces and it exists; no kept root contains `:` |
| `Locations.AllPresentKeepsEverything` | src/main.rs:35 | when every piece exists, nothing is dropped |
| `Locations.SearchRootsRoundTrip` | src/main.rs:32-37 | when every piece exists, joining the roots with `:` gives back `SRCPATH` |
| `Locations.MissingRootDropped` | src/main.rs:32-37 | an example: `SRCPATH="/a:/b"` with only `/a` existing gives the single root `/a` |
| `Cli.PrintLines` | src/main.rs:40-42 | the printing loop writes exactly `Lines` of its input |
| `Cli.LinesRoundTrip` | src/main.rs:49-51 | reading the printed text back line by line gives the printed lines, provided none of them contains a line break |
| `Cli.Insert` | src/main.rs:48 | insertion adds exactly one copy of the element |
| `Cli.InsertSorted` | src/main.rs:48 | inserting into a sorted sequence keeps it sorted |
| `Cli.SortPaths` | src/main.rs:47-48 | the `--list` output is sorted in `PathBuf` order and is a permutation of the loaded projects |
| `Cli.EmitShellShape` | src/main.rs:101-110 | the fragment is `cd <dir>;` followed by the fixed rc-sourcing lines and `println!`'s line break |
| `Cli.ShellDirEmit` | src/main.rs:101-110 | the directory can be read back from the fragment |
| `Cli.ShellDirSound` | src/main.rs:101-110 | any text from which a directory can be read back is exactly the fragment for that directory |
| `Cli.EmitShellInjective` | src/main.rs:101-110 | different directories give different fragments |
| `Cli.Run` | src/main.rs:39-58 | `--dirs` prints the kept roots; otherwise `--list` prints the sorted projects or panics with the first listing error; otherwise a name prints the fragment for `find`'s match, nothing when there is none, and panics on `find`'s error |

## Left out

- Argument parsing with `clap`, `--version`, the help text and `std::process::exit` (src/main.rs:9-30, 43, 52) are library plumbing. They are replaced by the `Cli.Args` record, and the exit status is not modelled.
- `env::var("SRCPATH").unwrap()` at src/main.rs:32-33 panics when the variable is unset, and also when its value is not valid Unicode (`VarError::NotUnicode`). `Cli.Run` and `Locations.SearchRoots` take the value as a Dafny `string`, which cannot represent a non-Unicode value, so both panics are outside the model.
- A missing project name panics at src/main.rs:55 when neither flag is given. This is a precondition of `Cli.Run`.
- `file_name().unwrap()` at src/main.rs:87 cannot fail for an entry `read_dir` yields. A `Dir` entry carries its file name, so there is no panic to model.
- The real filesystem calls (`fs::metadata`, `fs::read_dir`, `DirEntry::metadata`, `d.path()`) are the oracle functions `ReadDir` and `Present`, fixed for one run. OS enumeration order, symlinks and changes between calls are not modelled. An entry's path is taken from the entry; it is not computed as `dir.join(name)`.
- `println!` and `to_string_lossy` are not modelled. Output is modelled as the text written, as a `string`; the conversion from bytes to UTF-8 is not.
- A panic's message and its exit status are not modelled. `Cli.Outcome.Panicked` records the I/O error and that nothing was printed.
- Cli.SortPaths: states a sorted permutation, not that the standard library's stable sort keeps component-equal paths (such as `/x//p` and `/x/p`) in their original order. The algorithm is a functional insertion sort, not the library's in-place sort.
- Cli.Run: models `main`'s dispatch on values. It does not model the order in which lines reach the terminal.
