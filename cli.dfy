/**
 * What `main` does once the arguments are parsed: print the roots
 * (`--dirs`), print every project sorted (`--list`), or print the shell
 * fragment that enters the named project. Standard output is modelled as
 * the text the process writes; a failed `unwrap()` of an I/O result is a
 * panic carrying the error.
 */
module Cli {
  import opened Wrappers
  import opened Paths
  import opened FileSystem
  import opened Search
  import opened Locations

  /** The parsed command line: `--dirs`, `--list` and the optional `PROJECT-NAME`. */
  datatype Args = Args(dirs: bool, list: bool, find: Option<string>)

  /** How a run ends: normally, having written `stdout`, or in a panic on an I/O error before writing anything. */
  datatype Outcome = Completed(stdout: string) | Panicked(error: IoError)

  // ---------------------------------------------------------------------
  // Printing lines
  // ---------------------------------------------------------------------

  /** The text `println!` writes for each line in turn. */
  function Lines(lines: seq<string>): string {
    if |lines| == 0 then "" else lines[0] + "\n" + Lines(lines[1..])
  }

  lemma {:induction false} LinesAppend(a: seq<string>, b: seq<string>)
    ensures Lines(a + b) == Lines(a) + Lines(b)
    decreases |a|
  {
    if |a| == 0 {
      assert a + b == b;
    } else {
      assert (a + b)[0] == a[0];
      assert (a + b)[1..] == a[1..] + b;
      LinesAppend(a[1..], b);
    }
  }

  /** The printed lines are the lines, each followed by a line break. */
  lemma {:induction false} LinesAsJoin(lines: seq<string>)
    ensures Lines(lines) == Join(lines + [""], '\n')
    decreases |lines|
  {
    if |lines| > 0 {
      LinesAsJoin(lines[1..]);
      assert (lines + [""])[1..] == lines[1..] + [""];
    }
  }

  /** Reading the printed text back line by line gives the lines again (and an empty remainder). */
  lemma LinesRoundTrip(lines: seq<string>)
    requires forall i :: 0 <= i < |lines| ==> '\n' !in lines[i]
    ensures Split(Lines(lines), '\n') == lines + [""]
  {
    LinesAsJoin(lines);
    SplitJoin(lines + [""], '\n');
  }

  /** The `for ... { println!(...) }` loops of the `--dirs` and `--list` branches. */
  method PrintLines(lines: seq<string>) returns (out: string)
    ensures out == Lines(lines)
  {
    out := "";
    for i := 0 to |lines|
      invariant out == Lines(lines[..i])
    {
      assert lines[..i + 1] == lines[..i] + [lines[i]];
      LinesAppend(lines[..i], [lines[i]]);
      out := out + lines[i] + "\n";
    }
    assert lines[..|lines|] == lines;
  }

  // ---------------------------------------------------------------------
  // The --list branch: projects sorted by the path order
  // ---------------------------------------------------------------------

  /** Every path is at most every later one. */
  predicate SortedPaths(s: seq<Path>) {
    forall i, j :: 0 <= i < j < |s| ==> PathLe(s[i], s[j])
  }

  /** `x` inserted before the first element it is at most. */
  function Insert(x: Path, s: seq<Path>): (r: seq<Path>)
    ensures multiset(r) == multiset(s) + multiset{x}
  {
    if |s| == 0 then [x]
    else if PathLe(x, s[0]) then [x] + s
    else
      assert s == [s[0]] + s[1..];
      [s[0]] + Insert(x, s[1..])
  }

  lemma {:induction false} InsertSorted(x: Path, s: seq<Path>)
    requires SortedPaths(s)
    ensures SortedPaths(Insert(x, s))
    decreases |s|
  {
    if |s| > 0 {
      if PathLe(x, s[0]) {
        PrependSorted(x, s);
      } else {
        PathLeTotal(x, s[0]);
        InsertSorted(x, s[1..]);
        var t := Insert(x, s[1..]);
        forall k | 0 <= k < |t| ensures PathLe(s[0], t[k]) {
          BoundsInserted(x, s, t[k]);
        }
        PrependSorted(s[0], t);
      }
    }
  }

  /** A path at most the first of a sorted sequence can go in front of it. */
  lemma PrependSorted(x: Path, s: seq<Path>)
    requires SortedPaths(s)
    requires |s| > 0 ==> PathLe(x, s[0])
    ensures SortedPaths([x] + s)
  {
    forall j | 0 < j < |s| ensures PathLe(x, s[j]) {
      PathLeTransitive(x, s[0], s[j]);
    }
    assert forall j :: 1 <= j < |s| + 1 ==> ([x] + s)[j] == s[j - 1];
  }

  /** The first of a sorted sequence is at most `x` and at most everything inserted with it. */
  lemma {:induction false} BoundsInserted(x: Path, s: seq<Path>, y: Path)
    requires SortedPaths(s) && |s| > 0 && PathLe(s[0], x)
    requires y in multiset(Insert(x, s[1..]))
    ensures PathLe(s[0], y)
  {
    if y != x {
      assert y in multiset(s[1..]);
      var m :| 0 <= m < |s[1..]| && s[1..][m] == y;
      assert s[m + 1] == y;
    }
  }

  /** `projs.sort()`: the projects in path order. */
  function SortPaths(s: seq<Path>): (r: seq<Path>)
    ensures SortedPaths(r)
    ensures multiset(r) == multiset(s)
  {
    if |s| == 0 then []
    else
      var rest := SortPaths(s[1..]);
      InsertSorted(s[0], rest);
      assert s == [s[0]] + s[1..];
      Insert(s[0], rest)
  }

  // ---------------------------------------------------------------------
  // emit_shell
  // ---------------------------------------------------------------------

  /** The fixed lines after `cd`: source each rc file that exists. */
  const RcSourcing: string := "for i in  /etc/srcrrrc $HOME/.srcrrrc .srcrrrc ;\ndo\n\ttest -f $i && . $i ;\ndone\n"

  /** Everything `emit_shell` prints after the directory. */
  const ShellTail: string := ";\n" + RcSourcing + "\n"

  /** The text `emit_shell(dir)` prints: the format string with the directory substituted, and `println!`'s line break. */
  function EmitShell(dir: Path): string {
    "cd " + dir + ShellTail
  }

  /** The directory a shell fragment enters, if the text has the form `emit_shell` prints. */
  function ShellDir(text: string): Option<Path> {
    if |text| >= 3 + |ShellTail| && text[..3] == "cd " && text[|text| - |ShellTail|..] == ShellTail
    then Some(text[3..|text| - |ShellTail|])
    else None
  }

  /** The fragment starts with `cd <dir>;` and continues with exactly the rc-sourcing lines. */
  lemma EmitShellShape(dir: Path)
    ensures var text := EmitShell(dir);
      |text| == |"cd " + dir + ";"| + 1 + |RcSourcing| + 1 &&
      text[..|"cd " + dir + ";"|] == "cd " + dir + ";" &&
      text[|"cd " + dir + ";"|..] == "\n" + RcSourcing + "\n"
  {
    var text := EmitShell(dir);
    assert text == ("cd " + dir + ";") + ("\n" + RcSourcing + "\n");
  }

  /** The directory can be read back from the fragment. */
  lemma ShellDirEmit(dir: Path)
    ensures ShellDir(EmitShell(dir)) == Some(dir)
  {
    var text := EmitShell(dir);
    assert text == "cd " + dir + ShellTail;
    assert text[..3] == "cd ";
    assert text[|text| - |ShellTail|..] == ShellTail;
    assert text[3..|text| - |ShellTail|] == dir;
  }

  /** Any text from which a directory can be read back is the fragment for that directory. */
  lemma ShellDirSound(text: string, dir: Path)
    requires ShellDir(text) == Some(dir)
    ensures EmitShell(dir) == text
  {
    assert text == text[..3] + text[3..|text| - |ShellTail|] + text[|text| - |ShellTail|..];
  }

  /** Different directories give different fragments. */
  lemma EmitShellInjective(a: Path, b: Path)
    requires EmitShell(a) == EmitShell(b)
    ensures a == b
  {
    ShellDirEmit(a);
    ShellDirEmit(b);
  }

  // ---------------------------------------------------------------------
  // main
  // ---------------------------------------------------------------------

  /**
   * `main` after argument parsing: `--dirs` wins over `--list`, which wins
   * over a project name. The `unwrap()`s of an I/O result become `Panicked`.
   */
  method Run(args: Args, srcpath: string, present: Present, readDir: ReadDir) returns (o: Outcome)
    requires args.dirs || args.list || args.find.Some?
    ensures args.dirs ==> o == Completed(Lines(SearchRoots(srcpath, present)))
    ensures !args.dirs && args.list ==>
      o == match LoadAllResult(readDir, SearchRoots(srcpath, present))
           case Err(e) => Panicked(e)
           case Ok(all) => Completed(Lines(SortPaths(all)))
    ensures !args.dirs && !args.list ==>
      o == match FindResult(readDir, SearchRoots(srcpath, present), args.find.value)
           case Err(e) => Panicked(e)
           case Ok(None) => Completed("")
           case Ok(Some(dir)) => Completed(EmitShell(dir))
  {
    var locations := SearchRoots(srcpath, present);
    if args.dirs {
      var out := PrintLines(locations);
      return Completed(out);
    }
    if args.list {
      var projs := LoadAllProjects(readDir, locations);
      if projs.Err? {
        return Panicked(projs.error);
      }
      var out := PrintLines(SortPaths(projs.value));
      return Completed(out);
    }
    var found := Find(readDir, locations, args.find.value);
    if found.Err? {
      return Panicked(found.error);
    }
    match found.value {
      case Some(dir) => return Completed(EmitShell(dir));
      case None => return Completed("");
    }
  }
}
