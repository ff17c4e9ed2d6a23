/**
 * The project search of `src/main.rs`: `walk_dir` scans one root, `find`
 * scans the roots until one holds the named project, `load_all_projects`
 * concatenates every root's projects.
 *
 * Each of the three is a method with the source's loop, proved equal to a
 * specification function (`WalkResult`, `FindResult`, `LoadAllResult`); the
 * lemmas below say what those functions mean.
 */
module Search {
  import opened Wrappers
  import opened Paths
  import opened FileSystem

  // ---------------------------------------------------------------------
  // One root
  // ---------------------------------------------------------------------

  /** The paths of the directory entries, in enumeration order. */
  function DirPaths(entries: seq<Entry>): seq<Path> {
    if |entries| == 0 then []
    else (if entries[0].Dir? then [entries[0].path] else []) + DirPaths(entries[1..])
  }

  /** `e` is a directory whose file name is the same path as `target`. */
  predicate IsMatch(e: Entry, target: Path) {
    e.Dir? && SamePath(e.name, target)
  }

  /** No entry before position `i` matches `target`. */
  predicate NoMatchBefore(entries: seq<Entry>, target: Path, i: int)
    requires 0 <= i <= |entries|
  {
    forall j :: 0 <= j < i ==> !IsMatch(entries[j], target)
  }

  /** The path of the first directory entry whose file name is `target`. */
  function FirstMatch(entries: seq<Entry>, target: Path): Option<Path> {
    if |entries| == 0 then None
    else if IsMatch(entries[0], target) then Some(entries[0].path)
    else FirstMatch(entries[1..], target)
  }

  /** What `walk_dir(dir, find)` returns. */
  function WalkResult(readDir: ReadDir, dir: Path, find: Option<Path>): (r: Result<seq<Path>, IoError>)
    ensures r.Err? <==> readDir(dir).ReadDirFailed?
    ensures r.Ok? && find.Some? ==> |r.value| <= 1
  {
    match readDir(dir)
    case ReadDirFailed(e) => Err(e)
    case Listed(entries) =>
      match find
      case None => Ok(DirPaths(entries))
      case Some(target) =>
        match FirstMatch(entries, target)
        case None => Ok([])
        case Some(p) => Ok([p])
  }

  /** `walk_dir`: one pass over the entries of `dir`, stopping at the first match when a name is sought. */
  method WalkDir(readDir: ReadDir, dir: Path, find: Option<Path>) returns (r: Result<seq<Path>, IoError>)
    ensures r == WalkResult(readDir, dir, find)
  {
    var listing := readDir(dir);
    if listing.ReadDirFailed? {
      return Err(listing.err);
    }
    var entries := listing.entries;
    var found: seq<Path> := [];
    var i := 0;
    while i < |entries|
      invariant 0 <= i <= |entries|
      invariant find.None? ==> found == DirPaths(entries[..i])
      invariant find.Some? ==> found == [] && FirstMatch(entries[..i], find.value) == None
    {
      var dent := entries[i];
      DirPathsStep(entries, i);
      // Unreadable entries, failed metadata and non-directories are all skipped.
      if dent.Dir? {
        if find.Some? {
          if SamePath(dent.name, find.value) {
            found := found + [dent.path];
            MatchStep(entries, i, find.value);
            assert found == [dent.path];
            assert readDir(dir) == Listed(entries);
            assert WalkResult(readDir, dir, find) == Ok([dent.path]);
            return Ok(found);
          }
        } else {
          found := found + [dent.path];
        }
      }
      if find.Some? {
        NoMatchStep(entries, i, find.value);
      }
      i := i + 1;
    }
    assert entries[..i] == entries;
    return Ok(found);
  }

  /** One more entry adds its path to a full scan exactly when it is a directory. */
  lemma DirPathsStep(entries: seq<Entry>, i: int)
    requires 0 <= i < |entries|
    ensures DirPaths(entries[..i + 1]) == DirPaths(entries[..i]) + (if entries[i].Dir? then [entries[i].path] else [])
  {
    assert entries[..i + 1] == entries[..i] + [entries[i]];
    DirPathsAppend(entries[..i], [entries[i]]);
  }

  /** After a prefix without a match, a non-matching entry keeps the prefix free of matches. */
  lemma NoMatchStep(entries: seq<Entry>, i: int, target: Path)
    requires 0 <= i < |entries| && FirstMatch(entries[..i], target) == None && !IsMatch(entries[i], target)
    ensures FirstMatch(entries[..i + 1], target) == None
  {
    assert entries[..i + 1] == entries[..i] + [entries[i]];
    FirstMatchAppend(entries[..i], [entries[i]], target);
  }

  /** After a prefix without a match, a matching entry is the first match of the whole listing. */
  lemma MatchStep(entries: seq<Entry>, i: int, target: Path)
    requires 0 <= i < |entries| && FirstMatch(entries[..i], target) == None && IsMatch(entries[i], target)
    ensures FirstMatch(entries, target) == Some(entries[i].path)
  {
    assert entries == entries[..i] + entries[i..];
    FirstMatchAppend(entries[..i], entries[i..], target);
  }

  /** Scanning two runs of entries one after the other yields the directories of both, in order. */
  lemma {:induction false} DirPathsAppend(a: seq<Entry>, b: seq<Entry>)
    ensures DirPaths(a + b) == DirPaths(a) + DirPaths(b)
    decreases |a|
  {
    if |a| == 0 {
      assert a + b == b;
    } else {
      assert (a + b)[1..] == a[1..] + b;
      DirPathsAppend(a[1..], b);
    }
  }

  /** A path is listed exactly when some entry is a directory with that path. */
  lemma {:induction false} DirPathsMembers(entries: seq<Entry>, p: Path)
    ensures p in DirPaths(entries) <==> exists i :: 0 <= i < |entries| && entries[i].Dir? && entries[i].path == p
    decreases |entries|
  {
    if |entries| > 0 {
      DirPathsMembers(entries[1..], p);
      if p in DirPaths(entries[1..]) {
        var i :| 0 <= i < |entries[1..]| && entries[1..][i].Dir? && entries[1..][i].path == p;
        assert entries[i + 1] == entries[1..][i];
      }
      if exists i :: 0 <= i < |entries| && entries[i].Dir? && entries[i].path == p {
        var i :| 0 <= i < |entries| && entries[i].Dir? && entries[i].path == p;
        if i > 0 {
          assert entries[1..][i - 1] == entries[i];
        }
      }
    }
  }

  /** Unreadable entries, entries whose metadata fails and non-directories are skipped without a trace. */
  lemma SkippedEntryIgnored(a: seq<Entry>, e: Entry, b: seq<Entry>)
    requires !e.Dir?
    ensures DirPaths(a + [e] + b) == DirPaths(a + b)
  {
    DirPathsAppend(a + [e], b);
    DirPathsAppend(a, [e]);
    DirPathsAppend(a, b);
  }

  /** A match among the first entries wins; otherwise the search goes on into the rest. */
  lemma {:induction false} FirstMatchAppend(a: seq<Entry>, b: seq<Entry>, target: Path)
    ensures FirstMatch(a + b, target) == if FirstMatch(a, target).Some? then FirstMatch(a, target) else FirstMatch(b, target)
    decreases |a|
  {
    if |a| == 0 {
      assert a + b == b;
    } else {
      assert (a + b)[0] == a[0];
      assert (a + b)[1..] == a[1..] + b;
      FirstMatchAppend(a[1..], b, target);
    }
  }

  /** Once a match is found, the entries after it do not affect the result: they are never examined. */
  lemma FirstMatchIgnoresLater(a: seq<Entry>, b: seq<Entry>, target: Path)
    requires FirstMatch(a, target).Some?
    ensures FirstMatch(a + b, target) == FirstMatch(a, target)
  {
    FirstMatchAppend(a, b, target);
  }

  /** The position of the first matching entry, or `|entries|` if none matches. */
  function MatchIndex(entries: seq<Entry>, target: Path): (k: nat)
    ensures k <= |entries| && NoMatchBefore(entries, target, k)
    ensures k < |entries| ==> IsMatch(entries[k], target)
  {
    if |entries| == 0 then 0
    else if IsMatch(entries[0], target) then 0
    else
      var k := MatchIndex(entries[1..], target);
      assert forall j :: 0 < j < k + 1 ==> entries[j] == entries[1..][j - 1];
      k + 1
  }

  /** `FirstMatch` is the path of the entry at `MatchIndex`, and nothing when that index is past the end. */
  lemma {:induction false} FirstMatchAtIndex(entries: seq<Entry>, target: Path)
    ensures var k := MatchIndex(entries, target);
      FirstMatch(entries, target) == if k < |entries| then Some(entries[k].path) else None
    decreases |entries|
  {
    if |entries| > 0 && !IsMatch(entries[0], target) {
      FirstMatchAtIndex(entries[1..], target);
      var k := MatchIndex(entries[1..], target);
      if k < |entries[1..]| {
        assert entries[1..][k] == entries[k + 1];
      }
    }
  }

  /** `FirstMatch` yields `p` exactly when entry `i` matches, has path `p`, and no entry before `i` matches. */
  lemma {:induction false} FirstMatchSome(entries: seq<Entry>, target: Path, p: Path)
    ensures FirstMatch(entries, target) == Some(p) <==>
      exists i :: 0 <= i < |entries| && IsMatch(entries[i], target) && entries[i].path == p && NoMatchBefore(entries, target, i)
  {
    FirstMatchAtIndex(entries, target);
    var k := MatchIndex(entries, target);
    if exists i :: 0 <= i < |entries| && IsMatch(entries[i], target) && entries[i].path == p && NoMatchBefore(entries, target, i) {
      var i :| 0 <= i < |entries| && IsMatch(entries[i], target) && entries[i].path == p && NoMatchBefore(entries, target, i);
      assert i == k;
    }
  }

  /** `FirstMatch` yields nothing exactly when no directory entry matches. */
  lemma {:induction false} FirstMatchNone(entries: seq<Entry>, target: Path)
    ensures FirstMatch(entries, target) == None <==> NoMatchBefore(entries, target, |entries|)
  {
    FirstMatchAtIndex(entries, target);
    var k := MatchIndex(entries, target);
    if k < |entries| {
      assert IsMatch(entries[k], target);
    }
  }

  /** The first match is one of the directories a full scan lists. */
  lemma {:induction false} FirstMatchIsListed(entries: seq<Entry>, target: Path, p: Path)
    requires FirstMatch(entries, target) == Some(p)
    ensures p in DirPaths(entries)
  {
    FirstMatchSome(entries, target, p);
    var i :| 0 <= i < |entries| && IsMatch(entries[i], target) && entries[i].path == p && NoMatchBefore(entries, target, i);
    DirPathsMembers(entries, p);
  }

  // ---------------------------------------------------------------------
  // find
  // ---------------------------------------------------------------------

  /** Root `loc` lists without error and holds no directory named `name`. */
  predicate RootClear(readDir: ReadDir, loc: Path, name: Path) {
    readDir(loc).Listed? && FirstMatch(readDir(loc).entries, name) == None
  }

  /** Every root before position `i` lists without error and holds no match. */
  predicate ClearBefore(readDir: ReadDir, locs: seq<Path>, name: Path, i: int)
    requires 0 <= i <= |locs|
  {
    forall j :: 0 <= j < i ==> RootClear(readDir, locs[j], name)
  }

  /** What `find(locs, name)` returns. */
  function FindResult(readDir: ReadDir, locs: seq<Path>, name: Path): Result<Option<Path>, IoError> {
    if |locs| == 0 then Ok(None)
    else
      match WalkResult(readDir, locs[0], Some(name))
      case Err(e) => Err(e)
      case Ok(found) =>
        if |found| > 0 then Ok(Some(found[0])) else FindResult(readDir, locs[1..], name)
  }

  /** Roots that list without a match can be dropped from the front without changing the result. */
  lemma {:induction false} FindSkipsClearPrefix(readDir: ReadDir, locs: seq<Path>, name: Path, i: int)
    requires 0 <= i <= |locs| && ClearBefore(readDir, locs, name, i)
    ensures FindResult(readDir, locs, name) == FindResult(readDir, locs[i..], name)
    decreases i
  {
    if i > 0 {
      assert RootClear(readDir, locs[0], name);
      assert ClearBefore(readDir, locs[1..], name, i - 1) by {
        forall j | 0 <= j < i - 1 ensures RootClear(readDir, locs[1..][j], name) {
          assert locs[1..][j] == locs[j + 1];
        }
      }
      FindSkipsClearPrefix(readDir, locs[1..], name, i - 1);
      assert locs[1..][i - 1..] == locs[i..];
    }
  }

  /** `find`: scan the roots in order, returning the first root's match; a listing error aborts the search. */
  method Find(readDir: ReadDir, locs: seq<Path>, name: string) returns (r: Result<Option<Path>, IoError>)
    ensures r == FindResult(readDir, locs, name)
  {
    for i := 0 to |locs|
      invariant ClearBefore(readDir, locs, name, i)
    {
      var walked := WalkDir(readDir, locs[i], Some(name));
      FindSkipsClearPrefix(readDir, locs, name, i);
      assert locs[i..][0] == locs[i];
      if walked.Err? {
        return Err(walked.error);
      }
      var found := walked.value;
      if |found| > 0 {
        return Ok(Some(found[0]));
      }
    }
    FindSkipsClearPrefix(readDir, locs, name, |locs|);
    return Ok(None);
  }

  /** `find` returns `p` exactly when some root holds `p` as its first match and every root before it lists cleanly without one. */
  lemma {:induction false} FindFound(readDir: ReadDir, locs: seq<Path>, name: Path, p: Path)
    ensures FindResult(readDir, locs, name) == Ok(Some(p)) <==>
      exists i :: 0 <= i < |locs| && ClearBefore(readDir, locs, name, i) &&
        readDir(locs[i]).Listed? && FirstMatch(readDir(locs[i]).entries, name) == Some(p)
  {
    var k := DecidingRoot(readDir, locs, name);
    FindSkipsClearPrefix(readDir, locs, name, k);
    if k < |locs| {
      assert locs[k..][0] == locs[k];
    }
    if exists i :: 0 <= i < |locs| && ClearBefore(readDir, locs, name, i) &&
        readDir(locs[i]).Listed? && FirstMatch(readDir(locs[i]).entries, name) == Some(p)
    {
      var i :| 0 <= i < |locs| && ClearBefore(readDir, locs, name, i) &&
        readDir(locs[i]).Listed? && FirstMatch(readDir(locs[i]).entries, name) == Some(p);
      assert !RootClear(readDir, locs[i], name);
      assert i == k;
    }
  }

  /** `find` returns nothing exactly when every root lists cleanly and none holds a match. */
  lemma {:induction false} FindNothing(readDir: ReadDir, locs: seq<Path>, name: Path)
    ensures FindResult(readDir, locs, name) == Ok(None) <==> ClearBefore(readDir, locs, name, |locs|)
  {
    var k := DecidingRoot(readDir, locs, name);
    FindSkipsClearPrefix(readDir, locs, name, k);
    if k < |locs| {
      assert locs[k..][0] == locs[k];
      assert !RootClear(readDir, locs[k], name);
    }
  }

  /** `find` fails with `e` exactly when some root fails to list with `e` and every root before it lists cleanly without a match. */
  lemma {:induction false} FindFails(readDir: ReadDir, locs: seq<Path>, name: Path, e: IoError)
    ensures FindResult(readDir, locs, name) == Err(e) <==>
      exists i :: 0 <= i < |locs| && ClearBefore(readDir, locs, name, i) && readDir(locs[i]) == ReadDirFailed(e)
  {
    var k := DecidingRoot(readDir, locs, name);
    FindSkipsClearPrefix(readDir, locs, name, k);
    if k < |locs| {
      assert locs[k..][0] == locs[k];
    }
    if exists i :: 0 <= i < |locs| && ClearBefore(readDir, locs, name, i) && readDir(locs[i]) == ReadDirFailed(e) {
      var i :| 0 <= i < |locs| && ClearBefore(readDir, locs, name, i) && readDir(locs[i]) == ReadDirFailed(e);
      assert !RootClear(readDir, locs[i], name);
      assert i == k;
    }
  }

  /** Once the roots seen so far decide the search, roots after them are never read: whatever they hold, the result stays. */
  lemma FindIgnoresLaterRoots(readDir: ReadDir, locs: seq<Path>, more: seq<Path>, name: Path)
    requires FindResult(readDir, locs, name) != Ok(None)
    ensures FindResult(readDir, locs + more, name) == FindResult(readDir, locs, name)
  {
    var k := DecidingRoot(readDir, locs, name);
    FindSkipsClearPrefix(readDir, locs, name, k);
    assert k < |locs|;
    assert ClearBefore(readDir, locs + more, name, k) by {
      forall j | 0 <= j < k ensures RootClear(readDir, (locs + more)[j], name) {
        assert (locs + more)[j] == locs[j];
      }
    }
    FindSkipsClearPrefix(readDir, locs + more, name, k);
    assert (locs + more)[k..][0] == locs[k..][0] == locs[k];
  }

  /** The first root that does not list cleanly without a match (or `|locs|` if there is none). */
  function DecidingRoot(readDir: ReadDir, locs: seq<Path>, name: Path): (k: nat)
    ensures k <= |locs| && ClearBefore(readDir, locs, name, k)
    ensures k < |locs| ==> !RootClear(readDir, locs[k], name)
  {
    if |locs| == 0 then 0
    else if !RootClear(readDir, locs[0], name) then 0
    else
      var k := DecidingRoot(readDir, locs[1..], name);
      assert forall j :: 0 < j < k + 1 ==> locs[j] == locs[1..][j - 1];
      k + 1
  }

  // ---------------------------------------------------------------------
  // load_all_projects
  // ---------------------------------------------------------------------

  /** The error of the first root whose listing fails, if any. */
  function FirstFailure(readDir: ReadDir, locs: seq<Path>): Option<IoError> {
    if |locs| == 0 then None
    else if readDir(locs[0]).ReadDirFailed? then Some(readDir(locs[0]).err)
    else FirstFailure(readDir, locs[1..])
  }

  /** The concatenation, in root order, of what `walk_dir(root, None)` returns for each root. */
  function AllProjects(readDir: ReadDir, locs: seq<Path>): seq<Path> {
    if |locs| == 0 then []
    else WalkResult(readDir, locs[0], None).GetOr([]) + AllProjects(readDir, locs[1..])
  }

  /** What `load_all_projects(locs)` returns: the first listing error, or else every root's projects. */
  function LoadAllResult(readDir: ReadDir, locs: seq<Path>): Result<seq<Path>, IoError> {
    match FirstFailure(readDir, locs)
    case Some(e) => Err(e)
    case None => Ok(AllProjects(readDir, locs))
  }

  lemma {:induction false} FirstFailureAppend(readDir: ReadDir, a: seq<Path>, b: seq<Path>)
    ensures FirstFailure(readDir, a + b) == if FirstFailure(readDir, a).Some? then FirstFailure(readDir, a) else FirstFailure(readDir, b)
    decreases |a|
  {
    if |a| == 0 {
      assert a + b == b;
    } else {
      assert (a + b)[0] == a[0];
      assert (a + b)[1..] == a[1..] + b;
      FirstFailureAppend(readDir, a[1..], b);
    }
  }

  /** The projects of two runs of roots are those of the first run followed by those of the second. */
  lemma {:induction false} AllProjectsAppend(readDir: ReadDir, a: seq<Path>, b: seq<Path>)
    ensures AllProjects(readDir, a + b) == AllProjects(readDir, a) + AllProjects(readDir, b)
    decreases |a|
  {
    if |a| == 0 {
      assert a + b == b;
    } else {
      assert (a + b)[0] == a[0];
      assert (a + b)[1..] == a[1..] + b;
      AllProjectsAppend(readDir, a[1..], b);
    }
  }

  /** `load_all_projects`: append every root's directories, giving up on the first listing error. */
  method LoadAllProjects(readDir: ReadDir, locs: seq<Path>) returns (r: Result<seq<Path>, IoError>)
    ensures r == LoadAllResult(readDir, locs)
  {
    var all: seq<Path> := [];
    for i := 0 to |locs|
      invariant FirstFailure(readDir, locs[..i]) == None
      invariant all == AllProjects(readDir, locs[..i])
    {
      var found := WalkDir(readDir, locs[i], None);
      assert locs[..i + 1] == locs[..i] + [locs[i]];
      FirstFailureAppend(readDir, locs[..i], [locs[i]]);
      AllProjectsAppend(readDir, locs[..i], [locs[i]]);
      if found.Err? {
        FirstFailureAppend(readDir, locs[..i + 1], locs[i + 1..]);
        assert locs[..i + 1] + locs[i + 1..] == locs;
        return Err(found.error);
      }
      all := all + found.value;
    }
    assert locs[..|locs|] == locs;
    return Ok(all);
  }

  /** `load_all_projects` fails with `e` exactly when some root fails to list with `e` and every root before it lists. */
  lemma {:induction false} LoadAllFails(readDir: ReadDir, locs: seq<Path>, e: IoError)
    ensures LoadAllResult(readDir, locs) == Err(e) <==>
      exists i :: 0 <= i < |locs| && readDir(locs[i]) == ReadDirFailed(e) &&
        forall j :: 0 <= j < i ==> readDir(locs[j]).Listed?
    decreases |locs|
  {
    if |locs| > 0 {
      LoadAllFails(readDir, locs[1..], e);
      var tl := locs[1..];
      if readDir(locs[0]).Listed? {
        if LoadAllResult(readDir, locs) == Err(e) {
          var k :| 0 <= k < |tl| && readDir(tl[k]) == ReadDirFailed(e) && forall j :: 0 <= j < k ==> readDir(tl[j]).Listed?;
          assert locs[k + 1] == tl[k];
          forall j | 0 <= j < k + 1 ensures readDir(locs[j]).Listed? {
            if j > 0 { assert locs[j] == tl[j - 1]; }
          }
        }
        if exists i :: 0 <= i < |locs| && readDir(locs[i]) == ReadDirFailed(e) && forall j :: 0 <= j < i ==> readDir(locs[j]).Listed? {
          var i :| 0 <= i < |locs| && readDir(locs[i]) == ReadDirFailed(e) && forall j :: 0 <= j < i ==> readDir(locs[j]).Listed?;
          assert i > 0;
          assert tl[i - 1] == locs[i];
          forall j | 0 <= j < i - 1 ensures readDir(tl[j]).Listed? {
            assert tl[j] == locs[j + 1];
          }
        }
      } else {
        if exists i :: 0 <= i < |locs| && readDir(locs[i]) == ReadDirFailed(e) && forall j :: 0 <= j < i ==> readDir(locs[j]).Listed? {
          var i :| 0 <= i < |locs| && readDir(locs[i]) == ReadDirFailed(e) && forall j :: 0 <= j < i ==> readDir(locs[j]).Listed?;
          assert i == 0;
        }
      }
    }
  }

  /** `load_all_projects` succeeds exactly when every root lists, and then yields the concatenation of the roots' directories. */
  lemma {:induction false} LoadAllSucceeds(readDir: ReadDir, locs: seq<Path>)
    ensures LoadAllResult(readDir, locs).Ok? <==> forall i :: 0 <= i < |locs| ==> readDir(locs[i]).Listed?
    ensures LoadAllResult(readDir, locs).Ok? ==> LoadAllResult(readDir, locs).value == AllProjects(readDir, locs)
    decreases |locs|
  {
    if |locs| > 0 {
      LoadAllSucceeds(readDir, locs[1..]);
      var tl := locs[1..];
      if forall i :: 0 <= i < |locs| ==> readDir(locs[i]).Listed? {
        forall i | 0 <= i < |tl| ensures readDir(tl[i]).Listed? {
          assert tl[i] == locs[i + 1];
        }
      }
      if LoadAllResult(readDir, locs).Ok? {
        forall i | 0 <= i < |locs| ensures readDir(locs[i]).Listed? {
          if i > 0 { assert locs[i] == tl[i - 1]; }
        }
      }
    }
  }

  /** When both halves load, loading their concatenation yields the concatenation of the results. */
  lemma LoadAllAppend(readDir: ReadDir, a: seq<Path>, b: seq<Path>)
    requires LoadAllResult(readDir, a).Ok? && LoadAllResult(readDir, b).Ok?
    ensures LoadAllResult(readDir, a + b) == Ok(LoadAllResult(readDir, a).value + LoadAllResult(readDir, b).value)
  {
    FirstFailureAppend(readDir, a, b);
    AllProjectsAppend(readDir, a, b);
  }

  /** A path is among all projects exactly when some root holds a directory entry with that path. */
  lemma {:induction false} AllProjectsMembers(readDir: ReadDir, locs: seq<Path>, p: Path)
    ensures p in AllProjects(readDir, locs) <==>
      exists i :: 0 <= i < |locs| && readDir(locs[i]).Listed? && p in DirPaths(readDir(locs[i]).entries)
    decreases |locs|
  {
    if |locs| > 0 {
      AllProjectsMembers(readDir, locs[1..], p);
      var tl := locs[1..];
      if p in AllProjects(readDir, tl) {
        var k :| 0 <= k < |tl| && readDir(tl[k]).Listed? && p in DirPaths(readDir(tl[k]).entries);
        assert locs[k + 1] == tl[k];
      }
      if exists i :: 0 <= i < |locs| && readDir(locs[i]).Listed? && p in DirPaths(readDir(locs[i]).entries) {
        var i :| 0 <= i < |locs| && readDir(locs[i]).Listed? && p in DirPaths(readDir(locs[i]).entries);
        if i > 0 { assert tl[i - 1] == locs[i]; }
      }
    }
  }

  /** When every root loads, `find` cannot fail, and what it finds is one of the listed projects. */
  lemma FindWithinAllProjects(readDir: ReadDir, locs: seq<Path>, name: Path)
    requires LoadAllResult(readDir, locs).Ok?
    ensures FindResult(readDir, locs, name).Ok?
    ensures FindResult(readDir, locs, name).value.Some? ==>
      FindResult(readDir, locs, name).value.value in LoadAllResult(readDir, locs).value
  {
    LoadAllSucceeds(readDir, locs);
    var r := FindResult(readDir, locs, name);
    if r.Err? {
      FindFails(readDir, locs, name, r.error);
    } else if r.value.Some? {
      var p := r.value.value;
      FindFound(readDir, locs, name, p);
      var i :| 0 <= i < |locs| && ClearBefore(readDir, locs, name, i) &&
        readDir(locs[i]).Listed? && FirstMatch(readDir(locs[i]).entries, name) == Some(p);
      FirstMatchIsListed(readDir(locs[i]).entries, name, p);
      AllProjectsMembers(readDir, locs, p);
    }
  }

  /** A match in the first root is returned even if a later root cannot be listed, while loading all projects fails. */
  lemma FindSucceedsWhereLoadAllFails()
    ensures var readDir: ReadDir := (p: Path) => if p == "/a" then Listed([File("x"), Dir("proj", "/a/proj")]) else ReadDirFailed(IoError(13));
      FindResult(readDir, ["/a", "/b"], "proj") == Ok(Some("/a/proj")) &&
      LoadAllResult(readDir, ["/a", "/b"]) == Err(IoError(13))
  {
    var readDir: ReadDir := (p: Path) => if p == "/a" then Listed([File("x"), Dir("proj", "/a/proj")]) else ReadDirFailed(IoError(13));
    var entries := [File("x"), Dir("proj", "/a/proj")];
    assert FirstMatch(entries, "proj") == Some("/a/proj") by {
      assert !IsMatch(entries[0], "proj");
      assert entries[1..] == [Dir("proj", "/a/proj")];
    }
    assert ["/a", "/b"][1..] == ["/b"];
  }
}
