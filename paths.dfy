/**
 * The parts of Rust's `std::path` semantics (on a Unix platform) that the
 * search relies on: splitting a string on a separator, breaking a path into
 * components, comparing two paths for equality and ordering them.
 *
 * `Path == PathBuf` and `PathBuf::cmp` do not compare the raw strings: both
 * compare the paths' component sequences, so `"proj/"` equals `"proj"` and
 * `"/a/b"` sorts before `"/a-b"`.
 */
module Paths {

  type Path = string

  // ---------------------------------------------------------------------
  // Splitting on a separator (`str::split` with a one-character pattern)
  // ---------------------------------------------------------------------

  /** The pieces of `s` between occurrences of `sep`, in order; an empty string yields one empty piece. */
  function Split(s: string, sep: char): (pieces: seq<string>)
    ensures |pieces| == Count(s, sep) + 1
    ensures forall i :: 0 <= i < |pieces| ==> sep !in pieces[i]
    decreases |s|
  {
    if |s| == 0 then [""]
    else
      var rest := Split(s[1..], sep);
      if s[0] == sep then [""] + rest
      else [[s[0]] + rest[0]] + rest[1..]
  }

  /** The number of occurrences of `c` in `s`. */
  function Count(s: string, c: char): nat
    decreases |s|
  {
    if |s| == 0 then 0 else (if s[0] == c then 1 else 0) + Count(s[1..], c)
  }

  /** The pieces written out with `sep` between consecutive pieces. */
  function Join(pieces: seq<string>, sep: char): string
    requires |pieces| > 0
  {
    if |pieces| == 1 then pieces[0] else pieces[0] + [sep] + Join(pieces[1..], sep)
  }

  /** Joining the pieces of a split gives back the original string. */
  lemma {:induction false} JoinSplit(s: string, sep: char)
    ensures Join(Split(s, sep), sep) == s
    decreases |s|
  {
    if |s| > 0 {
      JoinSplit(s[1..], sep);
      var rest := Split(s[1..], sep);
      if s[0] == sep {
        assert s == [s[0]] + s[1..];
      } else if |rest| == 1 {
        assert s == [s[0]] + s[1..];
      } else {
        var head := [s[0]] + rest[0];
        var pieces := [head] + rest[1..];
        assert pieces[1..] == rest[1..];
        assert Join(rest, sep) == rest[0] + [sep] + Join(rest[1..], sep);
        assert s == [s[0]] + s[1..];
      }
    }
  }

  /** Splitting a piece free of `sep` that is followed by more text puts the piece in front of the first piece of the rest. */
  lemma {:induction false} SplitPrefix(p: string, t: string, sep: char)
    requires sep !in p
    ensures Split(p + t, sep) == [p + Split(t, sep)[0]] + Split(t, sep)[1..]
    decreases |p|
  {
    if |p| > 0 {
      assert (p + t)[1..] == p[1..] + t;
      assert (p + t)[0] == p[0];
      SplitPrefix(p[1..], t, sep);
      assert [p[0]] + (p[1..] + Split(t, sep)[0]) == p + Split(t, sep)[0];
    } else {
      assert p + t == t;
      assert p + Split(t, sep)[0] == Split(t, sep)[0];
    }
  }

  /** A piece free of `sep` followed by `sep` splits off as the first piece. */
  lemma SplitAtSeparator(p: string, t: string, sep: char)
    requires sep !in p
    ensures Split(p + [sep] + t, sep) == [p] + Split(t, sep)
  {
    assert p + [sep] + t == p + ([sep] + t);
    SplitPrefix(p, [sep] + t, sep);
    assert ([sep] + t)[1..] == t;
    assert p + "" == p;
  }

  /** A string free of `sep` is a single piece. */
  lemma SplitWithoutSeparator(p: string, sep: char)
    requires sep !in p
    ensures Split(p, sep) == [p]
  {
    SplitPrefix(p, "", sep);
    assert p + "" == p;
  }

  /** Splitting the join of `sep`-free pieces gives back exactly those pieces. */
  lemma {:induction false} SplitJoin(pieces: seq<string>, sep: char)
    requires |pieces| > 0
    requires forall i :: 0 <= i < |pieces| ==> sep !in pieces[i]
    ensures Split(Join(pieces, sep), sep) == pieces
    decreases |pieces|
  {
    if |pieces| == 1 {
      SplitPrefix(pieces[0], "", sep);
      assert pieces[0] + "" == pieces[0];
    } else {
      var tail := [sep] + Join(pieces[1..], sep);
      assert Join(pieces, sep) == pieces[0] + tail;
      SplitPrefix(pieces[0], tail, sep);
      SplitJoin(pieces[1..], sep);
      assert tail[1..] == Join(pieces[1..], sep);
      assert Split(tail, sep) == [""] + pieces[1..];
      assert pieces[0] + "" == pieces[0];
      assert pieces == [pieces[0]] + pieces[1..];
    }
  }

  // ---------------------------------------------------------------------
  // Components (`Path::components` on Unix)
  // ---------------------------------------------------------------------

  /** `std::path::Component` without the Windows-only `Prefix`, in the declared (and derived `Ord`) order. */
  datatype Component = RootDir | CurDir | ParentDir | Normal(name: string)

  /** A name `Path::components` can yield as a `Normal` component. */
  predicate IsNormalName(s: string) {
    s != "" && s != "." && s != ".." && '/' !in s
  }

  /** What one separator-free piece of the body contributes: nothing for `""` and `"."`. */
  function BodyComponents(pieces: seq<string>): (cs: seq<Component>)
    requires forall i :: 0 <= i < |pieces| ==> '/' !in pieces[i]
    ensures forall i :: 0 <= i < |cs| ==> cs[i].ParentDir? || (cs[i].Normal? && IsNormalName(cs[i].name))
    ensures |cs| <= |pieces|
  {
    if |pieces| == 0 then []
    else
      var rest := BodyComponents(pieces[1..]);
      if pieces[0] == "" || pieces[0] == "." then rest
      else if pieces[0] == ".." then [ParentDir] + rest
      else [Normal(pieces[0])] + rest
  }

  /**
   * The components of `p`: a leading `/` is `RootDir`; otherwise a leading
   * `"."` piece is `CurDir`; after that, empty and `"."` pieces vanish,
   * `".."` is `ParentDir` and every other piece is `Normal`.
   */
  function Components(p: Path): (cs: seq<Component>)
    ensures forall i :: 0 < i < |cs| ==> cs[i].ParentDir? || (cs[i].Normal? && IsNormalName(cs[i].name))
    ensures |cs| > 0 && cs[0].Normal? ==> IsNormalName(cs[0].name)
    ensures (|cs| > 0 && cs[0] == RootDir) <==> (|p| > 0 && p[0] == '/')
  {
    var pieces := Split(p, '/');
    if |p| > 0 && p[0] == '/' then
      [RootDir] + BodyComponents(pieces[1..])
    else if pieces[0] == "." then
      [CurDir] + BodyComponents(pieces[1..])
    else
      BodyComponents(pieces)
  }

  /** `Path` equality in Rust: the two paths have the same components. */
  predicate SamePath(a: Path, b: Path) {
    Components(a) == Components(b)
  }

  /** A file name is its own single `Normal` component. */
  lemma NormalNameComponents(name: string)
    requires IsNormalName(name)
    ensures Components(name) == [Normal(name)]
  {
    SplitPrefix(name, "", '/');
    assert name + "" == name;
  }

  /** A file name and a target are the same path exactly when the target's only component is that name. */
  lemma NameMatchesIff(name: string, target: Path)
    requires IsNormalName(name)
    ensures SamePath(name, target) <==> Components(target) == [Normal(name)]
  {
    NormalNameComponents(name);
  }

  /** Splitting a string with one more trailing separator yields one more, empty, piece. */
  lemma {:induction false} SplitSnocSep(s: string, sep: char)
    ensures Split(s + [sep], sep) == Split(s, sep) + [""]
    decreases |s|
  {
    if |s| == 0 {
      assert s + [sep] == [sep];
    } else {
      assert (s + [sep])[1..] == s[1..] + [sep];
      SplitSnocSep(s[1..], sep);
    }
  }

  /** Empty pieces at the end of the body contribute nothing. */
  lemma {:induction false} BodyComponentsSnocEmpty(pieces: seq<string>)
    requires forall i :: 0 <= i < |pieces| ==> '/' !in pieces[i]
    ensures BodyComponents(pieces + [""]) == BodyComponents(pieces)
    decreases |pieces|
  {
    if |pieces| == 0 {
      assert pieces + [""] == [""];
    } else {
      assert (pieces + [""])[1..] == pieces[1..] + [""];
      BodyComponentsSnocEmpty(pieces[1..]);
    }
  }

  /** A trailing separator does not change a non-empty path: `"proj/"` and `"proj"` are the same path. */
  lemma TrailingSeparatorIgnored(p: Path)
    requires p != ""
    ensures SamePath(p + "/", p)
  {
    var pieces := Split(p, '/');
    SplitSnocSep(p, '/');
    assert Split(p + "/", '/') == pieces + [""];
    assert (p + "/")[0] == p[0];
    assert (pieces + [""])[0] == pieces[0];
    assert (pieces + [""])[1..] == pieces[1..] + [""];
    BodyComponentsSnocEmpty(pieces);
    BodyComponentsSnocEmpty(pieces[1..]);
  }

  // ---------------------------------------------------------------------
  // Ordering (`Ord for PathBuf`)
  // ---------------------------------------------------------------------

  /** Lexicographic order of strings by character; for Unicode scalar values this is the byte order of their UTF-8 encodings. */
  predicate StringLess(x: string, y: string)
    decreases |x|
  {
    if |x| == 0 then |y| > 0
    else if |y| == 0 then false
    else if x[0] == y[0] then StringLess(x[1..], y[1..])
    else x[0] < y[0]
  }

  /** The position of a component's variant in the declaration of `Component`. */
  function Rank(c: Component): nat {
    match c
    case RootDir => 0
    case CurDir => 1
    case ParentDir => 2
    case Normal(_) => 3
  }

  /** The derived order on components: by variant, then `Normal` names by string order. */
  predicate ComponentLess(a: Component, b: Component) {
    if Rank(a) != Rank(b) then Rank(a) < Rank(b)
    else a.Normal? && StringLess(a.name, b.name)
  }

  /** Lexicographic order on component sequences (`Iterator::cmp`). */
  predicate ComponentsLess(x: seq<Component>, y: seq<Component>)
    decreases |x|
  {
    if |x| == 0 then |y| > 0
    else if |y| == 0 then false
    else if x[0] == y[0] then ComponentsLess(x[1..], y[1..])
    else ComponentLess(x[0], y[0])
  }

  /** `a <= b` as `PathBuf` orders them. */
  predicate PathLe(a: Path, b: Path) {
    !ComponentsLess(Components(b), Components(a))
  }

  lemma {:induction false} StringLessTrichotomy(x: string, y: string)
    ensures StringLess(x, y) || x == y || StringLess(y, x)
    ensures !(StringLess(x, y) && StringLess(y, x))
    decreases |x|
  {
    if |x| > 0 && |y| > 0 {
      StringLessTrichotomy(x[1..], y[1..]);
      if x[0] == y[0] && x[1..] == y[1..] {
        assert x == [x[0]] + x[1..] && y == [y[0]] + y[1..];
      }
    }
  }

  lemma {:induction false} StringLessTransitive(x: string, y: string, z: string)
    requires StringLess(x, y) && StringLess(y, z)
    ensures StringLess(x, z)
    decreases |x|
  {
    if |x| > 0 && x[0] == y[0] && y[0] == z[0] {
      StringLessTransitive(x[1..], y[1..], z[1..]);
    }
  }

  lemma ComponentLessTrichotomy(a: Component, b: Component)
    ensures ComponentLess(a, b) || a == b || ComponentLess(b, a)
    ensures !(ComponentLess(a, b) && ComponentLess(b, a))
  {
    if a.Normal? && b.Normal? {
      StringLessTrichotomy(a.name, b.name);
    }
  }

  lemma ComponentLessTransitive(a: Component, b: Component, c: Component)
    requires ComponentLess(a, b) && ComponentLess(b, c)
    ensures ComponentLess(a, c)
  {
    if a.Normal? && b.Normal? && c.Normal? {
      StringLessTransitive(a.name, b.name, c.name);
    }
  }

  lemma {:induction false} ComponentsLessTrichotomy(x: seq<Component>, y: seq<Component>)
    ensures ComponentsLess(x, y) || x == y || ComponentsLess(y, x)
    ensures !(ComponentsLess(x, y) && ComponentsLess(y, x))
    decreases |x|
  {
    if |x| > 0 && |y| > 0 {
      ComponentsLessTrichotomy(x[1..], y[1..]);
      ComponentLessTrichotomy(x[0], y[0]);
      if x[0] == y[0] && x[1..] == y[1..] {
        assert x == [x[0]] + x[1..] && y == [y[0]] + y[1..];
      }
    }
  }

  lemma {:induction false} ComponentsLessTransitive(x: seq<Component>, y: seq<Component>, z: seq<Component>)
    requires ComponentsLess(x, y) && ComponentsLess(y, z)
    ensures ComponentsLess(x, z)
    decreases |x|
  {
    if |x| > 0 {
      if x[0] == y[0] && y[0] == z[0] {
        ComponentsLessTransitive(x[1..], y[1..], z[1..]);
      } else if x[0] == y[0] {
        assert ComponentLess(y[0], z[0]);
      } else if y[0] == z[0] {
        assert ComponentLess(x[0], y[0]);
      } else {
        ComponentLessTransitive(x[0], y[0], z[0]);
        ComponentLessTrichotomy(x[0], z[0]);
        if x[0] == z[0] {
          ComponentLessTrichotomy(x[0], y[0]);
        }
      }
    }
  }

  /** Any two paths are ordered one way or the other. */
  lemma PathLeTotal(a: Path, b: Path)
    ensures PathLe(a, b) || PathLe(b, a)
  {
    ComponentsLessTrichotomy(Components(a), Components(b));
  }

  /** The path order is transitive. */
  lemma PathLeTransitive(a: Path, b: Path, c: Path)
    requires PathLe(a, b) && PathLe(b, c)
    ensures PathLe(a, c)
  {
    var ca, cb, cc := Components(a), Components(b), Components(c);
    ComponentsLessTrichotomy(ca, cb);
    if ComponentsLess(cc, ca) {
      if ca == cb {
        assert false;
      } else {
        ComponentsLessTransitive(cc, ca, cb);
        assert false;
      }
    }
  }

  /** Two paths are each at most the other exactly when they are the same path. */
  lemma PathLeAntisymmetric(a: Path, b: Path)
    ensures (PathLe(a, b) && PathLe(b, a)) <==> SamePath(a, b)
  {
    ComponentsLessTrichotomy(Components(a), Components(b));
  }
}
