/**
 * The search roots: the value of `SRCPATH`, split on `:`, keeping only the
 * pieces for which `fs::metadata` succeeds, in their original order.
 */
module Locations {
  import opened Paths
  import opened FileSystem

  /** `a` can be obtained from `b` by deleting elements. */
  predicate IsSubsequence(a: seq<string>, b: seq<string>)
    decreases |b|
  {
    if |a| == 0 then true
    else if |b| == 0 then false
    else (a[0] == b[0] && IsSubsequence(a[1..], b[1..])) || IsSubsequence(a, b[1..])
  }

  /** The `filter(|s| fs::metadata(s).is_ok())` step: the pieces that exist, in order. */
  function KeepPresent(pieces: seq<string>, present: Present): (kept: seq<Path>)
    ensures forall i :: 0 <= i < |kept| ==> present(kept[i])
    ensures IsSubsequence(kept, pieces)
    ensures forall x :: multiset(kept)[x] == if present(x) then multiset(pieces)[x] else 0
  {
    if |pieces| == 0 then []
    else
      var rest := KeepPresent(pieces[1..], present);
      assert pieces == [pieces[0]] + pieces[1..];
      if present(pieces[0]) then
        assert ([pieces[0]] + rest)[1..] == rest;
        [pieces[0]] + rest
      else
        rest
  }

  /** The `locations` vector built from the value of `SRCPATH`. */
  function SearchRoots(srcpath: string, present: Present): seq<Path> {
    KeepPresent(Split(srcpath, ':'), present)
  }

  /** A root is kept exactly when it is one of the `:`-separated pieces and it exists; no kept root contains `:`. */
  lemma {:induction false} SearchRootsMembers(srcpath: string, present: Present, x: Path)
    ensures x in SearchRoots(srcpath, present) <==> x in Split(srcpath, ':') && present(x)
    ensures x in SearchRoots(srcpath, present) ==> ':' !in x
  {
    var pieces := Split(srcpath, ':');
    var roots := SearchRoots(srcpath, present);
    assert x in roots <==> multiset(roots)[x] > 0;
    assert x in pieces <==> multiset(pieces)[x] > 0;
  }

  /** When every piece exists nothing is dropped, and joining the roots with `:` gives back `SRCPATH`. */
  lemma {:induction false} AllPresentKeepsEverything(pieces: seq<string>, present: Present)
    requires forall i :: 0 <= i < |pieces| ==> present(pieces[i])
    ensures KeepPresent(pieces, present) == pieces
    decreases |pieces|
  {
    if |pieces| > 0 {
      AllPresentKeepsEverything(pieces[1..], present);
      assert pieces == [pieces[0]] + pieces[1..];
    }
  }

  /** With every piece present, the roots are exactly `SRCPATH` split on `:`. */
  lemma SearchRootsRoundTrip(srcpath: string, present: Present)
    requires forall s :: present(s)
    ensures Join(SearchRoots(srcpath, present), ':') == srcpath
  {
    AllPresentKeepsEverything(Split(srcpath, ':'), present);
    JoinSplit(srcpath, ':');
  }

  /** `SRCPATH="/a:/b"` where only `/a` exists gives the single root `/a`. */
  lemma MissingRootDropped()
    ensures SearchRoots("/a:/b", (s: Path) => s == "/a") == ["/a"]
  {
    var present: Present := (s: Path) => s == "/a";
    assert Split("/a:/b", ':') == ["/a", "/b"] by {
      assert "/a:/b" == "/a" + [':'] + "/b";
      SplitAtSeparator("/a", "/b", ':');
      SplitWithoutSeparator("/b", ':');
    }
    assert ["/a", "/b"][1..] == ["/b"];
  }
}
