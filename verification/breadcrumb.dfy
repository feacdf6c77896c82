/** The Finder's breadcrumb (`src/components/apps/Finder/Breadcrumb.tsx`):
    the current path cut into its non-empty segments, a Root button, and one
    button per segment that navigates to the path up to and including it. */
module Breadcrumb {
  import opened Seqs
  import opened Strings
  import opened FinderStore

  /** `currentPath.split('/').filter(Boolean)`. */
  function PathParts(path: string): (r: seq<string>)
    ensures forall i :: 0 <= i < |r| ==> r[i] != "" && '/' !in r[i]
  {
    var parts := Filter((x: string) => x != "", Split(path, '/'));
    assert forall i :: 0 <= i < |parts| ==> parts[i] in parts;
    parts
  }

  /** The target of the crumb for segment `i`: `/` and the first `i + 1`
      segments joined by `/`. */
  function CrumbTarget(parts: seq<string>, i: nat): string
    requires i < |parts|
  {
    "/" + Join(parts[..i + 1], '/')
  }

  /** The targets of all crumbs after Root, one per segment. */
  function Crumbs(path: string): (r: seq<string>)
    ensures |r| == |PathParts(path)|
    ensures forall i :: 0 <= i < |r| ==> "/" <= r[i]
  {
    var parts := PathParts(path);
    seq(|parts|, i requires 0 <= i < |parts| => CrumbTarget(parts, i))
  }

  /** Root navigates to `/`. */
  function ClickRoot(s: FinderState): (r: FinderState)
    ensures r.currentPath == "/" && r.(currentPath := s.currentPath) == s
  {
    SetCurrentPath(s, "/")
  }

  /** Clicking crumb `i` navigates to its target and changes nothing else. */
  function ClickCrumb(s: FinderState, i: nat): (r: FinderState)
    requires i < |PathParts(s.currentPath)|
    ensures "/" <= r.currentPath && r.(currentPath := s.currentPath) == s
    ensures r.currentPath == Crumbs(s.currentPath)[i]
  {
    SetCurrentPath(s, CrumbTarget(PathParts(s.currentPath), i))
  }

  /** Each crumb extends the previous one by a slash and its own segment. */
  lemma CrumbStep(parts: seq<string>, i: nat)
    requires i + 1 < |parts|
    ensures CrumbTarget(parts, i + 1) == CrumbTarget(parts, i) + "/" + parts[i + 1]
  {
    assert parts[..i + 2] == parts[..i + 1] + [parts[i + 1]];
    JoinSnoc(parts[..i + 1], parts[i + 1], '/');
  }

  /** The root has no segments, so no crumb after Root. */
  lemma RootHasNoCrumbs()
    ensures PathParts("/") == []
    ensures Crumbs("/") == []
  {
    assert Split("/", '/') == ["", ""];
  }

  /** A canonical path `/s1/.../sn` decomposes into exactly its segments. */
  lemma CanonicalPathParts(segs: seq<string>)
    requires |segs| >= 1
    requires forall i :: 0 <= i < |segs| ==> segs[i] != "" && '/' !in segs[i]
    ensures PathParts("/" + Join(segs, '/')) == segs
  {
    var joined := Join(segs, '/');
    var path := "/" + joined;
    var nonEmpty := (x: string) => x != "";
    SplitJoin(segs, '/');
    assert path[0] == '/' && path[1..] == joined;
    assert Split(path, '/') == [""] + segs;
    FilterConcat(nonEmpty, [""], segs);
    FilterKeepsAll(nonEmpty, segs);
  }

  /** The last crumb of a canonical path leads back to the path itself. */
  lemma CanonicalLastCrumb(segs: seq<string>)
    requires |segs| >= 1
    requires forall i :: 0 <= i < |segs| ==> segs[i] != "" && '/' !in segs[i]
    ensures |Crumbs("/" + Join(segs, '/'))| == |segs|
    ensures Crumbs("/" + Join(segs, '/'))[|segs| - 1] == "/" + Join(segs, '/')
  {
    var path := "/" + Join(segs, '/');
    var n := |segs|;
    CanonicalPathParts(segs);
    assert segs[..n] == segs;
    assert CrumbTarget(segs, n - 1) == path;
    assert Crumbs(path)[n - 1] == CrumbTarget(PathParts(path), n - 1);
  }

  /** Navigating to a crumb is stable: the new path's segments are the
      clicked prefix, so its last crumb is the crumb that was clicked. */
  lemma CrumbNavigationStable(path: string, i: nat)
    requires i < |PathParts(path)|
    ensures PathParts(Crumbs(path)[i]) == PathParts(path)[..i + 1]
    ensures Crumbs(Crumbs(path)[i])[i] == Crumbs(path)[i]
  {
    var parts := PathParts(path);
    var prefix := parts[..i + 1];
    assert forall j :: 0 <= j < |prefix| ==> prefix[j] == parts[j];
    CanonicalPathParts(prefix);
    CanonicalLastCrumb(prefix);
  }
}
