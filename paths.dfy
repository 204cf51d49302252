/**
 * Absolute POSIX paths as sequences of segments: `/` is the empty
 * sequence and `/a/b` is ["a", "b"]. Covers what the pipeline needs of
 * Node's `path` module: `dirname` (and `parse(..).dir`, the same thing on
 * a normalised absolute path), `join` onto an absolute directory, and the
 * rendering of a path as text.
 */
module Paths {
  import opened JsText

  type Path = seq<string>

  /** path.dirname: drop the last segment; the parent of `/` is `/`. */
  function Dirname(p: Path): (d: Path)
    ensures p == [] ==> d == []
    ensures p != [] ==> |d| == |p| - 1 && d == p[..|d|]
  {
    if p == [] then [] else p[..|p| - 1]
  }

  /** A segment `path.normalize` keeps as it is. */
  predicate IsName(seg: string) {
    seg != "" && seg != "." && seg != ".." && '/' !in seg
  }

  /** A normalised absolute path: every segment is a plain name. */
  predicate IsNormal(p: Path) {
    forall i :: 0 <= i < |p| ==> IsName(p[i])
  }

  /** The text of a path: `/` or `/a/b`. */
  function Render(p: Path): (r: string)
    ensures |r| >= 1 && r[0] == '/'
  {
    if p == [] then "/" else Join([""] + p, "/")
  }

  /**
   * Normalisation of the segments of a relative path onto an absolute
   * base: empty and `.` segments are dropped, `..` climbs one level
   * (never above `/`), any other segment descends.
   */
  function Resolve(base: Path, segs: seq<string>): (r: Path)
    ensures IsNormal(base) && (forall i :: 0 <= i < |segs| ==> '/' !in segs[i]) ==> IsNormal(r)
    decreases |segs|
  {
    if |segs| == 0 then base
    else
      var s := segs[0];
      var next := if s == "" || s == "." then base else if s == ".." then Dirname(base) else base + [s];
      Resolve(next, segs[1..])
  }

  /** path.join(root, rel) for an absolute root and a relative text. */
  function JoinPath(root: Path, rel: string): (r: Path)
    ensures IsNormal(root) ==> IsNormal(r)
  {
    Resolve(root, Split(rel, '/'))
  }

  lemma {:induction false} ResolvePlain(base: Path, segs: seq<string>)
    requires forall i :: 0 <= i < |segs| ==> IsName(segs[i])
    ensures Resolve(base, segs) == base + segs
    decreases |segs|
  {
    if |segs| > 0 {
      ResolvePlain(base + [segs[0]], segs[1..]);
      assert base + [segs[0]] + segs[1..] == base + segs;
    }
  }

  /** Joining a path of plain names appends its segments to the root. */
  lemma JoinPathPlain(root: Path, rel: string)
    requires forall i :: 0 <= i < |Split(rel, '/')| ==> IsName(Split(rel, '/')[i])
    ensures JoinPath(root, rel) == root + Split(rel, '/')
  {
    ResolvePlain(root, Split(rel, '/'));
  }

  lemma {:induction false} ResolveWithin(base: Path, segs: seq<string>)
    requires forall i :: 0 <= i < |segs| ==> segs[i] != ".."
    ensures |base| <= |Resolve(base, segs)| && Resolve(base, segs)[..|base|] == base
    decreases |segs|
  {
    if |segs| > 0 {
      var next := if segs[0] == "" || segs[0] == "." then base else base + [segs[0]];
      ResolveWithin(next, segs[1..]);
      assert next[..|base|] == base;
    }
  }

  /** Without `..` segments, a joined path stays inside the root. */
  lemma JoinPathWithin(root: Path, rel: string)
    requires forall i :: 0 <= i < |Split(rel, '/')| ==> Split(rel, '/')[i] != ".."
    ensures |root| <= |JoinPath(root, rel)| && JoinPath(root, rel)[..|root|] == root
  {
    ResolveWithin(root, Split(rel, '/'));
  }

  /** A rendered normalised path below `/` splits on `/` back into its segments. */
  lemma RenderSplit(p: Path)
    requires IsNormal(p) && p != []
    ensures Split(Render(p), '/') == [""] + p
  {
    var parts := [""] + p;
    assert forall i :: 1 <= i < |parts| ==> parts[i] == p[i - 1];
    SplitOfJoin(parts, '/');
  }

  /**
   * The text of a path is the text of its parent, a `/`, and its last
   * segment (or `/` and the segment, when the parent is `/`). The last
   * segment of a normalised path holds no `/`, so the parent's text is
   * everything before the last `/`: what `path.dirname` keeps of the text.
   */
  lemma DirnameRender(p: Path)
    requires p != []
    ensures |p| == 1 ==> Dirname(p) == [] && Render(p) == "/" + p[0]
    ensures |p| >= 2 ==> Render(p) == Render(Dirname(p)) + "/" + p[|p| - 1]
    ensures IsNormal(p) ==> '/' !in p[|p| - 1]
  {
    if |p| >= 2 {
      var up := Dirname(p);
      assert [""] + p == ([""] + up) + [p[|p| - 1]];
      JoinAppend([""] + up, p[|p| - 1], "/");
    } else {
      assert Join([""] + p, "/") == "" + "/" + Join([p[0]], "/");
    }
  }
}
