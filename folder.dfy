/**
 * The folder resolver of request.go (findRequestFolder): the deepest existing
 * folder under the base directory that is a prefix of the request path, with
 * a second pass for the case where the base directory itself is named after
 * the first path segment.
 */
module Folder {
  import opened Wrappers
  import opened Text

  /**
   * What findRequestFolder sees of the disk: the directories under the base
   * directory, each named by its list of path segments relative to it, and
   * the last element of the base directory's absolute path (`None` when
   * `filepath.Abs` fails).
   */
  datatype Tree = Tree(dirs: set<seq<string>>, baseName: Option<string>)

  /** A directory `filepath.Join(base, sub...)`. */
  datatype Dir = Dir(base: string, sub: seq<string>)

  /** The base directory, `.` when none is given. */
  function BaseDir(basedir: string): string {
    if basedir == "" then "." else basedir
  }

  /** The request path without its leading and trailing slashes. */
  function TrimmedPath(path: string): string {
    TrimChar(path, '/')
  }

  /** The largest `i <= n`, `i > 0`, for which `segs[..i]` is an existing directory. */
  function Deepest(segs: seq<string>, dirs: set<seq<string>>, n: nat): (r: Option<nat>)
    requires n <= |segs|
    ensures r.Some? ==> 0 < r.value <= n && segs[..r.value] in dirs
    ensures forall j :: (if r.Some? then r.value else 0) < j <= n ==> segs[..j] !in dirs
    decreases n
  {
    if n == 0 then None
    else if segs[..n] in dirs then Some(n)
    else Deepest(segs, dirs, n - 1)
  }

  /** With no existing prefix up to `n`, the search finds nothing. */
  lemma {:induction false} DeepestNone(segs: seq<string>, dirs: set<seq<string>>, n: nat)
    requires n <= |segs|
    requires forall j :: 0 < j <= n ==> segs[..j] !in dirs
    ensures Deepest(segs, dirs, n).None?
  {
    if n > 0 {
      DeepestNone(segs, dirs, n - 1);
    }
  }

  /** One pass of the search over `segs`: the deepest folder and the rest of the segments. */
  function Pass(base: string, segs: seq<string>, dirs: set<seq<string>>): Option<(Dir, string)> {
    match Deepest(segs, dirs, |segs|)
    case Some(i) => Some((Dir(base, segs[..i]), Join(segs[i..], '/')))
    case None => None
  }

  /** What findRequestFolder returns: the folder for the request and the part of the path below it. */
  function ResolveFolder(tree: Tree, basedir: string, path: string): (Dir, string) {
    var base := BaseDir(basedir);
    var trimmed := TrimmedPath(path);
    if trimmed == "" then (Dir(base, []), "")
    else
      var segs := Split(trimmed, '/');
      match Pass(base, segs, tree.dirs)
      case Some(found) => found
      case None =>
        if tree.baseName.Some? && segs[0] == tree.baseName.value then
          match Pass(base, segs[1..], tree.dirs)
          case Some(found) => found
          case None => (Dir(base, []), Join(segs[1..], '/'))
        else (Dir(base, []), trimmed)
  }

  /** findRequestFolder: two descending searches with early returns. */
  method FindRequestFolder(basedir: string, path: string, tree: Tree) returns (dir: Dir, tail: string)
    ensures (dir, tail) == ResolveFolder(tree, basedir, path)
  {
    var base := basedir;
    if base == "" {
      base := ".";
    }
    var trimmed := TrimChar(path, '/');
    if trimmed == "" {
      return Dir(base, []), "";
    }
    var segments := Split(trimmed, '/');
    var found := SearchFolders(base, segments, tree.dirs);
    if found.Some? {
      return found.value.0, found.value.1;
    }
    if tree.baseName.Some? {
      var currentDir := tree.baseName.value;
      if segments[0] == currentDir {
        var remainingSegments := segments[1..];
        found := SearchFolders(base, remainingSegments, tree.dirs);
        if found.Some? {
          return found.value.0, found.value.1;
        }
        return Dir(base, []), Join(remainingSegments, '/');
      }
    }
    return Dir(base, []), trimmed;
  }

  /**
   * One descending search of findRequestFolder: try `segs[:i]` for `i` from
   * `|segs|` down to 1 and stop at the first existing folder.
   */
  method SearchFolders(base: string, segs: seq<string>, dirs: set<seq<string>>) returns (found: Option<(Dir, string)>)
    ensures found == Pass(base, segs, dirs)
  {
    var i := |segs|;
    while i > 0
      invariant 0 <= i <= |segs|
      invariant Deepest(segs, dirs, |segs|) == Deepest(segs, dirs, i)
    {
      if segs[..i] in dirs {
        return Some((Dir(base, segs[..i]), Join(segs[i..], '/')));
      }
      i := i - 1;
    }
    return None;
  }

  // ---------------------------------------------------------------------------
  // Properties
  // ---------------------------------------------------------------------------

  /** A path of slashes only resolves to the base directory with nothing left over. */
  lemma ResolveEmptyPath(tree: Tree, basedir: string, path: string)
    requires forall i :: 0 <= i < |path| ==> path[i] == '/'
    ensures ResolveFolder(tree, basedir, path) == (Dir(BaseDir(basedir), []), "")
  {
    TrimCharResult(path, '/');
  }

  /** `p` is a non-empty prefix of `segs` that exists as a directory. */
  predicate IsExistingPrefix(p: seq<string>, segs: seq<string>, dirs: set<seq<string>>) {
    0 < |p| <= |segs| && p == segs[..|p|] && p in dirs
  }

  /**
   * When some prefix of the path exists as a folder, the result is the
   * deepest one, and the tail is the rest of the segments joined by `/`.
   */
  lemma ResolveDeepest(tree: Tree, basedir: string, path: string, p: seq<string>)
    requires TrimmedPath(path) != ""
    requires IsExistingPrefix(p, Split(TrimmedPath(path), '/'), tree.dirs)
    ensures var (dir, tail) := ResolveFolder(tree, basedir, path);
      var segs := Split(TrimmedPath(path), '/');
      && dir.base == BaseDir(basedir)
      && IsExistingPrefix(dir.sub, segs, tree.dirs)
      && |p| <= |dir.sub|
      && (forall j :: |dir.sub| < j <= |segs| ==> segs[..j] !in tree.dirs)
      && tail == Join(segs[|dir.sub|..], '/')
  {
    var segs := Split(TrimmedPath(path), '/');
    assert segs[..|p|] in tree.dirs;
  }

  /** No non-empty prefix of `segs` is an existing directory. */
  predicate NoExistingPrefix(segs: seq<string>, dirs: set<seq<string>>) {
    forall j :: 0 < j <= |segs| ==> segs[..j] !in dirs
  }

  /**
   * The second pass runs only when no prefix of the path exists and the first
   * segment is the base directory's own name; it then resolves the remaining
   * segments in the same way, and falls back to all of them as the tail.
   */
  lemma ResolveSecondPass(tree: Tree, basedir: string, path: string)
    requires TrimmedPath(path) != ""
    requires NoExistingPrefix(Split(TrimmedPath(path), '/'), tree.dirs)
    ensures var (dir, tail) := ResolveFolder(tree, basedir, path);
      var segs := Split(TrimmedPath(path), '/');
      var rest := segs[1..];
      && dir.base == BaseDir(basedir)
      && (tree.baseName != Some(segs[0]) ==> dir.sub == [] && tail == TrimmedPath(path))
      && (tree.baseName == Some(segs[0]) ==>
            && (dir.sub == [] || IsExistingPrefix(dir.sub, rest, tree.dirs))
            && (forall j :: |dir.sub| < j <= |rest| ==> rest[..j] !in tree.dirs)
            && dir.sub == rest[..|dir.sub|]
            && tail == Join(rest[|dir.sub|..], '/'))
  {
    var segs := Split(TrimmedPath(path), '/');
    DeepestNone(segs, tree.dirs, |segs|);
    var rest := segs[1..];
    var d2 := Deepest(rest, tree.dirs, |rest|);
    if d2.None? {
      assert rest[..0] == [] && rest[0..] == rest;
    }
  }

  /**
   * A pass that finds a folder leaves exactly the segments below it as the
   * tail; when the last segment is not empty, an empty tail means the folder
   * is all of the segments.
   */
  lemma PassTailSegments(base: string, segs: seq<string>, dirs: set<seq<string>>)
    requires forall k :: 0 <= k < |segs| ==> '/' !in segs[k]
    requires Pass(base, segs, dirs).Some?
    ensures var (dir, tail) := Pass(base, segs, dirs).value;
      && (tail != "" ==> dir.sub + Split(tail, '/') == segs)
      && (tail == "" && segs[|segs| - 1] != "" ==> dir.sub == segs)
  {
    var i := Deepest(segs, dirs, |segs|).value;
    if Join(segs[i..], '/') != "" {
      TailSplit(segs, i);
    } else if i < |segs| {
      JoinLastLength(segs[i..], '/');
      assert segs[i..][|segs| - i - 1] == segs[|segs| - 1];
    } else {
      assert segs[..i] == segs;
    }
  }

  /**
   * The tail holds exactly the segments below the folder, in order; an empty
   * tail means the folder is the whole path (after the base directory's own
   * name, on the second pass).
   */
  lemma ResolveTailSegments(tree: Tree, basedir: string, path: string)
    requires TrimmedPath(path) != ""
    ensures var (dir, tail) := ResolveFolder(tree, basedir, path);
      var segs := Split(TrimmedPath(path), '/');
      && (tail != "" ==>
            (dir.sub + Split(tail, '/') == segs) ||
            (tree.baseName == Some(segs[0]) && [segs[0]] + dir.sub + Split(tail, '/') == segs))
      && (tail == "" ==>
            dir.sub == segs || (tree.baseName == Some(segs[0]) && [segs[0]] + dir.sub == segs))
  {
    var trimmed := TrimmedPath(path);
    var base := BaseDir(basedir);
    var segs := Split(trimmed, '/');
    TrimCharResult(path, '/');
    SplitLastNonEmpty(trimmed, '/');
    if Pass(base, segs, tree.dirs).Some? {
      PassTailSegments(base, segs, tree.dirs);
    } else if tree.baseName.Some? && segs[0] == tree.baseName.value {
      SecondPassTailSegments(base, segs, tree.dirs);
    } else {
      JoinSplit(trimmed, '/');
    }
  }

  /** The second pass over `segs[1..]` leaves the segments below its folder as the tail. */
  lemma SecondPassTailSegments(base: string, segs: seq<string>, dirs: set<seq<string>>)
    requires |segs| > 0
    requires forall k :: 0 <= k < |segs| ==> '/' !in segs[k]
    ensures var (dir, tail) := if Pass(base, segs[1..], dirs).Some? then Pass(base, segs[1..], dirs).value
                              else (Dir(base, []), Join(segs[1..], '/'));
      && (tail != "" ==> [segs[0]] + dir.sub + Split(tail, '/') == segs)
      && (tail == "" && segs[|segs| - 1] != "" ==> [segs[0]] + dir.sub == segs)
  {
    var rest := segs[1..];
    assert [segs[0]] + rest == segs;
    if Pass(base, rest, dirs).Some? {
      PassTailSegments(base, rest, dirs);
      assert rest[|rest| - 1] == segs[|segs| - 1];
    } else if Join(rest, '/') != "" {
      TailSplit(rest, 0);
      assert rest[..0] == [] && rest[0..] == rest;
    } else if |rest| > 0 {
      JoinLastLength(rest, '/');
      assert rest[|rest| - 1] == segs[|segs| - 1];
    }
  }

  /** Splitting the join of the segments after `i` gives them back. */
  lemma TailSplit(segs: seq<string>, i: nat)
    requires i <= |segs|
    requires forall k :: 0 <= k < |segs| ==> '/' !in segs[k]
    requires Join(segs[i..], '/') != ""
    ensures segs[..i] + Split(Join(segs[i..], '/'), '/') == segs
  {
    assert |segs[i..]| >= 1;
    SplitJoin(segs[i..], '/');
    assert segs[..i] + segs[i..] == segs;
  }

  /**
   * The nested-folder case of the resolver's documentation: with `a` and
   * `a/b` existing but not `a/b/c`, the path `a/b/c` (for instance
   * `api/users/123`) lands in `a/b` with `c` left over.
   */
  lemma ResolveNestedExample(tree: Tree, basedir: string, a: string, b: string, c: string)
    requires a != "" && b != "" && c != ""
    requires '/' !in a && '/' !in b && '/' !in c
    requires [a] in tree.dirs && [a, b] in tree.dirs && [a, b, c] !in tree.dirs
    ensures ResolveFolder(tree, basedir, a + "/" + b + "/" + c) == (Dir(BaseDir(basedir), [a, b]), c)
  {
    var path := a + "/" + b + "/" + c;
    assert path[0] == a[0] && path[|path| - 1] == c[|c| - 1];
    TrimCharUntouched(path, '/');
    var rest := b + "/" + c;
    assert path == a + ['/'] + rest;
    SplitAppend(a, rest, '/');
    SplitAppend(b, c, '/');
    var segs: seq<string> := [a, b, c];
    assert Split(path, '/') == segs;
    assert segs[..3] == segs && segs[..2] == [a, b];
    assert segs[2..] == [c];
    assert Join([c], '/') == c;
  }
}
