/**
 * An abstract file system: the directory tree below the tool's own directory,
 * with every listing in a fixed order, plus the two pieces of .NET path
 * handling the game definition depends on: a file's extension and locating a
 * directory from its full path.
 */
module FileSystem {
  import opened Wrappers
  import opened Strings

  /** A directory: its name, its subdirectories and its file names, each in listing order. */
  datatype Dir = Dir(name: string, subdirs: seq<Dir>, files: seq<string>)

  /** The tree of the tool's directory `root`, which lives at the full path `toolRoot`. */
  datatype Volume = Volume(toolRoot: string, sep: char, root: Dir)

  /** Subdirectory names are non-empty, hold no separator and are unique; file names hold no separator. */
  predicate WellFormed(d: Dir, sep: char)
    decreases d
  {
    && (forall i :: 0 <= i < |d.subdirs| ==> d.subdirs[i].name != [] && sep !in d.subdirs[i].name)
    && (forall i, j :: 0 <= i < j < |d.subdirs| ==> d.subdirs[i].name != d.subdirs[j].name)
    && (forall i :: 0 <= i < |d.files| ==> sep !in d.files[i])
    && (forall i :: 0 <= i < |d.subdirs| ==> WellFormed(d.subdirs[i], sep))
  }

  /** Index of the last '.' in `s`, if there is one. */
  function LastDot(s: string): (r: Option<nat>)
    ensures r.None? ==> '.' !in s
    ensures r.Some? ==> r.value < |s| && s[r.value] == '.' && '.' !in s[r.value + 1..]
    decreases |s|
  {
    if |s| == 0 then None
    else if s[|s| - 1] == '.' then Some(|s| - 1)
    else
      var r := LastDot(s[..|s| - 1]);
      assert r.Some? ==> s[r.value + 1..] == s[..|s| - 1][r.value + 1..] + [s[|s| - 1]];
      assert r.None? ==> s == s[..|s| - 1] + [s[|s| - 1]];
      r
  }

  /**
   * `FileInfo.Extension` of a file name: from the last '.' to the end, or
   * empty when there is no '.' or the name ends with it.
   */
  function Extension(name: string): (r: string)
    ensures r == "" <==> '.' !in name || name[|name| - 1] == '.'
    ensures r != "" ==> 2 <= |r| <= |name| && r[0] == '.' && '.' !in r[1..] && r == name[|name| - |r|..]
  {
    match LastDot(name)
    case None => ""
    case Some(i) => if i == |name| - 1 then "" else name[i..]
  }

  /** The walkers' filter, in plain terms: the file name ends with ".xml" (ordinal, case-sensitive). */
  predicate IsXml(name: string)
  {
    |name| >= 4 && name[|name| - 4..] == ".xml"
  }

  /** The walkers' test `Extension != ".xml"` rejects exactly the names that do not end with ".xml". */
  lemma XmlIffExtension(name: string)
    ensures Extension(name) == ".xml" <==> IsXml(name)
  {
    if IsXml(name) {
      var r := LastDot(name);
      assert name[|name| - 4] == '.';
      assert r.Some?;
      assert name[|name| - 3..] == "xml";
      assert r.value == |name| - 4;
    }
  }

  /** The first subdirectory of `d` called `name`. */
  function Child(d: Dir, name: string): (r: Option<Dir>)
    ensures r.Some? ==> r.value in d.subdirs && r.value.name == name
    ensures r.None? ==> forall i :: 0 <= i < |d.subdirs| ==> d.subdirs[i].name != name
  {
    ChildFrom(d.subdirs, name)
  }

  function ChildFrom(ds: seq<Dir>, name: string): (r: Option<Dir>)
    ensures r.Some? ==> r.value in ds && r.value.name == name
    ensures r.None? ==> forall i :: 0 <= i < |ds| ==> ds[i].name != name
  {
    if |ds| == 0 then None
    else if ds[0].name == name then Some(ds[0])
    else ChildFrom(ds[1..], name)
  }

  /** The directory reached from `d` by descending through the named segments. */
  function Find(d: Dir, segs: seq<string>): Option<Dir>
    decreases |segs|
  {
    if |segs| == 0 then Some(d)
    else match Child(d, segs[0])
      case None => None
      case Some(c) => Find(c, segs[1..])
  }

  /**
   * The directory at full path `path` (`DirectoryInfo.Exists` and its
   * listing): the tool root itself, or the segments after `toolRoot` and a
   * separator followed through the tree; any other path names nothing here.
   */
  function Resolve(v: Volume, path: string): Option<Dir>
  {
    if !(v.toolRoot <= path) then None
    else
      var rest := path[|v.toolRoot|..];
      if rest == [] then Some(v.root)
      else if rest[0] != v.sep then None
      else Find(v.root, Split(rest[1..], v.sep))
  }

  /** In a well-formed directory, a subdirectory is found by its own name. */
  lemma ChildOfWellFormed(d: Dir, sep: char, c: Dir)
    requires WellFormed(d, sep) && c in d.subdirs
    ensures Child(d, c.name) == Some(c)
  {
    var r := Child(d, c.name);
    var i :| 0 <= i < |d.subdirs| && d.subdirs[i] == c;
    var j :| 0 <= j < |d.subdirs| && d.subdirs[j] == r.value;
    assert i == j;
  }

  /** Descending one more segment continues from where the shorter descent ended. */
  lemma {:induction false} FindSnoc(d: Dir, segs: seq<string>, name: string)
    ensures Find(d, segs + [name]) ==
      match Find(d, segs) case None => None case Some(e) => Child(e, name)
    decreases |segs|
  {
    if |segs| == 0 {
      assert [name][1..] == [];
    } else {
      assert (segs + [name])[1..] == segs[1..] + [name];
      match Child(d, segs[0])
      case None =>
      case Some(c) => FindSnoc(c, segs[1..], name);
    }
  }

  /** The path a walker builds for a subdirectory (`parent + sep + name`) locates that subdirectory. */
  lemma ResolveChild(v: Volume, path: string, d: Dir, c: Dir)
    requires Resolve(v, path) == Some(d) && WellFormed(d, v.sep) && c in d.subdirs
    ensures Resolve(v, path + [v.sep] + c.name) == Some(c)
  {
    ChildOfWellFormed(d, v.sep, c);
    if path == v.toolRoot {
      ResolveChildOfRoot(v, c);
    } else {
      ResolveChildBelow(v, path, d, c);
    }
  }

  lemma ResolveChildOfRoot(v: Volume, c: Dir)
    requires Child(v.root, c.name) == Some(c) && v.sep !in c.name
    ensures Resolve(v, v.toolRoot + [v.sep] + c.name) == Some(c)
  {
    var p := v.toolRoot + [v.sep] + c.name;
    assert p[..|v.toolRoot|] == v.toolRoot;
    assert p[|v.toolRoot|..] == [v.sep] + c.name;
    assert p[|v.toolRoot|..][1..] == c.name;
    SplitPlain(c.name, v.sep);
    assert Find(v.root, [c.name]) == Find(c, []);
  }

  lemma ResolveChildBelow(v: Volume, path: string, d: Dir, c: Dir)
    requires Resolve(v, path) == Some(d) && path != v.toolRoot
    requires Child(d, c.name) == Some(c) && v.sep !in c.name
    ensures Resolve(v, path + [v.sep] + c.name) == Some(c)
  {
    var n := |v.toolRoot|;
    var p := path + [v.sep] + c.name;
    assert |path| > n && path[n] == v.sep;
    ResolveBelow(v, path);
    ExtendedTail(path, n, v.sep, c.name);
    ResolveBelow(v, p);
    SplitSnoc(path[n + 1..], v.sep, c.name);
    FindSnoc(v.root, Split(path[n + 1..], v.sep), c.name);
  }

  /** Extending a path keeps its first `n + 1` characters and extends what follows them. */
  lemma ExtendedTail(path: string, n: nat, sep: char, name: string)
    requires n < |path|
    ensures var p := path + [sep] + name;
      p[..n] == path[..n] && p[n] == path[n] && p[n + 1..] == path[n + 1..] + [sep] + name
  {
  }

  /** A path that continues the tool root with a separator is looked up segment by segment. */
  lemma ResolveBelow(v: Volume, p: string)
    requires v.toolRoot <= p && |p| > |v.toolRoot| && p[|v.toolRoot|] == v.sep
    ensures Resolve(v, p) == Find(v.root, Split(p[|v.toolRoot| + 1..], v.sep))
  {
    assert p[|v.toolRoot|..][1..] == p[|v.toolRoot| + 1..];
  }
}
