/**
 * What the two definition-directory walkers do, as the sequence of events
 * they produce: `Status(name)` is a call of the status hook and
 * `Merge(path)` the loading of that definition file into the catalogue.
 * OwnWalk and InheritedWalk follow the recursion of the walkers; Listing and
 * Report give an independent, flat description of the same traversal.
 */
module Walk {
  import opened Wrappers
  import opened Strings
  import opened FileSystem

  datatype Event = Status(name: string) | Merge(path: string)

  /** A file met by a walk: the full path of its directory and its name. */
  datatype FileRef = FileRef(dir: string, name: string)

  /** `FileInfo.FullName` of a file in a directory listing. */
  function FullName(f: FileRef, sep: char): string
  {
    f.dir + [sep] + f.name
  }

  /** The two events for one file that is loaded: the hook call, then the merge. */
  function Visit(dir: string, name: string, sep: char): seq<Event>
  {
    [Status(name), Merge(dir + [sep] + name)]
  }

  // ---- the game's own tree --------------------------------------------------

  /** Events of the own-tree walk of `d`, located at `path`: subdirectories first, then the files. */
  function OwnWalk(d: Dir, path: string, sep: char): seq<Event>
    decreases d, 1, 0
  {
    OwnSubWalks(d, path, sep, |d.subdirs|) + OwnFiles(d.files, path, sep, |d.files|)
  }

  /** Events of walking the first `n` subdirectories of `d`. */
  function OwnSubWalks(d: Dir, path: string, sep: char, n: nat): seq<Event>
    requires n <= |d.subdirs|
    decreases d, 0, n
  {
    if n == 0 then []
    else
      var c := d.subdirs[n - 1];
      OwnSubWalks(d, path, sep, n - 1) + OwnWalk(c, path + [sep] + c.name, sep)
  }

  /** Events of the first `n` files of a directory: only ".xml" files are visited. */
  function OwnFiles(files: seq<string>, path: string, sep: char, n: nat): seq<Event>
    requires n <= |files|
  {
    if n == 0 then []
    else OwnFiles(files, path, sep, n - 1) + (if IsXml(files[n - 1]) then Visit(path, files[n - 1], sep) else [])
  }

  // ---- the inherited (base game's) tree -------------------------------------

  /**
   * Where a base directory is looked for in the derived game: its path below
   * the tool root with EVERY occurrence of the base id replaced by the
   * current id, put back under the tool root.
   */
  function ShadowPath(v: Volume, dir: string, cur: string, base: string): (r: string)
    requires |base| > 0 && |v.toolRoot| <= |dir|
    ensures v.toolRoot <= r
    ensures |cur| == |base| ==> |r| == |dir|
  {
    v.toolRoot + Replace(dir[|v.toolRoot|..], base, cur)
  }

  /** A directory whose path below the tool root does not mention the base id is its own shadow. */
  lemma ShadowOfUnrelated(v: Volume, dir: string, cur: string, base: string)
    requires |base| > 0 && v.toolRoot <= dir && !Contains(dir[|v.toolRoot|..], base)
    ensures ShadowPath(v, dir, cur, base) == dir
  {
    ReplaceAbsent(dir[|v.toolRoot|..], base, cur);
    assert dir == v.toolRoot + dir[|v.toolRoot|..];
  }

  /** Some ".xml" file among `files` is called exactly `name`. */
  predicate HasXmlNamed(files: seq<string>, name: string)
  {
    exists k :: 0 <= k < |files| && IsXml(files[k]) && files[k] == name
  }

  /** The derived game overrides base file `name` of directory `dir`. */
  predicate Shadowed(v: Volume, dir: string, name: string, cur: string, base: string)
    requires |base| > 0 && |v.toolRoot| <= |dir|
    ensures Shadowed(v, dir, name, cur, base) ==> IsXml(name) && Resolve(v, ShadowPath(v, dir, cur, base)).Some?
  {
    match Resolve(v, ShadowPath(v, dir, cur, base))
    case None => false
    case Some(t) => HasXmlNamed(t.files, name)
  }

  /** Events of the inherited-tree walk of `d`, located at `path`. */
  function InheritedWalk(v: Volume, d: Dir, path: string, cur: string, base: string): seq<Event>
    requires |base| > 0 && |v.toolRoot| <= |path|
    decreases d, 1, 0
  {
    InheritedSubWalks(v, d, path, cur, base, |d.subdirs|) + InheritedFiles(v, d.files, path, cur, base, |d.files|)
  }

  function InheritedSubWalks(v: Volume, d: Dir, path: string, cur: string, base: string, n: nat): seq<Event>
    requires |base| > 0 && |v.toolRoot| <= |path| && n <= |d.subdirs|
    decreases d, 0, n
  {
    if n == 0 then []
    else
      var c := d.subdirs[n - 1];
      InheritedSubWalks(v, d, path, cur, base, n - 1) + InheritedWalk(v, c, path + [v.sep] + c.name, cur, base)
  }

  /** Events of the first `n` base files: ".xml" files the derived game does not shadow. */
  function InheritedFiles(v: Volume, files: seq<string>, path: string, cur: string, base: string, n: nat): seq<Event>
    requires |base| > 0 && |v.toolRoot| <= |path| && n <= |files|
  {
    if n == 0 then []
    else
      InheritedFiles(v, files, path, cur, base, n - 1)
      + (if IsXml(files[n - 1]) && !Shadowed(v, path, files[n - 1], cur, base)
         then Visit(path, files[n - 1], v.sep) else [])
  }

  // ---- the reference description: a flat listing, filtered and reported -----

  /** Every file below `d` in walk order: each subdirectory's files, then `d`'s own. */
  function Listing(d: Dir, path: string, sep: char): seq<FileRef>
    decreases d, 1, 0
  {
    SubListing(d, path, sep, |d.subdirs|) + Local(d.files, path)
  }

  function SubListing(d: Dir, path: string, sep: char, n: nat): seq<FileRef>
    requires n <= |d.subdirs|
    decreases d, 0, n
  {
    if n == 0 then []
    else
      var c := d.subdirs[n - 1];
      SubListing(d, path, sep, n - 1) + Listing(c, path + [sep] + c.name, sep)
  }

  /** The files of one directory, in listing order. */
  function Local(files: seq<string>, path: string): (r: seq<FileRef>)
    ensures |r| == |files|
    ensures forall i :: 0 <= i < |files| ==> r[i] == FileRef(path, files[i])
  {
    if |files| == 0 then [] else Local(files[..|files| - 1], path) + [FileRef(path, files[|files| - 1])]
  }

  /** The ".xml" files among `fs`, in order. */
  function XmlOnly(fs: seq<FileRef>): seq<FileRef>
  {
    if |fs| == 0 then []
    else XmlOnly(fs[..|fs| - 1]) + (if IsXml(fs[|fs| - 1].name) then [fs[|fs| - 1]] else [])
  }

  /**
   * The files among `fs` that the derived game does not shadow, in order
   * (every file a walk lists lies below the tool root; one that did not
   * would be kept).
   */
  function Unshadowed(v: Volume, fs: seq<FileRef>, cur: string, base: string): seq<FileRef>
    requires |base| > 0
  {
    if |fs| == 0 then []
    else
      var f := fs[|fs| - 1];
      var hidden := |v.toolRoot| <= |f.dir| && Shadowed(v, f.dir, f.name, cur, base);
      Unshadowed(v, fs[..|fs| - 1], cur, base) + (if hidden then [] else [f])
  }

  /** The hook call and the merge of every file of `fs`, in order. */
  function Report(fs: seq<FileRef>, sep: char): seq<Event>
  {
    if |fs| == 0 then [] else Report(fs[..|fs| - 1], sep) + Visit(fs[|fs| - 1].dir, fs[|fs| - 1].name, sep)
  }

  // ---- lemmas ------------------------------------------------------------------

  // One more loop iteration of a walker extends a trace `m` by one more step of its walk.

  lemma OwnSubWalksNext(d: Dir, path: string, sep: char, n: nat, m: seq<Event>)
    requires n < |d.subdirs|
    ensures m + OwnSubWalks(d, path, sep, n + 1)
         == (m + OwnSubWalks(d, path, sep, n)) + OwnWalk(d.subdirs[n], path + [sep] + d.subdirs[n].name, sep)
  {
  }

  lemma OwnFilesNext(files: seq<string>, path: string, sep: char, n: nat, m: seq<Event>)
    requires n < |files|
    ensures m + OwnFiles(files, path, sep, n + 1)
         == (m + OwnFiles(files, path, sep, n)) + if IsXml(files[n]) then Visit(path, files[n], sep) else []
  {
  }

  lemma InheritedSubWalksNext(v: Volume, d: Dir, path: string, cur: string, base: string, n: nat, m: seq<Event>)
    requires |base| > 0 && |v.toolRoot| <= |path| && n < |d.subdirs|
    ensures m + InheritedSubWalks(v, d, path, cur, base, n + 1)
         == (m + InheritedSubWalks(v, d, path, cur, base, n))
            + InheritedWalk(v, d.subdirs[n], path + [v.sep] + d.subdirs[n].name, cur, base)
  {
  }

  lemma InheritedFilesNext(v: Volume, files: seq<string>, path: string, cur: string, base: string, n: nat, m: seq<Event>)
    requires |base| > 0 && |v.toolRoot| <= |path| && n < |files|
    ensures m + InheritedFiles(v, files, path, cur, base, n + 1)
         == (m + InheritedFiles(v, files, path, cur, base, n))
            + if IsXml(files[n]) && !Shadowed(v, path, files[n], cur, base) then Visit(path, files[n], v.sep) else []
  {
  }

  lemma {:induction false} ReportAppend(a: seq<FileRef>, b: seq<FileRef>, sep: char)
    ensures Report(a + b, sep) == Report(a, sep) + Report(b, sep)
    decreases |b|
  {
    if |b| > 0 {
      assert (a + b)[..|a + b| - 1] == a + b[..|b| - 1];
      ReportAppend(a, b[..|b| - 1], sep);
    } else {
      assert a + b == a;
    }
  }

  lemma {:induction false} XmlOnlyAppend(a: seq<FileRef>, b: seq<FileRef>)
    ensures XmlOnly(a + b) == XmlOnly(a) + XmlOnly(b)
    decreases |b|
  {
    if |b| > 0 {
      assert (a + b)[..|a + b| - 1] == a + b[..|b| - 1];
      XmlOnlyAppend(a, b[..|b| - 1]);
    } else {
      assert a + b == a;
    }
  }

  lemma {:induction false} UnshadowedAppend(v: Volume, a: seq<FileRef>, b: seq<FileRef>, cur: string, base: string)
    requires |base| > 0
    ensures Unshadowed(v, a + b, cur, base) == Unshadowed(v, a, cur, base) + Unshadowed(v, b, cur, base)
    decreases |b|
  {
    if |b| > 0 {
      assert (a + b)[..|a + b| - 1] == a + b[..|b| - 1];
      UnshadowedAppend(v, a, b[..|b| - 1], cur, base);
    } else {
      assert a + b == a;
    }
  }

  /**
   * The hook is called for a file immediately before that file is merged:
   * the report is a run of (Status, Merge) pairs, one pair per file, in order.
   */
  lemma {:induction false} ReportShape(fs: seq<FileRef>, sep: char)
    ensures |Report(fs, sep)| == 2 * |fs|
    ensures forall k :: 0 <= k < |fs| ==>
      Report(fs, sep)[2 * k] == Status(fs[k].name) && Report(fs, sep)[2 * k + 1] == Merge(FullName(fs[k], sep))
    decreases |fs|
  {
    if |fs| > 0 {
      ReportShape(fs[..|fs| - 1], sep);
    }
  }

  /** A file is merged by a report exactly when it is one of the reported files. */
  lemma ReportMerges(fs: seq<FileRef>, sep: char, q: string)
    ensures Merge(q) in Report(fs, sep) <==> exists f :: f in fs && FullName(f, sep) == q
  {
    ReportShape(fs, sep);
    var r := Report(fs, sep);
    if Merge(q) in r {
      var i :| 0 <= i < |r| && r[i] == Merge(q);
      var k := i / 2;
      assert i == 2 * k || i == 2 * k + 1;
      assert fs[k] in fs;
    }
    if exists f :: f in fs && FullName(f, sep) == q {
      var f :| f in fs && FullName(f, sep) == q;
      var k :| 0 <= k < |fs| && fs[k] == f;
      assert r[2 * k + 1] == Merge(q);
    }
  }

  lemma {:induction false} XmlOnlyMembers(fs: seq<FileRef>, f: FileRef)
    ensures f in XmlOnly(fs) <==> f in fs && IsXml(f.name)
    decreases |fs|
  {
    if |fs| > 0 {
      XmlOnlyMembers(fs[..|fs| - 1], f);
      assert fs == fs[..|fs| - 1] + [fs[|fs| - 1]];
    }
  }

  lemma {:induction false} UnshadowedMembers(v: Volume, fs: seq<FileRef>, cur: string, base: string, f: FileRef)
    requires |base| > 0
    ensures f in Unshadowed(v, fs, cur, base) ==> f in fs
    ensures |v.toolRoot| <= |f.dir| ==>
      (f in Unshadowed(v, fs, cur, base) <==> f in fs && !Shadowed(v, f.dir, f.name, cur, base))
    decreases |fs|
  {
    if |fs| > 0 {
      UnshadowedMembers(v, fs[..|fs| - 1], cur, base, f);
      assert fs == fs[..|fs| - 1] + [fs[|fs| - 1]];
    }
  }

  /** Every file of a listing lies in `path` or below it. */
  lemma {:induction false} ListingBelow(d: Dir, path: string, sep: char)
    ensures forall f :: f in Listing(d, path, sep) ==> path <= f.dir
    decreases d, 1, 0
  {
    SubListingBelow(d, path, sep, |d.subdirs|);
  }

  /** Every file of a subdirectory lies strictly below `path`. */
  lemma {:induction false} SubListingBelow(d: Dir, path: string, sep: char, n: nat)
    requires n <= |d.subdirs|
    ensures forall f :: f in SubListing(d, path, sep, n) ==> path <= f.dir && |path| < |f.dir|
    decreases d, 0, n
  {
    if n > 0 {
      var c := d.subdirs[n - 1];
      var p := path + [sep] + c.name;
      SubListingBelow(d, path, sep, n - 1);
      ListingBelow(c, p, sep);
      forall f | f in Listing(c, p, sep) ensures path <= f.dir && |path| < |f.dir| {
        assert p <= f.dir;
        assert f.dir[..|path|] == p[..|path|] == path;
      }
    }
  }

  /** Every file in a subdirectory is walked before any file of the directory itself. */
  lemma SubdirectoriesFirst(d: Dir, path: string, sep: char)
    ensures var l := Listing(d, path, sep);
      forall i, j :: 0 <= i < |l| && 0 <= j < |l| && l[i].dir != path && l[j].dir == path ==> i < j
  {
    var sub := SubListing(d, path, sep, |d.subdirs|);
    var l := Listing(d, path, sep);
    SubListingBelow(d, path, sep, |d.subdirs|);
    forall k | 0 <= k < |sub| ensures l[k].dir != path {
      assert l[k] == sub[k] && sub[k] in sub;
    }
    forall k | |sub| <= k < |l| ensures l[k].dir == path {
      assert l[k] == Local(d.files, path)[k - |sub|];
    }
  }

  /** The own-tree walk reports exactly the ".xml" files of the listing, in listing order. */
  lemma {:induction false} OwnWalkIsReport(d: Dir, path: string, sep: char)
    ensures OwnWalk(d, path, sep) == Report(XmlOnly(Listing(d, path, sep)), sep)
    decreases d, 1, 0
  {
    OwnSubWalksIsReport(d, path, sep, |d.subdirs|);
    OwnFilesIsReport(d.files, path, sep, |d.files|);
    assert d.files[..|d.files|] == d.files;
    XmlOnlyAppend(SubListing(d, path, sep, |d.subdirs|), Local(d.files, path));
    ReportAppend(XmlOnly(SubListing(d, path, sep, |d.subdirs|)), XmlOnly(Local(d.files, path)), sep);
  }

  lemma {:induction false} OwnSubWalksIsReport(d: Dir, path: string, sep: char, n: nat)
    requires n <= |d.subdirs|
    ensures OwnSubWalks(d, path, sep, n) == Report(XmlOnly(SubListing(d, path, sep, n)), sep)
    decreases d, 0, n
  {
    if n > 0 {
      var c := d.subdirs[n - 1];
      var p := path + [sep] + c.name;
      var pre := SubListing(d, path, sep, n - 1);
      var l := Listing(c, p, sep);
      OwnSubWalksIsReport(d, path, sep, n - 1);
      OwnWalkIsReport(c, p, sep);
      XmlOnlyAppend(pre, l);
      ReportAppend(XmlOnly(pre), XmlOnly(l), sep);
      calc {
        OwnSubWalks(d, path, sep, n);
        OwnSubWalks(d, path, sep, n - 1) + OwnWalk(c, p, sep);
        Report(XmlOnly(pre), sep) + Report(XmlOnly(l), sep);
        Report(XmlOnly(pre) + XmlOnly(l), sep);
        Report(XmlOnly(pre + l), sep);
      }
    }
  }

  lemma {:induction false} OwnFilesIsReport(files: seq<string>, path: string, sep: char, n: nat)
    requires n <= |files|
    ensures OwnFiles(files, path, sep, n) == Report(XmlOnly(Local(files[..n], path)), sep)
  {
    if n > 0 {
      OwnFilesIsReport(files, path, sep, n - 1);
      LocalSnoc(files, path, n);
      ReportXmlSnoc(Local(files[..n - 1], path), FileRef(path, files[n - 1]), sep);
    }
  }

  /** One more listed file adds its visit to the report exactly when it is an ".xml" file. */
  lemma ReportXmlSnoc(fs: seq<FileRef>, f: FileRef, sep: char)
    ensures Report(XmlOnly(fs + [f]), sep)
         == Report(XmlOnly(fs), sep) + if IsXml(f.name) then Visit(f.dir, f.name, sep) else []
  {
    XmlOnlySnoc(fs, f);
    if IsXml(f.name) {
      ReportSnoc(XmlOnly(fs), f, sep);
    } else {
      assert Report(XmlOnly(fs), sep) + [] == Report(XmlOnly(fs), sep);
    }
  }

  lemma LocalSnoc(files: seq<string>, path: string, n: nat)
    requires 0 < n <= |files|
    ensures Local(files[..n], path) == Local(files[..n - 1], path) + [FileRef(path, files[n - 1])]
  {
    assert files[..n][..n - 1] == files[..n - 1];
  }

  lemma XmlOnlySnoc(fs: seq<FileRef>, f: FileRef)
    ensures IsXml(f.name) ==> XmlOnly(fs + [f]) == XmlOnly(fs) + [f]
    ensures !IsXml(f.name) ==> XmlOnly(fs + [f]) == XmlOnly(fs)
  {
    assert (fs + [f])[..|fs|] == fs;
  }

  lemma UnshadowedSnoc(v: Volume, fs: seq<FileRef>, f: FileRef, cur: string, base: string)
    requires |base| > 0 && |v.toolRoot| <= |f.dir|
    ensures Shadowed(v, f.dir, f.name, cur, base) ==> Unshadowed(v, fs + [f], cur, base) == Unshadowed(v, fs, cur, base)
    ensures !Shadowed(v, f.dir, f.name, cur, base) ==> Unshadowed(v, fs + [f], cur, base) == Unshadowed(v, fs, cur, base) + [f]
  {
    assert (fs + [f])[..|fs|] == fs;
  }

  lemma ReportSnoc(fs: seq<FileRef>, f: FileRef, sep: char)
    ensures Report(fs + [f], sep) == Report(fs, sep) + Visit(f.dir, f.name, sep)
  {
    assert (fs + [f])[..|fs|] == fs;
  }

  /** The inherited walk reports exactly the unshadowed ".xml" files of the listing, in listing order. */
  lemma {:induction false} InheritedWalkIsReport(v: Volume, d: Dir, path: string, cur: string, base: string)
    requires |base| > 0 && |v.toolRoot| <= |path|
    ensures forall f :: f in Listing(d, path, v.sep) ==> |v.toolRoot| <= |f.dir|
    ensures InheritedWalk(v, d, path, cur, base)
         == Report(Unshadowed(v, XmlOnly(Listing(d, path, v.sep)), cur, base), v.sep)
    decreases d, 1, 0
  {
    var sub := SubListing(d, path, v.sep, |d.subdirs|);
    var loc := Local(d.files, path);
    ListingBelow(d, path, v.sep);
    InheritedSubWalksIsReport(v, d, path, cur, base, |d.subdirs|);
    InheritedFilesIsReport(v, d.files, path, cur, base, |d.files|);
    assert d.files[..|d.files|] == d.files;
    XmlOnlyAppend(sub, loc);
    UnshadowedAppend(v, XmlOnly(sub), XmlOnly(loc), cur, base);
    ReportAppend(Unshadowed(v, XmlOnly(sub), cur, base), Unshadowed(v, XmlOnly(loc), cur, base), v.sep);
  }

  lemma {:induction false} InheritedSubWalksIsReport(v: Volume, d: Dir, path: string, cur: string, base: string, n: nat)
    requires |base| > 0 && |v.toolRoot| <= |path| && n <= |d.subdirs|
    ensures InheritedSubWalks(v, d, path, cur, base, n)
         == Report(Unshadowed(v, XmlOnly(SubListing(d, path, v.sep, n)), cur, base), v.sep)
    decreases d, 0, n
  {
    if n > 0 {
      var c := d.subdirs[n - 1];
      var p := path + [v.sep] + c.name;
      var pre := SubListing(d, path, v.sep, n - 1);
      InheritedSubWalksIsReport(v, d, path, cur, base, n - 1);
      InheritedWalkIsReport(v, c, p, cur, base);
      XmlOnlyAppend(pre, Listing(c, p, v.sep));
      UnshadowedAppend(v, XmlOnly(pre), XmlOnly(Listing(c, p, v.sep)), cur, base);
      ReportAppend(Unshadowed(v, XmlOnly(pre), cur, base), Unshadowed(v, XmlOnly(Listing(c, p, v.sep)), cur, base), v.sep);
    }
  }

  lemma {:induction false} InheritedFilesIsReport(v: Volume, files: seq<string>, path: string, cur: string, base: string, n: nat)
    requires |base| > 0 && |v.toolRoot| <= |path| && n <= |files|
    ensures InheritedFiles(v, files, path, cur, base, n)
         == Report(Unshadowed(v, XmlOnly(Local(files[..n], path)), cur, base), v.sep)
  {
    if n > 0 {
      InheritedFilesIsReport(v, files, path, cur, base, n - 1);
      LocalSnoc(files, path, n);
      ReportUnshadowedSnoc(v, Local(files[..n - 1], path), FileRef(path, files[n - 1]), cur, base);
    }
  }

  /** One more listed file adds its visit to the report exactly when it is an unshadowed ".xml" file. */
  lemma ReportUnshadowedSnoc(v: Volume, fs: seq<FileRef>, f: FileRef, cur: string, base: string)
    requires |base| > 0 && |v.toolRoot| <= |f.dir|
    ensures Report(Unshadowed(v, XmlOnly(fs + [f]), cur, base), v.sep)
         == Report(Unshadowed(v, XmlOnly(fs), cur, base), v.sep)
            + if IsXml(f.name) && !Shadowed(v, f.dir, f.name, cur, base) then Visit(f.dir, f.name, v.sep) else []
  {
    var before := Report(Unshadowed(v, XmlOnly(fs), cur, base), v.sep);
    XmlOnlySnoc(fs, f);
    if IsXml(f.name) {
      UnshadowedSnoc(v, XmlOnly(fs), f, cur, base);
      if !Shadowed(v, f.dir, f.name, cur, base) {
        ReportSnoc(Unshadowed(v, XmlOnly(fs), cur, base), f, v.sep);
      } else {
        assert before + [] == before;
      }
    } else {
      assert before + [] == before;
    }
  }

  /** The own-tree walk merges a path exactly when it is the full name of an ".xml" file below `d`. */
  lemma OwnWalkMerges(d: Dir, path: string, sep: char, q: string)
    ensures Merge(q) in OwnWalk(d, path, sep) <==>
      exists f :: f in Listing(d, path, sep) && IsXml(f.name) && FullName(f, sep) == q
  {
    var l := Listing(d, path, sep);
    OwnWalkIsReport(d, path, sep);
    ReportMerges(XmlOnly(l), sep, q);
    forall f ensures f in XmlOnly(l) <==> f in l && IsXml(f.name) {
      XmlOnlyMembers(l, f);
    }
  }

  /**
   * The inherited walk merges a path exactly when it is the full name of an
   * ".xml" base file that the derived game does not shadow.
   */
  lemma InheritedWalkMerges(v: Volume, d: Dir, path: string, cur: string, base: string, q: string)
    requires |base| > 0 && |v.toolRoot| <= |path|
    ensures forall f :: f in Listing(d, path, v.sep) ==> |v.toolRoot| <= |f.dir|
    ensures Merge(q) in InheritedWalk(v, d, path, cur, base) <==>
      exists f :: f in Listing(d, path, v.sep) && IsXml(f.name)
               && !Shadowed(v, f.dir, f.name, cur, base) && FullName(f, v.sep) == q
  {
    var l := Listing(d, path, v.sep);
    InheritedWalkIsReport(v, d, path, cur, base);
    var u := Unshadowed(v, XmlOnly(l), cur, base);
    ReportMerges(u, v.sep, q);
    forall f | f in l ensures f in u <==> IsXml(f.name) && !Shadowed(v, f.dir, f.name, cur, base) {
      XmlOnlyMembers(l, f);
      UnshadowedMembers(v, XmlOnly(l), cur, base, f);
    }
    forall f | f in u ensures f in l {
      UnshadowedMembers(v, XmlOnly(l), cur, base, f);
      XmlOnlyMembers(l, f);
    }
  }

  /** A walk of a located, well-formed tree only reports files that exist where it says they are. */
  lemma {:induction false} ListingSound(v: Volume, d: Dir, path: string)
    requires Resolve(v, path) == Some(d) && WellFormed(d, v.sep)
    ensures forall f :: f in Listing(d, path, v.sep) ==>
      Resolve(v, f.dir).Some? && f.name in Resolve(v, f.dir).value.files
    decreases d, 1, 0
  {
    SubListingSound(v, d, path, |d.subdirs|);
  }

  lemma {:induction false} SubListingSound(v: Volume, d: Dir, path: string, n: nat)
    requires Resolve(v, path) == Some(d) && WellFormed(d, v.sep) && n <= |d.subdirs|
    ensures forall f :: f in SubListing(d, path, v.sep, n) ==>
      Resolve(v, f.dir).Some? && f.name in Resolve(v, f.dir).value.files
    decreases d, 0, n
  {
    if n > 0 {
      var c := d.subdirs[n - 1];
      SubListingSound(v, d, path, n - 1);
      ResolveChild(v, path, d, c);
      ListingSound(v, c, path + [v.sep] + c.name);
    }
  }

  /**
   * The `DefFileExist` scan of `getInheritedAssetDefinitions`: the flag is set, and the scan
   * stops, at the first ".xml" file of the shadow directory with the same name.
   */
  method DefinitionFileExists(target: Option<Dir>, name: string) returns (found: bool)
    ensures found <==> target.Some? && HasXmlNamed(target.value.files, name)
  {
    found := false;
    if target.Some? {
      var files := target.value.files;
      var i := 0;
      while i < |files|
        invariant 0 <= i <= |files|
        invariant !found
        invariant forall k :: 0 <= k < i ==> !(IsXml(files[k]) && files[k] == name)
      {
        XmlIffExtension(files[i]);
        if Extension(files[i]) != ".xml" {
          i := i + 1;
          continue;
        }
        if name == files[i] {
          found := true;
          break;
        }
        i := i + 1;
      }
    }
  }
}
