/**
 * The game definition of the SAGE namespace: the stream descriptors, the
 * formatting of the game's paths, the two walkers over the definition
 * directories and the constructor that drives them and then links the
 * catalogue's asset types.
 *
 * Platform facts the constructor looks up are parameters: the tool's own
 * directory and the separator character live in the Volume, the user's
 * documents folder is `documents`, and the machine-wide registry is a map
 * from subkey path to (value name to the value's text).
 */
module Sage {
  import opened Wrappers
  import opened Strings
  import opened FileSystem
  import opened Walk
  import opened Linking

  newtype Int16 = x: int | -0x8000 <= x < 0x8000
  newtype UInt32 = x: int | 0 <= x < 0x1_0000_0000

  /** The schema's colour value, copied as it is. */
  datatype ColorType = ColorType(text: string)

  /** A stream as the game's XML description lists it. */
  datatype StreamType = StreamType(name: string, description: string, isNameRequired: bool)

  /** Where the game's installation records its documents sub-folder. */
  datatype RegistryEntry = RegistryEntry(key: string, value: string)

  /** The game's XML description, as far as the constructor reads it. */
  datatype Game = Game(
    id: string,
    inheritDefinitions: Option<string>,
    manifestVersion: Int16,
    allTypesHash: UInt32,
    worldBuilderVersion: string,
    themeColor: ColorType,
    registryEntry: RegistryEntry,
    stream: seq<StreamType>)

  /** HKEY_LOCAL_MACHINE: subkey path to (value name to the value's text). */
  type Registry = map<string, map<string, string>>

  /** A stream descriptor: a flat copy of a StreamType. */
  datatype StreamDefinition = StreamDefinition(id: string, description: string, isNameRequired: bool)

  /** The StreamDefinition constructor. */
  function NewStreamDefinition(stream: StreamType): (r: StreamDefinition)
    ensures CopiedStream(r, stream)
  {
    StreamDefinition(stream.name, stream.description, stream.isNameRequired)
  }

  /** `d` copies `t` field for field. */
  predicate CopiedStream(d: StreamDefinition, t: StreamType)
  {
    d.id == t.name && d.description == t.description && d.isNameRequired == t.isNameRequired
  }

  /** The constructor's `foreach` that fills `Streams`, one descriptor per stream, in order. */
  method CopyStreams(streams: seq<StreamType>) returns (r: seq<StreamDefinition>)
    ensures |r| == |streams|
    ensures forall i :: 0 <= i < |r| ==> CopiedStream(r[i], streams[i])
  {
    r := [];
    for i := 0 to |streams|
      invariant |r| == i
      invariant forall k :: 0 <= k < i ==> CopiedStream(r[k], streams[k])
    {
      r := r + [NewStreamDefinition(streams[i])];
    }
  }

  /** `"{0}{1}Games{1}{2}"` with the tool's directory, the separator and a game id. */
  function GameDirectory(toolRoot: string, sep: char, id: string): (r: string)
    ensures toolRoot + [sep] <= r && r[|toolRoot| + 1..] == Join(["Games", id], sep)
  {
    toolRoot + [sep] + "Games" + [sep] + id
  }

  /** The formatted game directory names the subdirectory `id` of `Games` below the tool root. */
  lemma GameDirectoryResolves(v: Volume, id: string)
    requires v.sep !in id && v.sep !in "Games"
    ensures Resolve(v, GameDirectory(v.toolRoot, v.sep, id)) == Find(v.root, ["Games", id])
  {
    var p := GameDirectory(v.toolRoot, v.sep, id);
    assert p[..|v.toolRoot|] == v.toolRoot;
    assert p[|v.toolRoot|..] == [v.sep] + "Games" + [v.sep] + id;
    assert p[|v.toolRoot|..][1..] == "Games" + [v.sep] + id;
    SplitAppend("Games", v.sep, id);
    SplitPlain(id, v.sep);
  }

  /** The path a walker reaches from `path` by descending through the directories named in `tail`. */
  function Below(path: string, sep: char, tail: seq<string>): (r: string)
    ensures |path| <= |r|
    decreases |tail|
  {
    if |tail| == 0 then path else Below(path + [sep] + tail[0], sep, tail[1..])
  }

  /** One more directory level: its name is rewritten on its own, since the base id has no separator. */
  lemma ShadowStep(v: Volume, dir: string, name: string, cur: string, base: string)
    requires |base| > 0 && v.sep !in base && |v.toolRoot| <= |dir|
    ensures ShadowPath(v, dir + [v.sep] + name, cur, base)
         == ShadowPath(v, dir, cur, base) + [v.sep] + Replace(name, base, cur)
  {
    var rel, r := dir[|v.toolRoot|..], Replace(name, base, cur);
    DropExtended(dir, |v.toolRoot|, v.sep, name);
    ReplaceAround(rel, v.sep, name, base, cur);
    assert v.toolRoot + (Replace(rel, base, cur) + [v.sep] + r) == v.toolRoot + Replace(rel, base, cur) + [v.sep] + r;
  }

  /** The base game's own directory is shadowed by the current game's directory. */
  lemma ShadowOfGameDirectory(v: Volume, cur: string, base: string)
    requires |base| > 0 && v.sep !in base && !Contains("Games", base)
    ensures ShadowPath(v, GameDirectory(v.toolRoot, v.sep, base), cur, base) == GameDirectory(v.toolRoot, v.sep, cur)
  {
    var games := v.toolRoot + [v.sep] + "Games";
    ShadowOfTopDirectory(v, "Games", cur, base);
    ReplaceAbsent("Games", base, cur);
    ShadowStep(v, games, base, cur, base);
    ReplaceWhole(base, cur);
  }

  /** The shadow of a directory right below the tool root: its name is rewritten. */
  lemma ShadowOfTopDirectory(v: Volume, name: string, cur: string, base: string)
    requires |base| > 0 && v.sep !in base
    ensures ShadowPath(v, v.toolRoot + [v.sep] + name, cur, base) == v.toolRoot + [v.sep] + Replace(name, base, cur)
  {
    var rel := (v.toolRoot + [v.sep] + name)[|v.toolRoot|..];
    assert rel == [v.sep] + name by {
      DropExtended(v.toolRoot, |v.toolRoot|, v.sep, name);
      assert v.toolRoot[|v.toolRoot|..] == [];
    }
    ReplaceAfterSeparator(v.sep, name, base, cur);
    assert v.toolRoot + ([v.sep] + Replace(name, base, cur)) == v.toolRoot + [v.sep] + Replace(name, base, cur);
  }

  /** A leading separator is kept, and the name after it is rewritten. */
  lemma ReplaceAfterSeparator(sep: char, name: string, base: string, cur: string)
    requires |base| > 0 && sep !in base
    ensures Replace([sep] + name, base, cur) == [sep] + Replace(name, base, cur)
  {
    ReplaceAround([], sep, name, base, cur);
    assert [] + [sep] + name == [sep] + name;
  }

  /** The base id on its own becomes the current id. */
  lemma ReplaceWhole(base: string, cur: string)
    requires |base| > 0
    ensures Replace(base, base, cur) == cur
  {
    assert base <= base && base[|base|..] == [];
  }

  /**
   * When the base id names nothing but the base game's directory (it is not
   * part of "Games" nor of any directory name below it), the shadow of a
   * base directory is its mirror below the current game's directory.
   */
  lemma {:induction false} MirroredShadow(v: Volume, cur: string, base: string, dir: string, tail: seq<string>)
    requires |base| > 0 && v.sep !in base && |v.toolRoot| <= |dir|
    requires forall i :: 0 <= i < |tail| ==> !Contains(tail[i], base)
    ensures ShadowPath(v, Below(dir, v.sep, tail), cur, base) == Below(ShadowPath(v, dir, cur, base), v.sep, tail)
    decreases |tail|
  {
    if |tail| > 0 {
      ShadowStep(v, dir, tail[0], cur, base);
      ReplaceAbsent(tail[0], base, cur);
      MirroredShadow(v, cur, base, dir + [v.sep] + tail[0], tail[1..]);
    }
  }

  /**
   * The derived game wins: under the conditions of MirroredShadow, a base
   * file is shadowed exactly when the mirrored directory of the current
   * game exists and holds an ".xml" file of the same name.
   */
  lemma DerivedFileWins(v: Volume, cur: string, base: string, tail: seq<string>, name: string)
    requires |base| > 0 && v.sep !in base && !Contains("Games", base)
    requires forall i :: 0 <= i < |tail| ==> !Contains(tail[i], base)
    ensures |v.toolRoot| <= |Below(GameDirectory(v.toolRoot, v.sep, base), v.sep, tail)|
    ensures Shadowed(v, Below(GameDirectory(v.toolRoot, v.sep, base), v.sep, tail), name, cur, base) <==>
      match Resolve(v, Below(GameDirectory(v.toolRoot, v.sep, cur), v.sep, tail))
      case None => false
      case Some(t) => HasXmlNamed(t.files, name)
  {
    ShadowOfGameDirectory(v, cur, base);
    MirroredShadow(v, cur, base, GameDirectory(v.toolRoot, v.sep, base), tail);
  }

  /**
   * Replace rewrites every occurrence of the base id, not only the game's
   * own segment: below the directory of game "G1", a directory "G1maps" is
   * looked for as "G2maps" below the directory of game "G2", so a derived
   * file in "G2"'s "G1maps" shadows nothing.
   */
  lemma ReplaceAllRewritesNestedNames(v: Volume)
    requires v.sep == '/'
    ensures ShadowPath(v, GameDirectory(v.toolRoot, '/', "G1") + "/G1maps", "G2", "G1")
         == GameDirectory(v.toolRoot, '/', "G2") + "/G2maps"
    ensures ShadowPath(v, GameDirectory(v.toolRoot, '/', "G1") + "/G1maps", "G2", "G1")
         != GameDirectory(v.toolRoot, '/', "G2") + "/G1maps"
  {
    var g1, g2 := GameDirectory(v.toolRoot, '/', "G1"), GameDirectory(v.toolRoot, '/', "G2");
    GamesLacksG1();
    ShadowOfGameDirectory(v, "G2", "G1");
    assert g1 + "/G1maps" == g1 + ['/'] + "G1maps";
    ShadowStep(v, g1, "G1maps", "G2", "G1");
    ReplaceG1maps();
    assert g2 + ['/'] + "G2maps" == g2 + "/G2maps";
    assert (g2 + "/G2maps")[|g2| + 2] != (g2 + "/G1maps")[|g2| + 2];
  }

  /**
   * A base id that occurs inside "Games" rewrites that segment too: the base
   * game "G" of game "H" is looked for below "Hames", not "Games", so without
   * a directory "Hames" no file of the base game's directory is shadowed.
   */
  lemma ReplaceAllRewritesGamesSegment(v: Volume)
    requires v.sep == '/'
    ensures ShadowPath(v, GameDirectory(v.toolRoot, '/', "G"), "H", "G") == v.toolRoot + "/Hames/H"
    ensures Child(v.root, "Hames").None? ==>
      forall name :: !Shadowed(v, GameDirectory(v.toolRoot, '/', "G"), name, "H", "G")
  {
    ShadowOfGSegment(v);
    HamesResolves(v);
  }

  /** The shadow path of game "G"'s directory for game "H". */
  lemma ShadowOfGSegment(v: Volume)
    requires v.sep == '/'
    ensures ShadowPath(v, GameDirectory(v.toolRoot, '/', "G"), "H", "G") == v.toolRoot + "/Hames/H"
  {
    var games := v.toolRoot + ['/'] + "Games";
    ShadowOfTopDirectory(v, "Games", "H", "G");
    ReplaceGames();
    ShadowStep(v, games, "G", "H", "G");
    ReplaceWhole("G", "H");
  }

  /** The path ".../Hames/H" locates "H" below "Hames". */
  lemma HamesResolves(v: Volume)
    requires v.sep == '/'
    ensures Resolve(v, v.toolRoot + "/Hames/H") == Find(v.root, ["Hames", "H"])
  {
    var p := v.toolRoot + "/Hames/H";
    assert p[..|v.toolRoot|] == v.toolRoot;
    assert p[|v.toolRoot|..][1..] == "Hames" + ['/'] + "H";
    SplitAppend("Hames", '/', "H");
    SplitPlain("H", '/');
  }

  /** "Games" with "G" replaced by "H". */
  lemma ReplaceGames()
    ensures Replace("Games", "G", "H") == "Hames"
  {
    ReplaceNoFirst("ames", "G", "H");
    assert "G" <= "Games" && "Games"[1..] == "ames";
  }

  /** "G1" does not occur in "Games". */
  lemma GamesLacksG1()
    ensures !Contains("Games", "G1")
  {
    forall k | 0 <= k <= |"Games"| ensures !("G1" <= "Games"[k..]) {
      if k == 0 { assert "Games"[1] != '1'; } else if k < 5 { assert "Games"[k] != 'G'; }
    }
  }

  /** The directory name "G1maps" with "G1" replaced by "G2". */
  lemma ReplaceG1maps()
    ensures Replace("G1maps", "G1", "G2") == "G2maps"
  {
    ReplaceNoFirst("maps", "G1", "G2");
    assert "G1" <= "G1maps" && "G1maps"[2..] == "maps";
  }

  /** The registry holds the entry's key and, under it, the entry's value. */
  predicate Registered(registry: Registry, entry: RegistryEntry)
  {
    entry.key in registry && entry.value in registry[entry.key]
  }

  /** `DocPath`: `"{0}{1}{2}{1}Mods"` with the documents folder and the registry value, or empty. */
  /**
   * It is empty exactly when the registry lacks the entry; otherwise it is a
   * "Mods" folder under the documents folder, from which the registry value
   * can be read back.
   */
  function DocPath(documents: string, sep: char, registry: Registry, entry: RegistryEntry): (d: string)
    ensures d == "" <==> !Registered(registry, entry)
    ensures Registered(registry, entry) ==>
      && |d| >= |documents| + 6
      && d[..|documents| + 1] == documents + [sep]
      && d[|d| - 5..] == [sep] + "Mods"
      && d[|documents| + 1..|d| - 5] == registry[entry.key][entry.value]
  {
    if Registered(registry, entry) then
      var value := registry[entry.key][entry.value];
      var d := documents + [sep] + value + [sep] + "Mods";
      assert d == (documents + [sep]) + value + ([sep] + "Mods");
      assert d[|d| - 1] == 's';
      d
    else ""
  }

  /** `!String.IsNullOrEmpty(inheritDefinitions)`. */
  predicate InheritsDefinitions(g: Game)
  {
    g.inheritDefinitions.Some? && g.inheritDefinitions.value != ""
  }

  /** Why construction stops with an exception. */
  datatype Fault =
    | DefinitionDirectoryMissing(path: string)      // GetDirectories of DefinitionPath throws
    | BaseDefinitionDirectoryMissing(path: string)  // GetDirectories of BaseDefinitionPath throws
    | EntriesEmpty(ns: Namespace)                   // Entries[0] on an empty entry list throws

  /** The status-hook calls and merges of construction, and the fault that cut them short, if any. */
  datatype LoadResult = LoadResult(trace: seq<Event>, fault: Option<Fault>)

  /**
   * The two walks of the constructor, in order: the game's own definition
   * directory first, then, when the game inherits, the base game's directory
   * with the files the game overrides left out.
   */
  function Loading(g: Game, v: Volume): (r: LoadResult)
    ensures var defPath := GameDirectory(v.toolRoot, v.sep, g.id);
      && (r.fault == Some(DefinitionDirectoryMissing(defPath)) <==> Resolve(v, defPath).None?)
      && (Resolve(v, defPath).None? ==> r.trace == [])
      && (Resolve(v, defPath).Some? ==> OwnWalk(Resolve(v, defPath).value, defPath, v.sep) <= r.trace)
      && (r.fault.None? <==>
            && Resolve(v, defPath).Some?
            && (InheritsDefinitions(g) ==> Resolve(v, GameDirectory(v.toolRoot, v.sep, g.inheritDefinitions.value)).Some?))
      && (r.fault.Some? && Resolve(v, defPath).Some? ==>
            && InheritsDefinitions(g)
            && r.fault == Some(BaseDefinitionDirectoryMissing(GameDirectory(v.toolRoot, v.sep, g.inheritDefinitions.value))))
  {
    var defPath := GameDirectory(v.toolRoot, v.sep, g.id);
    match Resolve(v, defPath)
    case None => LoadResult([], Some(DefinitionDirectoryMissing(defPath)))
    case Some(own) =>
      var ownEvents := OwnWalk(own, defPath, v.sep);
      if !InheritsDefinitions(g) then LoadResult(ownEvents, None)
      else
        var base := g.inheritDefinitions.value;
        var basePath := GameDirectory(v.toolRoot, v.sep, base);
        match Resolve(v, basePath)
        case None => LoadResult(ownEvents, Some(BaseDefinitionDirectoryMissing(basePath)))
        case Some(b) => LoadResult(ownEvents + InheritedWalk(v, b, basePath, g.id, base), None)
  }

  /**
   * Without a fault, construction merges exactly the ".xml" files of the
   * game's own directory tree and, when the game inherits, the ".xml" files
   * of the base game's tree that the game does not shadow.
   */
  lemma LoadingMerges(g: Game, v: Volume, q: string)
    requires Loading(g, v).fault.None?
    ensures Resolve(v, GameDirectory(v.toolRoot, v.sep, g.id)).Some?
    ensures InheritsDefinitions(g) ==> Resolve(v, GameDirectory(v.toolRoot, v.sep, g.inheritDefinitions.value)).Some?
    ensures InheritsDefinitions(g) ==>
      var basePath := GameDirectory(v.toolRoot, v.sep, g.inheritDefinitions.value);
      forall f :: f in Listing(Resolve(v, basePath).value, basePath, v.sep) ==> |v.toolRoot| <= |f.dir|
    ensures
      var defPath := GameDirectory(v.toolRoot, v.sep, g.id);
      var own := Resolve(v, defPath).value;
      Merge(q) in Loading(g, v).trace <==>
        || (exists f :: f in Listing(own, defPath, v.sep) && IsXml(f.name) && FullName(f, v.sep) == q)
        || (&& InheritsDefinitions(g)
            && var base := g.inheritDefinitions.value;
               var basePath := GameDirectory(v.toolRoot, v.sep, base);
               exists f :: f in Listing(Resolve(v, basePath).value, basePath, v.sep) && IsXml(f.name)
                        && !Shadowed(v, f.dir, f.name, g.id, base) && FullName(f, v.sep) == q)
  {
    var defPath := GameDirectory(v.toolRoot, v.sep, g.id);
    var own := Resolve(v, defPath).value;
    OwnWalkMerges(own, defPath, v.sep, q);
    if InheritsDefinitions(g) {
      var base := g.inheritDefinitions.value;
      var basePath := GameDirectory(v.toolRoot, v.sep, base);
      InheritedWalkMerges(v, Resolve(v, basePath).value, basePath, g.id, base, q);
    }
  }

  /**
   * The files construction loads when nothing goes wrong, in order: the
   * ".xml" files of the own tree in walk order, then the unshadowed ".xml"
   * files of the base tree when the game inherits.
   */
  function LoadedFiles(g: Game, v: Volume): seq<FileRef>
    requires Loading(g, v).fault.None?
  {
    var defPath := GameDirectory(v.toolRoot, v.sep, g.id);
    var mine := XmlOnly(Listing(Resolve(v, defPath).value, defPath, v.sep));
    if !InheritsDefinitions(g) then mine
    else
      var base := g.inheritDefinitions.value;
      var basePath := GameDirectory(v.toolRoot, v.sep, base);
      var b := Resolve(v, basePath).value;
      mine + Unshadowed(v, XmlOnly(Listing(b, basePath, v.sep)), g.id, base)
  }

  /**
   * Construction's hook calls and merges without a fault: for each loaded
   * file in turn, the status hook with its name and immediately after that
   * the merge of its full path.
   */
  lemma LoadingIsReport(g: Game, v: Volume)
    requires Loading(g, v).fault.None?
    ensures Loading(g, v).trace == Report(LoadedFiles(g, v), v.sep)
    ensures var t := Loading(g, v).trace; var fs := LoadedFiles(g, v);
      && |t| == 2 * |fs|
      && forall k :: 0 <= k < |fs| ==> t[2 * k] == Status(fs[k].name) && t[2 * k + 1] == Merge(FullName(fs[k], v.sep))
  {
    var defPath := GameDirectory(v.toolRoot, v.sep, g.id);
    var own := Resolve(v, defPath).value;
    var mine := XmlOnly(Listing(own, defPath, v.sep));
    OwnWalkIsReport(own, defPath, v.sep);
    if InheritsDefinitions(g) {
      var base := g.inheritDefinitions.value;
      var basePath := GameDirectory(v.toolRoot, v.sep, base);
      var b := Resolve(v, basePath).value;
      InheritedWalkIsReport(v, b, basePath, g.id, base);
      ReportAppend(mine, Unshadowed(v, XmlOnly(Listing(b, basePath, v.sep)), g.id, base), v.sep);
    }
    ReportShape(LoadedFiles(g, v), v.sep);
  }

  /** What the catalogue holds once every merge of the walks has been applied. */
  datatype Catalogue = Catalogue(assetTypes: seq<AssetRecord>, gameAssetTypes: seq<AssetRecord>)

  /** The merged asset definitions: one array per namespace. */
  class AssetDefinition {
    var assetTypes: array<AssetRecord>
    var gameAssetTypes: array<AssetRecord>

    constructor (c: Catalogue)
      ensures fresh(assetTypes) && fresh(gameAssetTypes) && assetTypes != gameAssetTypes
      ensures assetTypes[..] == c.assetTypes && gameAssetTypes[..] == c.gameAssetTypes
    {
      assetTypes := new AssetRecord[|c.assetTypes|] (i requires 0 <= i < |c.assetTypes| => c.assetTypes[i]);
      gameAssetTypes := new AssetRecord[|c.gameAssetTypes|] (i requires 0 <= i < |c.gameAssetTypes| => c.gameAssetTypes[i]);
    }
  }

  class GameDefinition {
    var id: string
    var inheritDefinitions: Option<string>
    var manifestVersion: Int16
    var allTypesHash: UInt32
    var worldBuilderVersion: Option<string>
    var themeColor: Option<ColorType>
    var docPath: Option<string>
    var streams: Option<seq<StreamDefinition>>
    var assets: AssetDefinition?
    var definitionPath: Option<string>
    var baseDefinitionPath: Option<string>
    /** The status-hook calls and the merges made so far, in order. */
    var trace: seq<Event>
    /** The exception that ended construction, if one did. */
    var fault: Option<Fault>

    /** The status hook is called with a file name. */
    method ReportStatus(name: string)
      modifies this`trace
      ensures trace == old(trace) + [Status(name)]
    {
      trace := trace + [Status(name)];
    }

    /** The definition file at `path` is loaded and merged into the catalogue. */
    method MergeDefinition(path: string)
      modifies this`trace
      ensures trace == old(trace) + [Merge(path)]
    {
      trace := trace + [Merge(path)];
    }

    /** `getAssetDefinitions`: the walk of the game's own directory `d`, located at `path`. */
    method GetAssetDefinitions(d: Dir, path: string, sep: char)
      modifies this`trace
      ensures trace == old(trace) + OwnWalk(d, path, sep)
      decreases d
    {
      ghost var start := trace;
      for i := 0 to |d.subdirs|
        invariant trace == start + OwnSubWalks(d, path, sep, i)
      {
        var c := d.subdirs[i];
        GetAssetDefinitions(c, path + [sep] + c.name, sep);
        OwnSubWalksNext(d, path, sep, i, start);
      }
      ghost var middle := trace;
      for i := 0 to |d.files|
        invariant trace == middle + OwnFiles(d.files, path, sep, i)
      {
        OwnFile(path, d.files[i], sep);
        OwnFilesNext(d.files, path, sep, i, middle);
      }
      assert start + OwnWalk(d, path, sep) == middle + OwnFiles(d.files, path, sep, |d.files|);
    }

    /** The body of the own walker's file loop, for the file `name` in directory `path`. */
    method OwnFile(path: string, name: string, sep: char)
      modifies this`trace
      ensures trace == old(trace) + if IsXml(name) then Visit(path, name, sep) else []
    {
      XmlIffExtension(name);
      if Extension(name) != ".xml" {
        return;
      }
      ReportStatus(name);
      MergeDefinition(path + [sep] + name);
    }

    /**
     * `getInheritedAssetDefinitions`: the walk of the base game's directory
     * `d`, located at `path`, skipping every ".xml" file whose name the
     * current game's shadow directory also holds.
     */
    method GetInheritedAssetDefinitions(v: Volume, d: Dir, path: string, cur: string, base: string)
      requires |base| > 0 && |v.toolRoot| <= |path|
      modifies this`trace
      ensures trace == old(trace) + InheritedWalk(v, d, path, cur, base)
      decreases d
    {
      ghost var start := trace;
      for i := 0 to |d.subdirs|
        invariant trace == start + InheritedSubWalks(v, d, path, cur, base, i)
      {
        var c := d.subdirs[i];
        GetInheritedAssetDefinitions(v, c, path + [v.sep] + c.name, cur, base);
        InheritedSubWalksNext(v, d, path, cur, base, i, start);
      }
      ghost var middle := trace;
      for i := 0 to |d.files|
        invariant trace == middle + InheritedFiles(v, d.files, path, cur, base, i)
      {
        InheritFile(v, path, d.files[i], cur, base);
        InheritedFilesNext(v, d.files, path, cur, base, i, middle);
      }
      assert start + InheritedWalk(v, d, path, cur, base)
          == middle + InheritedFiles(v, d.files, path, cur, base, |d.files|);
    }

    /** The body of the inherited walker's file loop, for the base file `name` in directory `path`. */
    method InheritFile(v: Volume, path: string, name: string, cur: string, base: string)
      requires |base| > 0 && |v.toolRoot| <= |path|
      modifies this`trace
      ensures trace == old(trace) + if IsXml(name) && !Shadowed(v, path, name, cur, base)
                                    then Visit(path, name, v.sep) else []
    {
      XmlIffExtension(name);
      if Extension(name) != ".xml" {
        return;
      }
      var toolPath := v.toolRoot;
      var baseGameDefPath := path[|toolPath|..];
      var gameDefPath := toolPath + Replace(baseGameDefPath, base, cur);
      var defFileExist := DefinitionFileExists(Resolve(v, gameDefPath), name);
      if !defFileExist {
        ReportStatus(name);
        MergeDefinition(path + [v.sep] + name);
      }
    }

    /**
     * The constructor's two linking loops over the merged catalogue, plain
     * asset types first; an empty entry list stops construction.
     */
    method LinkAssets(catalogue: Catalogue)
      modifies this`assets, this`fault
      ensures fault == old(fault) || (old(fault) == None && fault.Some? && fault.value.EntriesEmpty?)
      ensures old(fault).Some? ==> assets == old(assets)
      ensures old(fault) == None ==>
        && (Faulty(catalogue.assetTypes, AssetTypes) ==> fault == Some(EntriesEmpty(AssetTypes)))
        && (!Faulty(catalogue.assetTypes, AssetTypes) && Faulty(catalogue.gameAssetTypes, GameAssetTypes) ==>
              fault == Some(EntriesEmpty(GameAssetTypes)))
        && (fault == None <==>
              !Faulty(catalogue.assetTypes, AssetTypes) && !Faulty(catalogue.gameAssetTypes, GameAssetTypes))
        && (fault == None ==>
              && assets != null
              && assets.assetTypes[..] == Linked(catalogue.assetTypes, AssetTypes)
              && assets.gameAssetTypes[..] == Linked(catalogue.gameAssetTypes, GameAssetTypes))
    {
      if fault.None? {
        var merged := new AssetDefinition(catalogue);
        assets := merged;
        var plainOk := LinkNamespace(merged.assetTypes, AssetTypes);
        if !plainOk {
          fault := Some(EntriesEmpty(AssetTypes));
        } else {
          assert merged.gameAssetTypes[..] == catalogue.gameAssetTypes;
          var gameOk := LinkNamespace(merged.gameAssetTypes, GameAssetTypes);
          if !gameOk {
            fault := Some(EntriesEmpty(GameAssetTypes));
          }
        }
      }
    }

    /**
     * The rest of the constructor once the fields are copied: the walks,
     * then linking.
     */
    method LoadAssets(g: Game, v: Volume, catalogue: Catalogue)
      requires id == g.id && inheritDefinitions == g.inheritDefinitions
      requires trace == [] && fault == None && baseDefinitionPath == None && assets == null
      modifies this`trace, this`fault, this`assets, this`baseDefinitionPath
      ensures
        && trace == Loading(g, v).trace
        && (Loading(g, v).fault.Some? ==> fault == Loading(g, v).fault && assets == null)
        && (baseDefinitionPath ==
              if Resolve(v, GameDirectory(v.toolRoot, v.sep, g.id)).Some? && InheritsDefinitions(g)
              then Some(GameDirectory(v.toolRoot, v.sep, g.inheritDefinitions.value))
              else None)
        && (Loading(g, v).fault.None? ==>
              && (Faulty(catalogue.assetTypes, AssetTypes) ==> fault == Some(EntriesEmpty(AssetTypes)))
              && (!Faulty(catalogue.assetTypes, AssetTypes) && Faulty(catalogue.gameAssetTypes, GameAssetTypes) ==>
                    fault == Some(EntriesEmpty(GameAssetTypes)))
              && (fault == None <==>
                    !Faulty(catalogue.assetTypes, AssetTypes) && !Faulty(catalogue.gameAssetTypes, GameAssetTypes))
              && (fault == None ==>
                    && assets != null
                    && assets.assetTypes[..] == Linked(catalogue.assetTypes, AssetTypes)
                    && assets.gameAssetTypes[..] == Linked(catalogue.gameAssetTypes, GameAssetTypes)))
    {
      WalkDefinitions(g, v);
      LinkAssets(catalogue);
    }

    /**
     * The constructor's walks: the own directory, then, when the game
     * inherits, the base game's directory; a missing directory stops them.
     */
    method WalkDefinitions(g: Game, v: Volume)
      requires id == g.id && inheritDefinitions == g.inheritDefinitions
      requires trace == [] && fault == None && baseDefinitionPath == None
      modifies this`trace, this`fault, this`baseDefinitionPath
      ensures trace == Loading(g, v).trace && fault == Loading(g, v).fault
      ensures baseDefinitionPath ==
        if Resolve(v, GameDirectory(v.toolRoot, v.sep, g.id)).Some? && InheritsDefinitions(g)
        then Some(GameDirectory(v.toolRoot, v.sep, g.inheritDefinitions.value))
        else None
    {
      var defPath := v.toolRoot + [v.sep] + "Games" + [v.sep] + id;
      var own := Resolve(v, defPath);
      if own.None? {
        fault := Some(DefinitionDirectoryMissing(defPath));
        return;
      }
      GetAssetDefinitions(own.value, defPath, v.sep);
      if inheritDefinitions.Some? && inheritDefinitions.value != "" {
        var base := inheritDefinitions.value;
        var basePath := v.toolRoot + [v.sep] + "Games" + [v.sep] + base;
        baseDefinitionPath := Some(basePath);
        var baseDir := Resolve(v, basePath);
        if baseDir.None? {
          fault := Some(BaseDefinitionDirectoryMissing(basePath));
          return;
        }
        GetInheritedAssetDefinitions(v, baseDir.value, basePath, id, base);
      }
    }

    /** The constructor's assignments of the fields copied or derived from the game record. */
    method CopyFields(g: Game, v: Volume, documents: string, registry: Registry)
      modifies this`id, this`inheritDefinitions, this`manifestVersion, this`allTypesHash,
        this`worldBuilderVersion, this`themeColor, this`docPath, this`streams, this`definitionPath
      ensures id == g.id && inheritDefinitions == g.inheritDefinitions
      ensures manifestVersion == g.manifestVersion && allTypesHash == g.allTypesHash
      ensures worldBuilderVersion == Some(g.worldBuilderVersion) && themeColor == Some(g.themeColor)
      ensures docPath == Some(DocPath(documents, v.sep, registry, g.registryEntry))
      ensures streams.Some? && |streams.value| == |g.stream|
      ensures forall i :: 0 <= i < |g.stream| ==> CopiedStream(streams.value[i], g.stream[i])
      ensures definitionPath == Some(GameDirectory(v.toolRoot, v.sep, g.id))
    {
      id := g.id;
      inheritDefinitions := g.inheritDefinitions;
      manifestVersion := g.manifestVersion;
      allTypesHash := g.allTypesHash;
      worldBuilderVersion := Some(g.worldBuilderVersion);
      themeColor := Some(g.themeColor);
      docPath := Some(DocPath(documents, v.sep, registry, g.registryEntry));
      var copied := CopyStreams(g.stream);
      streams := Some(copied);
      definitionPath := Some(v.toolRoot + [v.sep] + "Games" + [v.sep] + id);
    }

    /**
     * The constructor. Without a game it yields the "None" sentinel and
     * leaves everything else at its default. Otherwise it copies the game's
     * fields, formats the paths, walks the own and then the inherited
     * directory, and links the catalogue the merges produced, plain asset
     * types first, then game asset types.
     */
    constructor (game: Option<Game>, v: Volume, documents: string, registry: Registry, catalogue: Catalogue)
      ensures game.None? ==>
        && id == "None" && inheritDefinitions == None && manifestVersion == 0 && allTypesHash == 0
        && worldBuilderVersion == None && themeColor == None && docPath == None && streams == None
        && assets == null && definitionPath == None && baseDefinitionPath == None
        && trace == [] && fault == None
      ensures game.Some? ==>
        var g := game.value;
        var load := Loading(g, v);
        && id == g.id && inheritDefinitions == g.inheritDefinitions
        && manifestVersion == g.manifestVersion && allTypesHash == g.allTypesHash
        && worldBuilderVersion == Some(g.worldBuilderVersion) && themeColor == Some(g.themeColor)
        && docPath == Some(DocPath(documents, v.sep, registry, g.registryEntry))
        && streams.Some? && |streams.value| == |g.stream|
        && (forall i :: 0 <= i < |g.stream| ==> CopiedStream(streams.value[i], g.stream[i]))
        && definitionPath == Some(GameDirectory(v.toolRoot, v.sep, g.id))
        && trace == load.trace
        && (load.fault.Some? ==> fault == load.fault && assets == null)
        && (baseDefinitionPath ==
              if Resolve(v, GameDirectory(v.toolRoot, v.sep, g.id)).Some? && InheritsDefinitions(g)
              then Some(GameDirectory(v.toolRoot, v.sep, g.inheritDefinitions.value))
              else None)
        && (load.fault.None? ==>
              && (Faulty(catalogue.assetTypes, AssetTypes) ==> fault == Some(EntriesEmpty(AssetTypes)))
              && (!Faulty(catalogue.assetTypes, AssetTypes) && Faulty(catalogue.gameAssetTypes, GameAssetTypes) ==>
                    fault == Some(EntriesEmpty(GameAssetTypes)))
              && (fault == None <==>
                    !Faulty(catalogue.assetTypes, AssetTypes) && !Faulty(catalogue.gameAssetTypes, GameAssetTypes))
              && (fault == None ==>
                    && assets != null
                    && assets.assetTypes[..] == Linked(catalogue.assetTypes, AssetTypes)
                    && assets.gameAssetTypes[..] == Linked(catalogue.gameAssetTypes, GameAssetTypes)))
    {
      id := "None";
      inheritDefinitions := None;
      manifestVersion := 0;
      allTypesHash := 0;
      worldBuilderVersion := None;
      themeColor := None;
      docPath := None;
      streams := None;
      assets := null;
      definitionPath := None;
      baseDefinitionPath := None;
      trace := [];
      fault := None;
      new;
      if game.Some? {
        var g := game.value;
        CopyFields(g, v, documents, registry);
        LoadAssets(g, v, catalogue);
      }
    }
  }
}
