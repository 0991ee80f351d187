# SAGE game definition, modelled in Dafny

This project models how a `SAGE.GameDefinition` object is built from a game's
XML description (`SAGE/GameDefinition.cs`). It covers these steps:

- the game sentinel and the field copies;
- the `DocPath`, `DefinitionPath` and `BaseDefinitionPath` formatting;
- the copy of the stream descriptors (`StreamDefinition`);
- the two directory walkers that report and merge every `.xml` asset
  definition file, where the walk of the base game's tree skips each file that
  the derived game overrides;
- the two linking passes that fill in `Subclasses` and `Superclass` for the
  plain asset types and the game asset types.

The modules are:

- `Wrappers`: `Option`.
- `Strings`: the ordinal `String.Replace`, which replaces every occurrence,
  plus splitting and joining paths on the separator.
- `FileSystem`: the directory tree below the tool's directory, `FileInfo.Extension`,
  and locating a directory from its full path (`Resolve`).
- `Walk`: what both walks do, as functions over the tree that give the calls of
  the status hook (`Status`) and the merges (`Merge`) in order. It also has an
  independent reference: the tree's files in walk order (`Listing`), filtered
  (`XmlOnly`, `Unshadowed`) and reported (`Report`). Lemmas connect the two.
  The module also holds the loop that decides whether a derived file
  overrides a base file (`DefinitionFileExists`).
- `Linking`: the linking pass as an in-place method over an array of records.
  It is proved equal to a specification function `Linked`, and the properties
  of the pass are lemmas about `Linked`.
- `Sage`: `StreamDefinition`, the path formatting, and the class
  `GameDefinition`. Its walker methods are recursive and update the `trace`
  field through `ReportStatus` and `MergeDefinition`. Its constructor runs
  the steps in source order.

An exception that ends construction is kept in the object's `fault` field,
together with the status calls made before it. This covers a missing own
directory, a missing base directory, and an asset type whose `Entries` are
non-null but empty. The merged catalogue that `Assets.Merge` builds is an input
of the constructor (`Catalogue`).

Behaviour of the code worth knowing, which the model keeps:

- Without a game, only `id` is set (to `"None"`). `Streams` and `Assets` stay
  null. They are not an empty list and an empty graph.
- A record is added to the `Subclasses` of every same-namespace record whose id
  is its parent id, and its `Superclass` is the last of them. The parent record
  need not be unique.
- The shadow path is made by replacing every occurrence of the base id in the
  relative path, not only the game's own directory name
  (`Sage.ReplaceAllRewritesNestedNames`). A base id that occurs inside `Games`
  (such as `G` or `es`) rewrites the `Games` segment as well, so the shadow
  directory lies outside `Games` and, unless it happens to exist, no base file
  is shadowed (`Sage.ReplaceAllRewritesGamesSegment`).

## Model

| member | source | states |
|---|---|---|
| Sage.NewStreamDefinition | SAGE/GameDefinition.cs:15-20 | the descriptor copies the stream's name as `id`, its description and its name-required flag |
| Sage.CopyStreams | SAGE/GameDefinition.cs:60-64 | `Streams` has one descriptor per stream of the game, in the same order, and each copies the name as `id`, the description and the name-required flag (like the `StreamDefinition` constructor) |
| Sage.GameDirectory | SAGE/GameDefinition.cs:65-69 | the formatted path starts with the tool's directory and a separator, and below it holds the segments `Games` and the id joined by the separator |
| Sage.GameDirectoryResolves | SAGE/GameDefinition.cs:65-69 | the formatted `"{root}{sep}Games{sep}{id}"` path locates the subdirectory `id` of `Games` below the tool's directory |
| Sage.DocPath | SAGE/GameDefinition.cs:47-59 | `DocPath` is empty exactly when the registry key or its value is missing; otherwise it starts with the documents folder and a separator, ends with a separator and `Mods`, and holds the registry value in between |
| Sage.GameDefinition.CopyFields | SAGE/GameDefinition.cs:41-69 | id, base id, manifest version, hash, World Builder version and theme colour are copied from the game; `DocPath`, `Streams` and `DefinitionPath` are as formatted above |
| Sage.GameDefinition.ReportStatus | SAGE/GameDefinition.cs:134 | a status-hook call appends one `Status(name)` event to the trace |
| Sage.GameDefinition.MergeDefinition | SAGE/GameDefinition.cs:135 | loading and merging a file appends one `Merge(fullName)` event to the trace |
| Sage.GameDefinition.GetAssetDefinitions | SAGE/GameDefinition.cs:122-137 | the recursive walker appends exactly the events of the own-tree walk `OwnWalk` of the directory |
| Sage.GameDefinition.OwnFile | SAGE/GameDefinition.cs:128-135 | one file of the own tree adds its status call and merge exactly when its extension is `.xml`, and nothing otherwise |
| Sage.GameDefinition.GetInheritedAssetDefinitions | SAGE/GameDefinition.cs:139-181 | the recursive base-tree walker appends exactly the events of `InheritedWalk`: subdirectories first, then each `.xml` file that is not shadowed |
| Sage.GameDefinition.InheritFile | SAGE/GameDefinition.cs:147-179 | one base file adds its status call and merge exactly when its name ends in `.xml` and the rewritten directory does not hold an `.xml` file of the same name; it adds nothing otherwise |
| Walk.DefinitionFileExists | SAGE/GameDefinition.cs:159-174 | the flag loop with `continue` and `break` finds a file exactly when the shadow directory exists and holds an `.xml` file with the same name |
| Sage.GameDefinition.LinkAssets | SAGE/GameDefinition.cs:82-114 | plain asset types are linked first: an empty `Entries` there stops construction with that fault; otherwise the game asset types are linked, with the same rule; with no fault, both arrays equal `Linked` of the merged records |
| Sage.GameDefinition.LoadAssets | SAGE/GameDefinition.cs:70-114 | the trace is the own walk and then, if the game inherits, the base walk; `BaseDefinitionPath` is set exactly when the own directory exists and `inheritDefinitions` is non-empty; a missing directory ends construction with its fault and leaves `Assets` null; linking runs only after both walks |
| Sage.GameDefinition.WalkDefinitions | SAGE/GameDefinition.cs:70-80 | the two walks leave the trace and fault of `Loading`, and set `BaseDefinitionPath` exactly when the own directory exists and `inheritDefinitions` is non-empty |
| Sage.GameDefinition.constructor | SAGE/GameDefinition.cs:37-120 | without a game, `id` is `"None"` and every other field keeps its default; with a game, the copies and paths above, the trace and fault of `Loading`, `BaseDefinitionPath` as in `LoadAssets`, `Assets` null after a failed walk, and the linked arrays when nothing failed |
| Sage.Loading | SAGE/GameDefinition.cs:65-81 | the own directory missing is the first fault, with an empty trace; otherwise the trace starts with the own walk; there is no fault exactly when the own directory exists and, if the game inherits, so does the base directory; any other fault is the missing base directory of an inheriting game |
| Sage.LoadingIsReport | SAGE/GameDefinition.cs:71-80 | without a fault, the trace alternates status call and merge for each loaded file: the own tree's `.xml` files in walk order, then the base tree's unshadowed `.xml` files |
| Sage.LoadingMerges | SAGE/GameDefinition.cs:71-80 | without a fault, a path is merged if and only if it names an `.xml` file of the own tree, or an unshadowed `.xml` file of the base tree when the game inherits |
| Sage.ShadowOfGameDirectory | SAGE/GameDefinition.cs:152-155 | when the base id has no separator and does not occur in `Games`, the shadow of the base game's directory is the current game's directory |
| Sage.ShadowOfTopDirectory | SAGE/GameDefinition.cs:152-155 | the shadow of a directory right below the tool's directory is that directory with the base id replaced by the current id in its name |
| Sage.ReplaceAllRewritesGamesSegment | SAGE/GameDefinition.cs:154-155 | with base `G` and current `H`, the shadow of the base game's directory is `/Hames/H`; with no directory `Hames`, no file of that directory is shadowed |
| Sage.MirroredShadow | SAGE/GameDefinition.cs:152-155 | descending through directories whose names do not contain the base id extends the shadow path by exactly those names |
| Sage.DerivedFileWins | SAGE/GameDefinition.cs:152-174 | under those conditions, a base file is shadowed if and only if the mirrored directory of the current game exists and holds an `.xml` file of the same name |
| Sage.ReplaceAllRewritesNestedNames | SAGE/GameDefinition.cs:155 | with base `G1` and current `G2`, the directory `/Games/G1/G1maps` is shadowed by `/Games/G2/G2maps`, not by its mirror `/Games/G2/G1maps` |
| Strings.Replace | SAGE/GameDefinition.cs:155 | the ordinal replace-all: the result is no longer than the text when the replacement is no longer than the pattern, and no shorter when it is no shorter |
| Strings.ReplaceAround | SAGE/GameDefinition.cs:155 | `String.Replace` with a pattern that lacks a character rewrites the text on both sides of that character separately |
| Strings.ReplaceJoin | SAGE/GameDefinition.cs:155 | with a pattern that has no separator, replacing in a joined path replaces in each segment |
| Strings.ReplaceAbsent | SAGE/GameDefinition.cs:155 | text without the pattern comes back unchanged |
| Strings.ReplaceIdentity | SAGE/GameDefinition.cs:155 | replacing an id with itself (a game inheriting its own id) changes nothing |
| FileSystem.Extension | SAGE/GameDefinition.cs:130 | the extension is empty exactly when the name has no `.` or ends with one; otherwise it is a suffix of the name of at least two characters that starts with `.` and holds no other `.` |
| FileSystem.XmlIffExtension | SAGE/GameDefinition.cs:130 | `Extension` is `.xml` if and only if the file name ends with `.xml` |
| FileSystem.ResolveChild | SAGE/GameDefinition.cs:124-126 | the path a walker builds for a subdirectory (parent path, separator, name) locates that subdirectory |
| Walk.ShadowPath | SAGE/GameDefinition.cs:152-155 | the shadow path starts with the tool's directory, and has the length of the base path when the two ids have the same length |
| Walk.ShadowOfUnrelated | SAGE/GameDefinition.cs:152-155 | a path whose part below the tool's directory does not contain the base id is its own shadow |
| Walk.Shadowed | SAGE/GameDefinition.cs:154-174 | a shadowed file has an `.xml` name, and its shadow directory exists |
| Walk.ListingSound | SAGE/GameDefinition.cs:124-128 | every file of the walk order lies in the directory its recorded path locates |
| Walk.SubdirectoriesFirst | SAGE/GameDefinition.cs:124-128 | in walk order, every file of a subdirectory comes before every file of the directory itself |
| Walk.ReportShape | SAGE/GameDefinition.cs:134-135 | a report has two events per file: the status call with the file name, then the merge of its full name |
| Walk.OwnWalkIsReport | SAGE/GameDefinition.cs:122-137 | the own-tree walk reports exactly the `.xml` files of the walk order |
| Walk.InheritedWalkIsReport | SAGE/GameDefinition.cs:139-181 | the base-tree walk reports exactly the unshadowed `.xml` files of the walk order |
| Walk.OwnWalkMerges | SAGE/GameDefinition.cs:128-136 | a path is merged by the own walk if and only if it is the full name of an `.xml` file of the tree |
| Walk.InheritedWalkMerges | SAGE/GameDefinition.cs:145-179 | a path is merged by the base walk if and only if it is the full name of an `.xml` file of the tree that is not shadowed |
| Linking.LinkNamespace | SAGE/GameDefinition.cs:82-114 | one pass over a namespace succeeds exactly when no in-namespace record has empty `Entries`; on success the array equals `Linked` of its old contents |
| Linking.LinkAsset | SAGE/GameDefinition.cs:86-99 | the inner loop for one asset applies that asset's row of links, or reports the empty `Entries` its records hold |
| Linking.LinkPair | SAGE/GameDefinition.cs:88-97 | one inner step for the pair (`asset`, `otherAsset`) adds the next link of the row and changes nothing else in the array |
| Linking.NoChildrenOutside | SAGE/GameDefinition.cs:84 | a record outside the namespace (not exactly an `AssetType`) gets no subclasses |
| Linking.ChildrenExactly | SAGE/GameDefinition.cs:104-112 | the subclasses appended to a record are exactly the in-namespace records whose first entry inherits from its id, in increasing order |
| Linking.ParentIsLast | SAGE/GameDefinition.cs:102-113 | when some record has the parent id, `Superclass` becomes one with that id, the last such record in iteration order |
| Linking.LinkedKeeps | SAGE/GameDefinition.cs:82-114 | linking changes no id, kind or entry, and leaves records outside the namespace as they were |
| Linking.LinkedRelation | SAGE/GameDefinition.cs:82-114 | `j` is in the subclasses of `i` if and only if it was already or `j` inherits from `i`'s id; `j`'s superclass is `i` if and only if `i` is the last record `j` inherits from, or none is and it was `i` before |
| Linking.DanglingParent | SAGE/GameDefinition.cs:91-93 | when no in-namespace record has the parent id, the record's `Superclass` is unchanged and nothing fails |
| Linking.LinkedWellIndexed | SAGE/GameDefinition.cs:95-96 | every superclass and subclass reference still points to a record of the namespace |
| Linking.LinkedConsistent | SAGE/GameDefinition.cs:95-96 | starting from unlinked records, a record whose superclass is `i` is among `i`'s subclasses, and a subclass of `i` has a superclass with `i`'s id; with unique ids the two relations coincide |

## Left out

- The Windows registry, the documents folder and the tool's directory are inputs: `registry`, `documents` and `Volume.toolRoot`.
- `Path.DirectorySeparatorChar` is the volume's `sep`. The alternative separator, path normalisation and case-insensitive file names are not modelled.
- `AssetDefinition.Load` (XML parsing) and `AssetDefinition.Merge` are not part of this model. A merge is one `Merge(fullName)` event, and the merged catalogue is an input of the constructor. A parse error is not modelled.
- The status callback's boolean result is ignored by the code, and the model has no result for it.
- Directory listing order is fixed by the order of the tree's sequences.
- Sub-records of the game that are null (`RegistryEntry`, `Stream`) and a null id are not modelled.
- Sage.GameDefinition.constructor: `Assets` is created from the merged catalogue after the walks, not empty before them. The two differ only when a walk throws, and that object is never returned.
- Sage.GameDefinition.constructor: an exception is a `fault` value on the constructed object, not a failed construction. The fields set before the exception keep their values, and the later fields keep their defaults.
- Linking.LinkNamespace: records and their parent and child links are indices into one array, not object references. An entry's type test is reduced to a four-way `FirstEntry` tag.
