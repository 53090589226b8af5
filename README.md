# USD reference resolver

A Dafny model of `sdf::usd::USDData`, the part of the SDFormat USD parser
that walks a root USD stage. The resolver keeps four containers and
updates them in place:

- `references`: stage per reference string;
- `models`: the top-level model names;
- `materials`: materials by name;
- the search-path list. This is ignition's process-wide `systemPaths()`
  in the source; here it is an explicit field.

The model is the class `UsdParser.UsdData`. Its fields are those
containers, and its methods work the way the C++ methods do:

- `Init` loops over the prims of the root stage, then over the composition
  arcs of each prim, then over each arc's asset dependencies. It calls
  `AddStage` for each dependency.
- `AddStage` deduplicates on the raw reference string. It grows the search
  paths, resolves the base name, and inserts a stage only when resolution
  succeeds.
- `AddSubdirectories` walks the directory tree recursively, appending every
  directory it meets.
- `ParseMaterials` adds material prims whose names are not yet known.
- `FindStage` is the nested linear search for the stage that owns a USD
  path.

Each method is specified against a function of the old state:

- `AddStageStep` and its fold `AddStages`;
- `DirectoriesUnder` and `AddFilePaths`;
- `ModelNames` and `StageReferences`;
- `MaterialsAfter`.

The lemmas next to those functions state the properties: dedup,
fail-without-insert, append-only search paths, complete and sound
directory registration, exactly-one-segment model names, and
first-definition-wins for materials.

Files:

- `wrappers.dfy`: the `Option` type.
- `paths.dfy`: path strings, written out rather than left abstract:
  - splitting into tokens;
  - the base name;
  - `EntryPath`, the path a directory iterator gives an entry
    (`dir + "/" + name`);
  - `JoinPaths`, ignition's `joinPaths`, which collapses the separators
    where its two parts meet.
- `filesystem.dfy`: the directory tree, lookup, the recursive walk and
  search-path registration. Lookup resolves `.` and `..` segments while it
  walks: `..` steps back only from a directory it actually found, so a
  missing name or a file before `..` makes the lookup fail.
- `usd.dfy`: prims and stage pointers as values.
- `usd_parser.dfy`: the `UsdData` class and the functions and lemmas that
  specify it.

The external libraries are inputs, gathered in the datatype
`UsdParser.Env`:

- the directory tree, which stands in for `DirIter` and `isDirectory`. It
  is a `FileTree`: in each directory the entries have distinct names, and
  no name is empty, holds a separator, or is `.` or `..`;
- `absPath`;
- `removeSubStr`;
- `findFile`, which gets the current search paths, returns the empty
  string when nothing is found, and is assumed to follow no particular
  order;
- the USD paths of a `USDStage` built for a file;
- `ParseMaterial`.

Opening the root stage with `pxr::UsdStage::Open` is a parameter of
`Init` and `ParseMaterials`: `None` when it fails, otherwise the
prim-range traversal as a sequence of `Prim` values. Each `Prim` carries
its path and its kind (material, physics scene, or anything else). For each
of its direct-reference arcs it also carries the composition asset
dependencies of the layer that introduces the arc. Those are every
sublayer, reference and payload that layer names, not only the one arc's
target.

### Behaviour of the code that a reader might not expect

- The dedup key is the unresolved reference string (`USDData.cc:235`,
  `USDData.cc:255`), not the resolved path. Two spellings of one file
  become two entries.
- Only the root stage's prim range is walked, both by `Init` and by
  `ParseMaterials`. There is no work queue over the stages that get
  registered.
- Material and physics-scene prims are skipped entirely by `Init`
  (`USDData.cc:142-150`), so references they carry are not followed either.
- `Init` registers only the subdirectories of the root directory
  (`USDData.cc:136`), not the root directory itself.
- `AddStage` grows the search paths before resolving the base name, so a
  failed resolution still leaves them grown.
- `ParseMaterials` returns `false`, that is 0, when the stage does not open
  (`USDData.cc:185`). That is the same value as for a stage without
  materials.
- `findStage` iterates an `unordered_map`, so which owning entry is "first"
  is unspecified. The model picks keys in an arbitrary order.
- No search order is shown for `findFile`, so "first match by registration
  order" is not assumed.
- Failures produce no diagnostics list. The source prints to `std::cerr`.

## Model

| member | source | states |
|---|---|---|
| `UsdParser.UsdData.constructor` | usd/src/usd_parser/USDData.cc:86-96 | The reference map holds exactly one entry: the root file name with a stage built for it. Models and materials are empty. |
| `UsdParser.UsdData.GetAllReferences` | usd/src/usd_parser/USDData.cc:111-116 | In a valid resolver the returned map holds the root stage under its file name, and every stage in it is non-null. |
| `UsdParser.UsdData.AddStage` | usd/src/usd_parser/USDData.cc:231-262 | The result and the new reference map and search paths are exactly one `AddStageStep` from the old ones. The root entry and the absence of null stages are preserved. |
| `UsdParser.AddStageStep` | usd/src/usd_parser/USDData.cc:233-261 | A known key gives false and no change. Otherwise it returns true exactly when the base name resolves on the grown search paths. On failure the map is unchanged. On success the keys grow by exactly `ref`, its stage is built for the resolved file, and all old entries are kept. The search paths only grow and include the stage directory. |
| `UsdParser.AddStageAtMostOnce` | usd/src/usd_parser/USDData.cc:235-236 | Adding the same reference twice inserts it at most once. After a successful first call, the second call changes nothing. |
| `UsdParser.AddStageRegistersDirectories` | usd/src/usd_parser/USDData.cc:241-253 | Even a failed `AddStage` registers every directory reachable below the reference's stage directory. |
| `UsdParser.PathsForStageOnly` | usd/src/usd_parser/USDData.cc:241-246 | Every search path that registering a stage directory adds is that directory itself or a directory reachable below it. |
| `UsdParser.AddStageOnlyRegistersDirectories` | usd/src/usd_parser/USDData.cc:235-246 | A search path added by `AddStage` comes from a reference not yet known. It is that reference's stage directory or a directory reachable below it. |
| `UsdParser.PathsForStageGrow` | usd/src/usd_parser/USDData.cc:241-246 | The search paths after registering a stage directory extend the old ones. They contain the stage directory and every directory the walk lists below it. |
| `UsdParser.AddStagesSpec` | usd/src/usd_parser/USDData.cc:164-172 | A run of `AddStage` calls only adds keys, each one of the references. It keeps every old entry's stage and only appends search paths. |
| `UsdParser.AddStagesAppend` | usd/src/usd_parser/USDData.cc:164-172 | `AddStage` over `a + b` is `AddStage` over `a`, then over `b`. |
| `UsdParser.UsdData.AddSubdirectories` | usd/src/usd_parser/USDData.cc:68-82 | The search paths become the old ones with every directory below `path` registered, in walk order. Nothing changes when `path` is no directory. |
| `UsdParser.UsdData.AddSubdirectoriesOf` | usd/src/usd_parser/USDData.cc:70-81 | The loop over one directory's entries registers each subdirectory and then recurses into it, which yields `AddFilePaths` over the pre-order listing. |
| `FileSystem.SubdirsComplete` | usd/src/usd_parser/USDData.cc:70-80 | Every directory reachable through directories below the start is listed by the walk. |
| `FileSystem.SubdirsSound` | usd/src/usd_parser/USDData.cc:70-80 | Everything the walk lists is a directory reachable below the start. |
| `FileSystem.SubdirectoriesRegistered` | usd/src/usd_parser/USDData.cc:68-82 | After the walk the old search paths are a prefix, and every reachable directory below `path` is registered. |
| `FileSystem.SubdirectoriesOnlyDirectories` | usd/src/usd_parser/USDData.cc:68-82 | Every path the walk adds is a directory reachable below `path`. |
| `FileSystem.EntryPathLooksUpEntry` | usd/src/usd_parser/USDData.cc:73-75 | In a well-formed tree, the path built for a directory entry looks up that same entry. The `isDirectory` test on it is therefore true exactly for subdirectories. |
| `FileSystem.WalkWellFormed` | usd/src/usd_parser/USDData.cc:70-79 | Every entry a walk through well-formed trees finds is itself well formed. |
| `FileSystem.WalkSnoc` | usd/src/usd_parser/USDData.cc:70-75 | Walking one more name looks that name up in the directory the walk found, and fails if it found a file or nothing. |
| `FileSystem.WalkOfCanonical` | usd/src/usd_parser/USDData.cc:70 | On names without `.` or `..` a walk never steps back, so it ends where the plain descent from its current directory ends. |
| `FileSystem.ParentOfDirectory` | usd/src/usd_parser/USDData.cc:70 | In a tree with `/a` and `/t/w`, `/a/../t` leads to `/t`. |
| `FileSystem.CurrentOfDirectory` | usd/src/usd_parser/USDData.cc:70 | In the same tree, `/t/.` leads to `/t`. |
| `FileSystem.ParentOfMissing` | usd/src/usd_parser/USDData.cc:70 | In the same tree, `/z/../t` with no `/z` names nothing, and the walk from it lists nothing. |
| `FileSystem.ParentOfFile` | usd/src/usd_parser/USDData.cc:70 | In a tree with the file `/d/f`, `/d/f/..` names nothing. |
| `FileSystem.DotSegmentsResolve` | usd/src/usd_parser/USDData.cc:242-246 | Take a tree with `/a` and `/t/w`. The walks from the stage directories `/a/../t` and `/t/.` each list `w`, spelt under the path as given. |
| `FileSystem.AddFilePathsSpec` | usd/src/usd_parser/USDData.cc:77-78 | Registration only appends. Every registered path ends up in the list, and nothing else is added. |
| `FileSystem.AddFilePathsKeepsDistinct` | usd/src/usd_parser/USDData.cc:77-78 | Registration never introduces a duplicate search path. |
| `FileSystem.AddFilePathThenAll` | usd/src/usd_parser/USDData.cc:77-79 | Registering one directory, then the walk below it, then the rest, is registering the concatenated listing. |
| `UsdParser.UsdData.Init` | usd/src/usd_parser/USDData.cc:119-176 | Returns true exactly when the root stage opens, and changes nothing when it does not. Otherwise it sets the root directory and registers the subdirectories under it. It adds `ModelNames` of the prims to the models. The registry becomes `AddStages` over `StageReferences` of the prims, from the grown search paths. |
| `UsdParser.UsdData.WalkPrims` | usd/src/usd_parser/USDData.cc:140-173 | The prim loop adds exactly `ModelNames(prims)` and registers exactly `StageReferences(prims)`, in order. |
| `UsdParser.UsdData.VisitPrim` | usd/src/usd_parser/USDData.cc:142-172 | One prim contributes `ModelName(prim)` and registers `PrimReferences(prim)`. A material or physics scene contributes neither. |
| `UsdParser.UsdData.AddArcReferences` | usd/src/usd_parser/USDData.cc:164-172 | The arc loop registers the dependencies of all arcs, arc after arc. |
| `UsdParser.UsdData.AddReferences` | usd/src/usd_parser/USDData.cc:168-171 | The dependency loop is `AddStages` over the dependencies, in order. |
| `UsdParser.ModelNamesSpec` | usd/src/usd_parser/USDData.cc:142-157 | A name is a model exactly when some prim that is neither a material nor a physics scene has a path that splits into that single token. |
| `UsdParser.StageReferencesSpec` | usd/src/usd_parser/USDData.cc:142-172 | A reference is followed exactly when some prim that is neither a material nor a physics scene lists it on one of its arcs. |
| `UsdParser.FlattenSpec` | usd/src/usd_parser/USDData.cc:164-171 | An asset path is visited exactly when some arc lists it. |
| `UsdParser.RobotStage` | usd/src/usd_parser/USDData.cc:152-157 | A stage whose only prim is `/robot` with no references yields the single model `robot` and nothing to follow. |
| `Paths.SegmentsAreNames` | usd/src/usd_parser/USDData.cc:153 | Splitting yields only non-empty tokens without separators. |
| `Paths.TopLevelPath` | usd/src/usd_parser/USDData.cc:152-156 | `/name` splits into the single token `name`. |
| `Paths.NestedPath` | usd/src/usd_parser/USDData.cc:152-156 | `/a/b` splits into two tokens, so it is not a model. |
| `Paths.SegmentsOfEntryPath` | usd/src/usd_parser/USDData.cc:73 | Splitting an entry path gives the directory's tokens followed by the entry name's tokens. |
| `Paths.SegmentsOfJoin` | usd/src/usd_parser/USDData.cc:242-246 | `joinPaths` keeps the tokens of both parts, in order, however many separators meet in between. |
| `Paths.TrimmedEnds` | usd/src/usd_parser/USDData.cc:242-246 | Where `joinPaths` joins its two parts, neither part ends or starts with a separator. Each part is a prefix (the first) or a suffix (the second) of what was passed in, and only separators are removed from it. |
| `Paths.JoinCollapsesSeparators` | usd/src/usd_parser/USDData.cc:242-243 | `/abs/dir/` joined with `props/` or with `/props/` gives `/abs/dir/props/`, with one separator at the seam. |
| `Paths.BasenameSpec` | usd/src/usd_parser/USDData.cc:238 | The base name is the longest suffix without a separator. |
| `UsdParser.UsdData.ParseMaterials` | usd/src/usd_parser/USDData.cc:179-208 | Returns 0 and changes nothing when the stage does not open. Otherwise the table becomes `MaterialsAfter` over the prims, and the result is its final size. |
| `UsdParser.MaterialsAfterSpec` | usd/src/usd_parser/USDData.cc:189-205 | An existing name is never overwritten. The names added are exactly the names of material prims. |
| `UsdParser.MaterialsFirstDefinition` | usd/src/usd_parser/USDData.cc:192-204 | A newly added name maps to what the first material prim of that name parses to. |
| `UsdParser.UsdData.FindStage` | usd/src/usd_parser/USDData.cc:211-228 | A non-null result is a registered entry whose non-null stage lists the name among its USD paths. A null result, with key `""`, comes exactly when no entry does. |

## Left out

- The Pixar USD API (`UsdStage::Open`, `UsdPrimRange`, `UsdPrimCompositionQuery`, `GetCompositionAssetDependencies`, `IsA`): foreign library. Opening is an optional prim sequence; each prim carries its kind and its arcs' dependencies.
- `USDStage` internals: a stage is a value carrying the file name and the USD paths its constructor would compute (`Env.stagePaths`).
- `ParseMaterial` and `removeSubStr`: their definitions are not part of this model. They are uninterpreted function inputs.
- `findFile`: its search order is not shown, so it is an uninterpreted function of the search paths and the base name.
- ignition's `AddFilePaths` is modelled as a single-path insert-if-absent. Splitting its argument on the path-list delimiter and normalising the path are left out.
- `joinPaths`: its definition is not part of this model. `JoinPaths` collapses only the separators where the two parts meet. Duplicate separators inside either part are kept as written.
- `DirIter`: an entry's path is taken to be `dir + "/" + name` (`EntryPath`), with `dir` as given.
- `basename`: modelled as the suffix after the last `/`. Stripping trailing separators is left out.
- `DirIter`, `isDirectory`: the filesystem is a fixed, well-formed tree given as input (`FileTree`). Symbolic links, and so directory cycles, cannot occur in it. Because of that, `..` steps back to the directory the walk came from, never to a link's target directory.
- `std::cerr` diagnostics: output only.
- `GetMaterials`, `GetModels`: modelled as plain reads of the fields, with no contract of their own.
- `UsdParser.UsdData.FindStage`: the C++ returns the first match in the `unordered_map`'s iteration order. That order is unspecified, so the model promises some owning entry, not a particular one.
- Shared-pointer ownership and aliasing of `USDStage` objects: stages are values.
