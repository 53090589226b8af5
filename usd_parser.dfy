/**
  The USD reference resolver: registration of the root stage, the walk over
  the root stage's prims that collects top-level model names and follows
  composition references, the registration of referenced stages on a
  growing search-path list, the material table and the lookup of the stage
  that owns a USD path.

  The calls into other libraries are inputs, gathered in `Env`.
 */
module UsdParser {
  import opened Wrappers
  import opened Paths
  import opened FileSystem
  import opened Usd

  /**
    The collaborators the resolver calls: the directory tree, `absPath`,
    `removeSubStr`, `findFile` (given the current search paths; the empty
    string means not found), the USD paths a USDStage built for a file
    carries, and `ParseMaterial`.
   */
  datatype Env<M> = Env(
    fs: FileTree,
    absPath: string -> string,
    removeSubStr: (string, string) -> string,
    findFile: (seq<string>, string) -> string,
    stagePaths: string -> seq<string>,
    parseMaterial: Prim -> M)

  /** The two containers stage registration changes: the reference map and the search paths. */
  datatype Registry = Registry(references: map<string, StageRef>, searchPaths: seq<string>)

  /** The stage object created for a resolved file. */
  function StageFor<M>(env: Env<M>, file: string): StageRef {
    Stage(file, env.stagePaths(file))
  }

  /** Every registered stage pointer is non-null. */
  predicate AllLoaded(references: map<string, StageRef>) {
    forall k :: k in references ==> references[k].Stage?
  }

  /** The directory holding the root stage: its absolute path with the base name taken out. */
  function RootDirectory<M>(env: Env<M>, filename: string): string {
    var abs := env.absPath(filename);
    env.removeSubStr(abs, Basename(abs))
  }

  /** The directory AddStage registers for `ref`: the reference's own directory part, under `directoryPath`. */
  function StageDirectory<M>(env: Env<M>, directoryPath: string, ref: string): string {
    JoinPaths(directoryPath, env.removeSubStr(ref, Basename(ref)))
  }

  /** The search paths once AddStage has registered the stage directory of `ref` and every directory below it. */
  function PathsForStage<M>(env: Env<M>, directoryPath: string, paths: seq<string>, ref: string): seq<string> {
    var dir := StageDirectory(env, directoryPath, ref);
    AddFilePaths(AddFilePath(paths, dir), DirectoriesUnder(env.fs, dir))
  }

  /** The stage directory and every directory below it are registered, after all the earlier paths. */
  lemma PathsForStageGrow<M>(env: Env<M>, directoryPath: string, paths: seq<string>, ref: string)
    ensures var dir := StageDirectory(env, directoryPath, ref);
      var r := PathsForStage(env, directoryPath, paths, ref);
      && paths <= r
      && dir in r
      && (forall d :: d in DirectoriesUnder(env.fs, dir) ==> d in r)
  {
    var dir := StageDirectory(env, directoryPath, ref);
    var first := AddFilePath(paths, dir);
    assert paths <= first && dir in first;
    AddFilePathsSpec(first, DirectoriesUnder(env.fs, dir));
  }

  /**
    Conversely, every search path registering a stage directory adds is the
    stage directory itself or a directory reachable below it.
   */
  lemma PathsForStageOnly<M>(env: Env<M>, directoryPath: string, paths: seq<string>, ref: string, p: string)
    requires p in PathsForStage(env, directoryPath, paths, ref) && p !in paths
    ensures var dir := StageDirectory(env, directoryPath, ref);
      p == dir || exists d, names :: Lookup(env.fs, dir) == Some(d) && Below(d, names) && JoinAll(dir, names) == p
  {
    var dir := StageDirectory(env, directoryPath, ref);
    var first := AddFilePath(paths, dir);
    if p != dir {
      assert p !in first;
      SubdirectoriesOnlyDirectories(env.fs, dir, first, p);
    }
  }

  /**
    One call of AddStage: whether it inserted, and the registry afterwards.
    The key is the reference string as written. An already known key
    changes nothing; otherwise the search paths grow first, and the map gains
    exactly the entry for `ref` if and only if its base name resolves.
   */
  function AddStageStep<M>(env: Env<M>, directoryPath: string, reg: Registry, ref: string): (r: (bool, Registry))
    ensures ref in reg.references ==> r == (false, reg)
    ensures r.0 <==> (ref !in reg.references &&
      env.findFile(PathsForStage(env, directoryPath, reg.searchPaths, ref), Basename(ref)) != "")
    ensures !r.0 ==> r.1.references == reg.references
    ensures r.0 ==> r.1.references.Keys == reg.references.Keys + {ref}
    ensures r.0 ==> (r.1.references[ref] ==
      StageFor(env, env.findFile(PathsForStage(env, directoryPath, reg.searchPaths, ref), Basename(ref))))
    ensures forall k :: k in reg.references ==> k in r.1.references && r.1.references[k] == reg.references[k]
    ensures reg.searchPaths <= r.1.searchPaths
    ensures ref !in reg.references ==> StageDirectory(env, directoryPath, ref) in r.1.searchPaths
    ensures AllLoaded(reg.references) ==> AllLoaded(r.1.references)
  {
    if ref in reg.references then (false, reg)
    else
      var paths := PathsForStage(env, directoryPath, reg.searchPaths, ref);
      PathsForStageGrow(env, directoryPath, reg.searchPaths, ref);
      var found := env.findFile(paths, Basename(ref));
      if found == "" then (false, Registry(reg.references, paths))
      else (true, Registry(reg.references[ref := StageFor(env, found)], paths))
  }

  /**
    A failed AddStage still registers the stage directory and every
    directory below it; so does a successful one.
   */
  lemma AddStageRegistersDirectories<M>(env: Env<M>, directoryPath: string, reg: Registry, ref: string, d: Entry, names: seq<string>)
    requires ref !in reg.references
    requires Lookup(env.fs, StageDirectory(env, directoryPath, ref)) == Some(d) && Below(d, names)
    ensures JoinAll(StageDirectory(env, directoryPath, ref), names) in AddStageStep(env, directoryPath, reg, ref).1.searchPaths
  {
    SubdirsComplete(StageDirectory(env, directoryPath, ref), d, names);
    PathsForStageGrow(env, directoryPath, reg.searchPaths, ref);
  }

  /**
    A search path AddStage adds is the stage directory of a reference not
    yet known, or a directory reachable below that stage directory.
   */
  lemma AddStageOnlyRegistersDirectories<M>(env: Env<M>, directoryPath: string, reg: Registry, ref: string, p: string)
    requires p in AddStageStep(env, directoryPath, reg, ref).1.searchPaths && p !in reg.searchPaths
    ensures ref !in reg.references
    ensures var dir := StageDirectory(env, directoryPath, ref);
      p == dir || exists d, names :: Lookup(env.fs, dir) == Some(d) && Below(d, names) && JoinAll(dir, names) == p
  {
    PathsForStageOnly(env, directoryPath, reg.searchPaths, ref, p);
  }

  /** Adding the same reference twice inserts it at most once. */
  lemma AddStageAtMostOnce<M>(env: Env<M>, directoryPath: string, reg: Registry, ref: string)
    ensures var (first, reg1) := AddStageStep(env, directoryPath, reg, ref);
            var (second, reg2) := AddStageStep(env, directoryPath, reg1, ref);
            !(first && second) && reg2.references.Keys <= reg.references.Keys + {ref} &&
            (first ==> reg2 == reg1)
  {
  }

  /** AddStage over every reference of `refs`, in order. */
  function AddStages<M>(env: Env<M>, directoryPath: string, reg: Registry, refs: seq<string>): Registry
    decreases |refs|
  {
    if refs == [] then reg
    else AddStages(env, directoryPath, AddStageStep(env, directoryPath, reg, refs[0]).1, refs[1..])
  }

  /**
    A run of AddStage calls only adds entries, each keyed by one of the
    references, keeps every earlier entry as it was and only appends search
    paths.
   */
  lemma {:induction false} AddStagesSpec<M>(env: Env<M>, directoryPath: string, reg: Registry, refs: seq<string>)
    ensures var r := AddStages(env, directoryPath, reg, refs);
      && reg.references.Keys <= r.references.Keys
      && (forall k :: k in r.references ==> k in reg.references || k in refs)
      && (forall k :: k in reg.references ==> r.references[k] == reg.references[k])
      && reg.searchPaths <= r.searchPaths
    decreases |refs|
  {
    if refs != [] {
      var next := AddStageStep(env, directoryPath, reg, refs[0]).1;
      AddStagesSpec(env, directoryPath, next, refs[1..]);
      assert forall k :: k in refs[1..] ==> k in refs;
    }
  }

  lemma {:induction false} AddStagesAppend<M>(env: Env<M>, directoryPath: string, reg: Registry, a: seq<string>, b: seq<string>)
    ensures AddStages(env, directoryPath, reg, a + b) == AddStages(env, directoryPath, AddStages(env, directoryPath, reg, a), b)
    decreases |a|
  {
    if a == [] {
      assert a + b == b;
    } else {
      assert (a + b)[0] == a[0] && (a + b)[1..] == a[1..] + b;
      AddStagesAppend(env, directoryPath, AddStageStep(env, directoryPath, reg, a[0]).1, a[1..], b);
    }
  }

  /** AddStage over `refs` and then once more over `ref`. */
  lemma AddStagesSnoc<M>(env: Env<M>, directoryPath: string, reg: Registry, refs: seq<string>, ref: string)
    ensures AddStages(env, directoryPath, reg, refs + [ref]) ==
      AddStageStep(env, directoryPath, AddStages(env, directoryPath, reg, refs), ref).1
  {
    AddStagesAppend(env, directoryPath, reg, refs, [ref]);
    assert [ref][1..] == [];
  }

  lemma PrefixSnoc<T>(s: seq<T>, k: nat)
    requires k < |s|
    ensures s[..k + 1] == s[..k] + [s[k]]
  {
  }

  lemma FlattenNext(arcs: seq<seq<string>>, j: nat)
    requires j < |arcs|
    ensures Flatten(arcs[..j + 1]) == Flatten(arcs[..j]) + arcs[j]
  {
    assert arcs[..j + 1][..j] == arcs[..j];
  }

  /** One more prim of the walk adds its references and its model name. */
  lemma WalkNext(prims: seq<Prim>, i: nat)
    requires i < |prims|
    ensures StageReferences(prims[..i + 1]) == StageReferences(prims[..i]) + PrimReferences(prims[i])
    ensures ModelNames(prims[..i + 1]) == ModelNames(prims[..i]) + ModelName(prims[i])
  {
    assert prims[..i + 1][..i] == prims[..i];
  }

  /** The asset paths of a sequence of arcs, arc after arc. */
  function Flatten(arcs: seq<seq<string>>): seq<string> {
    if arcs == [] then [] else Flatten(arcs[..|arcs| - 1]) + arcs[|arcs| - 1]
  }

  /** The references the prim walk follows for one prim: none for a material or a physics scene. */
  function PrimReferences(p: Prim): seq<string> {
    if p.kind == Generic then Flatten(p.arcs) else []
  }

  /** The references the prim walk follows, prim after prim. */
  function StageReferences(prims: seq<Prim>): seq<string> {
    if prims == [] then [] else StageReferences(prims[..|prims| - 1]) + PrimReferences(prims[|prims| - 1])
  }

  /** The model name a prim contributes: its only token, for a non-material, non-physics-scene prim. */
  function ModelName(p: Prim): set<string> {
    var tokens := Segments(p.path);
    if p.kind == Generic && |tokens| == 1 then {tokens[0]} else {}
  }

  /** The model names collected by the prim walk. */
  function ModelNames(prims: seq<Prim>): set<string> {
    if prims == [] then {} else ModelNames(prims[..|prims| - 1]) + ModelName(prims[|prims| - 1])
  }

  lemma {:induction false} FlattenSpec(arcs: seq<seq<string>>, r: string)
    ensures r in Flatten(arcs) <==> exists a :: a in arcs && r in a
  {
    if arcs != [] {
      var init := arcs[..|arcs| - 1];
      FlattenSpec(init, r);
      assert forall a :: a in arcs <==> a in init || a == arcs[|arcs| - 1];
    }
  }

  /**
    A reference is followed exactly when some non-material,
    non-physics-scene prim of the stage names it on one of its arcs.
   */
  lemma {:induction false} StageReferencesSpec(prims: seq<Prim>, r: string)
    ensures r in StageReferences(prims) <==>
      exists p, a :: p in prims && p.kind == Generic && a in p.arcs && r in a
  {
    if prims != [] {
      var init := prims[..|prims| - 1];
      var last := prims[|prims| - 1];
      StageReferencesSpec(init, r);
      FlattenSpec(last.arcs, r);
      assert forall p :: p in prims <==> p in init || p == last;
    }
  }

  /**
    A name is a model exactly when some prim that is neither a material nor
    a physics scene has a path that splits into that one token.
   */
  lemma {:induction false} ModelNamesSpec(prims: seq<Prim>, n: string)
    ensures n in ModelNames(prims) <==>
      exists p :: p in prims && p.kind == Generic && Segments(p.path) == [n]
  {
    if prims != [] {
      var init := prims[..|prims| - 1];
      var last := prims[|prims| - 1];
      ModelNamesSpec(init, n);
      assert forall p :: p in prims <==> p in init || p == last;
      var tokens := Segments(last.path);
      if |tokens| == 1 {
        assert tokens == [tokens[0]];
      }
    }
  }

  /** The single-prim stage `/robot` without references yields the one model "robot" and nothing to follow. */
  lemma RobotStage()
    ensures ModelNames([Prim("/robot", Generic, [])]) == {"robot"}
    ensures StageReferences([Prim("/robot", Generic, [])]) == []
  {
    var p := Prim("/robot", Generic, []);
    TopLevelPath("robot");
    assert [p][..0] == [];
  }

  /** One material prim: a new name is parsed and added, a known name is skipped. */
  function AddMaterial<M>(parse: Prim -> M, materials: map<string, M>, p: Prim): map<string, M> {
    if p.kind == Material && Name(p) !in materials then materials[Name(p) := parse(p)] else materials
  }

  predicate IsMaterialNamed(p: Prim, name: string) {
    p.kind == Material && Name(p) == name
  }

  /** The material table after the walk over `prims`, one material prim after the other. */
  function MaterialsAfter<M>(parse: Prim -> M, materials: map<string, M>, prims: seq<Prim>): map<string, M> {
    if prims == [] then materials
    else AddMaterial(parse, MaterialsAfter(parse, materials, prims[..|prims| - 1]), prims[|prims| - 1])
  }

  /**
    The walk never overwrites a name already in the table, and the names it
    adds are exactly the names of the material prims.
   */
  lemma {:induction false} MaterialsAfterSpec<M>(parse: Prim -> M, materials: map<string, M>, prims: seq<Prim>, k: string)
    ensures var r := MaterialsAfter(parse, materials, prims);
      && (k in materials ==> k in r && r[k] == materials[k])
      && (k in r <==> k in materials || exists i :: 0 <= i < |prims| && IsMaterialNamed(prims[i], k))
  {
    if prims != [] {
      var n := |prims|;
      var init := prims[..n - 1];
      MaterialsAfterSpec(parse, materials, init, k);
      if exists i :: 0 <= i < n - 1 && IsMaterialNamed(init[i], k) {
        var i :| 0 <= i < n - 1 && IsMaterialNamed(init[i], k);
        assert IsMaterialNamed(prims[i], k);
      }
      if exists i :: 0 <= i < n && IsMaterialNamed(prims[i], k) {
        var i :| 0 <= i < n && IsMaterialNamed(prims[i], k);
        if i < n - 1 {
          assert IsMaterialNamed(init[i], k);
        }
      }
    }
  }

  /**
    First definition wins: a name that was not in the table before maps to
    what the FIRST material prim of that name parses to.
   */
  lemma {:induction false} MaterialsFirstDefinition<M>(parse: Prim -> M, materials: map<string, M>, prims: seq<Prim>, k: string)
    requires k !in materials && k in MaterialsAfter(parse, materials, prims)
    ensures exists i :: (0 <= i < |prims| && IsMaterialNamed(prims[i], k) &&
      MaterialsAfter(parse, materials, prims)[k] == parse(prims[i]) &&
      forall j :: 0 <= j < i ==> !IsMaterialNamed(prims[j], k))
  {
    var n := |prims|;
    var init := prims[..n - 1];
    var before := MaterialsAfter(parse, materials, init);
    if k in before {
      MaterialsFirstDefinition(parse, materials, init, k);
      var i :| 0 <= i < n - 1 && IsMaterialNamed(init[i], k) && before[k] == parse(init[i]) &&
        forall j :: 0 <= j < i ==> !IsMaterialNamed(init[j], k);
      assert IsMaterialNamed(prims[i], k);
      assert forall j :: 0 <= j < i ==> init[j] == prims[j];
    } else {
      MaterialsAfterSpec(parse, materials, init, k);
      assert forall j :: 0 <= j < n - 1 ==> init[j] == prims[j];
      assert IsMaterialNamed(prims[n - 1], k);
    }
  }

  /** `key` names a non-null stage among whose USD paths is `name`. */
  predicate Owns(references: map<string, StageRef>, key: string, name: string) {
    key in references && references[key].Stage? && name in references[key].usdPaths
  }

  /** USDData: the resolver's state, updated in place by its methods. */
  class UsdData<M> {
    /** The collaborators. */
    const env: Env<M>
    /** File name of the root stage. */
    var filename: string
    /** Directory holding the root stage; set by Init. */
    var directoryPath: string
    /** Stage per reference string. */
    var references: map<string, StageRef>
    /** Top-level model names. */
    var models: set<string>
    /** Materials by name. */
    var materials: map<string, M>
    /** The process-wide search-path list, held here explicitly. */
    var systemPaths: seq<string>

    /** The root stage stays registered under its file name, and no registered stage is null. */
    ghost predicate Valid()
      reads this
    {
      && filename in references
      && references[filename] == StageFor(env, filename)
      && AllLoaded(references)
    }

    /** Registers the root stage as the only known stage; `systemPaths` is the search-path list as the process has it. */
    constructor (env: Env<M>, filename: string, systemPaths: seq<string>)
      ensures Valid()
      ensures this.env == env && this.filename == filename && this.systemPaths == systemPaths
      ensures references == map[filename := StageFor(env, filename)] && |references| == 1
      ensures models == {} && materials == map[] && directoryPath == ""
    {
      this.env := env;
      this.filename := filename;
      this.directoryPath := "";
      this.references := map[filename := StageFor(env, filename)];
      this.models := {};
      this.materials := map[];
      this.systemPaths := systemPaths;
    }

    function GetMaterials(): map<string, M>
      reads this
    {
      materials
    }

    function GetModels(): set<string>
      reads this
    {
      models
    }

    /** The reference map; in a valid resolver it always holds the root stage and no null stage. */
    function GetAllReferences(): (r: map<string, StageRef>)
      reads this
      ensures Valid() ==> filename in r && r[filename] == StageFor(env, filename) && AllLoaded(r)
    {
      references
    }

    /** Registers every directory found recursively below `path`; nothing when `path` is no directory. */
    method AddSubdirectories(path: string)
      modifies this`systemPaths
      ensures systemPaths == AddFilePaths(old(systemPaths), DirectoriesUnder(env.fs, path))
    {
      match Lookup(env.fs, path)
      case Some(d) => AddSubdirectoriesOf(path, d);
      case None =>
    }

    /**
      The directory walk over `dir`, the directory at `path`: each entry
      whose path tests as a directory is registered and then walked in turn.
     */
    method AddSubdirectoriesOf(path: string, dir: Entry)
      requires Lookup(env.fs, path) == Some(dir)
      modifies this`systemPaths
      ensures systemPaths == AddFilePaths(old(systemPaths), SubdirsOf(path, dir))
      decreases dir
    {
      if dir.File? {
        return;
      }
      for i := 0 to |dir.entries|
        invariant AddFilePaths(systemPaths, SubdirsFrom(path, dir, i)) == AddFilePaths(old(systemPaths), SubdirsOf(path, dir))
      {
        var entry := dir.entries[i];
        var current := EntryPath(path, entry.name);
        EntryPathLooksUpEntry(env.fs, path, dir, i);
        if IsDirectory(env.fs, current) {
          ghost var before := systemPaths;
          systemPaths := AddFilePath(systemPaths, current);
          AddSubdirectoriesOf(current, entry);
          assert systemPaths == AddFilePaths(AddFilePath(before, current), SubdirsOf(current, entry));
          AddFilePathThenAll(before, current, SubdirsOf(current, entry), SubdirsFrom(path, dir, i + 1));
          assert SubdirsFrom(path, dir, i) == [current] + SubdirsOf(current, entry) + SubdirsFrom(path, dir, i + 1);
          assert AddFilePaths(systemPaths, SubdirsFrom(path, dir, i + 1)) == AddFilePaths(before, SubdirsFrom(path, dir, i));
        } else {
          assert SubdirsFrom(path, dir, i) == SubdirsFrom(path, dir, i + 1);
        }
      }
    }

    /**
      Registers the stage a reference names, unless the reference string is
      already a key: grows the search paths with the reference's directory
      and everything below it, then inserts a stage for the resolved base
      name, or fails when it does not resolve.
     */
    method AddStage(ref: string) returns (added: bool)
      requires Valid()
      modifies this`references, this`systemPaths
      ensures Valid()
      ensures (added, Registry(references, systemPaths)) ==
        AddStageStep(env, directoryPath, old(Registry(references, systemPaths)), ref)
    {
      var key := ref;
      if key !in references {
        var basename := Basename(key);
        var subDirectory := env.removeSubStr(key, basename);
        systemPaths := AddFilePath(systemPaths, JoinPaths(directoryPath, subDirectory));
        AddSubdirectories(JoinPaths(directoryPath, subDirectory));
        var fileNameRef := env.findFile(systemPaths, basename);
        if fileNameRef == "" {
          return false;
        }
        references := references[key := StageFor(env, fileNameRef)];
        return true;
      }
      return false;
    }

    /**
      The prim walk: a top-level prim that is neither a material nor a
      physics scene adds its name to the models, and each such prim has
      its references registered.
     */
    method WalkPrims(prims: seq<Prim>)
      requires Valid()
      modifies this`references, this`systemPaths, this`models
      ensures Valid()
      ensures models == old(models) + ModelNames(prims)
      ensures Registry(references, systemPaths) == AddStages(env, directoryPath, old(Registry(references, systemPaths)), StageReferences(prims))
    {
      ghost var start := Registry(references, systemPaths);
      for i := 0 to |prims|
        invariant Valid()
        invariant models == old(models) + ModelNames(prims[..i])
        invariant Registry(references, systemPaths) == AddStages(env, directoryPath, start, StageReferences(prims[..i]))
      {
        ghost var done := StageReferences(prims[..i]);
        WalkNext(prims, i);
        VisitPrim(prims[i]);
        AddStagesAppend(env, directoryPath, start, done, PrimReferences(prims[i]));
      }
      assert prims[..|prims|] == prims;
    }

    /**
      One step of the prim walk: a material or a physics scene is skipped;
      any other prim contributes its name when it is top level, and has its
      references registered.
     */
    method VisitPrim(prim: Prim)
      requires Valid()
      modifies this`references, this`systemPaths, this`models
      ensures Valid()
      ensures models == old(models) + ModelName(prim)
      ensures Registry(references, systemPaths) == AddStages(env, directoryPath, old(Registry(references, systemPaths)), PrimReferences(prim))
    {
      if prim.kind == Material || prim.kind == PhysicsScene {
        return;
      }
      var tokens := Segments(prim.path);
      if |tokens| == 1 {
        models := models + {tokens[0]};
      }
      AddArcReferences(prim.arcs);
    }

    /** Registers the asset dependencies of each arc, arc after arc. */
    method AddArcReferences(arcs: seq<seq<string>>)
      requires Valid()
      modifies this`references, this`systemPaths
      ensures Valid()
      ensures Registry(references, systemPaths) == AddStages(env, directoryPath, old(Registry(references, systemPaths)), Flatten(arcs))
    {
      ghost var start := Registry(references, systemPaths);
      for j := 0 to |arcs|
        invariant Valid()
        invariant Registry(references, systemPaths) == AddStages(env, directoryPath, start, Flatten(arcs[..j]))
      {
        AddReferences(arcs[j]);
        AddStagesAppend(env, directoryPath, start, Flatten(arcs[..j]), arcs[j]);
        FlattenNext(arcs, j);
      }
      assert arcs[..|arcs|] == arcs;
    }

    /** Registers each of `deps` with AddStage, in order. */
    method AddReferences(deps: seq<string>)
      requires Valid()
      modifies this`references, this`systemPaths
      ensures Valid()
      ensures Registry(references, systemPaths) == AddStages(env, directoryPath, old(Registry(references, systemPaths)), deps)
    {
      ghost var start := Registry(references, systemPaths);
      for k := 0 to |deps|
        invariant Valid()
        invariant Registry(references, systemPaths) == AddStages(env, directoryPath, start, deps[..k])
      {
        var _ := AddStage(deps[k]);
        PrefixSnoc(deps, k);
        AddStagesSnoc(env, directoryPath, start, deps[..k], deps[k]);
      }
      assert deps[..|deps|] == deps;
    }

    /**
      Opens the root stage (`root` is the result of opening it), then walks
      its prims: records top-level model names and registers every reference
      of every prim that is neither a material nor a physics scene.
     */
    method Init(root: Option<seq<Prim>>) returns (ok: bool)
      requires Valid()
      modifies this`directoryPath, this`references, this`systemPaths, this`models
      ensures Valid()
      ensures ok <==> root.Some?
      ensures root.None? ==> unchanged(this)
      ensures root.Some? ==>
        && directoryPath == RootDirectory(env, filename)
        && models == old(models) + ModelNames(root.value)
        && Registry(references, systemPaths) == AddStages(env, directoryPath,
             Registry(old(references), AddFilePaths(old(systemPaths), DirectoriesUnder(env.fs, directoryPath))),
             StageReferences(root.value))
    {
      if root.None? {
        return false;
      }
      directoryPath := RootDirectory(env, filename);
      AddSubdirectories(directoryPath);
      WalkPrims(root.value);
      return true;
    }

    /**
      Opens the root stage again (`root`) and adds every material prim
      whose name is not yet in the table; returns the table's size, or 0
      (the source's `false`) when the stage does not open.
     */
    method ParseMaterials(root: Option<seq<Prim>>) returns (count: int)
      modifies this`materials
      ensures root.None? ==> count == 0 && materials == old(materials)
      ensures root.Some? ==> materials == MaterialsAfter(env.parseMaterial, old(materials), root.value) && count == |materials|
    {
      if root.None? {
        return 0;
      }
      var prims := root.value;
      for i := 0 to |prims|
        invariant materials == MaterialsAfter(env.parseMaterial, old(materials), prims[..i])
      {
        var prim := prims[i];
        assert prims[..i + 1][..i] == prims[..i] && prims[..i + 1][i] == prim;
        if prim.kind == Material {
          var materialName := Name(prim);
          if materialName in materials {
            continue;
          }
          var material := env.parseMaterial(prim);
          materials := materials[materialName := material];
        }
      }
      assert prims[..|prims|] == prims;
      return |materials|;
    }

    /**
      The entry whose non-null stage lists `name` among its USD paths, or
      ("", null) when there is none. The map is visited in no particular order.
     */
    method FindStage(name: string) returns (key: string, stage: StageRef)
      ensures stage != Null ==> Owns(references, key, name) && stage == references[key]
      ensures stage == Null <==> forall k :: k in references ==> !Owns(references, k, name)
      ensures stage == Null ==> key == ""
    {
      var remaining := references.Keys;
      while remaining != {}
        invariant remaining <= references.Keys
        invariant forall k :: k in references && k !in remaining ==> !Owns(references, k, name)
        decreases remaining
      {
        var k :| k in remaining;
        var s := references[k];
        if s != Null {
          for i := 0 to |s.usdPaths|
            invariant name !in s.usdPaths[..i]
          {
            if s.usdPaths[i] == name {
              return k, s;
            }
          }
          assert s.usdPaths[..|s.usdPaths|] == s.usdPaths;
        }
        remaining := remaining - {k};
      }
      return "", Null;
    }
  }
}
