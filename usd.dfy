/**
  What the resolver sees of a USD stage: the prims of its prim range in
  traversal order, each with its path, its schema kind and the asset paths
  its direct-reference composition arcs depend on; and the stage objects the
  resolver keeps per reference.
 */
module Usd {
  import opened Paths

  /** The schema tests the prim walk makes: a material, a physics scene, or anything else. */
  datatype PrimKind = Generic | Material | PhysicsScene

  /**
    One prim. `arcs` holds, per direct-reference composition arc of the
    prim, the composition asset dependencies of the layer that introduces
    the arc, in order.
   */
  datatype Prim = Prim(path: string, kind: PrimKind, arcs: seq<seq<string>>)

  /** The prim's own name: the last token of its path. */
  function Name(p: Prim): string {
    var s := Segments(p.path);
    if s == [] then "" else s[|s| - 1]
  }

  /** A shared pointer to a USDStage: null, or a stage built for a file, carrying its USD paths. */
  datatype StageRef = Null | Stage(fileName: string, usdPaths: seq<string>)
}
