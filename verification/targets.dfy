/** High-level build targets: what a target is and how it is named. */
module Targets {
  import opened Env

  /** A target declared in a BUILD file. `alias` and `relpath` are those of
      the owning project and package. `deps` are absolute identifiers.
      A concrete target names its own environment (through a function of
      the plugin, a parameter of evaluation); a dependent target derives the
      environment of its dependencies from the one it is given, by `down`.
      `local` is the delta applied before the target's own products are
      computed. */
  datatype Target = Target(
    alias: string,
    relpath: string,
    name: string,
    concrete: bool,
    down: Delta,
    local: Delta,
    deps: seq<string>)

  /** `Target.ident`: `alias//relpath:name`, or `alias//:name` for a target
      of the package at the project root. */
  function Ident(t: Target): string
  {
    if t.relpath == "." then t.alias + "//:" + t.name
    else t.alias + "//" + t.relpath + ":" + t.name
  }
}
