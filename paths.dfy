/**
 * Node's `path` module, `glob` and `glob-parent` are not modelled: the model
 * receives their behaviour as functions and never looks inside them.
 */
module Paths {

  /** The path operations the core calls, as opaque functions. */
  datatype PathOps = PathOps(
    resolve: string -> string,              // path.resolve(p)
    resolveFrom: (string, string) -> string, // path.resolve(base, p)
    join: (string, string) -> string,       // path.join(a, b)
    relative: (string, string) -> string,   // path.relative(from, to)
    basename: string -> string,             // path.basename(p)
    normalize: string -> string)            // path.normalize(p)

  /** `globSync(pattern, {nodir: true, absolute: true})` and `globParent(pattern)`. */
  datatype GlobOps = GlobOps(
    glob: string -> seq<string>,
    parent: string -> string)
}
