/**
 * The build script end to end: extract the registry from the parsed document, then emit
 * the bindings. The first error of either pass is the build's failure; otherwise the
 * result is the bindings file, line by line, for the map orders the emitter walked.
 */
module Build {
  import opened Wrappers
  import opened Tree
  import opened Entities
  import opened Extract
  import opened Emit

  /** What building from `root` may yield, for the map orders `o`. */
  predicate Builds(root: Node, r: Result<seq<string>, BuildError>, o: Ordering)
    requires root.Element?
  {
    match ExtractSpec(root)
    case Err(e) => r == Err(e)
    case Ok(reg) => Emits(reg, r, o)
  }

  method Build(root: Node) returns (r: Result<seq<string>, BuildError>, o: Ordering)
    requires root.Element?
    ensures Builds(root, r, o)
  {
    var extracted := Extract.Extract(root);
    if extracted.Err? {
      r := Err(extracted.error);
      o := Ordering([], []);
      return;
    }
    r, o := Emit.Emit(extracted.value);
  }
}
