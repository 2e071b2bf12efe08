/**
 `validateBackup`: the argument is stat-ed once; a failure is reported as a
 single error record, a file is validated on its own, and a directory is walked.
 */
module Backup {
  import opened Types
  import ValidateFile
  import Walk

  /** What stat-ing the path given on the command line reveals. */
  datatype Root =
    | Unreachable(path: string, err: string)
    | SingleFile(path: string, probe: ValidateFile.Probe)
    | Directory(tree: Walk.Entry)

  function RootPath(root: Root): string
  {
    match root
    case Unreachable(p, _) => p
    case SingleFile(p, _) => p
    case Directory(t) => t.path
  }

  /** Every record the walk of a tree yields carries one of the three status tags. */
  lemma WalkStatuses(e: Walk.Entry)
    ensures forall r :: r in Walk.Walk(e) ==> IsStatus(r.status)
  {
    forall r | r in Walk.Walk(e)
      ensures IsStatus(r.status)
    {
      Walk.WalkYieldsOnlyLeaves(e, r);
    }
  }

  function ValidateBackup(root: Root): (rs: seq<BackupResult>)
    ensures forall r :: r in rs ==> IsStatus(r.status)
    ensures root.Unreachable? ==> rs == [ErrorResult(root.path, root.err)]
    ensures root.SingleFile? ==> rs == [ValidateFile.Validate(root.path, root.probe)]
    ensures !root.Directory? ==> |rs| == 1 && rs[0].path == RootPath(root)
    ensures root.Directory? ==>
      |rs| == |Walk.Filter(Walk.PreOrder(root.tree), Walk.File)|
            + |Walk.Filter(Walk.PreOrder(root.tree), Walk.WalkError)|
  {
    match root
    case Unreachable(p, err) => [ErrorResult(p, err)]
    case SingleFile(p, probe) => [ValidateFile.Validate(p, probe)]
    case Directory(tree) =>
      WalkStatuses(tree);
      Walk.WalkCount(tree);
      Walk.Walk(tree)
  }
}
