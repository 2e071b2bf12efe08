/**
 The traversal of `validateBackup`. A directory is given as the tree that
 `filepath.Walk` discovers; walking it hands every entry, in pre-order, to the
 callback that turns files into validation results and walk errors into error records.
 */
module Walk {
  import opened Types
  import ValidateFile

  /**
   An entry as the walk meets it. `Inaccessible` is a path the walk could not
   enter: its metadata could not be read, or it is a directory whose listing failed.
   The children of a directory are in the order the walk visits them.
   */
  datatype Entry =
    | Dir(path: string, children: seq<Entry>)
    | NonDir(path: string, probe: ValidateFile.Probe)
    | Inaccessible(path: string, err: string)

  /** The single record the callback appends for an entry that is not a directory. */
  function Record(n: Entry): BackupResult
    requires !n.Dir?
  {
    match n
    case NonDir(p, probe) => ValidateFile.Validate(p, probe)
    case Inaccessible(p, err) => ErrorResult(p, err)
  }

  /** The walk callback: directories are passed over, everything else yields one record. */
  function Visit(n: Entry): seq<BackupResult>
  {
    if n.Dir? then [] else [Record(n)]
  }

  /**
   The walk itself: the callback sees the entry, then each child subtree in
   turn. The callback never returns an error, so nothing cuts the walk short.
   */
  function Walk(e: Entry): seq<BackupResult>
  {
    Visit(e) + (if e.Dir? then WalkAll(e.children) else [])
  }

  function WalkAll(es: seq<Entry>): seq<BackupResult>
  {
    if es == [] then [] else Walk(es[0]) + WalkAll(es[1..])
  }

  /** Every entry of the tree, each before its children, siblings in order. */
  function PreOrder(e: Entry): seq<Entry>
  {
    [e] + (if e.Dir? then PreOrderAll(e.children) else [])
  }

  function PreOrderAll(es: seq<Entry>): seq<Entry>
  {
    if es == [] then [] else PreOrder(es[0]) + PreOrderAll(es[1..])
  }

  /** The kinds of entry the walk tells apart. */
  datatype Kind = Leaf | File | WalkError

  predicate IsKind(n: Entry, k: Kind)
  {
    match k
    case Leaf => !n.Dir?
    case File => n.NonDir?
    case WalkError => n.Inaccessible?
  }

  /** The entries of `ns` of kind `k`, in their original order. */
  function Filter(ns: seq<Entry>, k: Kind): (r: seq<Entry>)
    ensures forall n :: n in r <==> n in ns && IsKind(n, k)
    ensures |r| <= |ns|
  {
    if ns == [] then [] else (if IsKind(ns[0], k) then [ns[0]] else []) + Filter(ns[1..], k)
  }

  /** The callback applied to each entry of a sequence, its outputs concatenated. */
  function VisitAll(ns: seq<Entry>): seq<BackupResult>
  {
    if ns == [] then [] else Visit(ns[0]) + VisitAll(ns[1..])
  }

  /** One record per leaf, in order. */
  function Records(leaves: seq<Entry>): (r: seq<BackupResult>)
    requires forall n :: n in leaves ==> !n.Dir?
    ensures |r| == |leaves|
  {
    if leaves == [] then [] else assert leaves[0] in leaves; [Record(leaves[0])] + Records(leaves[1..])
  }

  lemma {:induction false} VisitAllAppend(a: seq<Entry>, b: seq<Entry>)
    ensures VisitAll(a + b) == VisitAll(a) + VisitAll(b)
  {
    if a != [] {
      assert (a + b)[1..] == a[1..] + b;
      VisitAllAppend(a[1..], b);
    } else {
      assert a + b == b;
    }
  }

  lemma {:induction false} WalkAllAppend(a: seq<Entry>, b: seq<Entry>)
    ensures WalkAll(a + b) == WalkAll(a) + WalkAll(b)
  {
    if a != [] {
      assert (a + b)[0] == a[0] && (a + b)[1..] == a[1..] + b;
      assert WalkAll(a + b) == Walk(a[0]) + WalkAll(a[1..] + b);
      WalkAllAppend(a[1..], b);
    } else {
      assert a + b == b;
    }
  }

  /** The walk is exactly the callback applied to every entry in pre-order. */
  lemma {:induction false} WalkIsPreOrderVisit(e: Entry)
    ensures Walk(e) == VisitAll(PreOrder(e))
    decreases e, 1
  {
    VisitAllAppend([e], if e.Dir? then PreOrderAll(e.children) else []);
    if e.Dir? {
      WalkAllIsPreOrderVisit(e.children);
    }
  }

  lemma {:induction false} WalkAllIsPreOrderVisit(es: seq<Entry>)
    ensures WalkAll(es) == VisitAll(PreOrderAll(es))
    decreases es, 0
  {
    if es != [] {
      WalkIsPreOrderVisit(es[0]);
      WalkAllIsPreOrderVisit(es[1..]);
      VisitAllAppend(PreOrder(es[0]), PreOrderAll(es[1..]));
    }
  }

  /** Applying the callback to a sequence of entries yields one record per leaf, in order. */
  lemma {:induction false} VisitAllIsRecordsOfLeaves(ns: seq<Entry>)
    ensures VisitAll(ns) == Records(Filter(ns, Leaf))
  {
    if ns != [] {
      VisitAllIsRecordsOfLeaves(ns[1..]);
      var rest := Filter(ns[1..], Leaf);
      if !ns[0].Dir? {
        var leaves := [ns[0]] + rest;
        assert leaves[0] == ns[0] && leaves[1..] == rest;
        assert Records(leaves) == [Record(ns[0])] + Records(rest);
      } else {
        assert Filter(ns, Leaf) == [] + rest == rest;
      }
    }
  }

  /**
   The records of a walk correspond one to one, and in order, with the entries
   of the tree that are not directories.
   */
  lemma WalkRecordsLeaves(e: Entry)
    ensures Walk(e) == Records(Filter(PreOrder(e), Leaf))
  {
    WalkIsPreOrderVisit(e);
    VisitAllIsRecordsOfLeaves(PreOrder(e));
  }

  lemma {:induction false} LeavesAreFilesAndErrors(ns: seq<Entry>)
    ensures |Filter(ns, Leaf)| == |Filter(ns, File)| + |Filter(ns, WalkError)|
  {
    if ns != [] {
      LeavesAreFilesAndErrors(ns[1..]);
    }
  }

  lemma {:induction false} RecordsAt(leaves: seq<Entry>, k: int)
    requires forall n :: n in leaves ==> !n.Dir?
    requires 0 <= k < |leaves|
    ensures Records(leaves)[k] == Record(leaves[k])
  {
    if k > 0 {
      assert leaves[1..][k - 1] == leaves[k];
      RecordsAt(leaves[1..], k - 1);
    }
  }

  /** The walk yields as many records as the tree has non-directory entries plus walk errors. */
  lemma WalkCount(e: Entry)
    ensures |Walk(e)| == |Filter(PreOrder(e), File)| + |Filter(PreOrder(e), WalkError)|
  {
    WalkRecordsLeaves(e);
    LeavesAreFilesAndErrors(PreOrder(e));
  }

  /** Every record of the walk is the record of an entry that is not a directory. */
  lemma WalkYieldsOnlyLeaves(e: Entry, r: BackupResult)
    requires r in Walk(e)
    ensures exists n :: n in PreOrder(e) && !n.Dir? && r == Record(n) && r.path == n.path
  {
    WalkRecordsLeaves(e);
    var leaves := Filter(PreOrder(e), Leaf);
    var k :| 0 <= k < |Walk(e)| && Walk(e)[k] == r;
    RecordsAt(leaves, k);
    assert leaves[k] in leaves;
  }

  /** Every entry that is not a directory contributes its record to the walk. */
  lemma WalkYieldsEveryLeaf(e: Entry, n: Entry)
    requires n in PreOrder(e) && !n.Dir?
    ensures Record(n) in Walk(e) && Record(n).path == n.path
  {
    WalkRecordsLeaves(e);
    var leaves := Filter(PreOrder(e), Leaf);
    assert n in leaves;
    var k :| 0 <= k < |leaves| && leaves[k] == n;
    RecordsAt(leaves, k);
    assert Walk(e)[k] == Record(n);
  }

  /**
   A walk error among a directory's entries becomes one error record at its
   place, and the entries after it are walked as if it had not happened.
   */
  lemma ErrorDoesNotAbort(path: string, before: seq<Entry>, bad: string, err: string, after: seq<Entry>)
    ensures Walk(Dir(path, before + [Inaccessible(bad, err)] + after))
      == WalkAll(before) + [ErrorResult(bad, err)] + WalkAll(after)
  {
    var es := before + [Inaccessible(bad, err)] + after;
    WalkAllAppend(before + [Inaccessible(bad, err)], after);
    WalkAllAppend(before, [Inaccessible(bad, err)]);
    assert WalkAll([Inaccessible(bad, err)]) == [ErrorResult(bad, err)] by {
      assert [Inaccessible(bad, err)][1..] == [];
    }
  }
}
