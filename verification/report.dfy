/**
 The program as a whole: validate the backup named on the command line, then
 summarise the records for display.
 */
module Report {
  import opened Types
  import Hex
  import ValidateFile
  import Walk
  import Backup
  import Summary

  /** The summary printed for a backup. */
  function Report(root: Backup.Root): (t: Summary.Tally)
    ensures var rs := Backup.ValidateBackup(root);
      && t.ok == Summary.Occurrences(rs, StatusOk)
      && t.warning == Summary.Occurrences(rs, StatusWarning)
      && t.errors == Summary.Occurrences(rs, StatusError)
  {
    var rs := Backup.ValidateBackup(root);
    Summary.OkCountsOkRecords(rs);
    Summary.Summarize(rs)
  }

  /** A path that cannot be stat-ed gives one error and no success banner. */
  lemma UnreachableRootFails(path: string, err: string)
    ensures Report(Backup.Unreachable(path, err)) == Summary.Tally(0, 0, 1)
    ensures !Summary.Succeeded(Backup.ValidateBackup(Backup.Unreachable(path, err)))
  {
    var rs := Backup.ValidateBackup(Backup.Unreachable(path, err));
    assert rs[..0] == [];
  }

  function Readable(size: int64, d: Digest): ValidateFile.Probe
  {
    ValidateFile.Probe(Done(()), Done(size), Done(d))
  }

  function TwoFileRoot(hello: Digest, empty: Digest): Backup.Root
  {
    Backup.Directory(Walk.Dir("backup", [
      Walk.NonDir("backup/a.txt", Readable(5, hello)),
      Walk.NonDir("backup/empty.bin", Readable(0, empty))]))
  }

  lemma TwoFileRecords(hello: Digest, empty: Digest)
    ensures Backup.ValidateBackup(TwoFileRoot(hello, empty)) == [
      BackupResult("backup/a.txt", 5, Hex.Encode(hello), StatusOk, ""),
      BackupResult("backup/empty.bin", 0, Hex.Encode(empty), StatusWarning, EmptyFileMessage)]
  {
    var a := Walk.NonDir("backup/a.txt", Readable(5, hello));
    var b := Walk.NonDir("backup/empty.bin", Readable(0, empty));
    ValidateFile.AllStepsSucceed("backup/a.txt", Readable(5, hello));
    ValidateFile.AllStepsSucceed("backup/empty.bin", Readable(0, empty));
    assert [a, b][1..] == [b];
    assert [b][1..] == [];
    assert Walk.Walk(a) == [Walk.Record(a)];
    assert Walk.Walk(b) == [Walk.Record(b)];
    assert Walk.WalkAll([b]) == [Walk.Record(b)];
    assert Walk.WalkAll([a, b]) == [Walk.Record(a), Walk.Record(b)];
    var tree := Walk.Dir("backup", [a, b]);
    assert Walk.Walk(tree) == [] + Walk.WalkAll([a, b]);
    assert Backup.ValidateBackup(TwoFileRoot(hello, empty)) == Walk.Walk(tree);
  }

  lemma SummarizePair(x: BackupResult, y: BackupResult)
    ensures Summary.Summarize([x, y]) == Summary.Count(Summary.Count(Summary.Tally(0, 0, 0), x), y)
  {
    assert [x, y][..1] == [x];
    assert [x][..0] == [];
  }

  /**
   A directory holding a five-byte file and an empty file yields an OK record
   and a warning, in that order, and a summary of one valid file and one warning.
   */
  lemma TwoFileDirectory(hello: Digest, empty: Digest)
    ensures var rs := Backup.ValidateBackup(TwoFileRoot(hello, empty));
      && rs == [
           BackupResult("backup/a.txt", 5, Hex.Encode(hello), StatusOk, ""),
           BackupResult("backup/empty.bin", 0, Hex.Encode(empty), StatusWarning, EmptyFileMessage)]
      && Report(TwoFileRoot(hello, empty)) == Summary.Tally(1, 1, 0)
      && !Summary.Succeeded(rs)
  {
    TwoFileRecords(hello, empty);
    var rs := Backup.ValidateBackup(TwoFileRoot(hello, empty));
    SummarizePair(rs[0], rs[1]);
    assert rs == [rs[0], rs[1]];
  }
}
