/**
 The per-file pipeline of the validator: open, stat through the open handle,
 checksum, classify. The three file-system steps are supplied as outcomes, so
 classifying a file is a total, pure function of those outcomes.
 */
module ValidateFile {
  import opened Types
  import Hex

  /**
   What the file system answers for one path: whether it opens, the size the
   open handle reports, and the digest of its full contents (or why reading failed).
   */
  datatype Probe = Probe(open: Io<()>, stat: Io<int64>, digest: Io<Digest>)

  /** The error texts of the failing steps, in pipeline order. */
  function Failures(p: Probe): seq<string>
  {
    (if p.open.Failed? then [p.open.err] else [])
    + (if p.stat.Failed? then [p.stat.err] else [])
    + (if p.digest.Failed? then [p.digest.err] else [])
  }

  /** The size the pipeline learnt before it stopped: zero unless open and stat both succeeded. */
  function SizeReached(p: Probe): int64
  {
    if p.open.Done? && p.stat.Done? then p.stat.value else 0
  }

  /** `calculateChecksum`: the digest rendered with `%x`, or the read error. */
  function Checksum(digest: Io<Digest>): (c: Io<string>)
    ensures c.Failed? <==> digest.Failed?
    ensures c.Failed? ==> c.err == digest.err
    ensures c.Done? ==> |c.value| == 2 * DigestLength && Hex.IsHexText(c.value)
    ensures c.Done? ==> Hex.Parse(c.value) == digest.value
  {
    match digest
    case Failed(e) => Failed(e)
    case Done(d) =>
      Hex.ParseEncode(d);
      Done(Hex.Encode(d))
  }

  /**
   `validateFile`: the first failing step decides the error and stops the
   pipeline; a file whose three steps succeed is a warning when empty and ok otherwise.
   */
  function Validate(path: string, p: Probe): (r: BackupResult)
    ensures r.path == path
    ensures IsStatus(r.status)
    ensures r.status == StatusError <==> Failures(p) != []
    ensures r.status == StatusError ==> r.error == Failures(p)[0]
    ensures r.status == StatusWarning <==> Failures(p) == [] && p.stat.value == 0
    ensures r.status == StatusOk <==> Failures(p) == [] && p.stat.value != 0
    ensures r.status == StatusWarning ==> r.error == EmptyFileMessage
    ensures r.status == StatusOk ==> r.error == ""
    ensures r.size == SizeReached(p)
    ensures r.checksum != "" <==> Failures(p) == []
    ensures r.checksum != "" ==> Hex.IsHexText(r.checksum) && Hex.Parse(r.checksum) == p.digest.value
  {
    match p.open
    case Failed(e) => ErrorResult(path, e)
    case Done(_) =>
      match p.stat
      case Failed(e) => ErrorResult(path, e)
      case Done(size) =>
        match Checksum(p.digest)
        case Failed(e) => BackupResult(path, size, "", StatusError, e)
        case Done(sum) =>
          if size == 0 then BackupResult(path, size, sum, StatusWarning, EmptyFileMessage)
          else BackupResult(path, size, sum, StatusOk, "")
  }

  /** A failed open or stat leaves size and checksum at their zero values and reports that step's error. */
  lemma OpenOrStatFailure(path: string, p: Probe)
    requires p.open.Failed? || p.stat.Failed?
    ensures Validate(path, p)
      == ErrorResult(path, if p.open.Failed? then p.open.err else p.stat.err)
  {
  }

  /** Once a step fails, the outcomes of the later steps make no difference. */
  lemma FirstFailureWins(path: string, p: Probe, q: Probe)
    requires || (p.open.Failed? && q.open == p.open)
             || (p.open.Done? && p.stat.Failed? && q.open == p.open && q.stat == p.stat)
    ensures Validate(path, p) == Validate(path, q)
  {
  }

  /** When only the checksum fails, the size already read is kept but no checksum is recorded. */
  lemma ChecksumFailure(path: string, p: Probe)
    requires p.open.Done? && p.stat.Done? && p.digest.Failed?
    ensures Validate(path, p)
      == BackupResult(path, p.stat.value, "", StatusError, p.digest.err)
  {
  }

  /** A fully readable file carries its rendered digest and is classified by its size alone. */
  lemma AllStepsSucceed(path: string, p: Probe)
    requires p.open.Done? && p.stat.Done? && p.digest.Done?
    ensures Validate(path, p).checksum == Hex.Encode(p.digest.value)
    ensures |Validate(path, p).checksum| == 2 * DigestLength
    ensures p.stat.value == 0 ==>
      Validate(path, p).status == StatusWarning && Validate(path, p).error == EmptyFileMessage
    ensures p.stat.value != 0 ==>
      Validate(path, p).status == StatusOk && Validate(path, p).error == ""
  {
  }
}
