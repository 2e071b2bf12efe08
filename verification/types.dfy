/**
 Shared vocabulary of the backup validator: machine integers, bytes, the outcome
 of one file-system step, and the per-file result record.
 */
module Types {

  /** Go's int64: sizes reported by stat and the arithmetic of formatSize live here. */
  newtype int64 = x: int | -0x8000_0000_0000_0000 <= x < 0x8000_0000_0000_0000

  type byte = b: int | 0 <= b < 256

  /** An MD5 digest is always sixteen bytes. */
  const DigestLength := 16

  type Digest = s: seq<byte> | |s| == DigestLength witness seq(16, i => 0)

  /** The outcome of one file-system step: a value, or the text of the error it raised. */
  datatype Io<T> = Done(value: T) | Failed(err: string)

  /** The three status tags a result can carry. */
  const StatusOk := "OK"
  const StatusWarning := "WARNING"
  const StatusError := "ERROR"

  /** The message attached to a readable file of size zero. */
  const EmptyFileMessage := "Empty file"

  predicate IsStatus(s: string) {
    s == StatusOk || s == StatusWarning || s == StatusError
  }

  /**
   One record per examined path. The wall-clock time of validation is not
   part of the model.
   */
  datatype BackupResult = BackupResult(
    path: string,
    size: int64,
    checksum: string,
    status: string,
    error: string
  )

  /**
   The record built when a path cannot be examined at all: only the path,
   the status and the error text are set, size and checksum keep their zero values.
   */
  function ErrorResult(path: string, err: string): BackupResult
  {
    BackupResult(path, 0, "", StatusError, err)
  }
}
