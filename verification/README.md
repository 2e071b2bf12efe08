# backuptest, modelled in Dafny

`backuptest` checks a backup after it has been written. It is given one path.
If the path is a file, that file is validated. If it is a directory, every
entry beneath it is validated. Validating a file means opening it, reading its
size, computing the MD5 checksum of its contents, and classifying it:

- `ERROR`: a step failed.
- `WARNING`: the file is empty.
- `OK`: everything else.

Paths that cannot be reached become `ERROR` records. The program then prints
the records and a summary: counts of valid files, warnings and errors, plus a
success banner when there were no warnings and no errors.

The model treats the file system as input:

- `ValidateFile.Probe` holds the outcomes of the three steps for one file: open, stat through the open handle, and digest.
- `Walk.Entry` is the tree `filepath.Walk` discovers: directories, non-directories, and entries the walk could not enter.
- `Backup.Root` is what stat-ing the command-line argument reveals.

Every operation is then a pure function of these values.

Modules, one per concern of `cmd/backuptest/main.go`:

- `Types` (types.dfy): `int64`, bytes, 16-byte digests, the `Io` outcome of a step, the status tags and the `BackupResult` record.
- `Hex` (hex.dfy): the `%x` rendering of the digest and its inverse.
- `ValidateFile` (validate_file.dfy): `calculateChecksum` and `validateFile`.
- `Walk` (walk.dfy): the `filepath.Walk` traversal with the program's callback.
- `Backup` (backup.dfy): `validateBackup`.
- `Summary` (summary.dfy): the counting loop and the success condition of `displayResults`.
- `FormatSize` (format_size.dfy): the integer choice of unit in `formatSize`.
- `Report` (report.dfy): `main`'s composition of validation and summary, and a worked example.

Where the prose description of the system and the code differ, the model follows the code:

- Every non-directory entry is validated, not just regular files. Symbolic links, devices and pipes are passed to `validateFile` as well.
- `filepath.Walk` visits a directory's entries in lexical order. The model takes a directory's children in the order given and does not sort them.
- `calculateChecksum` opens the file a second time. A failure of that second open is reported in the same way as a read failure, so the model folds both into the digest outcome.

## Model

| member | source | states |
|---|---|---|
| `ValidateFile.Validate` | cmd/backuptest/main.go:79-121 | The record keeps the input path and carries one of the three tags. It is `ERROR` exactly when some step failed, and then its error is the text of the first failing step in pipeline order. It is `WARNING` exactly when all steps succeeded on a zero size, with the message "Empty file". It is `OK` exactly when all steps succeeded on a non-zero size, with an empty error. The size is the stat size once open and stat succeeded, and 0 otherwise. The checksum is non-empty exactly when all steps succeeded, and then it parses back to the digest |
| `ValidateFile.OpenOrStatFailure` | cmd/backuptest/main.go:86-100 | A failed open, or a failed stat after a good open, gives an `ERROR` record with that step's error text, size 0 and an empty checksum |
| `ValidateFile.FirstFailureWins` | cmd/backuptest/main.go:86-109 | Once open fails, or stat fails after a good open, the outcomes of the later steps do not change the record |
| `ValidateFile.ChecksumFailure` | cmd/backuptest/main.go:101-109 | When only the checksum step fails, the record is `ERROR` with the read error and an empty checksum, and it keeps the size stat reported |
| `ValidateFile.AllStepsSucceed` | cmd/backuptest/main.go:110-120 | When all steps succeed, the checksum is the 32-character hex rendering of the digest. A zero size gives `WARNING` with "Empty file". Any other size gives `OK` with an empty error |
| `ValidateFile.Checksum` | cmd/backuptest/main.go:123-136 | Fails exactly when reading the contents fails, passing on the error text. Otherwise it returns well-formed hex text of twice the digest length that parses back to the digest |
| `Hex.ParseEncode` | cmd/backuptest/main.go:135 | Parsing the `%x` rendering of any byte string gives back that byte string |
| `Hex.EncodeParse` | cmd/backuptest/main.go:135 | Every even-length lower-case hex text is the `%x` rendering of the bytes it parses to |
| `Hex.EncodeInjective` | cmd/backuptest/main.go:135 | Two digests render to the same checksum text exactly when they are equal |
| `Walk.WalkIsPreOrderVisit` | cmd/backuptest/main.go:55-70 | The walk's records are the callback applied to every entry of the tree in pre-order, concatenated. No entry is skipped and nothing stops early |
| `Walk.VisitAllIsRecordsOfLeaves` | cmd/backuptest/main.go:55-70 | Applying the callback to any sequence of entries gives exactly one record per non-directory entry, in order. Directories give nothing |
| `Walk.WalkRecordsLeaves` | cmd/backuptest/main.go:55-70 | The walk's records correspond one-to-one, in walk order, with the tree's non-directory entries in pre-order |
| `Walk.WalkCount` | cmd/backuptest/main.go:55-70 | The number of records equals the number of non-directory entries plus the number of walk errors |
| `Walk.WalkYieldsOnlyLeaves` | cmd/backuptest/main.go:55-68 | Every record of the walk is the record of a non-directory entry of the tree and carries that entry's path. No directory yields a record |
| `Walk.WalkYieldsEveryLeaf` | cmd/backuptest/main.go:64-68 | Every non-directory entry of the tree contributes its record, with its own path, to the walk |
| `Walk.ErrorDoesNotAbort` | cmd/backuptest/main.go:56-63 | An inaccessible entry among a directory's children becomes one `ERROR` record in its place. The siblings before and after it are walked exactly as they would be on their own |
| `Backup.WalkStatuses` | cmd/backuptest/main.go:55-70 | Every record a walk yields carries `OK`, `WARNING` or `ERROR` |
| `Backup.ValidateBackup` | cmd/backuptest/main.go:40-77 | Every record carries one of the three tags. A root that cannot be stat-ed gives exactly one `ERROR` record with the root path and the stat error. A single file gives exactly its `validateFile` record. A directory gives as many records as it has non-directory entries plus walk errors |
| `Summary.Summarize` | cmd/backuptest/main.go:141-153 | The three counters add up to the number of records. The warning count is the number of `WARNING` tags. The error count is the number of `ERROR` tags. Every other tag is counted as valid |
| `Summary.SucceededIffClean` | cmd/backuptest/main.go:176 | The success banner is shown exactly when no record is tagged `WARNING` or `ERROR` |
| `Summary.OkCountsOkRecords` | cmd/backuptest/main.go:141-153 | When every tag is one of the three, the valid count is exactly the number of `OK` records |
| `Report.Report` | cmd/backuptest/main.go:35-37 | The printed summary of a backup counts its validation records by tag: valid = `OK`, warnings = `WARNING`, errors = `ERROR` |
| `Report.UnreachableRootFails` | cmd/backuptest/main.go:43-51 | A path that cannot be stat-ed is summarised as one error and no success banner |
| `Report.TwoFileDirectory` | cmd/backuptest/main.go:36-37 | A directory with a 5-byte file and an empty file gives an `OK` record and then a `WARNING` record. The summary is one valid file, one warning and no errors, and there is no success banner |
| `FormatSize.SelectScale` | cmd/backuptest/main.go:181-191 | Sizes below 1024 take the plain-bytes branch, and only those do. Otherwise the loop ends with `div` equal to 1024^(exp+1) and `1 <= size / div < 1024`. For every int64, `exp` is at most 5, so the prefix index into "KMGTPE" is in range. The multiplication of `div` never overflows int64 |
| `FormatSize.FitsUnique` | cmd/backuptest/main.go:181-191 | A size admits exactly one unit choice, so the characterisation `SelectScale` meets determines its result |
| `FormatSize.Int64Exponent` | cmd/backuptest/main.go:187-191 | No power of 1024 above 1024^6 fits in an int64, which bounds the loop's exponent |
| `FormatSize.Boundaries` | cmd/backuptest/main.go:183-191 | 1023 bytes stay in bytes. 1024 bytes are scaled by 1024 with prefix K. 1048576 bytes are scaled by 1048576 with prefix M |

## Left out

- Command-line handling (the argument check, the usage text, exit status 1): process plumbing with no logic to state.
- The real file-system calls (`os.Stat`, `os.Open`, `file.Stat`, `filepath.Walk`'s `Lstat` and directory reads, closing files): they become the `Probe`, `Entry` and `Root` inputs. The difference between `Stat` and `Lstat` for symbolic links, and the file being opened twice, are not modelled.
- MD5 itself: a foreign library. The 16-byte digest of a file's contents is an input. Only its `%x` rendering is modelled.
- `TestTime`: it reads the wall clock.
- All printing in `displayResults`, including the colours: presentation only. Only the counting and the success condition are kept.
- `formatSize`'s `%.1f` floating-point quotient and the text it prints: only the integer choice of divisor and prefix is modelled.
- Walk.Walk: children are taken in the order given, whereas `filepath.Walk` sorts a directory's names lexically before visiting them.
- Summary.Summarize: Go's `int` counters are modelled as unbounded naturals. Overflow would need more than 2^63 records.
- `backuptest_test.go`: it only checks that the package builds and that a constant is non-empty.
