# FATer write/verify engine in Dafny

FATer tests removable storage (typically FAT-formatted flash drives). It
writes a configurable number of files of random content and remembers the
MD5 fingerprint of each one. It then waits while the operator detaches,
unplugs and replugs the device. Finally it reads every file back, compares
fingerprints, deletes the files that passed, and reports the number of
errors.

This project models the engine behind that run, the `WorkerThread` class:

- `digits.dfy` (module `Digits`): positional rendering of numbers. It
  covers `Integer.toString` for directory and file names and
  `BigInteger.toString(16)` for digests. Distinct numbers render
  distinctly, there are no leading zeros, and the length is tied to
  powers of 16.
- `filesystem.dfy` (module `FileSys`): the volume as a map from path to
  file entry plus a set of directories. `mkdir`, `delete`, `isFile`,
  `canRead` and a completed write are functions on it.
- `paths.dfy` (module `Paths`): `getFile`. The shard is `i / 5000`,
  computed with Java's truncating division (`JavaDiv`). The file path is
  `<target>/<shard>/<i>.txt`. On a shard switch, a directory is created
  on the write pass or removed on the read pass.
- `digest.dfy` (module `Md5Hex`): `calcMd5` and `calcFileMd5`. The hex
  rendering of the digest gets one `"0"` only when it has 31 digits. The
  chunked read loop feeds the digest with exactly the file's bytes. The
  result is `""` when the file cannot be opened.
- `worker_spec.dfy` (module `WorkerSpec`): a closed-form account of one
  run. It states where the write pass stops on low space, which digests
  are stored and what the volume holds afterwards. It also states the
  three checks the read pass makes per index, how errors are counted and
  which files remain.
- `worker.dfy` (module `Worker`): the class `WorkerThread`, with
  `mode`, `i`, `skippedAt`, `errors`, the `hashes` array, `target`,
  `running`, the volume, the log and the progress value. Each branch of
  the `run` loop is a step method (`WriteStep`, `ReadStep`,
  `FinishStep`).
  - The loop itself appears as two methods, split at the operator's
    remount: `RunUntilWait` (the write pass until MODE_WAIT) and
    `RunAfterRemount` (the read pass after the controller has switched
    to MODE_READ, through MODE_FINISHED).
  - Each loop is proved against the closed-form functions of
    `WorkerSpec`.

The things the tester cannot know in advance are one parameter, `Env`:

- the free space reported before index k is written;
- whether the write of index k completes;
- the random payload of index k;
- the MD5 function itself, as an uninterpreted function to a number below 2^128.

The log lines and controller signals are an append-only sequence of `Event`s.
`WorkerSpec` also gives the log of each pass in closed form (`WritePassLog`,
`ReadPassLog`), built index by index from the switch lines, the failed
creations and the three check lines.

An MD5 fingerprint written in full takes 32 hex characters. The code pads
only a 31-digit rendering, so a digest below 16^30 keeps a shorter
string. The model follows the code.
`Md5Hex.HexOfShortDigest` states the shorter length, and
`Md5Hex.HexOfFullWidth` states the 32-character case. Both sides of every
comparison use the same rendering, so the verdicts do not depend on this.

## Model

| member | source | states |
|---|---|---|
| Digits.ToDigitsInjective | src/fater/WorkerThread.java:175 | two different numbers never have the same decimal or hex rendering, so names and fingerprints identify their index or digest |
| Digits.NoLeadingZero | src/fater/WorkerThread.java:212 | a rendering starts with '0' exactly when the number is zero, as `toString` never emits leading zeros |
| Paths.DiraIsShard | src/fater/WorkerThread.java:172-173 | `dira` is the quotient of i by 5000, and i lies in that shard's range [5000·dira, 5000·(dira+1)) |
| Paths.DirbAtZero | src/fater/WorkerThread.java:174 | with Java's truncating division `dirb` is 0 at index 0, where Euclidean division would give -1, so index 0 switches only through the explicit `i == 0` test |
| Paths.SwitchesIff | src/fater/WorkerThread.java:177 | the switch branch is taken exactly when i is a multiple of 5000 (0 included); at a positive switch `dirb` is the shard just left, otherwise `dirb == dira` |
| Paths.FilePathInShard | src/fater/WorkerThread.java:175 | the file of index i lies directly inside the directory `target/dira`: its name `i.txt` holds no '/', so `getParent()` of the path is `target/dira` |
| Paths.FileNameInjective | src/fater/WorkerThread.java:132 | distinct indices have distinct file names, so each "not found", "unreadable" or "corrupted" line names the one index it is about |
| Paths.FilePathInjective | src/fater/WorkerThread.java:175 | distinct indices have distinct file paths |
| Paths.SwitchDir | src/fater/WorkerThread.java:177-185 | the directory side effect never touches files; without a switch nothing changes; on a switch, create mode adds `target/dira`, and read mode removes `target/dirb` exactly when it holds no file and otherwise leaves the directories as they were |
| Paths.SwitchDirOnlyItsShard | src/fater/WorkerThread.java:179-183 | no directory other than `target/dira` (create mode) or `target/dirb` (read mode) is created or removed |
| Md5Hex.HexOfFullWidth | src/fater/WorkerThread.java:212-213 | a digest of at least 16^30 is rendered with exactly 32 characters, all lower-case hex digits |
| Md5Hex.HexOfShortDigest | src/fater/WorkerThread.java:234-236 | a digest below 16^30 is not padded and its rendering has fewer than 31 characters |
| Md5Hex.HexOfInjective | src/fater/WorkerThread.java:141-142 | equal fingerprint strings mean equal digests, so the string comparison is a digest comparison |
| Md5Hex.HexOfNonEmpty | src/fater/WorkerThread.java:238-239 | no fingerprint is the empty string that a failed `calcFileMd5` returns |
| Md5Hex.CalcFileMd5 | src/fater/WorkerThread.java:217-241 | an unreadable or missing file gives ""; otherwise the chunked do-while read loop feeds the whole file, and the result is the fingerprint `calcMd5` gives for the file's bytes |
| WorkerSpec.FirstLowSpace | src/fater/WorkerThread.java:89-93 | the recorded skip index is -1 or an index below n at which the free space was below the file size |
| WorkerSpec.FirstLowSpaceIsFirst | src/fater/WorkerThread.java:86-93 | every index before the skip index (before n when there is none) had room, so the skip index is the first without room |
| WorkerSpec.WrittenFsBeyond | src/fater/WorkerThread.java:85-101 | the write pass leaves the file of every index it has not reached yet as it was |
| WorkerSpec.WrittenFsAt | src/fater/WorkerThread.java:95-99 | after the write pass, a completed index holds exactly its payload, readable; a failed write leaves its path as it was; later indices never overwrite it |
| WorkerSpec.VerdictOfLocal | src/fater/WorkerThread.java:130-142 | the three checks on index k depend only on the file of index k |
| WorkerSpec.Failures | src/fater/WorkerThread.java:147-148 | the error count over the first k indices is at most k |
| WorkerSpec.FailuresZeroIff | src/fater/WorkerThread.java:147-148 | the error count is zero exactly when every examined index passes all three checks |
| WorkerSpec.ReadFsBeyond | src/fater/WorkerThread.java:121-151 | the read pass leaves the file of every index it has not reached yet as it was |
| WorkerSpec.VerdictStable | src/fater/WorkerThread.java:130-151 | deleting files that passed, and removing the directory just left, never changes the verdict on a later index; each index is judged on the volume as the read pass found it |
| WorkerSpec.ReadFsAt | src/fater/WorkerThread.java:147-151 | after the read pass has examined index k, its file is gone exactly when all three checks passed; a failed file is kept unchanged |
| WorkerSpec.MissingFileFailsAllChecks | src/fater/WorkerThread.java:130-148 | a written index whose file is missing fails all three checks (not found, unreadable, corrupted) and counts as an error |
| WorkerSpec.CorruptedFileKept | src/fater/WorkerThread.java:140-151 | a readable file whose bytes have a different MD5 than the payload is reported corrupted, counted, and left on the volume |
| WorkerSpec.CleanRunLeavesNoFiles | src/fater/WorkerThread.java:82-158 | if every write completes and the volume is untouched between the passes, the run counts no error and deletes every file it wrote |
| WorkerSpec.WrittenLogPrefix | src/fater/WorkerThread.java:85-102 | the log of the first j written indices is a prefix of the log of any later point: the write loop only appends |
| WorkerSpec.WrittenLogKinds | src/fater/WorkerThread.java:85-99 | while writing, the loop logs only switch lines and failed creations, and a failed creation only when some write did not complete |
| WorkerSpec.WritePassLogReportsFailure | src/fater/WorkerThread.java:95-99 | every index below the cutoff whose write throws has its "Creation of … failed (Err#0)" line in the write pass's log |
| WorkerSpec.WritePassLogClean | src/fater/WorkerThread.java:95-99 | when every write completes, the write pass logs no failed creation |
| WorkerSpec.WritePassLogNoSpace | src/fater/WorkerThread.java:89-93 | "No more space left @k" is logged exactly for k the first index without room, and never when every index had room |
| WorkerSpec.ReadLogPrefix | src/fater/WorkerThread.java:116-153 | the log of the first j examined indices is a prefix of the log of any later point: the read loop only appends |
| WorkerSpec.ReadLogClean | src/fater/WorkerThread.java:118-144 | when no examined index fails, the read loop logs only "Reading files" and switch lines |
| WorkerSpec.ReadPassLogReportsFailure | src/fater/WorkerThread.java:130-144 | every index below the stop index that fails a check has that check's line, naming its file, in the read pass's log |
| WorkerSpec.ReadPassLogClean | src/fater/WorkerThread.java:118-144 | when no examined index fails, the read pass logs no "not found", "unreadable" or "corrupted" line |
| WorkerSpec.LowSpaceStopsBoth | src/fater/WorkerThread.java:89-127 | after a low-space stop at s, no index from s on gets a digest or a file, and the read pass leaves every file from s on as it found it |
| WorkerSpec.CheckLogReportsEachFailure | src/fater/WorkerThread.java:130-144 | one log line per failed check, regardless of the other checks, and nothing when all three pass |
| Worker.WorkerThread.constructor | src/fater/WorkerThread.java:52-80 | configuration stored, empty digest table, index 0, no skip, no errors, progress 0, MODE_WRITE, running, and the "Creating" line logged |
| Worker.WorkerThread.GetFile | src/fater/WorkerThread.java:171-189 | returns the path of index k, applies the shard switch to the volume and logs "Switching to directory" exactly on a switch |
| Worker.WorkerThread.WriteToFile | src/fater/WorkerThread.java:243-268 | the write of index k's payload either completes, storing exactly the payload, or throws, leaving the volume as it was; the caller at lines 95-99 logs the throw as Err#0 |
| Worker.WorkerThread.WriteStep | src/fater/WorkerThread.java:84-109 | a low-space index is recorded and the index jumps to n; an index with room goes through `getFile`, the write and the digest, and progress becomes i; at n the index resets to 0 and the mode becomes WAIT |
| Worker.WorkerThread.CheckFile | src/fater/WorkerThread.java:130-144 | the result is the conjunction of the three checks, and each failed check is logged |
| Worker.WorkerThread.ExamineFile | src/fater/WorkerThread.java:130-153 | errors grow by one exactly when a check failed; the file is deleted exactly when all passed; the index advances and progress becomes n + i |
| Worker.WorkerThread.ReadStep | src/fater/WorkerThread.java:116-158 | at the skip index the mode becomes FINISHED without examining; below n the index is examined; at n the mode becomes FINISHED and the parent directory of index n's path is removed if it holds no file; the log grows by exactly the lines of the branch taken |
| Worker.WorkerThread.FinishStep | src/fater/WorkerThread.java:160-166 | logs the error count, signals the controller, sets progress to 2n and stops the loop |
| Worker.WorkerThread.Shutdown | src/fater/WorkerThread.java:191-194 | the loop flag is cleared |
| Worker.WorkerThread.SetMode | src/fater/WorkerThread.java:196-199 | the mode becomes the requested one and the target is re-read from the controller |
| Worker.WorkerThread.GetMode | src/fater/WorkerThread.java:201-203 | returns the current mode |
| Worker.WorkerThread.RunUntilWait | src/fater/WorkerThread.java:82-109 | from the start of `run`, the loop reaches MODE_WAIT with i = 0; the skip index is the first low-space index; the digest table holds the payload digest of exactly the indices below the cutoff; the volume is the write pass's; the log grows by exactly the write pass's log; progress ends at the cutoff (unchanged when it is 0) |
| Worker.WorkerThread.WritePassStep | src/fater/WorkerThread.java:84-109 | one MODE_WRITE iteration keeps the write-pass invariant and either advances, records the skip, or enters WAIT with the whole pass's volume, table and log |
| Worker.WorkerThread.WritePassWrite | src/fater/WorkerThread.java:85-102 | an index below the cutoff has room and is written; the volume, table and log then match the closed form for one more index, and progress is the new index |
| Worker.WorkerThread.WritePassNoSpace | src/fater/WorkerThread.java:85-93 | the cutoff index below n lacks room: it becomes the skip index, the index jumps to n, and the log gains its switch lines and the low-space line |
| Worker.WorkerThread.WritePassEnd | src/fater/WorkerThread.java:85-108 | at index n the pass enters WAIT with i = 0 and the whole write pass's volume, table and log |
| Worker.WorkerThread.RunAfterRemount | src/fater/WorkerThread.java:116-167 | from MODE_READ at index 0 the loop ends stopped in MODE_FINISHED with progress 2n; the errors added equal the failures below the stop index, judged on the volume as found; the volume is the read pass's; the log grows by exactly the read pass's log followed by the summary line and the controller signal |
| Worker.WorkerThread.ReadPassStep | src/fater/WorkerThread.java:116-158 | one MODE_READ iteration keeps the read-pass invariant or enters FINISHED with the whole pass's volume, count and log |
| Worker.WorkerThread.ReadPassExamine | src/fater/WorkerThread.java:121-153 | an index below the stop index is examined, and the volume, error count and log match the closed form for one more index |
| Worker.WorkerThread.ReadPassFinish | src/fater/WorkerThread.java:121-158 | at the stop index the pass enters FINISHED with the volume, error count and log of the whole read pass |

## Left out

- The Swing front end (`Main.java`, the `FaterMain` controller, its text fields and progress bar). Log lines become `Event` values and the progress bar becomes an integer field. The numbers typed into the controller arrive already parsed: `fileSize` is in bytes, and the model does not re-parse the kilobyte text.
- Threads. `running` and `mode` are written from the controller's thread in the source; here the controller's `SetMode` happens between `RunUntilWait` and `RunAfterRemount`. The WAIT branch, a 100 ms sleep that changes no state, has no step method of its own.
- `i`, `skippedAt`, `errors` and `hashes` are locals of `run` in the source; they are fields here so that the run can be split at the remount.
- MD5 internals: the digest is an uninterpreted function of the bytes. The shared `MessageDigest` object keeps partial input when `calcFileMd5` fails halfway through a read, so the next digest would be polluted. The model treats a readable file as read completely and a failing open as giving "".
- `RandomString` is not part of this model; its output for index k is `Env.content(k)`. The equivalence between `String.getBytes()` and what `FileWriter` writes (the platform charset) is assumed.
- Worker.WorkerThread.WriteToFile: a failed write leaves the volume unchanged, although a real `FileWriter` may already have created or truncated the file. An `IOException` from `flush()` or `close()` (WorkerThread.java:257-265) is only printed as a stack trace: no Err#0 line is logged, the digest is still stored, and the file may be short or empty. The model has no such outcome; every write either completes or throws before the `finally`.
- `java.io.File` path normalisation, `mkdir`/`delete` return values and I/O exceptions from `delete`: paths are plain strings. `delete` removes a directory only when it holds no file, and deleting a file always succeeds.
- Worker.WorkerThread.Valid: `numberOfFiles` is a natural number and progress is unbounded, so the model does not capture `NegativeArraySizeException` for a negative count or `int` overflow of `numberOfFiles * 2` above 2^30 files.
- `calcFileMd5` buffering: `read` is modelled as returning full chunks of 8192 bytes until the rest, then -1; shorter reads give the same bytes in the same order.
