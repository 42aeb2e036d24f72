/**
  `WorkerThread`: the tester's state machine. Each iteration of the
  `while (running)` loop in `run` is one step method below; the loop
  itself is split at the remount rendezvous into `RunUntilWait` (the write
  pass, ending in WAIT) and `RunAfterRemount` (the read pass and FINISHED),
  between which the controller calls `SetMode` and the operator may do
  anything to the volume.
 */
module Worker {
  import opened FileSys
  import opened Md5Hex
  import opened Paths
  import opened WorkerSpec

  /** MODE_WRITE, MODE_READ, MODE_WAIT, MODE_FINISHED. */
  datatype Mode = Write | Read | Wait | Finished

  class WorkerThread {
    const numberOfFiles: nat
    const fileSize: int
    const env: Env
    /** `hashes`: the digest of each written payload, `None` for `null`. */
    const hashes: array<Option<string>>
    var target: string
    var running: bool
    var mode: Mode
    var i: nat
    var skippedAt: int
    var errors: nat
    /** The target volume as the tester sees it. */
    var fs: FileSystem
    var log: seq<Event>
    var progress: int

    ghost predicate Valid()
      reads this
    {
      && hashes.Length == numberOfFiles
      && i <= numberOfFiles
      && (skippedAt == -1 || 0 <= skippedAt < numberOfFiles)
      && 0 <= progress <= 2 * numberOfFiles
    }

    /** The constructor together with the prologue of `run`: the
        configuration, an empty digest table, index 0, no skip, no errors,
        and the "Creating ..." line. */
    constructor (numberOfFiles: nat, fileSize: int, target: string, env: Env, fs: FileSystem)
      ensures Valid() && fresh(hashes)
      ensures this.numberOfFiles == numberOfFiles && this.fileSize == fileSize && this.env == env
      ensures this.target == target && this.fs == fs
      ensures running && mode == Write && i == 0 && skippedAt == -1 && errors == 0 && progress == 0
      ensures hashes[..] == HashTable(env, numberOfFiles, 0)
      ensures log == [Creating(numberOfFiles, JavaDiv(fileSize, 1024))]
    {
      this.numberOfFiles := numberOfFiles;
      this.fileSize := fileSize;
      this.env := env;
      this.target := target;
      this.fs := fs;
      hashes := new Option<string>[numberOfFiles](_ => None);
      running := true;
      mode := Write;
      i := 0;
      skippedAt := -1;
      errors := 0;
      progress := 0;
      log := [Creating(numberOfFiles, JavaDiv(fileSize, 1024))];
      new;
      assert hashes[..] == HashTable(env, numberOfFiles, 0);
    }

    /** `getFile(target, k, createDir)`: the path of index k, after the
        shard directory switch when k starts a shard. */
    method GetFile(k: nat, createDir: bool) returns (f: string)
      modifies this`fs, this`log
      ensures f == FilePath(target, k)
      ensures fs == SwitchDir(old(fs), target, k, createDir)
      ensures log == old(log) + SwitchLog(k)
    {
      f := target + "/" + DecimalString(Dira(k)) + "/" + DecimalString(k) + ".txt";
      if Dira(k) != Dirb(k) || k == 0 {
        log := log + [SwitchingTo(Dira(k))];
        if createDir {
          fs := Mkdir(fs, DirPath(target, Dira(k)));
        } else {
          fs := DeleteDir(fs, DirPath(target, Dirb(k)));
        }
      }
    }

    /** `writeToFile` for the payload of index k: it either completes or
        throws, as the environment decides. */
    method WriteToFile(k: nat, path: string, content: seq<Byte>) returns (ok: bool)
      modifies this`fs
      ensures ok == env.writeOk(k)
      ensures fs == if ok then WriteFile(old(fs), path, content) else old(fs)
    {
      ok := env.writeOk(k);
      if ok {
        fs := WriteFile(fs, path, content);
      }
    }

    /** One iteration of the loop in MODE_WRITE. */
    method WriteStep()
      requires Valid() && mode == Write
      modifies this, hashes
      ensures Valid()
      ensures target == old(target) && running == old(running) && errors == old(errors)
      ensures var k := old(i);
              k < numberOfFiles && env.freeSpace(k) < fileSize ==>
                && mode == Write && skippedAt == k && i == numberOfFiles
                && fs == SwitchDir(old(fs), target, k, true)
                && hashes[..] == old(hashes[..]) && progress == old(progress)
                && log == old(log) + SwitchLog(k) + [NoSpaceAt(k)]
      ensures var k := old(i);
              k < numberOfFiles && env.freeSpace(k) >= fileSize ==>
                && mode == Write && skippedAt == old(skippedAt) && i == k + 1
                && fs == WriteIndex(env, target, old(fs), k)
                && hashes[..] == old(hashes[..])[k := Some(ExpectedHash(env, k))]
                && progress == k + 1
                && log == old(log) + WriteIndexLog(env, target, k)
      ensures var k := old(i);
              k >= numberOfFiles ==>
                && mode == Wait && skippedAt == old(skippedAt) && i == 0
                && fs == SwitchDir(old(fs), target, k, true)
                && hashes[..] == old(hashes[..]) && progress == old(progress)
                && log == old(log) + SwitchLog(k) + [WaitingForReplug, ControllerToWait]
    {
      var file := GetFile(i, true);
      if i < numberOfFiles {
        var content := env.content(i);
        if env.freeSpace(i) < fileSize {
          log := log + [NoSpaceAt(i)];
          skippedAt := i;
          i := numberOfFiles;
          return;
        }
        var ok := WriteToFile(i, file, content);
        if !ok {
          log := log + [CreationFailed(file)];
        }
        hashes[i] := Some(CalcMd5(env.md5, content));
        i := i + 1;
        progress := i;
      } else {
        i := 0;
        mode := Wait;
        log := log + [WaitingForReplug, ControllerToWait];
      }
    }

    /** The three checks of the read loop on the file of index k, each
        logged on its own when it fails; the result is their conjunction. */
    method CheckFile(k: nat, file: string) returns (result: bool)
      requires k < hashes.Length && file == FilePath(target, k)
      modifies this`log
      ensures var v := VerdictOf(fs, target, hashes[..], env.md5, k);
              result == v.Ok() && log == old(log) + CheckLog(v, FileName(k))
    {
      var name := DecimalString(k) + ".txt";
      result := IsFile(fs, file);
      if !result {
        log := log + [NotFound(name)];
      }
      result := result && CanRead(fs, file);
      if !CanRead(fs, file) {
        log := log + [Unreadable(name)];
      }
      var hash := CalcFileMd5(fs, file, env.md5);
      result := result && Some(hash) == hashes[k];
      if Some(hash) != hashes[k] {
        log := log + [Corrupted(name)];
      }
    }

    /** The read loop on an index it examines (below n, not the skip
        index): the checks, then one error more or the file deleted, then
        the next index. */
    method ExamineFile(file: string)
      requires Valid() && i < numberOfFiles && file == FilePath(target, i)
      modifies this`log, this`errors, this`fs, this`i, this`progress
      ensures Valid()
      ensures var v := VerdictOf(old(fs), target, hashes[..], env.md5, old(i));
              && i == old(i) + 1 && progress == numberOfFiles + i
              && errors == old(errors) + (if v.Ok() then 0 else 1)
              && fs == (if v.Ok() then DeleteFile(old(fs), file) else old(fs))
              && log == old(log) + CheckLog(v, FileName(old(i)))
    {
      var result := CheckFile(i, file);
      if !result {
        errors := errors + 1;
      } else {
        fs := DeleteFile(fs, file);
      }
      i := i + 1;
      progress := numberOfFiles + i;
    }

    /** One iteration of the loop in MODE_READ. */
    method ReadStep()
      requires Valid() && mode == Read
      modifies this
      ensures Valid()
      ensures target == old(target) && running == old(running) && skippedAt == old(skippedAt)
      ensures old(i) < numberOfFiles && old(i) == skippedAt ==>
                && mode == Finished && i == old(i) && errors == old(errors)
                && fs == SwitchDir(old(fs), target, old(i), false) && progress == old(progress)
                && log == old(log) + ReadHeader(old(i)) + [FinishingAt(old(i))]
      ensures old(i) < numberOfFiles && old(i) != skippedAt ==>
                var f := SwitchDir(old(fs), target, old(i), false);
                var v := VerdictOf(f, target, hashes[..], env.md5, old(i));
                && mode == Read && i == old(i) + 1
                && errors == old(errors) + (if v.Ok() then 0 else 1)
                && fs == (if v.Ok() then DeleteFile(f, FilePath(target, old(i))) else f)
                && progress == numberOfFiles + i
                && log == old(log) + ReadHeader(old(i)) + CheckLog(v, FileName(old(i)))
      ensures old(i) >= numberOfFiles ==>
                && mode == Finished && i == old(i) && errors == old(errors)
                && fs == DeleteDir(SwitchDir(old(fs), target, old(i), false), DirPath(target, Dira(old(i))))
                && progress == old(progress)
                && log == old(log) + ReadHeader(old(i))
    {
      if i == 0 {
        log := log + [ReadingFiles];
      }
      var file := GetFile(i, false);
      assert log == old(log) + ReadHeader(i);
      if i < numberOfFiles {
        if skippedAt != -1 && i == skippedAt {
          log := log + [FinishingAt(i)];
          mode := Finished;
          return;
        }
        ExamineFile(file);
      } else {
        mode := Finished;
        fs := DeleteDir(fs, DirPath(target, Dira(i)));
      }
    }

    /** The MODE_FINISHED branch: summary line, controller back to its
        initial mode, progress full, loop stopped. */
    method FinishStep()
      requires Valid() && mode == Finished
      modifies this`log, this`progress, this`running
      ensures Valid() && !running && progress == 2 * numberOfFiles
      ensures log == old(log) + [FinishedWith(errors), ControllerToBefore]
    {
      log := log + [FinishedWith(errors), ControllerToBefore];
      progress := numberOfFiles * 2;
      Shutdown();
    }

    /** `shutdown`: the loop stops at its next test. */
    method Shutdown()
      modifies this`running
      ensures !running
    {
      running := false;
    }

    /** `setMode`: the controller's request, which also re-reads the target
        directory from the controller's text field. */
    method SetMode(m: Mode, targetText: string)
      modifies this`mode, this`target
      ensures mode == m && target == targetText
    {
      target := targetText;
      mode := m;
    }

    /** `getMode`. */
    method GetMode() returns (m: Mode)
      ensures m == mode
    {
      m := mode;
    }

    /** The loop of `run` from its start until it reaches MODE_WAIT: every
        index below the cutoff is handled (payload, directory, write,
        digest), a low-space index stops the pass, and the table, the
        volume, `skippedAt`, the log and the progress end as the write-pass
        specification says. */
    method RunUntilWait()
      requires Valid() && mode == Write && running
      requires i == 0 && skippedAt == -1 && hashes[..] == HashTable(env, numberOfFiles, 0)
      modifies this, hashes
      ensures Valid() && mode == Wait && running && i == 0
      ensures target == old(target) && errors == old(errors)
      ensures skippedAt == FirstLowSpace(env, fileSize, numberOfFiles)
      ensures hashes[..] == HashTable(env, numberOfFiles, Cutoff(env, fileSize, numberOfFiles))
      ensures fs == WritePassFs(env, fileSize, target, old(fs), numberOfFiles)
      ensures log == old(log) + WritePassLog(env, fileSize, target, numberOfFiles)
      ensures var c := Cutoff(env, fileSize, numberOfFiles);
              progress == if c == 0 then old(progress) else c
    {
      ghost var fs0 := fs;
      ghost var L0 := log;
      ghost var p0 := progress;
      ghost var n := numberOfFiles;
      ghost var p := FirstLowSpace(env, fileSize, n);
      ghost var c := Cutoff(env, fileSize, n);
      while mode == Write
        invariant Valid() && running && target == old(target) && errors == old(errors)
        invariant mode == Write || mode == Wait
        invariant mode == Write && skippedAt == -1 ==>
                    i <= c && fs == WrittenFs(env, target, fs0, i) && hashes[..] == HashTable(env, n, i)
                    && log == L0 + WrittenLog(env, target, i) && progress == (if i == 0 then p0 else i)
        invariant mode == Write && skippedAt != -1 ==>
                    skippedAt == p && c < n && i == n
                    && fs == SwitchDir(WrittenFs(env, target, fs0, c), target, c, true)
                    && hashes[..] == HashTable(env, n, c)
                    && log == L0 + WrittenLog(env, target, c) + (SwitchLog(c) + [NoSpaceAt(c)])
                    && progress == (if c == 0 then p0 else c)
        invariant mode == Wait ==>
                    i == 0 && skippedAt == p && hashes[..] == HashTable(env, n, c)
                    && fs == WritePassFs(env, fileSize, target, fs0, n)
                    && log == L0 + WritePassLog(env, fileSize, target, n)
                    && progress == (if c == 0 then p0 else c)
        decreases if mode == Write then n - i + 1 else 0
      {
        WritePassStep(fs0, L0, p0);
      }
    }

    /** One MODE_WRITE iteration seen against the write-pass
        specification: from the volume, table and log after indices below
        i, either index i is handled, or the low-space index is recorded,
        or the pass hands over to MODE_WAIT with the volume, table and log
        of the whole write pass. */
    method WritePassStep(ghost fs0: FileSystem, ghost L0: seq<Event>, ghost p0: int)
      requires Valid() && mode == Write && running
      requires var c := Cutoff(env, fileSize, numberOfFiles);
               skippedAt == -1 ==>
                 i <= c && fs == WrittenFs(env, target, fs0, i)
                 && hashes[..] == HashTable(env, numberOfFiles, i)
                 && log == L0 + WrittenLog(env, target, i) && progress == (if i == 0 then p0 else i)
      requires var c := Cutoff(env, fileSize, numberOfFiles);
               skippedAt != -1 ==>
                 skippedAt == FirstLowSpace(env, fileSize, numberOfFiles) && c < numberOfFiles
                 && i == numberOfFiles
                 && fs == SwitchDir(WrittenFs(env, target, fs0, c), target, c, true)
                 && hashes[..] == HashTable(env, numberOfFiles, c)
                 && log == L0 + WrittenLog(env, target, c) + (SwitchLog(c) + [NoSpaceAt(c)])
                 && progress == (if c == 0 then p0 else c)
      modifies this, hashes
      ensures Valid() && running && target == old(target) && errors == old(errors)
      ensures mode == Write || mode == Wait
      ensures var c := Cutoff(env, fileSize, numberOfFiles);
              mode == Write && skippedAt == -1 ==>
                i == old(i) + 1 <= c && fs == WrittenFs(env, target, fs0, i)
                && hashes[..] == HashTable(env, numberOfFiles, i)
                && log == L0 + WrittenLog(env, target, i) && progress == i
      ensures var c := Cutoff(env, fileSize, numberOfFiles);
              mode == Write && skippedAt != -1 ==>
                old(skippedAt) == -1
                && skippedAt == FirstLowSpace(env, fileSize, numberOfFiles) && c < numberOfFiles
                && i == numberOfFiles
                && fs == SwitchDir(WrittenFs(env, target, fs0, c), target, c, true)
                && hashes[..] == HashTable(env, numberOfFiles, c)
                && log == L0 + WrittenLog(env, target, c) + (SwitchLog(c) + [NoSpaceAt(c)])
                && progress == (if c == 0 then p0 else c)
      ensures var c := Cutoff(env, fileSize, numberOfFiles);
              mode == Wait ==>
                i == 0 && skippedAt == FirstLowSpace(env, fileSize, numberOfFiles)
                && hashes[..] == HashTable(env, numberOfFiles, c)
                && fs == WritePassFs(env, fileSize, target, fs0, numberOfFiles)
                && log == L0 + WritePassLog(env, fileSize, target, numberOfFiles)
                && progress == (if c == 0 then p0 else c)
    {
      if i < Cutoff(env, fileSize, numberOfFiles) && skippedAt == -1 {
        WritePassWrite(fs0, L0, p0);
      } else if skippedAt == -1 && i < numberOfFiles {
        WritePassNoSpace(fs0, L0, p0);
      } else {
        WritePassEnd(fs0, L0, p0);
      }
    }

    /** An index below the cutoff: it has room, so it is written, its
        digest recorded and its lines logged. */
    method WritePassWrite(ghost fs0: FileSystem, ghost L0: seq<Event>, ghost p0: int)
      requires Valid() && mode == Write && running && skippedAt == -1
      requires i < Cutoff(env, fileSize, numberOfFiles)
      requires fs == WrittenFs(env, target, fs0, i) && hashes[..] == HashTable(env, numberOfFiles, i)
      requires log == L0 + WrittenLog(env, target, i)
      modifies this, hashes
      ensures Valid() && running && target == old(target) && errors == old(errors)
      ensures mode == Write && skippedAt == -1 && i == old(i) + 1
      ensures fs == WrittenFs(env, target, fs0, i) && hashes[..] == HashTable(env, numberOfFiles, i)
      ensures log == L0 + WrittenLog(env, target, i) && progress == i
    {
      ghost var k := i;
      ghost var before := hashes[..];
      FirstLowSpaceIsFirst(env, fileSize, numberOfFiles, k);
      WriteStep();
      assert hashes[..] == HashTable(env, numberOfFiles, k + 1) by {
        assert before == HashTable(env, numberOfFiles, k);
      }
      assert log == L0 + (WrittenLog(env, target, k) + WriteIndexLog(env, target, k));
    }

    /** The cutoff index when it is below n: it lacks room, so it is
        recorded as the skip index and the pass jumps to its end. */
    method WritePassNoSpace(ghost fs0: FileSystem, ghost L0: seq<Event>, ghost p0: int)
      requires Valid() && mode == Write && running && skippedAt == -1
      requires i == Cutoff(env, fileSize, numberOfFiles) < numberOfFiles
      requires fs == WrittenFs(env, target, fs0, i) && hashes[..] == HashTable(env, numberOfFiles, i)
      requires log == L0 + WrittenLog(env, target, i) && progress == (if i == 0 then p0 else i)
      modifies this, hashes
      ensures Valid() && running && target == old(target) && errors == old(errors)
      ensures var c := Cutoff(env, fileSize, numberOfFiles);
              && mode == Write && old(skippedAt) == -1
              && skippedAt == FirstLowSpace(env, fileSize, numberOfFiles)
              && i == numberOfFiles
              && fs == SwitchDir(WrittenFs(env, target, fs0, c), target, c, true)
              && hashes[..] == HashTable(env, numberOfFiles, c)
              && log == L0 + WrittenLog(env, target, c) + (SwitchLog(c) + [NoSpaceAt(c)])
              && progress == (if c == 0 then p0 else c)
    {
      WriteStep();
    }

    /** Index n, reached after the last written index or from the skip
        index: the shard directory is switched and the pass hands over to
        MODE_WAIT. */
    method WritePassEnd(ghost fs0: FileSystem, ghost L0: seq<Event>, ghost p0: int)
      requires Valid() && mode == Write && running
      requires var c := Cutoff(env, fileSize, numberOfFiles);
               skippedAt == -1 ==>
                 i == c == numberOfFiles && fs == WrittenFs(env, target, fs0, i)
                 && hashes[..] == HashTable(env, numberOfFiles, i)
                 && log == L0 + WrittenLog(env, target, i) && progress == (if i == 0 then p0 else i)
      requires var c := Cutoff(env, fileSize, numberOfFiles);
               skippedAt != -1 ==>
                 skippedAt == FirstLowSpace(env, fileSize, numberOfFiles) && c < numberOfFiles
                 && i == numberOfFiles
                 && fs == SwitchDir(WrittenFs(env, target, fs0, c), target, c, true)
                 && hashes[..] == HashTable(env, numberOfFiles, c)
                 && log == L0 + WrittenLog(env, target, c) + (SwitchLog(c) + [NoSpaceAt(c)])
                 && progress == (if c == 0 then p0 else c)
      modifies this, hashes
      ensures Valid() && running && target == old(target) && errors == old(errors)
      ensures var c := Cutoff(env, fileSize, numberOfFiles);
              && mode == Wait && i == 0 && skippedAt == FirstLowSpace(env, fileSize, numberOfFiles)
              && hashes[..] == HashTable(env, numberOfFiles, c)
              && fs == WritePassFs(env, fileSize, target, fs0, numberOfFiles)
              && log == L0 + WritePassLog(env, fileSize, target, numberOfFiles)
              && progress == (if c == 0 then p0 else c)
    {
      ghost var before := log;
      WritePassLogAtEnd(L0, env, fileSize, target, numberOfFiles);
      WriteStep();
      assert log == before + (SwitchLog(numberOfFiles) + [WaitingForReplug, ControllerToWait]);
    }

    /** The loop of `run` from the controller's switch to MODE_READ until it
        stops: indices below the stop index are judged on the volume as the
        read pass found it, each failure counted once and logged, each fully
        verified file deleted, and the loop ends in MODE_FINISHED with full
        progress and the summary line. */
    method RunAfterRemount()
      requires Valid() && mode == Read && running && i == 0
      modifies this
      ensures Valid() && mode == Finished && !running && progress == 2 * numberOfFiles
      ensures target == old(target) && skippedAt == old(skippedAt)
      ensures errors == old(errors)
                        + Failures(old(fs), target, hashes[..], env.md5, ReadStop(numberOfFiles, skippedAt))
      ensures fs == ReadPassFs(old(fs), target, hashes[..], env.md5, skippedAt)
      ensures log == old(log) + ReadPassLog(old(fs), target, hashes[..], env.md5, skippedAt)
                     + [FinishedWith(errors), ControllerToBefore]
    {
      ghost var fs1 := fs;
      ghost var e0 := errors;
      ghost var L0 := log;
      ghost var n := numberOfFiles;
      ghost var s := ReadStop(n, skippedAt);
      ghost var table := hashes[..];
      while running
        invariant Valid() && target == old(target) && skippedAt == old(skippedAt)
        invariant mode == Read || mode == Finished
        invariant !running ==> mode == Finished && progress == 2 * n
        invariant mode == Read ==>
                    running && i <= s && fs == ReadFs(fs1, target, table, env.md5, i)
                    && errors == e0 + Failures(fs1, target, table, env.md5, i)
                    && log == L0 + ReadLog(fs1, target, table, env.md5, i)
        invariant mode == Finished ==>
                    fs == ReadPassFs(fs1, target, table, env.md5, skippedAt)
                    && errors == e0 + Failures(fs1, target, table, env.md5, s)
        invariant mode == Finished && running ==>
                    log == L0 + ReadPassLog(fs1, target, table, env.md5, skippedAt)
        invariant !running ==>
                    log == L0 + ReadPassLog(fs1, target, table, env.md5, skippedAt)
                           + [FinishedWith(errors), ControllerToBefore]
        decreases (if running then 1 else 0) + (if mode == Read then n - i + 1 else 0)
      {
        if mode == Read {
          ReadPassStep(fs1, table, e0, L0);
        } else {
          FinishStep();
        }
      }
    }

    /** One MODE_READ iteration seen against the read-pass specification:
        from the volume, error count and log after indices below i, either
        the next index is examined or the pass enters MODE_FINISHED with
        the volume, count and log the whole pass yields. */
    method ReadPassStep(ghost fs1: FileSystem, ghost table: seq<Option<string>>, ghost e0: int,
                        ghost L0: seq<Event>)
      requires Valid() && mode == Read && running && table == hashes[..]
      requires i <= ReadStop(numberOfFiles, skippedAt)
      requires fs == ReadFs(fs1, target, table, env.md5, i)
      requires errors == e0 + Failures(fs1, target, table, env.md5, i)
      requires log == L0 + ReadLog(fs1, target, table, env.md5, i)
      modifies this
      ensures Valid() && running && target == old(target) && skippedAt == old(skippedAt)
      ensures mode == Read || mode == Finished
      ensures mode == Read ==>
                i == old(i) + 1 <= ReadStop(numberOfFiles, skippedAt)
                && fs == ReadFs(fs1, target, table, env.md5, i)
                && errors == e0 + Failures(fs1, target, table, env.md5, i)
                && log == L0 + ReadLog(fs1, target, table, env.md5, i)
      ensures mode == Finished ==>
                fs == ReadPassFs(fs1, target, table, env.md5, skippedAt)
                && errors == e0 + Failures(fs1, target, table, env.md5, ReadStop(numberOfFiles, skippedAt))
                && log == L0 + ReadPassLog(fs1, target, table, env.md5, skippedAt)
    {
      if i < ReadStop(numberOfFiles, skippedAt) {
        ReadPassExamine(fs1, table, e0, L0);
      } else {
        ReadPassFinish(fs1, table, e0, L0);
      }
    }

    /** An index below the stop index: it is examined on the volume as the
        read pass found it, its failures logged, and the pass stays in
        MODE_READ. */
    method ReadPassExamine(ghost fs1: FileSystem, ghost table: seq<Option<string>>, ghost e0: int,
                           ghost L0: seq<Event>)
      requires Valid() && mode == Read && running && table == hashes[..]
      requires i < ReadStop(numberOfFiles, skippedAt)
      requires fs == ReadFs(fs1, target, table, env.md5, i)
      requires errors == e0 + Failures(fs1, target, table, env.md5, i)
      requires log == L0 + ReadLog(fs1, target, table, env.md5, i)
      modifies this
      ensures Valid() && running && target == old(target) && skippedAt == old(skippedAt)
      ensures mode == Read && i == old(i) + 1
      ensures fs == ReadFs(fs1, target, table, env.md5, i)
      ensures errors == e0 + Failures(fs1, target, table, env.md5, i)
      ensures log == L0 + ReadLog(fs1, target, table, env.md5, i)
    {
      ghost var k := i;
      ghost var before := fs;
      VerdictStable(fs1, target, table, env.md5, k);
      ReadLogNext(L0, fs1, target, table, env.md5, k);
      ReadStep();
      assert fs == ReadIndex(before, target, table, env.md5, k);
    }

    /** The stop index: the pass enters MODE_FINISHED with the volume,
        error count and log of the whole read pass. */
    method ReadPassFinish(ghost fs1: FileSystem, ghost table: seq<Option<string>>, ghost e0: int,
                          ghost L0: seq<Event>)
      requires Valid() && mode == Read && running && table == hashes[..]
      requires i == ReadStop(numberOfFiles, skippedAt)
      requires fs == ReadFs(fs1, target, table, env.md5, i)
      requires errors == e0 + Failures(fs1, target, table, env.md5, i)
      requires log == L0 + ReadLog(fs1, target, table, env.md5, i)
      modifies this
      ensures Valid() && running && target == old(target) && skippedAt == old(skippedAt)
      ensures mode == Finished
      ensures fs == ReadPassFs(fs1, target, table, env.md5, skippedAt)
      ensures errors == e0 + Failures(fs1, target, table, env.md5, ReadStop(numberOfFiles, skippedAt))
      ensures log == L0 + ReadPassLog(fs1, target, table, env.md5, skippedAt)
    {
      ReadPassLogAtStop(L0, fs1, target, table, env.md5, skippedAt);
      ReadStep();
    }
  }
}
