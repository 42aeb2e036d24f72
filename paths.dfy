/**
  Where file number i lives (`getFile`): shard directory `i / 5000`, file
  `<target>/<shard>/<i>.txt`, with Java's truncating integer division, and
  the directory created (write pass) or removed (read pass) whenever the
  index enters a new shard.
 */
module Paths {
  import opened Digits
  import opened FileSys

  /** `dp`: the number of files per shard directory. */
  const DirWidth: nat := 5000

  /** Java's `int` division, which truncates toward zero (Dafny's `/` is
      Euclidean and rounds -1 / 5000 down to -1). */
  function JavaDiv(a: int, b: int): int
    requires b > 0
  {
    if a >= 0 then a / b else -((-a) / b)
  }

  /** `dira`: the shard of index i. */
  function Dira(i: nat): nat {
    JavaDiv(i, DirWidth)
  }

  /** `dirb`: the shard of index i - 1, computed with Java division. */
  function Dirb(i: nat): nat {
    JavaDiv(i - 1, DirWidth)
  }

  /** The condition under which `getFile` logs "Switching to directory". */
  predicate Switches(i: nat) {
    Dira(i) != Dirb(i) || i == 0
  }

  function DecimalString(n: nat): string {
    ToDigits(n, 10)
  }

  /** `file.getName()` of index i. */
  function FileName(i: nat): string {
    DecimalString(i) + ".txt"
  }

  /** `target + "/" + d`: a shard directory. */
  function DirPath(target: string, d: nat): string {
    target + "/" + DecimalString(d)
  }

  /** `target + "/" + dira + "/" + i + ".txt"`: the file of index i. */
  function FilePath(target: string, i: nat): string {
    target + "/" + DecimalString(Dira(i)) + "/" + DecimalString(i) + ".txt"
  }

  /** The shard is the Euclidean quotient for every index the tester uses,
      and index i lies in that shard's range of 5000 indices. */
  lemma DiraIsShard(i: nat)
    ensures Dira(i) == i / DirWidth
    ensures Dira(i) * DirWidth <= i < (Dira(i) + 1) * DirWidth
  {
  }

  /** At index 0 Java gives `dirb == 0` (truncation), where Euclidean
      division would give -1; so `dira == dirb` there and only the explicit
      `i == 0` test makes index 0 switch. */
  lemma DirbAtZero()
    ensures Dirb(0) == 0 == Dira(0) && (0 - 1) / DirWidth == -1
  {
  }

  /** The switch fires exactly at index 0 and at every positive multiple of
      5000; when it fires at a positive index, `dirb` is the shard just
      left. */
  lemma SwitchesIff(i: nat)
    ensures Switches(i) <==> i % DirWidth == 0
    ensures Switches(i) && i > 0 ==> Dirb(i) + 1 == Dira(i)
    ensures !Switches(i) ==> Dirb(i) == Dira(i)
  {
    if i > 0 {
      var q, r := i / DirWidth, i % DirWidth;
      assert i == q * DirWidth + r;
      if r == 0 {
        assert i - 1 == (q - 1) * DirWidth + (DirWidth - 1);
      } else {
        assert i - 1 == q * DirWidth + (r - 1);
      }
    }
  }

  /** The file of index i lies directly in the directory of its shard:
      this is the parent directory the read pass removes at its end. */
  lemma FilePathInShard(target: string, i: nat)
    ensures FilePath(target, i) == DirPath(target, Dira(i)) + "/" + FileName(i)
    ensures NoSlash(FileName(i))
  {
    DecimalNoSlash(i);
  }

  predicate NoSlash(s: string) {
    forall k :: 0 <= k < |s| ==> s[k] != '/'
  }

  lemma DecimalNoSlash(n: nat)
    ensures NoSlash(DecimalString(n))
  {
  }

  /** Two slash-free heads are determined by where the first slash falls. */
  lemma SplitAtSlash(a: string, b: string, c: string, d: string)
    requires NoSlash(a) && NoSlash(c)
    requires a + "/" + b == c + "/" + d
    ensures a == c && b == d
  {
    var x := a + "/" + b;
    assert |a| == |c| by {
      assert x[|a|] == '/' && (c + "/" + d)[|c|] == '/';
    }
    assert a == x[..|a|];
    assert c == (c + "/" + d)[..|c|];
    assert b == x[|a| + 1..];
    assert d == (c + "/" + d)[|c| + 1..];
  }

  /** Distinct indices have distinct files, so writing, reading or deleting
      the file of one index never touches the file of another. */
  lemma FilePathInjective(target: string, i: nat, j: nat)
    ensures FilePath(target, i) == FilePath(target, j) ==> i == j
  {
    if FilePath(target, i) == FilePath(target, j) {
      FilePathInjectiveStep(target, i, j);
    }
  }

  /** Distinct indices have distinct file names, so a log line names the
      index it is about. */
  lemma FileNameInjective(i: nat, j: nat)
    ensures FileName(i) == FileName(j) ==> i == j
  {
    if FileName(i) == FileName(j) {
      var u := FileName(i);
      assert DecimalString(i) == u[..|u| - 4];
      assert DecimalString(j) == u[..|u| - 4];
      ToDigitsInjective(i, j, 10);
    }
  }

  lemma FilePathInjectiveStep(target: string, i: nat, j: nat)
    requires FilePath(target, i) == FilePath(target, j)
    ensures i == j
  {
    var x := FilePath(target, i);
    var u := DecimalString(Dira(i)) + "/" + DecimalString(i);
    var v := DecimalString(Dira(j)) + "/" + DecimalString(j);
    assert x == target + "/" + u + ".txt";
    assert FilePath(target, j) == target + "/" + v + ".txt";
    assert |u| == |v|;
    assert u == x[|target| + 1..|x| - 4];
    assert v == x[|target| + 1..|x| - 4];
    DecimalNoSlash(Dira(i));
    DecimalNoSlash(Dira(j));
    SplitAtSlash(DecimalString(Dira(i)), DecimalString(i), DecimalString(Dira(j)), DecimalString(j));
    ToDigitsInjective(i, j, 10);
  }

  /** The directory side effect of `getFile(target, i, createDir)`: on a
      shard switch, create mode makes the directory of `dira`, and the read
      mode removes the (empty) directory of `dirb`. Files are never
      touched and no other directory changes. */
  function SwitchDir(fs: FileSystem, target: string, i: nat, createDir: bool): (r: FileSystem)
    ensures r.files == fs.files
    ensures !Switches(i) ==> r == fs
    ensures Switches(i) && createDir ==> r.dirs == fs.dirs + {DirPath(target, Dira(i))}
    ensures Switches(i) && !createDir ==>
              var gone := DirPath(target, Dirb(i));
              r.dirs == if DirEmpty(fs, gone) then fs.dirs - {gone} else fs.dirs
  {
    if !Switches(i) then fs
    else if createDir then Mkdir(fs, DirPath(target, Dira(i)))
    else DeleteDir(fs, DirPath(target, Dirb(i)))
  }

  /** The only directory a switch can create or remove is the shard being
      entered (create mode) or the one just left (read mode). */
  lemma SwitchDirOnlyItsShard(fs: FileSystem, target: string, i: nat, createDir: bool, d: string)
    requires d != DirPath(target, if createDir then Dira(i) else Dirb(i))
    ensures d in SwitchDir(fs, target, i, createDir).dirs <==> d in fs.dirs
  {
  }
}
