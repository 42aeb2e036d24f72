/**
  The part of the target volume the tester sees: regular files (with their
  bytes and whether they can be read) and directories, each named by its
  path string. `java.io.File` operations become functions on this value.
 */
module FileSys {

  type Byte = b: int | 0 <= b < 256

  datatype FileEntry = FileEntry(data: seq<Byte>, readable: bool)

  datatype FileSystem = FileSystem(files: map<string, FileEntry>, dirs: set<string>)

  /** `File.isFile()`. */
  predicate IsFile(fs: FileSystem, path: string) {
    path in fs.files
  }

  /** `File.canRead()`: false for a path that does not exist. */
  predicate CanRead(fs: FileSystem, path: string) {
    path in fs.files && fs.files[path].readable
  }

  /** `File.mkdir()` (its return value is ignored by the tester). */
  function Mkdir(fs: FileSystem, dir: string): (r: FileSystem)
    ensures r.files == fs.files && r.dirs == fs.dirs + {dir}
  {
    fs.(dirs := fs.dirs + {dir})
  }

  /** No file lies anywhere below `dir`. */
  predicate DirEmpty(fs: FileSystem, dir: string) {
    forall p :: p in fs.files ==> !(dir + "/" <= p)
  }

  /** `File.delete()` on a directory: it goes only when it is empty. */
  function DeleteDir(fs: FileSystem, dir: string): (r: FileSystem)
    ensures r.files == fs.files
    ensures r.dirs == if DirEmpty(fs, dir) then fs.dirs - {dir} else fs.dirs
  {
    if DirEmpty(fs, dir) then fs.(dirs := fs.dirs - {dir}) else fs
  }

  /** `File.delete()` on a regular file. */
  function DeleteFile(fs: FileSystem, path: string): (r: FileSystem)
    ensures r.dirs == fs.dirs && path !in r.files
  {
    fs.(files := fs.files - {path})
  }

  /** A write that completed: the file holds exactly `data` and is readable. */
  function WriteFile(fs: FileSystem, path: string, data: seq<Byte>): (r: FileSystem)
    ensures r.dirs == fs.dirs && IsFile(r, path) && CanRead(r, path)
    ensures r.files[path].data == data
  {
    fs.(files := fs.files[path := FileEntry(data, true)])
  }
}
