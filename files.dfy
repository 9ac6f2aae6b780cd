/**
 * The part of Node's `fs` module the env scripts use, over a map from paths to
 * file contents. Every `writeFileSync` and `copyFileSync` is also recorded, in
 * order, so that "the file is written only when its text changed" can be told
 * apart from "the same text is written back".
 */
module Files {
  import opened Wrappers

  /** The error `copyFileSync` throws when its source does not exist (ENOENT). */
  datatype FsError = NoSuchFile(path: string)

  /** The files that exist, with their contents, and the paths written so far. */
  datatype Disk = Disk(files: map<string, string>, writes: seq<string>)

  function Write(d: Disk, path: string, content: string): Disk {
    Disk(d.files[path := content], d.writes + [path])
  }

  class FileSystem {
    var files: map<string, string>
    var writes: seq<string>

    constructor (initial: map<string, string>)
      ensures files == initial && writes == []
    {
      files := initial;
      writes := [];
    }

    function Snapshot(): Disk
      reads this
    {
      Disk(files, writes)
    }

    /** `writeFileSync(path, content)`: creates or replaces the file. */
    method WriteFileSync(path: string, content: string)
      modifies this
      ensures Snapshot() == Write(old(Snapshot()), path, content)
    {
      files := files[path := content];
      writes := writes + [path];
    }

    /** `copyFileSync(src, dest)`: replaces `dest` by a copy of `src`, or throws when `src` is missing. */
    method CopyFileSync(src: string, dest: string) returns (r: Result<(), FsError>)
      modifies this
      ensures src in old(files) ==> r.Success? && Snapshot() == Write(old(Snapshot()), dest, old(files[src]))
      ensures src !in old(files) ==> r == Failure(NoSuchFile(src)) && Snapshot() == old(Snapshot())
    {
      if src !in files {
        return Failure(NoSuchFile(src));
      }
      WriteFileSync(dest, files[src]);
      return Success(());
    }
  }
}
