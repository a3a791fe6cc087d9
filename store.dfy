/**
 * The storage directory of one (user, book) scope, seen as a map from file
 * name to contents. `Exists`, `Write` and `Read` stand for `fs.access`,
 * `fs.writeFile` and `fs.readFile` on a path inside that directory.
 */
module Storage {
  import opened Wrappers
  import opened Images

  class ImageStore {
    /** The files now in the directory. */
    var files: Files
    /** Every name written through this store, in order (bookkeeping only). */
    ghost var log: seq<string>

    constructor (existing: Files)
      ensures files == existing && log == []
    {
      files := existing;
      log := [];
    }

    /** `fs.access(path)` succeeds exactly when the file is there. */
    method Exists(name: string) returns (present: bool)
      ensures present <==> name in files
    {
      present := name in files;
    }

    /** `fs.writeFile(path, data)`: creates or replaces one file and nothing else. */
    method Write(name: string, data: Bytes)
      modifies this
      ensures files == old(files)[name := data]
      ensures log == old(log) + [name]
    {
      files := files[name := data];
      log := log + [name];
    }

    /** `fs.readFile(path)`: the contents, or a failure when there is no file to read. */
    method Read(name: string) returns (data: Option<Bytes>)
      ensures data.Some? <==> Readable(files, name)
      ensures data.Some? ==> data.value == files[name]
    {
      data := if Readable(files, name) then Some(files[name]) else None;
    }
  }
}
