/** The bucket directory on disk, reduced to what the service observes of it: which regular
    files it holds, with their sizes and modification times. Each method is one filesystem
    call the service makes on it. */
module FileSystem {
  import opened Common

  class BucketDir {
    var files: Files

    constructor (initial: Files)
      ensures files == initial
    {
      files := initial;
    }

    /** `iterdir()` keeping the regular files: every file once, in an unspecified order. */
    method ListFiles() returns (names: seq<string>)
      ensures Distinct(names) && |names| == |files|
      ensures forall n :: n in names <==> n in files
    {
      names := [];
      var rest := files.Keys;
      while rest != {}
        invariant rest <= files.Keys
        invariant forall n :: n in names <==> n in files && n !in rest
        invariant Distinct(names) && |names| + |rest| == |files.Keys|
        decreases |rest|
      {
        var n :| n in rest;
        names := names + [n];
        rest := rest - {n};
      }
    }

    /** `path.stat()` of a file that is there. */
    method Stat(name: string) returns (meta: Meta)
      requires name in files
      ensures meta == files[name]
    {
      meta := files[name];
    }

    /** `path.exists()`. */
    method Exists(name: string) returns (present: bool)
      ensures present <==> name in files
    {
      present := name in files;
    }

    /** `path.unlink(missing_ok=True)`: removes the file, and does nothing if it is absent. */
    method Unlink(name: string)
      modifies this
      ensures files == old(files) - {name}
    {
      files := files - {name};
    }

    /** `path.open("wb")`: creates the file empty (or truncates it), stamped `now`. */
    method Create(name: string, now: int)
      modifies this
      ensures files == old(files)[name := Meta(0, now)]
    {
      files := files[name := Meta(0, now)];
    }

    /** `stream.write(chunk)` at the end of an open file: the size grows by the chunk's length. */
    method Write(name: string, chunk: seq<bv8>, now: int)
      requires name in files
      modifies this
      ensures files == old(files)[name := Meta(old(files)[name].size + |chunk|, now)]
    {
      files := files[name := Meta(files[name].size + |chunk|, now)];
    }

    /** `os.utime(path, None)`: re-stamps the file's modification time to `now`. */
    method Touch(name: string, now: int)
      requires name in files
      modifies this
      ensures files == old(files)[name := Meta(old(files)[name].size, now)]
    {
      files := files[name := Meta(files[name].size, now)];
    }
  }
}
