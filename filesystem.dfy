/**
 * The part of `os` the harvester uses: `os.makedirs(…, exist_ok=True)`,
 * `open(…, "w")` followed by a write, `os.path.exists` and `os.remove`.
 * A disk is a map from file path to contents plus a set of directory
 * paths; which calls raise for reasons outside the program (permissions,
 * a full disk, a missing parent) is given as a set of failing paths.
 */
module FileSystems {
  import opened Wrappers

  /** The paths on which each kind of call raises although the disk would allow it. */
  datatype Faults = Faults(mkdirFails: set<string>, writeFails: set<string>, removeFails: set<string>)

  datatype Disk = Disk(files: map<string, string>, dirs: set<string>)

  /** `os.path.exists(path)`: a file or a directory. */
  predicate Exists(d: Disk, path: string) {
    path in d.files || path in d.dirs
  }

  /** No path is both a file and a directory. */
  predicate Coherent(d: Disk) {
    d.files.Keys !! d.dirs
  }

  /**
   * `os.makedirs(path, exist_ok=True)`: raises for an empty path and for a
   * path that is an existing file; an existing directory is fine.
   */
  function MakeDirsOn(d: Disk, faults: Faults, path: string): (r: Option<Disk>)
    ensures r.Some? ==> r.value.files == d.files && r.value.dirs == d.dirs + {path}
  {
    if path == "" || path in d.files || path in faults.mkdirFails then None
    else Some(d.(dirs := d.dirs + {path}))
  }

  /** `open(path, "w").write(text)`: raises for an empty path and for a directory. */
  function WriteOn(d: Disk, faults: Faults, path: string, text: string): (r: Option<Disk>)
    ensures r.Some? ==> r.value.files == d.files[path := text] && r.value.dirs == d.dirs
  {
    if path == "" || path in d.dirs || path in faults.writeFails then None
    else Some(d.(files := d.files[path := text]))
  }

  /** `os.remove(path)`: only a file can be removed, never a directory. */
  function RemoveOn(d: Disk, faults: Faults, path: string): (r: Option<Disk>)
    ensures r.Some? ==> r.value.files == d.files - {path} && r.value.dirs == d.dirs
  {
    if path !in d.files || path in d.dirs || path in faults.removeFails then None
    else Some(d.(files := d.files - {path}))
  }

  /** Each call that succeeds keeps files and directories apart. */
  lemma CallsKeepCoherent(d: Disk, faults: Faults, path: string, text: string)
    requires Coherent(d)
    ensures MakeDirsOn(d, faults, path).Some? ==> Coherent(MakeDirsOn(d, faults, path).value)
    ensures WriteOn(d, faults, path, text).Some? ==> Coherent(WriteOn(d, faults, path, text).value)
    ensures RemoveOn(d, faults, path).Some? ==> Coherent(RemoveOn(d, faults, path).value)
  {
  }

  /** The disk the harvester runs against; `faults` never changes. */
  class FileSystem {
    var files: map<string, string>
    var dirs: set<string>
    const faults: Faults

    constructor (files0: map<string, string>, dirs0: set<string>, faults0: Faults)
      ensures files == files0 && dirs == dirs0 && faults == faults0
    {
      files, dirs, faults := files0, dirs0, faults0;
    }

    function State(): Disk
      reads this
    {
      Disk(files, dirs)
    }

    /** `os.path.exists(path)` */
    method PathExists(path: string) returns (b: bool)
      ensures b <==> Exists(State(), path)
    {
      b := path in files || path in dirs;
    }

    /** `os.makedirs(path, exist_ok=True)`; `ok` is false when it raised. */
    method MakeDirs(path: string) returns (ok: bool)
      modifies this
      ensures ok <==> MakeDirsOn(old(State()), faults, path).Some?
      ensures State() == if ok then MakeDirsOn(old(State()), faults, path).value else old(State())
    {
      if path == "" || path in files || path in faults.mkdirFails {
        return false;
      }
      dirs := dirs + {path};
      return true;
    }

    /** `with open(path, "w") as f: f.write(text)`; `ok` is false when it raised. */
    method Write(path: string, text: string) returns (ok: bool)
      modifies this
      ensures ok <==> WriteOn(old(State()), faults, path, text).Some?
      ensures State() == if ok then WriteOn(old(State()), faults, path, text).value else old(State())
    {
      if path == "" || path in dirs || path in faults.writeFails {
        return false;
      }
      files := files[path := text];
      return true;
    }

    /** `os.remove(path)`; `ok` is false when it raised. */
    method Remove(path: string) returns (ok: bool)
      modifies this
      ensures ok <==> RemoveOn(old(State()), faults, path).Some?
      ensures State() == if ok then RemoveOn(old(State()), faults, path).value else old(State())
    {
      if path !in files || path in dirs || path in faults.removeFails {
        return false;
      }
      files := files - {path};
      return true;
    }
  }
}
