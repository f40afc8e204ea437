/**
 * The working directory as the handlers see it: the set of paths that exist.
 * `os.path.exists` is membership, `os.remove` takes a path out, and writing a
 * file (a download, a media library's output, `open(p, "w")`, `cp`) puts one in.
 */
module Files {

  /** The paths listed in a sequence, as a set. */
  function Paths(ps: seq<string>): (s: set<string>)
    ensures forall p :: p in s <==> p in ps
  {
    set p | p in ps
  }

  class Disk {
    var files: set<string>

    constructor (init: set<string>)
      ensures files == init
    {
      files := init;
    }

    /** Writing `path`: afterwards it exists. */
    method Create(path: string)
      modifies this
      ensures files == old(files) + {path}
    {
      files := files + {path};
    }

    /** `if os.path.exists(path): os.remove(path)`. */
    method RemoveIfExists(path: string)
      modifies this
      ensures files == old(files) - {path}
    {
      if path in files {
        files := files - {path};
      }
    }

    /** The cleanup loop `for file in paths: if os.path.exists(file): os.remove(file)`. */
    method RemoveEach(paths: seq<string>)
      modifies this
      ensures files == old(files) - Paths(paths)
    {
      for i := 0 to |paths|
        invariant files == old(files) - Paths(paths[..i])
      {
        RemoveIfExists(paths[i]);
        assert paths[..i + 1] == paths[..i] + [paths[i]];
      }
      assert paths[..|paths|] == paths;
    }
  }
}
