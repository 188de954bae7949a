/** The file system as the scripts see it: a flat set of path names that
    exist. Contents, permissions and directory structure are not modelled:
    an operation fails for a missing source or an existing target, but not
    for a missing parent directory, and renaming a directory does not move
    the names below it. */
module FileSys {

  class FileSystem {
    var names: set<string>

    constructor (initial: set<string>)
      ensures names == initial
    {
      names := initial;
    }

    /** `os.path.exists(p)`. */
    predicate Exists(p: string)
      reads this
    {
      p in names
    }

    /** `os.rename(src, dst)`: raises `OSError` (`ok == false`) when `src`
        does not exist; otherwise `src` is gone and `dst` exists. */
    method Rename(src: string, dst: string) returns (ok: bool)
      modifies this
      ensures ok == (src in old(names))
      ensures names == if ok then old(names) - {src} + {dst} else old(names)
    {
      ok := src in names;
      if ok {
        names := names - {src} + {dst};
      }
    }

    /** `os.mkdir(p)`: raises `OSError` (`ok == false`) when `p` exists;
        a missing parent directory is not a failure here. */
    method MakeDir(p: string) returns (ok: bool)
      modifies this
      ensures ok == (p !in old(names))
      ensures names == old(names) + {p}
    {
      ok := p !in names;
      names := names + {p};
    }

    /** `shutil.copytree(src, dst)`: raises (`ok == false`) when `src` is
        missing or `dst` exists; otherwise `dst` exists afterwards. */
    method CopyTree(src: string, dst: string) returns (ok: bool)
      modifies this
      ensures ok == (src in old(names) && dst !in old(names))
      ensures names == if ok then old(names) + {dst} else old(names)
    {
      ok := src in names && dst !in names;
      if ok {
        names := names + {dst};
      }
    }
  }
}
