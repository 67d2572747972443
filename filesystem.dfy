/** A flat directory on a POSIX file system, as both scripts use it: the set
    of the file names in it. */
module FileSystem {
  import opened Collections

  class Directory {
    var names: set<string>
    /** The renames the operating system refuses (permissions, invalid target
        names, ...); which ones is outside the scripts' control. */
    const refuses: (string, string) -> bool

    constructor (names: set<string>, refuses: (string, string) -> bool)
      ensures this.names == names && this.refuses == refuses
    {
      this.names := names;
      this.refuses := refuses;
    }

    /** `os.path.exists` for a name in this directory. */
    predicate Exists(name: string)
      reads this
    {
      name in names
    }

    /** `os.listdir`: every name once, in an order the system chooses. */
    method Listing() returns (r: seq<string>)
      ensures Distinct(r)
      ensures forall n :: n in r <==> n in names
    {
      r := [];
      var rest := names;
      while rest != {}
        invariant rest <= names
        invariant Distinct(r)
        invariant forall n :: n in r <==> n in names && n !in rest
        decreases |rest|
      {
        var n :| n in rest;
        r := r + [n];
        rest := rest - {n};
      }
    }

    /** `os.rename` / `Path.rename` on POSIX: fails when the source is missing or
        the system refuses; otherwise the source name is gone and the target
        name present, replacing any file that had it. */
    method Rename(src: string, dst: string) returns (ok: bool)
      modifies this
      ensures ok <==> src in old(names) && !refuses(src, dst)
      ensures names == if ok then old(names) - {src} + {dst} else old(names)
    {
      ok := src in names && !refuses(src, dst);
      if ok {
        names := names - {src} + {dst};
      }
    }

    /** A file written under `name`. */
    method Create(name: string)
      modifies this
      ensures names == old(names) + {name}
    {
      names := names + {name};
    }
  }
}
