/**
  The part of the operating system's filesystem that Retrieve.py touches:
  which paths exist as directories, which as regular files and what bytes
  each file holds. Paths are compared as strings; parent directories are not
  tracked.
*/
module FileSys {
  import opened Paths

  type Byte = bv8
  type Bytes = seq<Byte>

  class FileSystem {
    var dirs: set<Path>
    var files: map<Path, Bytes>

    /** No path is both a directory and a regular file. */
    predicate Valid()
      reads this
    {
      dirs !! files.Keys
    }

    constructor (dirs0: set<Path>, files0: map<Path, Bytes>)
      requires dirs0 !! files0.Keys
      ensures Valid() && dirs == dirs0 && files == files0
    {
      dirs := dirs0;
      files := files0;
    }

    /**
      `os.path.exists(p)`: true for directories and regular files alike; in a
      valid filesystem an existing path is exactly one of the two.
    */
    predicate Exists(p: Path): (r: bool)
      reads this
      ensures Valid() ==> (r <==> (p in dirs) != (p in files))
    {
      p in dirs || p in files
    }

    /** `os.makedirs(p)` on a path that does not exist yet. */
    method MakeDirs(p: Path)
      requires Valid() && !Exists(p)
      modifies this
      ensures Valid()
      ensures dirs == old(dirs) + {p} && files == old(files)
    {
      dirs := dirs + {p};
    }

    /**
      `shutil.copy2(src, dst)` onto a path that is not a directory. It fails
      (Python raises) unless `src` is a regular file; on success `dst` holds
      the bytes of `src`.
    */
    method Copy2(src: Path, dst: Path) returns (ok: bool)
      requires Valid() && dst !in dirs
      modifies this
      ensures Valid() && dirs == old(dirs)
      ensures ok <==> src in old(files)
      ensures files == if ok then old(files)[dst := old(files)[src]] else old(files)
    {
      ok := src in files;
      if ok {
        files := files[dst := files[src]];
      }
    }
  }

  /** The state `(dirs1, files1)` keeps every directory and every file of `(dirs0, files0)`, with the same bytes. */
  predicate Extends(dirs0: set<Path>, files0: map<Path, Bytes>, dirs1: set<Path>, files1: map<Path, Bytes>) {
    && dirs0 <= dirs1
    && (forall p :: p in files0 ==> p in files1 && files1[p] == files0[p])
  }

  /** Keeping everything is transitive. */
  lemma ExtendsTrans(dirs0: set<Path>, files0: map<Path, Bytes>, dirs1: set<Path>, files1: map<Path, Bytes>,
                     dirs2: set<Path>, files2: map<Path, Bytes>)
    requires Extends(dirs0, files0, dirs1, files1) && Extends(dirs1, files1, dirs2, files2)
    ensures Extends(dirs0, files0, dirs2, files2)
  {
  }
}
