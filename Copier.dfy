/**
  `copy_file_to_destination` of Retrieve.py: create the destination folder
  when it is missing, then copy the file under its own base name unless
  something already sits at that path. A file already in the destination is
  never overwritten.

  The outcome and the new filesystem state are first given as functions of
  the state before the call (`DirsAfterCopy`, `CopyResult`,
  `FilesAfterCopy`); the method is proved to follow them, and the
  properties of a copy are proved about the functions.
*/
module Copier {
  import opened Paths
  import opened FileSys

  /**
    What the copy reports. `Copied(path)` is the Python function returning
    the destination path; `AlreadyPresent` is it returning None;
    `CopyFailed` is `shutil.copy2` raising, which the caller catches.
  */
  datatype CopyOutcome = Copied(path: Path) | AlreadyPresent | CopyFailed

  /**
    `os.path.join(destination_folder, os.path.basename(source_path))`: the
    copy keeps the source's base name.
  */
  function DestinationPath(source: Path, folder: Path): (r: Path)
    ensures Basename(source) != [] ==> Basename(r) == Basename(source)
  {
    var name := Basename(source);
    if name != [] then
      BasenameOfJoin(folder, name);
      Join(folder, name)
    else
      Join(folder, name)
  }

  /**
    The directories after `os.makedirs`, which runs only when the folder does
    not exist: afterwards the folder exists, and at most it was added.
  */
  function DirsAfterCopy(dirs: set<Path>, files: map<Path, Bytes>, folder: Path): (r: set<Path>)
    ensures dirs <= r <= dirs + {folder}
    ensures folder in r || folder in files
    ensures folder in dirs || folder in files ==> r == dirs
  {
    if folder in dirs || folder in files then dirs else dirs + {folder}
  }

  /**
    The outcome of the copy from the state before it. It reports the file
    already present exactly when the destination path exists once the folder
    does. Otherwise `copy2` fails when the source is not a regular file or the
    destination folder is a regular file, and succeeds onto a path that did
    not exist.
  */
  function CopyResult(dirs: set<Path>, files: map<Path, Bytes>, source: Path, folder: Path): (r: CopyOutcome)
    ensures r == AlreadyPresent <==>
      DestinationPath(source, folder) in DirsAfterCopy(dirs, files, folder) + files.Keys
    ensures r == CopyFailed <==>
      && DestinationPath(source, folder) !in DirsAfterCopy(dirs, files, folder) + files.Keys
      && (folder in files || source !in files)
    ensures r.Copied? ==>
      && r.path == DestinationPath(source, folder)
      && r.path !in dirs && r.path !in files
      && source in files && folder !in files
  {
    var dest := DestinationPath(source, folder);
    if dest in DirsAfterCopy(dirs, files, folder) || dest in files then AlreadyPresent
    else if folder in files || source !in files then CopyFailed
    else Copied(dest)
  }

  /**
    The regular files after the copy. Every file already present keeps its
    bytes: the copy never overwrites. The only file added is the copied one,
    and it holds the source's bytes.
  */
  function FilesAfterCopy(dirs: set<Path>, files: map<Path, Bytes>, source: Path, folder: Path): (r: map<Path, Bytes>)
    ensures forall p :: p in files ==> p in r && r[p] == files[p]
    ensures forall p :: p in r ==> p in files || CopyResult(dirs, files, source, folder) == Copied(p)
    ensures CopyResult(dirs, files, source, folder).Copied? ==>
      var c := CopyResult(dirs, files, source, folder).path;
      c in r && r[c] == files[source]
  {
    match CopyResult(dirs, files, source, folder)
    case Copied(p) => files[p := files[source]]
    case _ => files
  }

  /**
    Running the copy a second time changes nothing: it reports AlreadyPresent
    after a copy that succeeded or found the file, and fails again after one
    that failed.
  */
  lemma CopyIdempotent(dirs: set<Path>, files: map<Path, Bytes>, source: Path, folder: Path)
    ensures var dirs1 := DirsAfterCopy(dirs, files, folder);
      var files1 := FilesAfterCopy(dirs, files, source, folder);
      var first := CopyResult(dirs, files, source, folder);
      && CopyResult(dirs1, files1, source, folder) == (if first == CopyFailed then CopyFailed else AlreadyPresent)
      && DirsAfterCopy(dirs1, files1, folder) == dirs1
      && FilesAfterCopy(dirs1, files1, source, folder) == files1
  {
  }

  /** `copy_file_to_destination(source_path, destination_folder)`. */
  method CopyFileToDestination(fs: FileSystem, source: Path, destFolder: Path) returns (r: CopyOutcome)
    requires fs.Valid()
    modifies fs
    ensures fs.Valid()
    ensures r == CopyResult(old(fs.dirs), old(fs.files), source, destFolder)
    ensures fs.dirs == DirsAfterCopy(old(fs.dirs), old(fs.files), destFolder)
    ensures fs.files == FilesAfterCopy(old(fs.dirs), old(fs.files), source, destFolder)
  {
    if !fs.Exists(destFolder) {
      fs.MakeDirs(destFolder);
    }
    var dest := DestinationPath(source, destFolder);
    if fs.Exists(dest) {
      return AlreadyPresent;
    }
    if destFolder in fs.files {
      // copy2 into a folder that is a regular file raises NotADirectoryError
      return CopyFailed;
    }
    var ok := fs.Copy2(source, dest);
    r := if ok then Copied(dest) else CopyFailed;
  }
}
