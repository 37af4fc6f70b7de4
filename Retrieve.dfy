/**
  The driver of Retrieve.py (`main`): for each of the eight `Nucleo` PDFs it
  locates the latest backup under the archive root and copies it into the
  destination folder, reporting what happened for each name. The archive root
  and destination folder (read from the environment in the source) are
  parameters, and so is the clock: each name's search reads the date when it
  starts, so there is one date per name. The printed messages are the
  `Report` values.
*/
module Retrieve {
  import opened Wrappers
  import opened Calendar
  import opened Paths
  import opened FileSys
  import opened Locator
  import opened Copier

  /** The letters of the eight files; there is no `Nucleo H`. */
  const Letters := "ABCDEFGI"

  /** `f"Nucleo {letter}.pdf"`. */
  function PdfName(letter: char): string {
    "Nucleo " + [letter] + ".pdf"
  }

  const PdfNames: seq<string> := seq(|Letters|, i requires 0 <= i < |Letters| => PdfName(Letters[i]))

  /**
    The names looked up: eight of them, in letter order, pairwise distinct,
    each a plain file name, and `Nucleo H.pdf` is not among them.
  */
  lemma PdfNamesFacts()
    ensures |PdfNames| == 8
    ensures PdfNames[0] == "Nucleo A.pdf" && PdfNames[7] == "Nucleo I.pdf"
    ensures forall i, j :: 0 <= i < j < |PdfNames| ==> PdfNames[i] != PdfNames[j]
    ensures forall i :: 0 <= i < |PdfNames| ==> PdfNames[i] != [] && Sep !in PdfNames[i]
    ensures PdfName('H') !in PdfNames
  {
    assert PdfName('H')[7] == 'H';
    forall i | 0 <= i < |PdfNames|
      ensures PdfNames[i][7] == Letters[i] != 'H' && Sep !in PdfNames[i]
    {
      var s := PdfNames[i];
      assert s == "Nucleo " + [Letters[i]] + ".pdf";
    }
  }

  /** What `main` prints for one name: nothing found, or what the copy of the found file did. */
  datatype Report =
    | NotFound(name: string)
    | Found(name: string, found: Path, outcome: CopyOutcome)

  /**
    What a report promises about the filesystem `(dirs, files)`: a found backup
    carries the name looked for; a copied one sits under that name in the
    destination folder with the backup's bytes; an already-present one exists
    there.
  */
  predicate Delivered(dirs: set<Path>, files: map<Path, Bytes>, dest: Path, rep: Report) {
    rep.Found? ==>
      && Basename(rep.found) == rep.name
      && (rep.outcome.Copied? ==>
            && rep.outcome.path == Join(dest, rep.name)
            && rep.outcome.path in files && rep.found in files
            && files[rep.outcome.path] == files[rep.found])
      && (rep.outcome == AlreadyPresent ==> Join(dest, rep.name) in dirs || Join(dest, rep.name) in files)
  }

  /** Later copies, which keep every file and folder, keep what earlier reports promised. */
  lemma DeliveredKept(dirs0: set<Path>, files0: map<Path, Bytes>, dirs1: set<Path>, files1: map<Path, Bytes>,
                      dest: Path, rep: Report)
    requires Delivered(dirs0, files0, dest, rep) && Extends(dirs0, files0, dirs1, files1)
    ensures Delivered(dirs1, files1, dest, rep)
  {
    if rep.Found? && rep.outcome.Copied? {
      assert files1[rep.outcome.path] == files0[rep.outcome.path];
      assert files1[rep.found] == files0[rep.found];
    }
  }

  /** The same for every report made so far. */
  lemma {:induction false} AllDeliveredKept(dirs0: set<Path>, files0: map<Path, Bytes>,
                                            dirs1: set<Path>, files1: map<Path, Bytes>, dest: Path, reports: seq<Report>)
    requires forall j :: 0 <= j < |reports| ==> Delivered(dirs0, files0, dest, reports[j])
    requires Extends(dirs0, files0, dirs1, files1)
    ensures forall j :: 0 <= j < |reports| ==> Delivered(dirs1, files1, dest, reports[j])
  {
    forall j | 0 <= j < |reports|
      ensures Delivered(dirs1, files1, dest, reports[j])
    {
      DeliveredKept(dirs0, files0, dirs1, files1, dest, reports[j]);
    }
  }

  /** The file a report's copy created, if any. */
  function CopiedBy(rep: Report): set<Path> {
    if rep.Found? && rep.outcome.Copied? then {rep.outcome.path} else {}
  }

  /** Every file the reports say was copied. */
  function CopiedPaths(reports: seq<Report>): set<Path>
    decreases |reports|
  {
    if reports == [] then {}
    else CopiedPaths(reports[..|reports| - 1]) + CopiedBy(reports[|reports| - 1])
  }

  /** `CopiedPaths` holds exactly the paths some report says were copied to. */
  lemma {:induction false} CopiedPathsExactly(reports: seq<Report>)
    ensures forall p :: p in CopiedPaths(reports) <==>
      exists j :: 0 <= j < |reports| && reports[j].Found? && reports[j].outcome == Copied(p)
    decreases |reports|
  {
    if reports != [] {
      var init := reports[..|reports| - 1];
      CopiedPathsExactly(init);
      assert forall j :: 0 <= j < |init| ==> init[j] == reports[j];
    }
  }

  /**
    One more step of the loop stays within the footprint of all its reports:
    at most the destination folder is added, and at most the file the new
    report says it copied.
  */
  lemma FootprintStep(dirs0: set<Path>, keys0: set<Path>, dirs1: set<Path>, keys1: set<Path>,
                      dirs2: set<Path>, keys2: set<Path>, dest: Path, reports: seq<Report>, rep: Report)
    requires dirs1 <= dirs0 + {dest} && keys1 <= keys0 + CopiedPaths(reports)
    requires dirs2 <= dirs1 + {dest} && keys2 <= keys1 + CopiedBy(rep)
    ensures dirs2 <= dirs0 + {dest} && keys2 <= keys0 + CopiedPaths(reports + [rep])
  {
    assert (reports + [rep])[..|reports|] == reports;
  }

  /** Appending the report for `names[i]` keeps the reports in the order of the names. */
  lemma NamesStep(names: seq<string>, reports: seq<Report>, rep: Report)
    requires |reports| < |names|
    requires forall j :: 0 <= j < |reports| ==> reports[j].name == names[j]
    requires rep.name == names[|reports|]
    ensures forall j :: 0 <= j < |reports| + 1 ==> (reports + [rep])[j].name == names[j]
  {
  }

  /** One pass of `main`'s loop: locate `name`, and copy it when found. */
  method RetrieveOne(fs: FileSystem, root: Path, dest: Path, name: string, today: Date) returns (rep: Report)
    requires Supported(today) && fs.Valid()
    modifies fs
    ensures fs.Valid() && rep.name == name
    ensures var hit := old(FirstHit(fs, root, name, Schedule(today)));
      && (hit.None? ==> rep == NotFound(name) && fs.dirs == old(fs.dirs) && fs.files == old(fs.files))
      && (hit.Some? ==>
            && rep == Found(name, hit.value, CopyResult(old(fs.dirs), old(fs.files), hit.value, dest))
            && fs.dirs == DirsAfterCopy(old(fs.dirs), old(fs.files), dest)
            && fs.files == FilesAfterCopy(old(fs.dirs), old(fs.files), hit.value, dest))
    ensures Extends(old(fs.dirs), old(fs.files), fs.dirs, fs.files)
    ensures fs.dirs <= old(fs.dirs) + {dest}
    ensures fs.files.Keys <= old(fs.files).Keys + CopiedBy(rep)
    ensures rep.Found? ==> old(fs.Exists(rep.found))
    ensures name != [] && Sep !in name ==> Delivered(fs.dirs, fs.files, dest, rep)
  {
    var latest := FindLatestPdf(fs, root, name, today);
    if latest.None? {
      return NotFound(name);
    }
    if name != [] && Sep !in name {
      FirstHitBasename(fs, root, name, Schedule(today));
      assert DestinationPath(latest.value, dest) == Join(dest, name);
    }
    var outcome := CopyFileToDestination(fs, latest.value, dest);
    rep := Found(name, latest.value, outcome);
  }

  /**
    The `for pdf_name in pdf_names` loop of `main`: every name in order, each
    located in the filesystem as the previous copies left it, on the date the
    clock shows when its search starts (`todays[i]` for `names[i]`). The files
    and folders that were there before are kept; the only folder that may
    appear is the destination and the only files that may appear are the
    copies the reports name; every report's promise holds of the final
    filesystem.
  */
  method RetrieveEach(fs: FileSystem, root: Path, dest: Path, names: seq<string>, todays: seq<Date>)
    returns (reports: seq<Report>)
    requires |todays| == |names|
    requires forall j :: 0 <= j < |names| ==> Supported(todays[j]) && names[j] != [] && Sep !in names[j]
    requires fs.Valid()
    modifies fs
    ensures fs.Valid()
    ensures |reports| == |names|
    ensures forall j :: 0 <= j < |reports| ==> reports[j].name == names[j]
    ensures Extends(old(fs.dirs), old(fs.files), fs.dirs, fs.files)
    ensures fs.dirs <= old(fs.dirs) + {dest}
    ensures fs.files.Keys <= old(fs.files).Keys + CopiedPaths(reports)
    ensures forall j :: 0 <= j < |reports| ==> Delivered(fs.dirs, fs.files, dest, reports[j])
  {
    reports := [];
    var i := 0;
    while i < |names|
      invariant 0 <= i <= |names| && |reports| == i
      invariant fs.Valid()
      invariant forall j :: 0 <= j < i ==> reports[j].name == names[j]
      invariant Extends(old(fs.dirs), old(fs.files), fs.dirs, fs.files)
      invariant fs.dirs <= old(fs.dirs) + {dest}
      invariant fs.files.Keys <= old(fs.files).Keys + CopiedPaths(reports)
      invariant forall j :: 0 <= j < i ==> Delivered(fs.dirs, fs.files, dest, reports[j])
    {
      ghost var dirs0 := fs.dirs;
      ghost var files0 := fs.files;
      var rep := RetrieveOne(fs, root, dest, names[i], todays[i]);
      AllDeliveredKept(dirs0, files0, fs.dirs, fs.files, dest, reports);
      ExtendsTrans(old(fs.dirs), old(fs.files), dirs0, files0, fs.dirs, fs.files);
      FootprintStep(old(fs.dirs), old(fs.files).Keys, dirs0, files0.Keys, fs.dirs, fs.files.Keys, dest, reports, rep);
      NamesStep(names, reports, rep);
      reports := reports + [rep];
      i := i + 1;
    }
  }

  /** `main`: the loop run over the eight names. */
  method RetrieveAll(fs: FileSystem, root: Path, dest: Path, todays: seq<Date>) returns (reports: seq<Report>)
    requires |todays| == |PdfNames|
    requires forall j :: 0 <= j < |todays| ==> Supported(todays[j])
    requires fs.Valid()
    modifies fs
    ensures fs.Valid()
    ensures |reports| == |PdfNames|
    ensures forall j :: 0 <= j < |reports| ==> reports[j].name == PdfNames[j]
    ensures Extends(old(fs.dirs), old(fs.files), fs.dirs, fs.files)
    ensures fs.dirs <= old(fs.dirs) + {dest}
    ensures forall p :: p in fs.files && p !in old(fs.files) ==>
      exists j :: 0 <= j < |reports| && reports[j].Found? && reports[j].outcome == Copied(p)
    ensures forall j :: 0 <= j < |reports| ==> Delivered(fs.dirs, fs.files, dest, reports[j])
  {
    PdfNamesFacts();
    reports := RetrieveEach(fs, root, dest, PdfNames, todays);
    CopiedPathsExactly(reports);
  }
}
