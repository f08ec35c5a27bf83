/**
 * `analyze_images`: the walk over a directory tree, the per-directory reset,
 * and which reports are emitted.  The walk itself is an input: the sequence of
 * directories in the order the walk yields them, each with its files in
 * listing order and, per file, what decoding it gave.
 */
module Analyze {
  import opened Wrappers
  import opened CountMaps
  import opened ImageScope
  import opened Report

  /** One directory as the walk yields it. */
  datatype Visit = Visit(path: string, files: seq<FileEntry>)

  /** What a run emits, in order.  A `Stats` report is printed, and when
      `saved` also written to `image_analysis.txt` in `directory`. */
  datatype Output =
    | Stats(directory: string, lines: seq<Line>, saved: bool)
    | SubdirCount(count: nat)

  /** The state of the walk: the current scope, the subdirectory counter and
      what has been emitted so far. */
  datatype Walker = Walker(scope: Scope, subdirs: nat, out: seq<Output>)

  /** One iteration of the walk loop: count and (per-subdirectory mode) reset
      for a directory other than the root, scan its files, and in
      per-subdirectory mode report the scope if it holds any image. */
  function VisitStep(w: Walker, directory: string, v: Visit, save: bool, perSubdir: bool): (r: Walker)
    requires Inv(w.scope)
    ensures Inv(r.scope)
  {
    var sub := v.path != directory;
    var start := if sub && perSubdir then Empty else w.scope;
    AddFilesInv(start, v.files);
    var s := AddFiles(start, v.files);
    InvPrintable(s);
    Walker(s, if sub then w.subdirs + 1 else w.subdirs,
           if perSubdir && s.total > 0 then w.out + [Stats(v.path, ReportLines(v.path, s), save)] else w.out)
  }

  function Walk(directory: string, visits: seq<Visit>, save: bool, perSubdir: bool): (w: Walker)
    ensures Inv(w.scope)
  {
    if visits == [] then Walker(Empty, 0, [])
    else VisitStep(Walk(directory, visits[..|visits| - 1], save, perSubdir), directory, visits[|visits| - 1], save, perSubdir)
  }

  /** Everything a run emits: the per-directory reports, or else one report
      for the whole tree followed by the number of subdirectories. */
  function AnalyzeRun(directory: string, visits: seq<Visit>, save: bool, perSubdir: bool): seq<Output> {
    var w := Walk(directory, visits, save, perSubdir);
    if perSubdir then w.out
    else
      InvPrintable(w.scope);
      w.out + [Stats(directory, ReportLines(directory, w.scope), save), SubdirCount(w.subdirs)]
  }

  /** The local state of `analyze_images`. */
  class Aggregator {
    var totalImages: nat
    var resolutions: CountMap<Size>
    var formats: CountMap<string>
    var modes: CountMap<string>
    var smallest: Option<Size>
    var largest: Option<Size>
    var subdirs: nat

    function Current(): Scope
      reads this
    {
      Scope(totalImages, resolutions, formats, modes, smallest, largest)
    }

    constructor ()
      ensures Current() == Empty && subdirs == 0
    {
      totalImages := 0;
      resolutions, formats, modes := [], [], [];
      smallest, largest := None, None;
      subdirs := 0;
    }

    /** The head of the walk loop: a directory other than the root is counted
        and, in per-subdirectory mode, every counter is cleared. */
    method EnterDirectory(isRoot: bool, perSubdir: bool)
      modifies this
      ensures subdirs == if isRoot then old(subdirs) else old(subdirs) + 1
      ensures Current() == if !isRoot && perSubdir then Empty else old(Current())
    {
      if !isRoot {
        subdirs := subdirs + 1;
        if perSubdir {
          totalImages := 0;
          resolutions, formats, modes := [], [], [];
          smallest, largest := None, None;
        }
      }
    }

    /** The file loop of one directory. */
    method ScanFiles(files: seq<FileEntry>)
      modifies this
      ensures Current() == AddFiles(old(Current()), files)
      ensures subdirs == old(subdirs)
    {
      ghost var start := Current();
      for j := 0 to |files|
        invariant Current() == AddFiles(start, files[..j])
        invariant subdirs == old(subdirs)
      {
        assert files[..j + 1][..j] == files[..j];
        ScanFile(files[j]);
      }
      assert files[..|files|] == files;
    }

    /** The body of the file loop. */
    method ScanFile(f: FileEntry)
      modifies this
      ensures Current() == AddFile(old(Current()), f)
      ensures subdirs == old(subdirs)
    {
      if IsImageName(f.name) {
        totalImages := totalImages + 1;
        match f.info {
          case None =>
          case Some(info) =>
            resolutions := Bump(resolutions, info.size);
            formats := Bump(formats, info.format);
            modes := Bump(modes, info.mode);
            if smallest.None? || SizeLess(info.size, smallest.value) {
              smallest := Some(info.size);
            }
            if largest.None? || SizeLess(largest.value, info.size) {
              largest := Some(info.size);
            }
        }
      }
    }
  }

  lemma WalkSnoc(directory: string, visits: seq<Visit>, i: nat, save: bool, perSubdir: bool)
    requires i < |visits|
    ensures Walk(directory, visits[..i + 1], save, perSubdir) ==
            VisitStep(Walk(directory, visits[..i], save, perSubdir), directory, visits[i], save, perSubdir)
  {
    assert visits[..i + 1][..i] == visits[..i];
  }

  /** One run of `analyze_images`. */
  method AnalyzeImages(directory: string, visits: seq<Visit>, save: bool, perSubdir: bool) returns (out: seq<Output>)
    ensures out == AnalyzeRun(directory, visits, save, perSubdir)
  {
    var agg := new Aggregator();
    out := [];
    for i := 0 to |visits|
      invariant agg.Current() == Walk(directory, visits[..i], save, perSubdir).scope
      invariant agg.subdirs == Walk(directory, visits[..i], save, perSubdir).subdirs
      invariant out == Walk(directory, visits[..i], save, perSubdir).out
    {
      var v := visits[i];
      WalkSnoc(directory, visits, i, save, perSubdir);
      agg.EnterDirectory(v.path == directory, perSubdir);
      agg.ScanFiles(v.files);
      if perSubdir && agg.totalImages > 0 {
        InvPrintable(agg.Current());
        var lines := PrintResults(v.path, agg.Current());
        out := out + [Stats(v.path, lines, save)];
      }
    }
    assert visits[..|visits|] == visits;
    if !perSubdir {
      InvPrintable(agg.Current());
      var lines := PrintResults(directory, agg.Current());
      out := out + [Stats(directory, lines, save), SubdirCount(agg.subdirs)];
    }
  }

  /** The files of every visited directory, in walk order. */
  function AllFiles(visits: seq<Visit>): seq<FileEntry> {
    if visits == [] then [] else AllFiles(visits[..|visits| - 1]) + visits[|visits| - 1].files
  }

  /** The number of visited directories whose path is not the root's. */
  function NonRootCount(directory: string, visits: seq<Visit>): nat {
    if visits == [] then 0
    else NonRootCount(directory, visits[..|visits| - 1]) + (if visits[|visits| - 1].path != directory then 1 else 0)
  }

  /** The shape of a walk: the root comes first and no other directory has
      the root's path (an empty walk is the walk of a missing directory). */
  predicate IsWalk(directory: string, visits: seq<Visit>) {
    forall i :: 0 <= i < |visits| ==> (visits[i].path == directory <==> i == 0)
  }

  /** Whole-tree mode never resets: the scope is the scan of every file of the
      walk, and the subdirectory counter counts the non-root visits. */
  lemma {:induction false} WalkWholeTree(directory: string, visits: seq<Visit>, save: bool)
    ensures Walk(directory, visits, save, false) ==
            Walker(AddFiles(Empty, AllFiles(visits)), NonRootCount(directory, visits), [])
  {
    if visits != [] {
      var init := visits[..|visits| - 1];
      WalkWholeTree(directory, init, save);
      AddFilesAppend(Empty, AllFiles(init), visits[|visits| - 1].files);
    }
  }

  /** Whole-tree mode emits exactly one report, labelled with the root, of all
      the files of the tree, followed by the subdirectory count. */
  lemma WholeTreeOutput(directory: string, visits: seq<Visit>, save: bool)
    ensures var s := AddFiles(Empty, AllFiles(visits));
      Printable(s) &&
      AnalyzeRun(directory, visits, save, false) ==
        [Stats(directory, ReportLines(directory, s), save), SubdirCount(NonRootCount(directory, visits))]
  {
    WalkWholeTree(directory, visits, save);
    AddFilesInv(Empty, AllFiles(visits));
    InvPrintable(AddFiles(Empty, AllFiles(visits)));
  }

  /** On a walk, the subdirectory count is the number of visits after the root. */
  lemma {:induction false} SubdirsOfWalk(directory: string, visits: seq<Visit>)
    requires IsWalk(directory, visits)
    ensures NonRootCount(directory, visits) == if visits == [] then 0 else |visits| - 1
  {
    if visits != [] {
      var init := visits[..|visits| - 1];
      assert IsWalk(directory, init) by {
        forall i | 0 <= i < |init| ensures init[i].path == directory <==> i == 0 {
          assert init[i] == visits[i];
        }
      }
      SubdirsOfWalk(directory, init);
    }
  }

  /** A whole-tree run over a tree with no image file reports zero images with
      every section empty and no percentage computed. */
  lemma ZeroImageWholeTree(directory: string, visits: seq<Visit>, save: bool)
    requires ImageFiles(AllFiles(visits)) == []
    ensures AnalyzeRun(directory, visits, save, false) ==
      [Stats(directory, [DirectoryLine(directory), TotalLine(0), ResolutionHeader,
                         SmallestLine(None), LargestLine(None), FormatHeader, ModeHeader], save),
       SubdirCount(NonRootCount(directory, visits))]
  {
    var files := AllFiles(visits);
    WholeTreeOutput(directory, visits, save);
    ScanCounts(files);
    ScanSmallest(files);
    ScanLargest(files);
    DecodedBound(files);
    assert Decoded(files) == [];
    var s := AddFiles(Empty, files);
    assert s.resolutions == [] && s.formats == [] && s.modes == [] by {
      AddFilesResolutions(Empty, files);
      AddFilesFormats(Empty, files);
      AddFilesModes(Empty, files);
    }
    assert s.smallest == None && s.largest == None by {
      assert Sizes(Decoded(files)) == [];
    }
    assert s.total == 0 by {
      AddFilesTotal(Empty, files);
    }
    assert ResolutionLines([], 0) == [] && FormatLines([], 0) == [] && ModeLines([], 0) == [];
    assert ReportLines(directory, s) == [DirectoryLine(directory), TotalLine(0), ResolutionHeader,
                                         SmallestLine(None), LargestLine(None), FormatHeader, ModeHeader];
  }

  /** The reports of per-subdirectory mode as they should be: one per visited
      directory that holds an image file, in walk order, each of that
      directory's files alone. */
  function PerDirReports(visits: seq<Visit>, save: bool): seq<Output> {
    if visits == [] then []
    else
      var v := visits[|visits| - 1];
      var s := AddFiles(Empty, v.files);
      AddFilesInv(Empty, v.files);
      InvPrintable(s);
      PerDirReports(visits[..|visits| - 1], save) +
      (if |ImageFiles(v.files)| > 0 then [Stats(v.path, ReportLines(v.path, s), save)] else [])
  }

  lemma {:induction false} WalkPerSubdir(directory: string, visits: seq<Visit>, save: bool)
    requires IsWalk(directory, visits)
    ensures Walk(directory, visits, save, true).out == PerDirReports(visits, save)
    ensures visits != [] ==>
      Walk(directory, visits, save, true).scope == AddFiles(Empty, visits[|visits| - 1].files)
  {
    if visits != [] {
      var init := visits[..|visits| - 1];
      assert IsWalk(directory, init) by {
        forall i | 0 <= i < |init| ensures init[i].path == directory <==> i == 0 {
          assert init[i] == visits[i];
        }
      }
      WalkPerSubdir(directory, init, save);
      AddFilesTotal(Empty, visits[|visits| - 1].files);
    }
  }

  /** Per-subdirectory mode, on a walk: a report is emitted for a directory
      (the root included) exactly when it holds an image file, and it reflects
      that directory's files only; nothing else is emitted. */
  lemma PerSubdirOutput(directory: string, visits: seq<Visit>, save: bool)
    requires IsWalk(directory, visits)
    ensures AnalyzeRun(directory, visits, save, true) == PerDirReports(visits, save)
  {
    WalkPerSubdir(directory, visits, save);
  }
}
