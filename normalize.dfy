/**
 * `main` of the normalizer: for each source directory in the given order,
 * every listed file whose name ends in `.png`, `.jpg` or `.jpeg` (case
 * matters) is decoded, resized or cropped to the target size, and written into
 * the flat output directory as `<source dir name>_<file name>`, replacing any
 * file of that name.  A file that does not decode stops the run.
 */
module Normalize {
  import opened Wrappers
  import opened Crop
  import ImageScope

  /** A listed file; `image` is `None` when `cv2.imread` returned `None`,
      after which reading its shape raises and the run stops. */
  datatype SourceFile = SourceFile(name: string, image: Option<Image>)

  /** A source directory with its listing, in listing order. */
  datatype SourceDir = SourceDir(path: string, files: seq<SourceFile>)

  /** The output directory, by file name, and the file whose decode stopped
      the run, if any. */
  datatype Run = Run(written: map<string, Image>, failed: Option<string>)

  /** The extension filter of the normalizer: case-sensitive. */
  predicate IsSourceImageName(name: string) {
    ImageScope.EndsWith(name, ".png") || ImageScope.EndsWith(name, ".jpg") || ImageScope.EndsWith(name, ".jpeg")
  }

  /** `os.path.normpath`, reduced to: the empty path is `.`, and trailing
      separators are dropped (a lone `/` stays). */
  function NormPath(p: string): string {
    if p == "" then "."
    else if |p| > 1 && p[|p| - 1] == '/' then NormPath(p[..|p| - 1])
    else p
  }

  /** `os.path.basename`: what follows the last separator. */
  function BaseName(p: string): string {
    if p == "" || p[|p| - 1] == '/' then ""
    else BaseName(p[..|p| - 1]) + [p[|p| - 1]]
  }

  /** `parent_dir`: the name the output files of a source directory carry. */
  function SourceDirName(path: string): string {
    BaseName(NormPath(path))
  }

  /** `output_filename` */
  function OutputName(dirName: string, fileName: string): string {
    dirName + "_" + fileName
  }

  /** One write the run attempts: the file to decode, the name it is written
      under, and what decoding gave. */
  datatype Job = Job(source: string, output: string, image: Option<Image>)

  /** The writes a source directory asks for, in listing order. */
  function DirJobs(dirName: string, files: seq<SourceFile>): seq<Job> {
    if files == [] then []
    else
      var f := files[|files| - 1];
      DirJobs(dirName, files[..|files| - 1]) +
      (if IsSourceImageName(f.name) then [Job(f.name, OutputName(dirName, f.name), f.image)] else [])
  }

  /** The writes a source directory asks for, under the directory's name. */
  function JobsOf(d: SourceDir): seq<Job> {
    DirJobs(SourceDirName(d.path), d.files)
  }

  /** The writes of the whole run, directory after directory. */
  function Jobs(dirs: seq<SourceDir>): seq<Job> {
    if dirs == [] then [] else Jobs(dirs[..|dirs| - 1]) + JobsOf(dirs[|dirs| - 1])
  }

  /** One job: nothing after a failure; a failed decode stops the run; else the
      converted image replaces whatever the output directory held under that
      name. */
  function JobStep(r: Run, j: Job, tw: int, th: int, resize: Resizer): Run {
    if r.failed.Some? then r
    else match j.image
      case None => Run(r.written, Some(j.source))
      case Some(img) => Run(r.written[j.output := ResizeOrCrop(img, tw, th, resize)], None)
  }

  function Perform(r: Run, jobs: seq<Job>, tw: int, th: int, resize: Resizer): Run {
    if jobs == [] then r
    else JobStep(Perform(r, jobs[..|jobs| - 1], tw, th, resize), jobs[|jobs| - 1], tw, th, resize)
  }

  /** A run over `dirs` that finds `existing` in the output directory. */
  function Normalized(existing: map<string, Image>, dirs: seq<SourceDir>, tw: int, th: int, resize: Resizer): Run {
    Perform(Run(existing, None), Jobs(dirs), tw, th, resize)
  }

  /** The nested loop of `main`, directory by directory. */
  method NormalizeDirs(existing: map<string, Image>, dirs: seq<SourceDir>, tw: int, th: int, resize: Resizer)
    returns (written: map<string, Image>, failed: Option<string>)
    ensures Run(written, failed) == Normalized(existing, dirs, tw, th, resize)
  {
    written, failed := existing, None;
    for i := 0 to |dirs|
      invariant failed == None
      invariant Run(written, None) == Perform(Run(existing, None), Jobs(dirs[..i]), tw, th, resize)
    {
      written, failed := NormalizeDir(written, SourceDirName(dirs[i].path), dirs[i].files, tw, th, resize);
      JobsSnoc(dirs, i);
      PerformAppend(Run(existing, None), Jobs(dirs[..i]), JobsOf(dirs[i]), tw, th, resize);
      if failed.Some? {
        StopsAfterFailure(existing, dirs, i + 1, tw, th, resize);
        return;
      }
    }
    assert dirs[..|dirs|] == dirs;
  }

  /** The inner loop of `main`: the listed files of one directory, in order;
      `dirName` is the directory's name. */
  method NormalizeDir(written0: map<string, Image>, dirName: string, files: seq<SourceFile>, tw: int, th: int, resize: Resizer)
    returns (written: map<string, Image>, failed: Option<string>)
    ensures Run(written, failed) == Perform(Run(written0, None), DirJobs(dirName, files), tw, th, resize)
  {
    written, failed := written0, None;
    for k := 0 to |files|
      invariant failed == None
      invariant Run(written, None) == Perform(Run(written0, None), DirJobs(dirName, files[..k]), tw, th, resize)
    {
      var f := files[k];
      DirJobsSnoc(dirName, files, k);
      if IsSourceImageName(f.name) {
        var job := Job(f.name, OutputName(dirName, f.name), f.image);
        PerformSnoc(Run(written0, None), DirJobs(dirName, files[..k]), job, tw, th, resize);
        if f.image.None? {
          failed := Some(f.name);
          DirStopsAfterFailure(written0, dirName, files, k + 1, tw, th, resize);
          return;
        }
        written := written[job.output := ResizeOrCrop(f.image.value, tw, th, resize)];
      } else {
        assert DirJobs(dirName, files[..k]) + [] == DirJobs(dirName, files[..k]);
      }
    }
    assert files[..|files|] == files;
  }

  lemma DirJobsSnoc(dirName: string, files: seq<SourceFile>, k: nat)
    requires k < |files|
    ensures DirJobs(dirName, files[..k + 1]) == DirJobs(dirName, files[..k]) +
      (if IsSourceImageName(files[k].name) then [Job(files[k].name, OutputName(dirName, files[k].name), files[k].image)] else [])
  {
    assert files[..k + 1][..k] == files[..k];
  }

  lemma JobsSnoc(dirs: seq<SourceDir>, i: nat)
    requires i < |dirs|
    ensures Jobs(dirs[..i + 1]) == Jobs(dirs[..i]) + JobsOf(dirs[i])
  {
    assert dirs[..i + 1][..i] == dirs[..i];
  }

  lemma PerformSnoc(r: Run, jobs: seq<Job>, j: Job, tw: int, th: int, resize: Resizer)
    ensures Perform(r, jobs + [j], tw, th, resize) == JobStep(Perform(r, jobs, tw, th, resize), j, tw, th, resize)
  {
    assert (jobs + [j])[..|jobs|] == jobs;
  }

  lemma {:induction false} PerformAppend(r: Run, a: seq<Job>, b: seq<Job>, tw: int, th: int, resize: Resizer)
    ensures Perform(r, a + b, tw, th, resize) == Perform(Perform(r, a, tw, th, resize), b, tw, th, resize)
  {
    if b == [] {
      assert a + b == a;
    } else {
      var ab := a + b;
      assert ab[..|ab| - 1] == a + b[..|b| - 1];
      assert ab[|ab| - 1] == b[|b| - 1];
      PerformAppend(r, a, b[..|b| - 1], tw, th, resize);
    }
  }

  /** Once a decode has failed, nothing else happens. */
  lemma {:induction false} FailureIsFinal(r: Run, jobs: seq<Job>, tw: int, th: int, resize: Resizer)
    requires r.failed.Some?
    ensures Perform(r, jobs, tw, th, resize) == r
  {
    if jobs != [] {
      FailureIsFinal(r, jobs[..|jobs| - 1], tw, th, resize);
    }
  }

  lemma JobsOfLast(dirs: seq<SourceDir>, d: SourceDir)
    ensures Jobs(dirs + [d]) == Jobs(dirs) + JobsOf(d)
  {
    assert (dirs + [d])[..|dirs|] == dirs;
  }

  lemma {:induction false} JobsAppend(a: seq<SourceDir>, b: seq<SourceDir>)
    ensures Jobs(a + b) == Jobs(a) + Jobs(b)
  {
    if b == [] {
      assert a + b == a;
    } else {
      var b', d := b[..|b| - 1], b[|b| - 1];
      assert b == b' + [d];
      assert a + b == (a + b') + [d];
      JobsAppend(a, b');
      JobsOfLast(a + b', d);
      JobsOfLast(b', d);
    }
  }

  lemma {:induction false} DirJobsAppend(dirName: string, a: seq<SourceFile>, b: seq<SourceFile>)
    ensures DirJobs(dirName, a + b) == DirJobs(dirName, a) + DirJobs(dirName, b)
  {
    if b == [] {
      assert a + b == a;
    } else {
      var ab := a + b;
      assert ab[..|ab| - 1] == a + b[..|b| - 1];
      assert ab[|ab| - 1] == b[|b| - 1];
      DirJobsAppend(dirName, a, b[..|b| - 1]);
    }
  }

  /** A failure among the first `k` files of a directory is the outcome of
      the whole directory. */
  lemma DirStopsAfterFailure(w0: map<string, Image>, dirName: string, files: seq<SourceFile>, k: nat,
                             tw: int, th: int, resize: Resizer)
    requires k <= |files|
    requires Perform(Run(w0, None), DirJobs(dirName, files[..k]), tw, th, resize).failed.Some?
    ensures Perform(Run(w0, None), DirJobs(dirName, files), tw, th, resize) ==
            Perform(Run(w0, None), DirJobs(dirName, files[..k]), tw, th, resize)
  {
    assert files == files[..k] + files[k..];
    DirJobsAppend(dirName, files[..k], files[k..]);
    PerformAppend(Run(w0, None), DirJobs(dirName, files[..k]), DirJobs(dirName, files[k..]), tw, th, resize);
    FailureIsFinal(Perform(Run(w0, None), DirJobs(dirName, files[..k]), tw, th, resize),
                   DirJobs(dirName, files[k..]), tw, th, resize);
  }

  /** A failure within the first `i` directories is the outcome of the run. */
  lemma StopsAfterFailure(existing: map<string, Image>, dirs: seq<SourceDir>, i: nat,
                          tw: int, th: int, resize: Resizer)
    requires i <= |dirs|
    requires Perform(Run(existing, None), Jobs(dirs[..i]), tw, th, resize).failed.Some?
    ensures Normalized(existing, dirs, tw, th, resize) ==
            Perform(Run(existing, None), Jobs(dirs[..i]), tw, th, resize)
  {
    assert dirs == dirs[..i] + dirs[i..];
    JobsAppend(dirs[..i], dirs[i..]);
    PerformAppend(Run(existing, None), Jobs(dirs[..i]), Jobs(dirs[i..]), tw, th, resize);
    FailureIsFinal(Perform(Run(existing, None), Jobs(dirs[..i]), tw, th, resize), Jobs(dirs[i..]), tw, th, resize);
  }

  /** The names a list of jobs writes. */
  function Outputs(jobs: seq<Job>): set<string> {
    set j | 0 <= j < |jobs| :: jobs[j].output
  }

  /** A run in which every file decodes does not fail. */
  lemma {:induction false} AllDecodeNoFailure(w0: map<string, Image>, jobs: seq<Job>, tw: int, th: int, resize: Resizer)
    requires forall j :: 0 <= j < |jobs| ==> jobs[j].image.Some?
    ensures Perform(Run(w0, None), jobs, tw, th, resize).failed == None
  {
    if jobs != [] {
      AllDecodeNoFailure(w0, jobs[..|jobs| - 1], tw, th, resize);
    }
  }

  /** In a run in which every file decodes, the output directory ends up
      holding the names it held plus every name written. */
  lemma {:induction false} AllDecodeKeys(w0: map<string, Image>, jobs: seq<Job>, tw: int, th: int, resize: Resizer)
    requires forall j :: 0 <= j < |jobs| ==> jobs[j].image.Some?
    ensures Perform(Run(w0, None), jobs, tw, th, resize).written.Keys == w0.Keys + Outputs(jobs)
  {
    if jobs != [] {
      var n := |jobs| - 1;
      var init := jobs[..n];
      AllDecodeKeys(w0, init, tw, th, resize);
      AllDecodeNoFailure(w0, init, tw, th, resize);
      assert Outputs(jobs) == Outputs(init) + {jobs[n].output} by {
        assert forall j :: 0 <= j < n ==> init[j] == jobs[j];
      }
    }
  }

  /** In a run in which every file decodes, a name holds what the last job
      writing it wrote: a later write replaces an earlier one. */
  lemma {:induction false} LastWriteWins(w0: map<string, Image>, jobs: seq<Job>, i: nat, tw: int, th: int, resize: Resizer)
    requires forall j :: 0 <= j < |jobs| ==> jobs[j].image.Some?
    requires i < |jobs|
    requires forall j :: i < j < |jobs| ==> jobs[j].output != jobs[i].output
    ensures var r := Perform(Run(w0, None), jobs, tw, th, resize);
      jobs[i].output in r.written &&
      r.written[jobs[i].output] == ResizeOrCrop(jobs[i].image.value, tw, th, resize)
  {
    var n := |jobs| - 1;
    var init := jobs[..n];
    AllDecodeNoFailure(w0, init, tw, th, resize);
    if i < n {
      assert init[i] == jobs[i];
      assert jobs[n].output != jobs[i].output;
      forall j | i < j < n ensures init[j].output != init[i].output {
        assert init[j] == jobs[j];
      }
      LastWriteWins(w0, init, i, tw, th, resize);
    }
  }

  /** A name no job writes keeps its content, whether or not the run fails. */
  lemma {:induction false} UnwrittenUnchanged(w0: map<string, Image>, jobs: seq<Job>, k: string, tw: int, th: int, resize: Resizer)
    requires k in w0 && k !in Outputs(jobs)
    ensures var r := Perform(Run(w0, None), jobs, tw, th, resize);
      k in r.written && r.written[k] == w0[k]
  {
    if jobs != [] {
      var n := |jobs| - 1;
      var init := jobs[..n];
      assert Outputs(init) <= Outputs(jobs) by {
        assert forall j :: 0 <= j < n ==> init[j] == jobs[j];
      }
      assert jobs[n].output in Outputs(jobs);
      UnwrittenUnchanged(w0, init, k, tw, th, resize);
    }
  }

  /** The first file that does not decode stops the run: the output directory
      keeps exactly what the jobs before it wrote, and the run names that file. */
  lemma FirstFailure(w0: map<string, Image>, jobs: seq<Job>, i: nat, tw: int, th: int, resize: Resizer)
    requires i < |jobs| && jobs[i].image.None?
    requires forall j :: 0 <= j < i ==> jobs[j].image.Some?
    ensures Perform(Run(w0, None), jobs, tw, th, resize) ==
            Run(Perform(Run(w0, None), jobs[..i], tw, th, resize).written, Some(jobs[i].source))
  {
    AllDecodeNoFailure(w0, jobs[..i], tw, th, resize);
    assert jobs == jobs[..i] + [jobs[i]] + jobs[i + 1..];
    PerformAppend(Run(w0, None), jobs[..i] + [jobs[i]], jobs[i + 1..], tw, th, resize);
    PerformAppend(Run(w0, None), jobs[..i], [jobs[i]], tw, th, resize);
    var stopped := Perform(Run(w0, None), jobs[..i] + [jobs[i]], tw, th, resize);
    FailureIsFinal(stopped, jobs[i + 1..], tw, th, resize);
  }

  /** With a real target size and an interpolation that keeps its promise,
      every entry of the output directory is either left as it was or has
      exactly the target size. */
  lemma {:induction false} OutputsHaveTargetSize(w0: map<string, Image>, jobs: seq<Job>, tw: int, th: int, resize: Resizer)
    requires ResizesExactly(resize) && tw >= 1 && th >= 1
    requires forall j :: 0 <= j < |jobs| && jobs[j].image.Some? ==> Rectangular(jobs[j].image.value)
    ensures var r := Perform(Run(w0, None), jobs, tw, th, resize);
      forall k :: k in r.written ==> (k in w0 && r.written[k] == w0[k]) || IsRect(r.written[k], th, tw)
  {
    if jobs != [] {
      var n := |jobs| - 1;
      OutputsHaveTargetSize(w0, jobs[..n], tw, th, resize);
      if jobs[n].image.Some? {
        TargetSize(jobs[n].image.value, tw, th, resize);
      }
    }
  }

  /** Two directories with the same name that both hold `img.png`: the later
      directory's image replaces the earlier one's. */
  lemma SameNameOverwrites(existing: map<string, Image>, p1: string, p2: string, a: Image, b: Image,
                           tw: int, th: int, resize: Resizer)
    requires SourceDirName(p1) == SourceDirName(p2)
    ensures var r := Normalized(existing,
                                [SourceDir(p1, [SourceFile("img.png", Some(a))]),
                                 SourceDir(p2, [SourceFile("img.png", Some(b))])], tw, th, resize);
      r.failed == None &&
      r.written[OutputName(SourceDirName(p2), "img.png")] == ResizeOrCrop(b, tw, th, resize)
  {
    var dirs := [SourceDir(p1, [SourceFile("img.png", Some(a))]), SourceDir(p2, [SourceFile("img.png", Some(b))])];
    var name := OutputName(SourceDirName(p2), "img.png");
    assert IsSourceImageName("img.png") by {
      assert "img.png"[7 - 4..] == ".png";
    }
    var fa, fb := [SourceFile("img.png", Some(a))], [SourceFile("img.png", Some(b))];
    assert fa[..0] == [] && fb[..0] == [];
    assert DirJobs(SourceDirName(p1), fa) == [Job("img.png", name, Some(a))];
    assert DirJobs(SourceDirName(p2), fb) == [Job("img.png", name, Some(b))];
    assert JobsOf(dirs[0]) == [Job("img.png", name, Some(a))];
    assert JobsOf(dirs[1]) == [Job("img.png", name, Some(b))];
    assert dirs[..1][..0] == [] && dirs[..1] == [dirs[0]];
    assert Jobs(dirs[..1]) == [Job("img.png", name, Some(a))];
    var jobs := [Job("img.png", name, Some(a)), Job("img.png", name, Some(b))];
    assert Jobs(dirs) == jobs;
    AllDecodeNoFailure(existing, jobs, tw, th, resize);
    LastWriteWins(existing, jobs, 1, tw, th, resize);
  }

  /** Within one directory distinct file names give distinct output names. */
  lemma OutputNameInjective(dirName: string, f1: string, f2: string)
    requires f1 != f2
    ensures OutputName(dirName, f1) != OutputName(dirName, f2)
  {
    var n := |dirName| + 1;
    if |f1| == |f2| {
      assert OutputName(dirName, f1)[n..] == f1;
      assert OutputName(dirName, f2)[n..] == f2;
    }
  }

  lemma SuffixOfSuffix(o: string, f: string, ext: string)
    requires ImageScope.EndsWith(o, f) && ImageScope.EndsWith(f, ext)
    ensures ImageScope.EndsWith(o, ext)
  {
    assert o[|o| - |ext|..] == f[|f| - |ext|..];
  }

  /** The output name ends in the source file name, so it keeps the file's
      extension and passes the same filter. */
  lemma OutputNameKeepsExtension(dirName: string, fileName: string)
    ensures ImageScope.EndsWith(OutputName(dirName, fileName), fileName)
    ensures forall ext :: ImageScope.EndsWith(fileName, ext) ==> ImageScope.EndsWith(OutputName(dirName, fileName), ext)
    ensures IsSourceImageName(fileName) ==> IsSourceImageName(OutputName(dirName, fileName))
  {
    var o := OutputName(dirName, fileName);
    assert o[|o| - |fileName|..] == fileName;
    forall ext | ImageScope.EndsWith(fileName, ext) ensures ImageScope.EndsWith(o, ext) {
      SuffixOfSuffix(o, fileName, ext);
    }
  }

  /** Different directory names do not rule out a collision: the prefix
      is not delimited. */
  lemma DistinctDirNamesCanCollide()
    ensures OutputName("a_b", "c.png") == OutputName("a", "b_c.png")
  {
  }

  /** Lower-casing does not disturb a suffix written in lower case. */
  lemma LowerKeepsSuffix(name: string, ext: string)
    requires ImageScope.EndsWith(name, ext)
    requires forall i :: 0 <= i < |ext| ==> ImageScope.LowerChar(ext[i]) == ext[i]
    ensures ImageScope.EndsWith(ImageScope.Lower(name), ext)
  {
    var l := ImageScope.Lower(name);
    var d := |name| - |ext|;
    forall i | 0 <= i < |ext| ensures l[d + i] == ext[i] {
      assert name[d + i] == ext[i];
    }
    assert l[d..] == ext;
  }

  /** The normalizer's filter is the statistics pass's filter without case
      folding: whatever it accepts is accepted there... */
  lemma FiltersCompared(name: string)
    ensures IsSourceImageName(name) ==> ImageScope.IsImageName(name)
  {
    if ImageScope.EndsWith(name, ".png") {
      LowerKeepsSuffix(name, ".png");
    }
    if ImageScope.EndsWith(name, ".jpg") {
      LowerKeepsSuffix(name, ".jpg");
    }
    if ImageScope.EndsWith(name, ".jpeg") {
      LowerKeepsSuffix(name, ".jpeg");
    }
  }

  /** ... but not the other way round: `a.PNG` is skipped here and counted there. */
  lemma UpperCaseExtension()
    ensures !IsSourceImageName("a.PNG") && ImageScope.IsImageName("a.PNG")
  {
    var p := ImageScope.Lower("a.PNG");
    assert p[1..] == ".png";
    assert "a.PNG"[1..] != ".png";
  }

  /** A trailing separator does not change the directory name. */
  lemma TrailingSeparator(path: string)
    requires path != ""
    ensures SourceDirName(path + "/") == SourceDirName(path)
  {
    assert (path + "/")[..|path|] == path;
  }
}
