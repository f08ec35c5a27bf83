/**
 * One aggregation scope of the statistics pass: the counters that
 * `analyze_images` keeps while it scans files, and how one file changes them.
 */
module ImageScope {
  import opened Wrappers
  import opened CountMaps

  /** `img.size`, i.e. (width, height). */
  datatype Size = Size(width: nat, height: nat)

  /** What Pillow reports of a file it could open. */
  datatype ImageInfo = ImageInfo(size: Size, format: string, mode: string)

  /** A file of a visited directory; `info` is `None` when opening it raised
      `IOError`. */
  datatype FileEntry = FileEntry(name: string, info: Option<ImageInfo>)

  /** Python's tuple `<` on (width, height): width first, then height. */
  predicate SizeLess(a: Size, b: Size) {
    a.width < b.width || (a.width == b.width && a.height < b.height)
  }

  function LowerChar(c: char): char {
    if 'A' <= c <= 'Z' then (c as int + 32) as char else c
  }

  /** `str.lower()`, for the ASCII letters. */
  function Lower(s: string): (r: string)
    ensures |r| == |s|
  {
    seq(|s|, i requires 0 <= i < |s| => LowerChar(s[i]))
  }

  predicate EndsWith(s: string, suffix: string) {
    |suffix| <= |s| && s[|s| - |suffix|..] == suffix
  }

  /** The extension test of the statistics pass: case-insensitive. */
  predicate IsImageName(name: string) {
    var l := Lower(name);
    EndsWith(l, ".png") || EndsWith(l, ".jpg") || EndsWith(l, ".jpeg")
  }

  /** The accumulator of one scope. */
  datatype Scope = Scope(
    total: nat,
    resolutions: CountMap<Size>,
    formats: CountMap<string>,
    modes: CountMap<string>,
    smallest: Option<Size>,
    largest: Option<Size>)

  const Empty: Scope := Scope(0, [], [], [], None, None)

  /** The scope's invariant: counts are positive and no counter has counted
      more images than the total. */
  predicate Inv(s: Scope) {
    Positive(s.resolutions) && Positive(s.formats) && Positive(s.modes) &&
    Sum(s.resolutions) <= s.total && Sum(s.formats) <= s.total && Sum(s.modes) <= s.total
  }

  /** One file of the inner loop: an image name raises the total before the
      decode is attempted; only a successful decode touches the counters and
      the extremes. */
  function AddFile(s: Scope, f: FileEntry): Scope {
    if !IsImageName(f.name) then s
    else
      match f.info
      case None => s.(total := s.total + 1)
      case Some(info) =>
        Scope(
          s.total + 1,
          Bump(s.resolutions, info.size),
          Bump(s.formats, info.format),
          Bump(s.modes, info.mode),
          if s.smallest.None? || SizeLess(info.size, s.smallest.value) then Some(info.size) else s.smallest,
          if s.largest.None? || SizeLess(s.largest.value, info.size) then Some(info.size) else s.largest)
  }

  /** The inner loop over a directory's files, in listing order. */
  function AddFiles(s: Scope, files: seq<FileEntry>): Scope {
    if files == [] then s else AddFile(AddFiles(s, files[..|files| - 1]), files[|files| - 1])
  }

  /** The files whose names pass the extension test. */
  function ImageFiles(files: seq<FileEntry>): seq<FileEntry> {
    if files == [] then []
    else
      var f := files[|files| - 1];
      ImageFiles(files[..|files| - 1]) + (if IsImageName(f.name) then [f] else [])
  }

  /** What was decoded of the files that pass the extension test. */
  function Decoded(files: seq<FileEntry>): seq<ImageInfo> {
    if files == [] then []
    else
      var f := files[|files| - 1];
      Decoded(files[..|files| - 1]) + (if IsImageName(f.name) && f.info.Some? then [f.info.value] else [])
  }

  function Sizes(infos: seq<ImageInfo>): seq<Size> {
    seq(|infos|, i requires 0 <= i < |infos| => infos[i].size)
  }

  function Formats(infos: seq<ImageInfo>): seq<string> {
    seq(|infos|, i requires 0 <= i < |infos| => infos[i].format)
  }

  function Modes(infos: seq<ImageInfo>): seq<string> {
    seq(|infos|, i requires 0 <= i < |infos| => infos[i].mode)
  }

  /** `o` is an element of `ss` that no element of `ss` lies below (when
      `smallest`) or above (otherwise) in `SizeLess` order; `None` exactly
      when `ss` is empty. */
  predicate IsExtreme(o: Option<Size>, ss: seq<Size>, smallest: bool) {
    (o.None? <==> ss == []) &&
    (o.Some? ==> o.value in ss &&
                 forall i :: 0 <= i < |ss| ==>
                   if smallest then !SizeLess(ss[i], o.value) else !SizeLess(o.value, ss[i]))
  }

  /** Scanning keeps the scope's invariant. */
  lemma {:induction false} AddFilesInv(s: Scope, files: seq<FileEntry>)
    requires Inv(s)
    ensures Inv(AddFiles(s, files))
  {
    if files != [] {
      var prev := AddFiles(s, files[..|files| - 1]);
      AddFilesInv(s, files[..|files| - 1]);
      var f := files[|files| - 1];
      if IsImageName(f.name) && f.info.Some? {
        BumpPositive(prev.resolutions, f.info.value.size);
        BumpPositive(prev.formats, f.info.value.format);
        BumpPositive(prev.modes, f.info.value.mode);
      }
    }
  }

  /** A file with another extension changes nothing; a file that fails to
      decode raises the total and changes nothing else. */
  lemma FailedOrSkippedFile(s: Scope, f: FileEntry)
    requires !IsImageName(f.name) || f.info.None?
    ensures AddFile(s, f).total == s.total + (if IsImageName(f.name) then 1 else 0)
    ensures AddFile(s, f) == s.(total := AddFile(s, f).total)
  {
  }

  lemma {:induction false} AddFilesAppend(s: Scope, a: seq<FileEntry>, b: seq<FileEntry>)
    ensures AddFiles(s, a + b) == AddFiles(AddFiles(s, a), b)
  {
    if b == [] {
      assert a + b == a;
    } else {
      var b' := b[..|b| - 1];
      var ab := a + b;
      assert ab[..|ab| - 1] == a + b';
      assert ab[|ab| - 1] == b[|b| - 1];
      AddFilesAppend(s, a, b');
    }
  }

  /** Every file that passes the extension test adds one to the total, whether
      or not it decodes. */
  lemma {:induction false} AddFilesTotal(s: Scope, files: seq<FileEntry>)
    ensures AddFiles(s, files).total == s.total + |ImageFiles(files)|
  {
    if files != [] {
      AddFilesTotal(s, files[..|files| - 1]);
    }
  }

  lemma AddFileCounters(s: Scope, f: FileEntry)
    ensures IsImageName(f.name) && f.info.Some? ==>
      var x := f.info.value;
      AddFile(s, f).resolutions == Bump(s.resolutions, x.size) &&
      AddFile(s, f).formats == Bump(s.formats, x.format) &&
      AddFile(s, f).modes == Bump(s.modes, x.mode)
    ensures !(IsImageName(f.name) && f.info.Some?) ==>
      AddFile(s, f).resolutions == s.resolutions &&
      AddFile(s, f).formats == s.formats &&
      AddFile(s, f).modes == s.modes
  {
  }

  /** Only decoded files reach the counters: each counter is its starting
      counter with the decoded sizes / formats / modes counted in order. */
  lemma {:induction false} AddFilesResolutions(s: Scope, files: seq<FileEntry>)
    ensures AddFiles(s, files).resolutions == BumpAll(s.resolutions, Sizes(Decoded(files)))
  {
    if files != [] {
      var init := files[..|files| - 1];
      AddFilesResolutions(s, init);
      var d0 := Decoded(init);
      var f := files[|files| - 1];
      AddFileCounters(AddFiles(s, init), f);
      if IsImageName(f.name) && f.info.Some? {
        var x := f.info.value;
        assert Decoded(files) == d0 + [x];
        assert Sizes(d0 + [x]) == Sizes(d0) + [x.size];
        BumpAllSnoc(s.resolutions, Sizes(d0), x.size);
      } else {
        assert Decoded(files) == d0;
      }
    }
  }

  lemma {:induction false} AddFilesFormats(s: Scope, files: seq<FileEntry>)
    ensures AddFiles(s, files).formats == BumpAll(s.formats, Formats(Decoded(files)))
  {
    if files != [] {
      var init := files[..|files| - 1];
      AddFilesFormats(s, init);
      var d0 := Decoded(init);
      var f := files[|files| - 1];
      AddFileCounters(AddFiles(s, init), f);
      if IsImageName(f.name) && f.info.Some? {
        var x := f.info.value;
        assert Decoded(files) == d0 + [x];
        assert Formats(d0 + [x]) == Formats(d0) + [x.format];
        BumpAllSnoc(s.formats, Formats(d0), x.format);
      } else {
        assert Decoded(files) == d0;
      }
    }
  }

  lemma {:induction false} AddFilesModes(s: Scope, files: seq<FileEntry>)
    ensures AddFiles(s, files).modes == BumpAll(s.modes, Modes(Decoded(files)))
  {
    if files != [] {
      var init := files[..|files| - 1];
      AddFilesModes(s, init);
      var d0 := Decoded(init);
      var f := files[|files| - 1];
      AddFileCounters(AddFiles(s, init), f);
      if IsImageName(f.name) && f.info.Some? {
        var x := f.info.value;
        assert Decoded(files) == d0 + [x];
        assert Modes(d0 + [x]) == Modes(d0) + [x.mode];
        BumpAllSnoc(s.modes, Modes(d0), x.mode);
      } else {
        assert Decoded(files) == d0;
      }
    }
  }

  /** The decoded files are a sub-list of the image files; equal in number
      exactly when every image file decoded. */
  lemma {:induction false} DecodedBound(files: seq<FileEntry>)
    ensures |Decoded(files)| <= |ImageFiles(files)|
    ensures |Decoded(files)| == |ImageFiles(files)| <==>
            forall i :: 0 <= i < |files| && IsImageName(files[i].name) ==> files[i].info.Some?
  {
    if files != [] {
      var init := files[..|files| - 1];
      DecodedBound(init);
      assert forall i :: 0 <= i < |init| ==> init[i] == files[i];
    }
  }

  /** Scanning `files` from an empty scope: the total counts the image files;
      each counter sums to the number decoded (never above the total, equal when
      no decode failed); each key's count is its number of occurrences among the
      decoded images; and each counter lists its keys once, in first-seen order. */
  lemma ScanCounts(files: seq<FileEntry>)
    ensures AddFiles(Empty, files).total == |ImageFiles(files)|
    ensures Sum(AddFiles(Empty, files).resolutions) == |Decoded(files)|
    ensures Sum(AddFiles(Empty, files).formats) == |Decoded(files)|
    ensures Sum(AddFiles(Empty, files).modes) == |Decoded(files)|
    ensures |Decoded(files)| <= |ImageFiles(files)|
    ensures (forall i :: 0 <= i < |files| && IsImageName(files[i].name) ==> files[i].info.Some?) ==>
            Sum(AddFiles(Empty, files).resolutions) == AddFiles(Empty, files).total
    ensures forall k :: Count(AddFiles(Empty, files).resolutions, k) == multiset(Sizes(Decoded(files)))[k]
    ensures forall k :: Count(AddFiles(Empty, files).formats, k) == multiset(Formats(Decoded(files)))[k]
    ensures forall k :: Count(AddFiles(Empty, files).modes, k) == multiset(Modes(Decoded(files)))[k]
    ensures Keys(AddFiles(Empty, files).resolutions) == FirstSeen(Sizes(Decoded(files)))
    ensures Keys(AddFiles(Empty, files).formats) == FirstSeen(Formats(Decoded(files)))
    ensures Keys(AddFiles(Empty, files).modes) == FirstSeen(Modes(Decoded(files)))
  {
    var d := Decoded(files);
    AddFilesTotal(Empty, files);
    AddFilesResolutions(Empty, files);
    AddFilesFormats(Empty, files);
    AddFilesModes(Empty, files);
    DecodedBound(files);
    BumpAllSum([], Sizes(d));
    BumpAllSum([], Formats(d));
    BumpAllSum([], Modes(d));
    BumpAllKeys(Sizes(d));
    BumpAllKeys(Formats(d));
    BumpAllKeys(Modes(d));
    forall k {
      BumpAllCount(Sizes(d), k);
    }
    forall k {
      BumpAllCount(Formats(d), k);
    }
    forall k {
      BumpAllCount(Modes(d), k);
    }
  }

  lemma AddFileExtremes(s: Scope, f: FileEntry)
    ensures IsImageName(f.name) && f.info.Some? ==>
      var z := f.info.value.size;
      AddFile(s, f).smallest == (if s.smallest.None? || SizeLess(z, s.smallest.value) then Some(z) else s.smallest) &&
      AddFile(s, f).largest == (if s.largest.None? || SizeLess(s.largest.value, z) then Some(z) else s.largest)
    ensures !(IsImageName(f.name) && f.info.Some?) ==>
      AddFile(s, f).smallest == s.smallest && AddFile(s, f).largest == s.largest
  {
  }

  /** From an empty scope, `smallest` is the lexicographically least decoded
      size, and `None` exactly when nothing decoded. */
  lemma {:induction false} ScanSmallest(files: seq<FileEntry>)
    ensures IsExtreme(AddFiles(Empty, files).smallest, Sizes(Decoded(files)), true)
  {
    if files != [] {
      var init := files[..|files| - 1];
      ScanSmallest(init);
      var d0 := Decoded(init);
      var f := files[|files| - 1];
      AddFileExtremes(AddFiles(Empty, init), f);
      if IsImageName(f.name) && f.info.Some? {
        assert Decoded(files) == d0 + [f.info.value];
        assert Sizes(d0 + [f.info.value]) == Sizes(d0) + [f.info.value.size];
      } else {
        assert Decoded(files) == d0;
      }
    }
  }

  /** From an empty scope, `largest` is the lexicographically greatest decoded
      size, and `None` exactly when nothing decoded. */
  lemma {:induction false} ScanLargest(files: seq<FileEntry>)
    ensures IsExtreme(AddFiles(Empty, files).largest, Sizes(Decoded(files)), false)
  {
    if files != [] {
      var init := files[..|files| - 1];
      ScanLargest(init);
      var d0 := Decoded(init);
      var f := files[|files| - 1];
      AddFileExtremes(AddFiles(Empty, init), f);
      if IsImageName(f.name) && f.info.Some? {
        assert Decoded(files) == d0 + [f.info.value];
        assert Sizes(d0 + [f.info.value]) == Sizes(d0) + [f.info.value.size];
      } else {
        assert Decoded(files) == d0;
      }
    }
  }
}
