/**
 * `print_results`: the lines of one scope's report, in order.  The text
 * formatting is not modelled; each line keeps the values it prints, and a
 * percentage is the exact value `count / total * 100` that is formatted.
 */
module Report {
  import opened Wrappers
  import opened CountMaps
  import opened ImageScope

  datatype Line =
    | DirectoryLine(directory: string)
    | TotalLine(total: nat)
    | ResolutionHeader
    | ResolutionLine(size: Size, count: nat, percent: real)
    | SmallestLine(smallest: Option<Size>)
    | LargestLine(largest: Option<Size>)
    | FormatHeader
    | FormatLine(format: string, count: nat, percent: real)
    | ModeHeader
    | ModeLine(mode: string, count: nat, percent: real)

  /** `(count / total_images) * 100`; the divisor must not be zero. */
  function Percent(count: nat, total: nat): real
    requires total > 0
  {
    (count as real / total as real) * 100.0
  }

  /** What the report needs to avoid a division by zero: a percentage is only
      computed for a counter entry, so a zero total must come with empty
      counters. */
  predicate Printable(s: Scope) {
    s.total > 0 || (s.resolutions == [] && s.formats == [] && s.modes == [])
  }

  /** Every scope the scan can produce is printable. */
  lemma InvPrintable(s: Scope)
    requires Inv(s)
    ensures Printable(s)
  {
    PositiveSumBound(s.resolutions);
    PositiveSumBound(s.formats);
    PositiveSumBound(s.modes);
  }

  function ResolutionLines(m: CountMap<Size>, total: nat): seq<Line>
    requires total > 0 || m == []
  {
    seq(|m|, i requires 0 <= i < |m| => ResolutionLine(m[i].0, m[i].1, Percent(m[i].1, total)))
  }

  function FormatLines(m: CountMap<string>, total: nat): seq<Line>
    requires total > 0 || m == []
  {
    seq(|m|, i requires 0 <= i < |m| => FormatLine(m[i].0, m[i].1, Percent(m[i].1, total)))
  }

  function ModeLines(m: CountMap<string>, total: nat): seq<Line>
    requires total > 0 || m == []
  {
    seq(|m|, i requires 0 <= i < |m| => ModeLine(m[i].0, m[i].1, Percent(m[i].1, total)))
  }

  /** The report of a scope labelled `directory`. */
  function ReportLines(directory: string, s: Scope): seq<Line>
    requires Printable(s)
  {
    [DirectoryLine(directory), TotalLine(s.total), ResolutionHeader]
    + ResolutionLines(s.resolutions, s.total)
    + [SmallestLine(s.smallest), LargestLine(s.largest), FormatHeader]
    + FormatLines(s.formats, s.total)
    + [ModeHeader]
    + ModeLines(s.modes, s.total)
  }

  /** `print_results` builds its list of lines with `append` in three loops. */
  method PrintResults(directory: string, s: Scope) returns (output: seq<Line>)
    requires Printable(s)
    ensures output == ReportLines(directory, s)
  {
    output := [DirectoryLine(directory), TotalLine(s.total), ResolutionHeader];
    ghost var head := output;
    for i := 0 to |s.resolutions|
      invariant output == head + ResolutionLines(s.resolutions, s.total)[..i]
    {
      var (size, count) := s.resolutions[i];
      output := output + [ResolutionLine(size, count, Percent(count, s.total))];
    }
    output := output + [SmallestLine(s.smallest), LargestLine(s.largest), FormatHeader];
    head := output;
    for i := 0 to |s.formats|
      invariant output == head + FormatLines(s.formats, s.total)[..i]
    {
      var (format, count) := s.formats[i];
      output := output + [FormatLine(format, count, Percent(count, s.total))];
    }
    output := output + [ModeHeader];
    head := output;
    for i := 0 to |s.modes|
      invariant output == head + ModeLines(s.modes, s.total)[..i]
    {
      var (mode, count) := s.modes[i];
      output := output + [ModeLine(mode, count, Percent(count, s.total))];
    }
  }

  /** The layout of a report whose counters hold each key once: the sections
      come in the order resolutions, smallest/largest, formats, modes; each
      section lists the counter's keys in its iteration order with the count
      recorded for that key. */
  lemma ReportLayout(directory: string, s: Scope)
    requires Printable(s)
    requires NoDuplicates(Keys(s.resolutions)) && NoDuplicates(Keys(s.formats)) && NoDuplicates(Keys(s.modes))
    ensures var r := ReportLines(directory, s);
      var nr, nf, nm := |s.resolutions|, |s.formats|, |s.modes|;
      |r| == 7 + nr + nf + nm &&
      r[0] == DirectoryLine(directory) && r[1] == TotalLine(s.total) && r[2] == ResolutionHeader &&
      (forall i :: 0 <= i < nr ==>
         r[3 + i].ResolutionLine? && r[3 + i].size == Keys(s.resolutions)[i] &&
         r[3 + i].count == Count(s.resolutions, r[3 + i].size)) &&
      r[3 + nr] == SmallestLine(s.smallest) && r[4 + nr] == LargestLine(s.largest) &&
      r[5 + nr] == FormatHeader &&
      (forall i :: 0 <= i < nf ==>
         r[6 + nr + i].FormatLine? && r[6 + nr + i].format == Keys(s.formats)[i] &&
         r[6 + nr + i].count == Count(s.formats, r[6 + nr + i].format)) &&
      r[6 + nr + nf] == ModeHeader &&
      (forall i :: 0 <= i < nm ==>
         r[7 + nr + nf + i].ModeLine? && r[7 + nr + nf + i].mode == Keys(s.modes)[i] &&
         r[7 + nr + nf + i].count == Count(s.modes, r[7 + nr + nf + i].mode))
  {
    forall i | 0 <= i < |s.resolutions| {
      CountAt(s.resolutions, i);
    }
    forall i | 0 <= i < |s.formats| {
      CountAt(s.formats, i);
    }
    forall i | 0 <= i < |s.modes| {
      CountAt(s.modes, i);
    }
  }

  /** The sum of the percentages printed for a counter. */
  function PercentSum<K>(m: CountMap<K>, total: nat): real
    requires total > 0
  {
    if m == [] then 0.0 else Percent(m[0].1, total) + PercentSum(m[1..], total)
  }

  /** The percentages of a counter add up to `Sum / total * 100`. */
  lemma {:induction false} PercentSumExact<K>(m: CountMap<K>, total: nat)
    requires total > 0
    ensures PercentSum(m, total) == (Sum(m) as real / total as real) * 100.0
  {
    if m != [] {
      PercentSumExact(m[1..], total);
      var t := total as real;
      var a, b := m[0].1 as real, Sum(m[1..]) as real;
      assert (a / t) * 100.0 + (b / t) * 100.0 == ((a + b) / t) * 100.0;
    }
  }

  /** The sum of the percentages printed on a run of report lines. */
  function LinePercentSum(ls: seq<Line>): real {
    if ls == [] then 0.0
    else
      (if ls[0].ResolutionLine? || ls[0].FormatLine? || ls[0].ModeLine? then ls[0].percent else 0.0)
      + LinePercentSum(ls[1..])
  }

  lemma {:induction false} ResolutionPercents(m: CountMap<Size>, total: nat)
    requires total > 0
    ensures LinePercentSum(ResolutionLines(m, total)) == PercentSum(m, total)
  {
    if m != [] {
      assert ResolutionLines(m, total)[1..] == ResolutionLines(m[1..], total);
      ResolutionPercents(m[1..], total);
    }
  }

  lemma {:induction false} FormatPercents(m: CountMap<string>, total: nat)
    requires total > 0
    ensures LinePercentSum(FormatLines(m, total)) == PercentSum(m, total)
  {
    if m != [] {
      assert FormatLines(m, total)[1..] == FormatLines(m[1..], total);
      FormatPercents(m[1..], total);
    }
  }

  lemma {:induction false} ModePercents(m: CountMap<string>, total: nat)
    requires total > 0
    ensures LinePercentSum(ModeLines(m, total)) == PercentSum(m, total)
  {
    if m != [] {
      assert ModeLines(m, total)[1..] == ModeLines(m[1..], total);
      ModePercents(m[1..], total);
    }
  }

  /** The percentage lines of a report are its three sections, at the places
      `ReportLayout` gives them; each adds up to its counter's sum over the
      total, times 100. */
  lemma ReportPercents(directory: string, s: Scope)
    requires s.total > 0
    ensures var r := ReportLines(directory, s);
      var nr, nf := |s.resolutions|, |s.formats|;
      |r| == 7 + nr + nf + |s.modes| &&
      r[3..3 + nr] == ResolutionLines(s.resolutions, s.total) &&
      r[6 + nr..6 + nr + nf] == FormatLines(s.formats, s.total) &&
      r[7 + nr + nf..] == ModeLines(s.modes, s.total)
    ensures LinePercentSum(ResolutionLines(s.resolutions, s.total)) == (Sum(s.resolutions) as real / s.total as real) * 100.0
    ensures LinePercentSum(FormatLines(s.formats, s.total)) == (Sum(s.formats) as real / s.total as real) * 100.0
    ensures LinePercentSum(ModeLines(s.modes, s.total)) == (Sum(s.modes) as real / s.total as real) * 100.0
  {
    var r := ReportLines(directory, s);
    var nr, nf := |s.resolutions|, |s.formats|;
    var rl, fl, ml := ResolutionLines(s.resolutions, s.total), FormatLines(s.formats, s.total), ModeLines(s.modes, s.total);
    var head := [DirectoryLine(directory), TotalLine(s.total), ResolutionHeader];
    var mid := [SmallestLine(s.smallest), LargestLine(s.largest), FormatHeader];
    assert r == head + rl + mid + fl + [ModeHeader] + ml;
    assert r[3..3 + nr] == rl;
    assert r[6 + nr..6 + nr + nf] == fl;
    assert r[7 + nr + nf..] == ml;
    ResolutionPercents(s.resolutions, s.total);
    FormatPercents(s.formats, s.total);
    ModePercents(s.modes, s.total);
    PercentSumExact(s.resolutions, s.total);
    PercentSumExact(s.formats, s.total);
    PercentSumExact(s.modes, s.total);
  }

  /** `(d / n) * 100 == 100` exactly when `d == n`, and it is below 100 when
      `d < n`. */
  lemma RatioIsHundred(d: nat, n: nat)
    requires n > 0
    ensures (d as real / n as real) * 100.0 == 100.0 <==> d == n
    ensures d < n ==> (d as real / n as real) * 100.0 < 100.0
  {
    var q := d as real / n as real;
    assert q * n as real == d as real;
  }

  /** Scanning from an empty scope: the total counts the image files and
      every counter sums to the number of files that decoded. */
  lemma ScanSums(files: seq<FileEntry>)
    ensures AddFiles(Empty, files).total == |ImageFiles(files)|
    ensures Sum(AddFiles(Empty, files).resolutions) == |Decoded(files)|
    ensures Sum(AddFiles(Empty, files).formats) == |Decoded(files)|
    ensures Sum(AddFiles(Empty, files).modes) == |Decoded(files)|
  {
    var d := Decoded(files);
    AddFilesTotal(Empty, files);
    AddFilesResolutions(Empty, files);
    BumpAllSum([], Sizes(d));
    AddFilesFormats(Empty, files);
    BumpAllSum([], Formats(d));
    AddFilesModes(Empty, files);
    BumpAllSum([], Modes(d));
  }

  /** The share of image files that decoded, as a percentage. */
  function DecodedShare(files: seq<FileEntry>): real
    requires |ImageFiles(files)| > 0
  {
    (|Decoded(files)| as real / |ImageFiles(files)| as real) * 100.0
  }

  /** The share is never above 100, and it is 100 exactly when every image
      file decoded. */
  lemma ShareIsHundred(files: seq<FileEntry>)
    requires |ImageFiles(files)| > 0
    ensures DecodedShare(files) <= 100.0
    ensures DecodedShare(files) == 100.0 <==>
            forall i :: 0 <= i < |files| && IsImageName(files[i].name) ==> files[i].info.Some?
  {
    DecodedBound(files);
    RatioIsHundred(|Decoded(files)|, |ImageFiles(files)|);
  }

  /** Over a directory scan with at least one image file, the percentages
      printed in each section (the lines `ReportPercents` places in the
      report) add up to the share of image files that decoded: exactly 100
      when every image file decoded, and not 100 as soon as one failed, since
      such a file counts in the total only. */
  lemma ScanPercents(files: seq<FileEntry>)
    requires |ImageFiles(files)| > 0
    ensures AddFiles(Empty, files).total == |ImageFiles(files)|
    ensures var s := AddFiles(Empty, files);
      LinePercentSum(ResolutionLines(s.resolutions, s.total)) == DecodedShare(files) &&
      LinePercentSum(FormatLines(s.formats, s.total)) == DecodedShare(files) &&
      LinePercentSum(ModeLines(s.modes, s.total)) == DecodedShare(files)
    ensures DecodedShare(files) <= 100.0
    ensures DecodedShare(files) == 100.0 <==>
            forall i :: 0 <= i < |files| && IsImageName(files[i].name) ==> files[i].info.Some?
  {
    var s := AddFiles(Empty, files);
    ScanSums(files);
    ReportPercents("", s);
    ShareIsHundred(files);
  }
}
