/**
  `FileAnalyzer` itself: construction over a validated directory, and the
  report `generate_report` assembles from the three scans before writing it.
  The three scans are given the same walk.
 */
module Analyzer {
  import opened Wrappers
  import opened Walk
  import Grouping
  import Statistics
  import LargeFiles

  /** What `os.path.exists` and `os.path.isdir` answer, as the sets of paths they accept. */
  datatype FileSystemView = FileSystemView(existing: set<string>, directories: set<string>)

  /** The two `ValueError`s the constructor raises. */
  datatype InitError = DoesNotExist(directory: string) | NotADirectory(directory: string)

  /** A constructed analyzer: the directory it was given, unchanged. */
  datatype FileAnalyzer = FileAnalyzer(directory: string)

  /**
    `FileAnalyzer(directory)`: a missing path is refused first; a path that
    exists but is not a directory is refused next; otherwise the argument is
    kept as given.
   */
  function NewAnalyzer(directory: string, fs: FileSystemView): (r: Result<FileAnalyzer, InitError>)
    ensures r.Success? <==> directory in fs.existing && directory in fs.directories
    ensures r.Success? ==> r.value.directory == directory
    ensures directory !in fs.existing ==> r == Failure(DoesNotExist(directory))
    ensures directory in fs.existing && directory !in fs.directories ==> r == Failure(NotADirectory(directory))
  {
    if directory !in fs.existing then Failure(DoesNotExist(directory))
    else if directory !in fs.directories then Failure(NotADirectory(directory))
    else Success(FileAnalyzer(directory))
  }

  predicate EndsWith(s: string, suffix: string) {
    |suffix| <= |s| && s[|s| - |suffix|..] == suffix
  }

  predicate OccursAt(s: string, part: string, i: int) {
    0 <= i <= |s| - |part| && s[i..i + |part|] == part
  }

  ghost predicate Mentions(s: string, part: string) {
    exists i :: OccursAt(s, part, i)
  }

  const MissingPhrase: string := " не существует"
  const NotDirectoryPhrase: string := " не является директорией"

  /** The text of the raised `ValueError`: it names the directory and ends with the phrase for its kind. */
  function Message(e: InitError): (m: string)
    ensures Mentions(m, e.directory)
    ensures e.DoesNotExist? ==> EndsWith(m, MissingPhrase)
    ensures e.NotADirectory? ==> EndsWith(m, NotDirectoryPhrase)
  {
    match e
    case DoesNotExist(d) =>
      var m := "Директория " + d + MissingPhrase;
      assert OccursAt(m, d, 11);
      m
    case NotADirectory(d) =>
      var m := d + NotDirectoryPhrase;
      assert OccursAt(m, d, 0);
      m
  }

  /** `min_size_mb = 10.0`, as a byte count: 10 * 1024 * 1024. */
  const DefaultThresholdBytes: nat := 10 * 1024 * 1024

  /** `large_files[:10]`. */
  const ReportLimit: nat := 10

  /** The report dictionary before it is serialised. */
  datatype Report = Report(
    directory: string,
    statistics: Statistics.FileStats,
    filesByExtension: Grouping.Groups,
    largeFiles: seq<LargeFiles.LargeFile>)

  /** Python's `s[:n]` for `n >= 0`: the first `n` elements, or all of them when there are fewer. */
  function Prefix<T>(s: seq<T>, n: nat): (r: seq<T>)
    ensures |r| == if |s| < n then |s| else n
    ensures forall i :: 0 <= i < |r| ==> r[i] == s[i]
  {
    if |s| <= n then s else s[..n]
  }

  /**
    `generate_report` up to the write: the statistics, the unfiltered
    grouping, and the ten largest files at or above the default threshold.
   */
  function GenerateReport(a: FileAnalyzer, walk: seq<Entry>): (r: Report)
    ensures r.directory == a.directory
    ensures r.statistics == Statistics.GetFileStats(walk)
    ensures r.filesByExtension == Grouping.GroupByExtension(walk, None)
    ensures r.largeFiles == Prefix(LargeFiles.FindLargeFiles(walk, DefaultThresholdBytes), ReportLimit)
    ensures |r.largeFiles| <= ReportLimit
    ensures LargeFiles.SortedDesc(r.largeFiles)
    ensures forall x :: x in r.largeFiles ==> LargeFiles.FromWalk(walk, DefaultThresholdBytes, x)
  {
    var all := LargeFiles.FindLargeFiles(walk, DefaultThresholdBytes);
    var top := Prefix(all, ReportLimit);
    assert forall x :: x in top ==> x in all;
    Report(a.directory, Statistics.GetFileStats(walk), Grouping.GroupByExtension(walk, None), top)
  }

  /**
    The report lists the ten largest qualifying files: all of them when there
    are at most ten, and otherwise no qualifying file it leaves out is larger
    than one it lists.
   */
  lemma ReportKeepsLargest(a: FileAnalyzer, walk: seq<Entry>, x: LargeFiles.LargeFile)
    requires LargeFiles.FromWalk(walk, DefaultThresholdBytes, x)
    requires x !in GenerateReport(a, walk).largeFiles
    ensures |GenerateReport(a, walk).largeFiles| == ReportLimit
    ensures forall y :: y in GenerateReport(a, walk).largeFiles ==> y.sizeBytes >= x.sizeBytes
  {
    var all := LargeFiles.FindLargeFiles(walk, DefaultThresholdBytes);
    var top := GenerateReport(a, walk).largeFiles;
    var j :| 0 <= j < |all| && all[j] == x;
    forall y | y in top
      ensures y.sizeBytes >= x.sizeBytes
    {
      var i :| 0 <= i < |top| && top[i] == y;
      assert all[i] == y;
    }
  }

  /** The report's parts are the three scans over the walk: its totals agree with the walk and its grouping lists every walked entry. */
  lemma ReportTotals(a: FileAnalyzer, walk: seq<Entry>)
    ensures GenerateReport(a, walk).statistics.totalFiles == |Successful(walk)|
    ensures GenerateReport(a, walk).statistics.totalSizeBytes == SizeSum(walk)
    ensures Grouping.TotalLength(GenerateReport(a, walk).filesByExtension) == |walk|
    ensures forall i :: 0 <= i < |walk| ==>
      KeyOf(walk[i]) in GenerateReport(a, walk).filesByExtension &&
      PathOf(walk[i]) in GenerateReport(a, walk).filesByExtension[KeyOf(walk[i])]
  {
    Statistics.TotalsCharacterized(walk);
    Grouping.GroupSizesSumToWalk(walk);
    forall i | 0 <= i < |walk|
      ensures KeyOf(walk[i]) in GenerateReport(a, walk).filesByExtension
      ensures PathOf(walk[i]) in GenerateReport(a, walk).filesByExtension[KeyOf(walk[i])]
    {
      Grouping.EveryEntryGrouped(walk, i);
    }
  }

  /** A report on a constructed analyzer names the directory exactly as it was passed in. */
  lemma ReportNamesConstructorArgument(directory: string, fs: FileSystemView, walk: seq<Entry>)
    requires NewAnalyzer(directory, fs).Success?
    ensures GenerateReport(NewAnalyzer(directory, fs).value, walk).directory == directory
  {
  }

  /** An empty walk gives the empty statistics, grouping and list of large files. */
  lemma EmptyWalkReport(a: FileAnalyzer)
    ensures GenerateReport(a, []) == Report(a.directory, Statistics.FileStats(0, 0, map[]), map[], [])
  {
  }
}
