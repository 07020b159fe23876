# FileAnalyzer, modelled in Dafny

`FileAnalyzer` (file_analyzer/analyzer.py) walks a directory tree and reports on the files in it. It groups the files by lower-cased extension, counts them and totals their sizes, and ranks the large ones by size. It then assembles a report from the three scans. This project models that aggregation logic as pure functions over the result of the walk, and proves properties of them.

The walk is an input. It is a sequence of `Walk.Entry(root, name, size)` values, one per `(root, file)` pair that `os.walk` yields, in walk order. `size` is `Some(n)` when `os.path.getsize` returns `n` and `None` when it raises `OSError`. All three scans of a report see the same walk. A path is the opaque pair `Walk.Path(root, name)` that `os.path.join` would combine.

Each scan is written the way the source loop computes it: a fold over the walk, where the state after `walk[..i]` is the function applied to that prefix. Lemmas then relate these folds to plain filters over the walk. The grouping and the counts are proved equal to what `Walk.Successful` and `Walk.WithKey` select. The byte total is stated against `Walk.SizeSum`, the plain sum of the successful sizes. `LargeFiles.Candidates` is the list the `find_large_files` loop builds, and the sort's contracts are stated against it.

Modules, one per part of the class:

- `Extension`: `os.path.splitext(name)[1].lower()`. This is POSIX `splitext` (last dot, unless it lies before the last `/` or only dots precede it in the last component) followed by ASCII lower-casing.
- `Walk`: entries, paths and the reference filters.
- `Grouping`: `get_files_by_extension`.
- `Statistics`: `get_file_stats`.
- `LargeFiles`: `find_large_files`. Python's stable `sorted(..., key=size, reverse=True)` is modelled as an insertion sort. A uniqueness lemma shows that every stable descending sort gives the same list.
- `Analyzer`: the constructor, taken over a `FileSystemView` (the paths `os.path.exists` and `os.path.isdir` accept), and the report `generate_report` builds before writing it.
- `Scenarios`: a concrete three-file walk.

Three behaviours of the code are worth noting:

- `get_files_by_extension` never calls `getsize`. So files whose size lookup fails are still grouped (`Grouping.GroupSizesSumToWalk`), and only the statistics and large-file scans skip them.
- Both constructor errors are `ValueError`s with Russian messages (`Analyzer.Message`).
- The directory is stored exactly as given, not normalised (`Analyzer.NewAnalyzer`, `Analyzer.ReportNamesConstructorArgument`).

## Model

| member | source | states |
|---|---|---|
| Extension.SplitExt | file_analyzer/analyzer.py:47 | `splitext` splits the name into stem and extension whose concatenation is the name. The extension is empty or a dot followed by characters that are neither dots nor separators. It is non-empty exactly when some non-dot character of the last path component is followed by a dot. |
| Extension.SplitsAtLastDot | file_analyzer/analyzer.py:47 | `splitext`'s test on the last separator and the last dot (the last dot comes after the last separator, and a non-dot character lies between them) holds exactly when the name has an extension. When the last dot comes after the last separator, it starts a well-formed extension. |
| Extension.Lower | file_analyzer/analyzer.py:48 | `lower()` keeps the length, maps each character through ASCII lower-casing and leaves no capital letter. |
| Extension.LowerIdempotent | file_analyzer/analyzer.py:48 | Lower-casing twice equals lower-casing once. |
| Extension.LowerOfLowercase | file_analyzer/analyzer.py:48 | Lower-casing leaves a string with no capitals unchanged. |
| Extension.ExtensionKey | file_analyzer/analyzer.py:47-48 | The key is `""` or starts with `.` and contains no other `.` (and no `/`). It has no capitals. It is non-empty exactly when the name has an extension by the leading-dot rule. |
| Extension.LastDotKey | file_analyzer/analyzer.py:47-48 | A name that does not start with a dot is keyed by the lower-cased suffix from its last dot on. |
| Extension.NoDotKey | file_analyzer/analyzer.py:47-48 | A name without a dot has the empty key. |
| Extension.DotOnlyPrefixHasNoKey | file_analyzer/analyzer.py:47-48 | A name whose characters before its last dot are all dots, such as `.bashrc` or `...`, has the empty key. |
| Extension.HiddenFileExample | file_analyzer/analyzer.py:47-48 | `.bashrc` has key `""`. |
| Extension.LastDotExample | file_analyzer/analyzer.py:47-48 | `a.b.c` has key `.c`. |
| Extension.TrailingDotExample | file_analyzer/analyzer.py:47-48 | `a.` has key `.`. |
| Extension.UpperCaseExample | file_analyzer/analyzer.py:47-48 | `b.TXT` has key `.txt`. |
| Walk.Successful | file_analyzer/analyzer.py:70-79 | The entries whose size lookup succeeded are exactly the walked entries with a size, and there are no more of them than walked entries. |
| Walk.SizeSumOfSuccessful | file_analyzer/analyzer.py:70-79 | Dropping the failed entries does not change the byte total. |
| Walk.WithKeyOfAppend | file_analyzer/analyzer.py:44-48 | One more walked entry adds itself to the entries of its own key and to no other key's. |
| Grouping.Append | file_analyzer/analyzer.py:52 | Appending to a `defaultdict(list)` creates the key if needed. It extends only that key's list, by exactly the path. |
| Grouping.GroupByExtension | file_analyzer/analyzer.py:42-54 | Every key in the grouping is admitted by the filter and has a non-empty list, because a key is created only by an append. |
| Grouping.GroupOfAppend | file_analyzer/analyzer.py:44-52 | One more walked entry appends its path under its key when the filter admits the key, and otherwise changes nothing. |
| Grouping.GroupingCharacterized | file_analyzer/analyzer.py:42-54 | A key is present exactly when the filter admits it and some walked entry carries it. Its list is the paths of exactly those entries, in walk order. |
| Grouping.EveryEntryGrouped | file_analyzer/analyzer.py:44-52 | Without a filter, every walked entry's path is in the group of its own key. |
| Grouping.FilteredIsRestriction | file_analyzer/analyzer.py:51-52 | A filtered grouping equals the unfiltered grouping restricted to the listed keys. |
| Grouping.SingleKeyFilter | file_analyzer/analyzer.py:51-52 | A filter of one key such as `['.py']` yields exactly that one key when some file carries it, listing every such file. |
| Grouping.GroupSizesSumToWalk | file_analyzer/analyzer.py:42-54 | Without a filter, group sizes sum to the number of walked entries, including those whose size lookup fails. |
| Grouping.EmptyWalkGroups | file_analyzer/analyzer.py:42-54 | An empty walk gives `{}` whatever the filter. |
| Statistics.Bump | file_analyzer/analyzer.py:76 | Incrementing a `defaultdict(int)` adds the key if needed. It adds one to that key's count only. |
| Statistics.GetFileStats | file_analyzer/analyzer.py:63-86 | Every counted key has a positive count. The file count never exceeds the number of walked entries. |
| Statistics.StatsOfAppend | file_analyzer/analyzer.py:67-79 | One more walked entry is counted when its lookup succeeds and skipped when it fails. |
| Statistics.TotalsCharacterized | file_analyzer/analyzer.py:67-79 | `total_files` is the number of successful lookups. `total_size_bytes` is the sum of their sizes. |
| Statistics.CountsCharacterized | file_analyzer/analyzer.py:75-76 | A key is in `extensions_count` exactly when a successful entry carries it. Its count is the number of such entries. |
| Statistics.CountsSumToTotal | file_analyzer/analyzer.py:63-86 | The per-key counts sum to `total_files`. |
| Statistics.FailuresIgnored | file_analyzer/analyzer.py:70-79 | The statistics of a walk equal those of its successful entries alone, so failed entries change nothing. |
| Statistics.StatsAgreeWithGrouping | file_analyzer/analyzer.py:42-86 | When no lookup fails, the counts and the unfiltered grouping have the same keys. Each count is the length of its key's list, and `total_files` is the sum of the list lengths. |
| Statistics.EmptyWalkStats | file_analyzer/analyzer.py:63-86 | An empty walk gives `{0, 0, {}}`. |
| LargeFiles.Candidates | file_analyzer/analyzer.py:98-113 | The list built before sorting holds exactly the files whose lookup succeeded with a size of at least the threshold. |
| LargeFiles.Insert | file_analyzer/analyzer.py:116 | Insertion adds exactly one element and keeps a list sorted by non-increasing size sorted. |
| LargeFiles.WithSizeInsert | file_analyzer/analyzer.py:116 | An inserted file comes before the files of its own size that were already there. It leaves the order of every other size unchanged. |
| LargeFiles.SortBySizeDesc | file_analyzer/analyzer.py:116 | The sort returns a permutation of its input in non-increasing size order. |
| LargeFiles.SortIsStable | file_analyzer/analyzer.py:116 | The sort keeps files of equal size in their input order. |
| LargeFiles.SortIsStableSort | file_analyzer/analyzer.py:116 | The sort's result is sorted and is a stable permutation of the input. |
| LargeFiles.StableSortUnique | file_analyzer/analyzer.py:116 | Two size-sorted lists that agree on the order of each size's files are equal. So any stable sort gives the same result. |
| LargeFiles.FindLargeFiles | file_analyzer/analyzer.py:98-116 | The result is sorted by non-increasing size. It contains exactly the walked files whose lookup succeeded with a size of at least the threshold, and it has as many elements as the unsorted list. |
| LargeFiles.FindLargeFilesIsStableSort | file_analyzer/analyzer.py:98-116 | The result is a permutation of the qualifying files in which files of equal size keep walk order. |
| LargeFiles.FindLargeFilesUnique | file_analyzer/analyzer.py:116 | Any size-sorted stable permutation of the qualifying files is the result. |
| LargeFiles.ZeroThresholdListsAll | file_analyzer/analyzer.py:98-106 | A threshold of 0 lists every file whose lookup succeeded. |
| LargeFiles.EmptyWalkLargeFiles | file_analyzer/analyzer.py:99-116 | An empty walk gives `[]`. |
| Analyzer.NewAnalyzer | file_analyzer/analyzer.py:23-29 | Construction succeeds exactly when the path exists and is a directory, and then keeps the path unchanged. A missing path gives the "does not exist" error even if it is listed as a directory. The "not a directory" error comes only for an existing path. |
| Analyzer.Message | file_analyzer/analyzer.py:23-27 | Each error message names the directory. It ends with " не существует" (does not exist) or " не является директорией" (is not a directory), the phrases the tests match. |
| Analyzer.Prefix | file_analyzer/analyzer.py:136 | The slice `s[:n]` has `min(n, len(s))` elements, equal to the first elements of `s`. |
| Analyzer.GenerateReport | file_analyzer/analyzer.py:128-137 | The report names the analyzer's directory. Its statistics are `get_file_stats` of the walk and its grouping is the unfiltered `get_files_by_extension`. Its large files are the first ten of the stably sorted list at the 10 MB threshold, so among files of equal size the earliest in walk order are kept. They number at most ten, are sorted by non-increasing size, and each is a qualifying walked file. |
| Analyzer.ReportKeepsLargest | file_analyzer/analyzer.py:130-136 | A qualifying file left out of the report means ten files are listed, and none of them is smaller than it. |
| Analyzer.ReportTotals | file_analyzer/analyzer.py:128-135 | The report's statistics count the successful lookups and sum their sizes. Its group sizes sum to the number of walked entries, and every walked entry's path is in the group of its own key. |
| Analyzer.ReportNamesConstructorArgument | file_analyzer/analyzer.py:132-133 | A report on a constructed analyzer names the directory exactly as it was passed to the constructor. |
| Analyzer.EmptyWalkReport | file_analyzer/analyzer.py:128-137 | An empty walk gives the empty statistics, grouping and large-file list. |
| Scenarios.ScenarioGrouping | file_analyzer/analyzer.py:42-54 | `a.py`, `b.TXT` and `c` group as `{".py": [a.py], ".txt": [b.TXT], "": [c]}`: the key is lower-cased and the name is not. |
| Scenarios.ScenarioStats | file_analyzer/analyzer.py:63-86 | Files of 15, 20 and 5 bytes give three files, forty bytes and one file per key. |

## Left out

- The directory traversal (`os.walk`) and the size lookups (`os.path.getsize`) are filesystem I/O. They become the input walk, and one walk is shared by the three scans of a report.
- `os.path.join` is left out: a path is the opaque pair it is built from.
- `os.path.exists` and `os.path.isdir` are the two sets of a `FileSystemView`. Nothing requires a directory to be in the existing set.
- Floating point is left out. That covers `total_size_mb` and `size_mb` (`round(x / 1048576, 2)`) and the `min_size_mb * 1024 * 1024` threshold. The threshold is an integer byte count. For integer sizes, `size >= t` agrees with the float comparison when `t` is the float threshold rounded up, and a negative threshold acts as 0. The default of 10.0 MB is exactly 10485760 bytes.
- Extension.Lower: does not model Unicode `str.lower()`. Only the ASCII letters A-Z are lower-cased.
- Extension.SplitExt: models POSIX `splitext` only. There is no alternative separator such as Windows `\`.
- Grouping.GroupByExtension: does not model the insertion order of dictionary keys, because Dafny maps are unordered. Each key's list order is modelled.
- Statistics.GetFileStats: does not model the insertion order of `extensions_count`'s keys either.
- The JSON serialisation, the output path and the file write of `generate_report` (file_analyzer/analyzer.py:139-143) are I/O and a library call. So is the path it returns.
- The `main` command-line entry point (file_analyzer/analyzer.py:146-185) is left out. It is argument checking and console printing.
