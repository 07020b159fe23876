/**
  `FileAnalyzer.get_file_stats`: file count, byte total and per-key count of
  the files whose size lookup succeeds. A failed lookup skips the file before
  anything is counted.
 */
module Statistics {
  import opened Wrappers
  import opened Walk
  import Grouping

  /** The integer fields of the statistics record; `total_size_mb` is not modelled. */
  datatype FileStats = FileStats(totalFiles: nat, totalSizeBytes: nat, extensionsCount: map<string, nat>)

  /** `extensions_count[k] += 1` on a `defaultdict(int)`. */
  function Bump(counts: map<string, nat>, k: string): (r: map<string, nat>)
    ensures r.Keys == counts.Keys + {k}
    ensures r[k] == (if k in counts then counts[k] else 0) + 1
    ensures forall k' :: k' in counts && k' != k ==> r[k'] == counts[k']
  {
    counts[k := (if k in counts then counts[k] else 0) + 1]
  }

  /** One iteration of the scan: a successful lookup counts the file, a failed one is skipped. */
  function CountEntry(acc: FileStats, e: Entry): FileStats {
    match e.size
    case None => acc
    case Some(n) => FileStats(acc.totalFiles + 1, acc.totalSizeBytes + n, Bump(acc.extensionsCount, KeyOf(e)))
  }

  /**
    The statistics after the scan has seen `walk`: a successful lookup adds
    the size, one file, and one to the count of the file's key; a failed one
    changes nothing.
   */
  function GetFileStats(walk: seq<Entry>): (r: FileStats)
    ensures forall k :: k in r.extensionsCount ==> r.extensionsCount[k] > 0
    ensures r.totalFiles <= |walk|
  {
    if walk == [] then FileStats(0, 0, map[])
    else CountEntry(GetFileStats(walk[..|walk| - 1]), walk[|walk| - 1])
  }

  lemma StatsOfAppend(walk: seq<Entry>, e: Entry)
    ensures GetFileStats(walk + [e]) == CountEntry(GetFileStats(walk), e)
  {
    assert (walk + [e])[..|walk|] == walk;
  }

  /** The file count is the number of successful lookups, and the byte total is their sum. */
  lemma {:induction false} TotalsCharacterized(walk: seq<Entry>)
    ensures GetFileStats(walk).totalFiles == |Successful(walk)|
    ensures GetFileStats(walk).totalSizeBytes == SizeSum(walk)
  {
    if walk != [] {
      TotalsCharacterized(walk[..|walk| - 1]);
    }
  }

  /** A key is counted exactly when some successful entry carries it, and its count is the number of them. */
  lemma {:induction false} CountsCharacterized(walk: seq<Entry>, k: string)
    ensures k in GetFileStats(walk).extensionsCount <==> WithKey(Successful(walk), k) != []
    ensures k in GetFileStats(walk).extensionsCount ==> GetFileStats(walk).extensionsCount[k] == |WithKey(Successful(walk), k)|
  {
    if walk != [] {
      var init, e := walk[..|walk| - 1], walk[|walk| - 1];
      CountsCharacterized(init, k);
      var s := Successful(init);
      if e.size.Some? {
        assert Successful(walk) == s + [e];
        WithKeyOfAppend(s, e, k);
      } else {
        assert Successful(walk) == s;
      }
    }
  }

  /** Sum of all per-key counts. */
  ghost function TotalCount(counts: map<string, nat>): nat
    decreases |counts|
  {
    if counts == map[] then 0
    else
      var k :| k in counts;
      counts[k] + TotalCount(counts - {k})
  }

  /** Any key may be taken out first: the total does not depend on the order keys are visited in. */
  lemma {:induction false} TotalCountRemove(counts: map<string, nat>, k: string)
    requires k in counts
    ensures TotalCount(counts) == counts[k] + TotalCount(counts - {k})
    decreases |counts|
  {
    var k' :| k' in counts && TotalCount(counts) == counts[k'] + TotalCount(counts - {k'});
    if k' != k {
      TotalCountRemove(counts - {k'}, k);
      TotalCountRemove(counts - {k}, k');
      assert counts - {k'} - {k} == counts - {k} - {k'};
    }
  }

  /** Counting one more file adds one to the total. */
  lemma BumpAddsOne(counts: map<string, nat>, k: string)
    ensures TotalCount(Bump(counts, k)) == TotalCount(counts) + 1
  {
    var r := Bump(counts, k);
    TotalCountRemove(r, k);
    if k in counts {
      TotalCountRemove(counts, k);
      assert r - {k} == counts - {k};
    } else {
      assert r - {k} == counts;
    }
  }

  /** The per-key counts add up to the file count. */
  lemma {:induction false} CountsSumToTotal(walk: seq<Entry>)
    ensures TotalCount(GetFileStats(walk).extensionsCount) == GetFileStats(walk).totalFiles
  {
    if walk != [] {
      var init, e := walk[..|walk| - 1], walk[|walk| - 1];
      CountsSumToTotal(init);
      if e.size.Some? {
        BumpAddsOne(GetFileStats(init).extensionsCount, KeyOf(e));
      }
    }
  }

  /** Entries whose lookup fails leave no trace: the statistics are those of the successful entries alone. */
  lemma {:induction false} FailuresIgnored(walk: seq<Entry>)
    ensures GetFileStats(walk) == GetFileStats(Successful(walk))
  {
    if walk != [] {
      var init, e := walk[..|walk| - 1], walk[|walk| - 1];
      FailuresIgnored(init);
      var s := Successful(init);
      if e.size.Some? {
        assert Successful(walk) == s + [e];
        StatsOfAppend(s, e);
      } else {
        assert Successful(walk) == s;
      }
    }
  }

  /**
    When no lookup fails, the statistics and the unfiltered grouping agree:
    the same keys, each key's count the length of its list, and the file count
    the sum of the list lengths.
   */
  lemma StatsAgreeWithGrouping(walk: seq<Entry>)
    requires AllSized(walk)
    ensures GetFileStats(walk).extensionsCount.Keys == Grouping.GroupByExtension(walk, None).Keys
    ensures forall k :: k in GetFileStats(walk).extensionsCount ==>
      GetFileStats(walk).extensionsCount[k] == |Grouping.GroupByExtension(walk, None)[k]|
    ensures GetFileStats(walk).totalFiles == Grouping.TotalLength(Grouping.GroupByExtension(walk, None))
  {
    var counts, groups := GetFileStats(walk).extensionsCount, Grouping.GroupByExtension(walk, None);
    SuccessfulOfAllSized(walk);
    forall k
      ensures k in counts <==> k in groups
      ensures k in counts ==> counts[k] == |groups[k]|
    {
      CountsCharacterized(walk, k);
      Grouping.GroupingCharacterized(walk, None, k);
    }
    TotalsCharacterized(walk);
    Grouping.GroupSizesSumToWalk(walk);
  }

  /** An empty walk gives zero files, zero bytes and no keys. */
  lemma EmptyWalkStats()
    ensures GetFileStats([]) == FileStats(0, 0, map[])
  {
  }
}
