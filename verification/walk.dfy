/**
  The directory walk as data. Every scan of `FileAnalyzer` iterates the files
  `os.walk` reports, one `(root, name)` pair at a time, and some of them ask
  `os.path.getsize` for the file's size, which may raise `OSError`. The model
  takes the result of that traversal as an input sequence of entries; the
  filters below are the reference descriptions the scans are proved against.
 */
module Walk {
  import opened Wrappers
  import Extension

  /** The path `os.path.join(root, name)`, kept as the opaque pair it is built from. */
  datatype Path = Path(root: string, name: string)

  /**
    One file reported by the walk: the directory it was found in, its base
    name, and the outcome of the size lookup (`None` when it raised `OSError`).
   */
  datatype Entry = Entry(root: string, name: string, size: Option<nat>)

  function PathOf(e: Entry): Path {
    Path(e.root, e.name)
  }

  /** The grouping key of an entry, computed from its base name only. */
  function KeyOf(e: Entry): string {
    Extension.ExtensionKey(e.name)
  }

  /** The size lookup of every entry succeeds. */
  predicate AllSized(walk: seq<Entry>) {
    forall i :: 0 <= i < |walk| ==> walk[i].size.Some?
  }

  /** The entries whose size lookup succeeded, in walk order. */
  function Successful(walk: seq<Entry>): (r: seq<Entry>)
    ensures |r| <= |walk|
    ensures forall e :: e in r <==> e in walk && e.size.Some?
    ensures AllSized(r)
  {
    if walk == [] then []
    else
      assert walk == walk[..|walk| - 1] + [walk[|walk| - 1]];
      var last := walk[|walk| - 1];
      Successful(walk[..|walk| - 1]) + (if last.size.Some? then [last] else [])
  }

  /** The entries with extension key `k`, in walk order. */
  function WithKey(walk: seq<Entry>, k: string): (r: seq<Entry>)
    ensures |r| <= |walk|
    ensures forall e :: e in r <==> e in walk && KeyOf(e) == k
  {
    if walk == [] then []
    else
      assert walk == walk[..|walk| - 1] + [walk[|walk| - 1]];
      var last := walk[|walk| - 1];
      WithKey(walk[..|walk| - 1], k) + (if KeyOf(last) == k then [last] else [])
  }

  lemma WithKeyOfAppend(walk: seq<Entry>, e: Entry, k: string)
    ensures WithKey(walk + [e], k) == WithKey(walk, k) + (if KeyOf(e) == k then [e] else [])
  {
    assert (walk + [e])[..|walk|] == walk;
  }

  /** The paths of `es`, in order. */
  function Paths(es: seq<Entry>): (r: seq<Path>)
    ensures |r| == |es|
    ensures forall i :: 0 <= i < |es| ==> r[i] == PathOf(es[i])
  {
    if es == [] then [] else [PathOf(es[0])] + Paths(es[1..])
  }

  /** Size of an entry as it contributes to a byte total: nothing when the lookup failed. */
  function SizeOrZero(e: Entry): nat {
    match e.size
    case Some(n) => n
    case None => 0
  }

  /** Total size, in bytes, of the entries whose size lookup succeeded. */
  function SizeSum(walk: seq<Entry>): nat {
    if walk == [] then 0 else SizeSum(walk[..|walk| - 1]) + SizeOrZero(walk[|walk| - 1])
  }

  /** Removing the failed entries leaves the byte total unchanged. */
  lemma {:induction false} SizeSumOfSuccessful(walk: seq<Entry>)
    ensures SizeSum(Successful(walk)) == SizeSum(walk)
  {
    if walk != [] {
      var init, last := walk[..|walk| - 1], walk[|walk| - 1];
      SizeSumOfSuccessful(init);
      var s := Successful(init);
      if last.size.Some? {
        assert Successful(walk) == s + [last];
        assert (s + [last])[..|s|] == s;
      } else {
        assert Successful(walk) == s;
      }
    }
  }

  /** When no size lookup fails, nothing is filtered out. */
  lemma {:induction false} SuccessfulOfAllSized(walk: seq<Entry>)
    requires AllSized(walk)
    ensures Successful(walk) == walk
  {
    if walk != [] {
      var init := walk[..|walk| - 1];
      assert AllSized(init);
      SuccessfulOfAllSized(init);
      assert walk == init + [walk[|walk| - 1]];
    }
  }
}
