/**
  `FileAnalyzer.find_large_files`: the files whose size is at least a
  threshold, ordered by size, largest first, with files of equal size left in
  walk order (Python's `sorted(..., reverse=True)` is stable).
 */
module LargeFiles {
  import opened Wrappers
  import opened Walk

  /** One element of the result; the rounded `size_mb` field is not modelled. */
  datatype LargeFile = LargeFile(path: Path, sizeBytes: nat)

  /** `x` was produced from a walk entry whose lookup succeeded with a size of at least `threshold`. */
  ghost predicate FromWalk(walk: seq<Entry>, threshold: nat, x: LargeFile) {
    exists i :: 0 <= i < |walk| && walk[i].size == Some(x.sizeBytes) && x.path == PathOf(walk[i]) && x.sizeBytes >= threshold
  }

  /** The list the scan builds before sorting: qualifying files in walk order. */
  function Candidates(walk: seq<Entry>, threshold: nat): (r: seq<LargeFile>)
    ensures forall x :: x in r <==> FromWalk(walk, threshold, x)
    ensures forall i :: 0 <= i < |r| ==> r[i].sizeBytes >= threshold
  {
    if walk == [] then []
    else
      var init, e := walk[..|walk| - 1], walk[|walk| - 1];
      var before := Candidates(init, threshold);
      assert forall x :: FromWalk(init, threshold, x) ==> FromWalk(walk, threshold, x) by {
        forall x | FromWalk(init, threshold, x) ensures FromWalk(walk, threshold, x) {
          var i :| 0 <= i < |init| && init[i].size == Some(x.sizeBytes) && x.path == PathOf(init[i]) && x.sizeBytes >= threshold;
          assert walk[i] == init[i];
        }
      }
      match e.size
      case Some(n) =>
        if n >= threshold then
          assert FromWalk(walk, threshold, LargeFile(PathOf(e), n)) by {
            assert walk[|walk| - 1] == e;
          }
          before + [LargeFile(PathOf(e), n)]
        else before
      case None => before
  }

  /** Non-increasing by size. */
  predicate SortedDesc(s: seq<LargeFile>) {
    forall i, j :: 0 <= i < j < |s| ==> s[i].sizeBytes >= s[j].sizeBytes
  }

  /** The elements of `s` whose size is `v`, in their order in `s`. */
  function WithSize(s: seq<LargeFile>, v: nat): (r: seq<LargeFile>)
    ensures |r| <= |s|
  {
    if s == [] then [] else (if s[0].sizeBytes == v then [s[0]] else []) + WithSize(s[1..], v)
  }

  /** `WithSize` keeps exactly the files of the given size. */
  lemma {:induction false} WithSizeMembers(s: seq<LargeFile>, v: nat, x: LargeFile)
    ensures x in WithSize(s, v) <==> x in s && x.sizeBytes == v
  {
    if s != [] {
      WithSizeMembers(s[1..], v, x);
      assert s == [s[0]] + s[1..];
    }
  }

  /** One step of `WithSize`: the head is kept when it has the size. */
  lemma WithSizeTail(s: seq<LargeFile>, v: nat)
    requires s != []
    ensures WithSize(s, v) == (if s[0].sizeBytes == v then [s[0]] else []) + WithSize(s[1..], v)
  {
  }

  /** No file of a size-sorted list is larger than its head. */
  lemma SortedHeadIsMax(s: seq<LargeFile>, x: LargeFile)
    requires SortedDesc(s) && x in s
    ensures x.sizeBytes <= s[0].sizeBytes
  {
    var i :| 0 <= i < |s| && s[i] == x;
    if i > 0 {
      assert s[0].sizeBytes >= s[i].sizeBytes;
    }
  }

  /**
    `s` and `t` hold the same files, and files of equal size appear in the
    same relative order in both: `t` is a stable rearrangement of `s`.
   */
  ghost predicate StablePermutation(s: seq<LargeFile>, t: seq<LargeFile>) {
    && multiset(s) == multiset(t)
    && forall v :: WithSize(s, v) == WithSize(t, v)
  }

  /** A file no smaller than every file of a sorted list can go in front of it. */
  lemma SortedCons(h: LargeFile, t: seq<LargeFile>)
    requires SortedDesc(t)
    requires forall y :: y in t ==> h.sizeBytes >= y.sizeBytes
    ensures SortedDesc([h] + t)
  {
    forall i, j | 0 <= i < j < |[h] + t|
      ensures ([h] + t)[i].sizeBytes >= ([h] + t)[j].sizeBytes
    {
      if i == 0 {
        assert ([h] + t)[j] in t;
      } else {
        assert ([h] + t)[i] == t[i - 1] && ([h] + t)[j] == t[j - 1];
      }
    }
  }

  /** Inserts `x` into a list sorted by size, in front of the files no larger than it. */
  function Insert(x: LargeFile, s: seq<LargeFile>): (r: seq<LargeFile>)
    ensures multiset(r) == multiset(s) + multiset{x}
    ensures |r| == |s| + 1
    ensures SortedDesc(s) ==> SortedDesc(r)
  {
    if s == [] || x.sizeBytes >= s[0].sizeBytes then
      assert SortedDesc(s) ==> SortedDesc([x] + s) by {
        if SortedDesc(s) {
          SortedCons(x, s);
        }
      }
      [x] + s
    else
      assert s == [s[0]] + s[1..];
      var rest := Insert(x, s[1..]);
      assert SortedDesc(s) ==> SortedDesc([s[0]] + rest) by {
        if SortedDesc(s) {
          assert SortedDesc(s[1..]);
          SortedBehindHead(x, s, rest);
        }
      }
      [s[0]] + rest
  }

  /** The head of a sorted list may stay in front of the tail with a smaller file inserted. */
  lemma SortedBehindHead(x: LargeFile, s: seq<LargeFile>, rest: seq<LargeFile>)
    requires s != [] && SortedDesc(s) && x.sizeBytes < s[0].sizeBytes
    requires multiset(rest) == multiset(s[1..]) + multiset{x}
    requires SortedDesc(rest)
    ensures SortedDesc([s[0]] + rest)
  {
    forall y | y in rest ensures s[0].sizeBytes >= y.sizeBytes {
      assert y in multiset(rest);
      if y != x {
        assert y in s[1..];
      }
    }
    SortedCons(s[0], rest);
  }

  /** `Insert` puts a file no smaller than the head in front. */
  lemma InsertInFront(x: LargeFile, s: seq<LargeFile>)
    requires s == [] || x.sizeBytes >= s[0].sizeBytes
    ensures Insert(x, s) == [x] + s
  {
  }

  /** `Insert` passes over a head larger than the file. */
  lemma InsertBehindHead(x: LargeFile, s: seq<LargeFile>)
    requires s != [] && x.sizeBytes < s[0].sizeBytes
    ensures Insert(x, s) == [s[0]] + Insert(x, s[1..])
  {
  }

  /** Inserting `x` in front of the files no larger than it keeps each size's files in order, `x` first among its own. */
  lemma {:induction false} WithSizeInsert(x: LargeFile, s: seq<LargeFile>, v: nat)
    ensures WithSize(Insert(x, s), v) == (if x.sizeBytes == v then [x] else []) + WithSize(s, v)
  {
    if s == [] || x.sizeBytes >= s[0].sizeBytes {
      WithSizeInFront(x, s, v);
    } else {
      WithSizeInsert(x, s[1..], v);
      WithSizeBehindHead(x, s, v);
      WithSizeTail(s, v);
      ConcatSwap(if s[0].sizeBytes == v then [s[0]] else [], if x.sizeBytes == v then [x] else [], WithSize(s[1..], v));
    }
  }

  /** When one of two prefixes is empty, they may be put on in either order. */
  lemma ConcatSwap<T>(a: seq<T>, b: seq<T>, t: seq<T>)
    requires a == [] || b == []
    ensures a + (b + t) == b + (a + t)
  {
    if a == [] {
      assert a + (b + t) == b + t == b + (a + t);
    } else {
      assert b + (a + t) == a + t == a + (b + t);
    }
  }

  /** Put in front, the file heads its own size's files. */
  lemma WithSizeInFront(x: LargeFile, s: seq<LargeFile>, v: nat)
    requires s == [] || x.sizeBytes >= s[0].sizeBytes
    ensures WithSize(Insert(x, s), v) == (if x.sizeBytes == v then [x] else []) + WithSize(s, v)
  {
    InsertInFront(x, s);
    WithSizeTail([x] + s, v);
    assert ([x] + s)[0] == x && ([x] + s)[1..] == s;
  }

  /** Passing over the head, the insertion keeps the head's place among its size's files. */
  lemma WithSizeBehindHead(x: LargeFile, s: seq<LargeFile>, v: nat)
    requires s != [] && x.sizeBytes < s[0].sizeBytes
    ensures WithSize(Insert(x, s), v) == (if s[0].sizeBytes == v then [s[0]] else []) + WithSize(Insert(x, s[1..]), v)
  {
    InsertBehindHead(x, s);
    var rest := Insert(x, s[1..]);
    WithSizeTail([s[0]] + rest, v);
    assert ([s[0]] + rest)[0] == s[0] && ([s[0]] + rest)[1..] == rest;
  }

  /** Stable sort by size, largest first: an insertion sort, each file placed ahead of the later ones of equal size. */
  function SortBySizeDesc(s: seq<LargeFile>): (r: seq<LargeFile>)
    ensures SortedDesc(r)
    ensures multiset(r) == multiset(s)
    ensures |r| == |s|
  {
    if s == [] then []
    else
      assert s == [s[0]] + s[1..];
      Insert(s[0], SortBySizeDesc(s[1..]))
  }

  /** The sort is stable: files of equal size keep their relative order. */
  lemma {:induction false} SortIsStable(s: seq<LargeFile>, v: nat)
    ensures WithSize(SortBySizeDesc(s), v) == WithSize(s, v)
  {
    if s != [] {
      SortIsStable(s[1..], v);
      WithSizeInsert(s[0], SortBySizeDesc(s[1..]), v);
    }
  }

  /** Sorted and stable: the result is a stable rearrangement of the input, in non-increasing size order. */
  lemma SortIsStableSort(s: seq<LargeFile>)
    ensures SortedDesc(SortBySizeDesc(s))
    ensures StablePermutation(s, SortBySizeDesc(s))
  {
    forall v
      ensures WithSize(s, v) == WithSize(SortBySizeDesc(s), v)
    {
      SortIsStable(s, v);
    }
  }

  /** A file of size `v` in `s` puts a file of size `v` at the head of `WithSize(s, v)`. */
  lemma WithSizeNonEmpty(s: seq<LargeFile>, i: int)
    requires 0 <= i < |s|
    ensures WithSize(s, s[i].sizeBytes) != []
  {
    WithSizeMembers(s, s[i].sizeBytes, s[i]);
  }

  /**
    There is only one stable descending order: two lists that are sorted by
    size and agree on the order of every size's files are equal. Hence any
    stable sort, Python's included, computes `SortBySizeDesc`.
   */
  lemma {:induction false} StableSortUnique(a: seq<LargeFile>, b: seq<LargeFile>)
    requires SortedDesc(a) && SortedDesc(b)
    requires forall v :: WithSize(a, v) == WithSize(b, v)
    ensures a == b
    decreases |a|
  {
    if a == [] {
      if b != [] {
        WithSizeNonEmpty(b, 0);
      }
    } else if b == [] {
      WithSizeNonEmpty(a, 0);
    } else {
      HeadSizesAgree(a, b);
      var va := a[0].sizeBytes;
      WithSizeTail(a, va);
      WithSizeTail(b, va);
      assert WithSize(a, va) == WithSize(b, va);
      assert a[0] == WithSize(a, va)[0] == WithSize(b, va)[0] == b[0];
      forall v
        ensures WithSize(a[1..], v) == WithSize(b[1..], v)
      {
        WithSizeTail(a, v);
        WithSizeTail(b, v);
        assert WithSize(a, v) == WithSize(b, v);
        if v == va {
          assert WithSize(a[1..], v) == WithSize(a, v)[1..];
          assert WithSize(b[1..], v) == WithSize(b, v)[1..];
        } else {
          assert WithSize(a, v) == [] + WithSize(a[1..], v) == WithSize(a[1..], v);
          assert WithSize(b, v) == [] + WithSize(b[1..], v) == WithSize(b[1..], v);
        }
      }
      StableSortUnique(a[1..], b[1..]);
      assert a == [a[0]] + a[1..] && b == [b[0]] + b[1..];
    }
  }

  /** Two size-sorted lists that agree on every size's files start with files of the same size. */
  lemma HeadSizesAgree(a: seq<LargeFile>, b: seq<LargeFile>)
    requires a != [] && b != []
    requires SortedDesc(a) && SortedDesc(b)
    requires forall v :: WithSize(a, v) == WithSize(b, v)
    ensures a[0].sizeBytes == b[0].sizeBytes
  {
    var va, vb := a[0].sizeBytes, b[0].sizeBytes;
    WithSizeMembers(a, va, a[0]);
    assert WithSize(a, va) == WithSize(b, va);
    WithSizeMembers(b, va, a[0]);
    SortedHeadIsMax(b, a[0]);
    WithSizeMembers(b, vb, b[0]);
    assert WithSize(a, vb) == WithSize(b, vb);
    WithSizeMembers(a, vb, b[0]);
    SortedHeadIsMax(a, b[0]);
  }

  /** `find_large_files` with the threshold given in bytes. */
  function FindLargeFiles(walk: seq<Entry>, threshold: nat): (r: seq<LargeFile>)
    ensures SortedDesc(r)
    ensures forall x :: x in r <==> FromWalk(walk, threshold, x)
    ensures |r| == |Candidates(walk, threshold)|
  {
    var c := Candidates(walk, threshold);
    var r := SortBySizeDesc(c);
    assert forall x :: x in r <==> x in c by {
      forall x ensures x in r <==> x in c {
        assert x in r <==> x in multiset(r);
        assert x in c <==> x in multiset(c);
      }
    }
    r
  }

  /** The result is the walk's qualifying files, stably rearranged into non-increasing size order. */
  lemma FindLargeFilesIsStableSort(walk: seq<Entry>, threshold: nat)
    ensures StablePermutation(Candidates(walk, threshold), FindLargeFiles(walk, threshold))
  {
    SortIsStableSort(Candidates(walk, threshold));
  }

  /**
    Any list that is sorted by size and a stable rearrangement of the
    qualifying files is the result: the model does not depend on which stable
    sort produces it.
   */
  lemma FindLargeFilesUnique(walk: seq<Entry>, threshold: nat, t: seq<LargeFile>)
    requires SortedDesc(t)
    requires StablePermutation(Candidates(walk, threshold), t)
    ensures t == FindLargeFiles(walk, threshold)
  {
    var c := Candidates(walk, threshold);
    SortIsStableSort(c);
    StableSortUnique(t, FindLargeFiles(walk, threshold));
  }

  /** With a threshold of zero every file whose lookup succeeded is listed. */
  lemma {:induction false} ZeroThresholdListsAll(walk: seq<Entry>)
    ensures |FindLargeFiles(walk, 0)| == |Successful(walk)|
  {
    CandidatesAtZero(walk);
  }

  lemma {:induction false} CandidatesAtZero(walk: seq<Entry>)
    ensures |Candidates(walk, 0)| == |Successful(walk)|
  {
    if walk != [] {
      CandidatesAtZero(walk[..|walk| - 1]);
    }
  }

  /** An empty walk has no large files. */
  lemma EmptyWalkLargeFiles(threshold: nat)
    ensures FindLargeFiles([], threshold) == []
  {
  }
}
