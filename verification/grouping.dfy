/**
  `FileAnalyzer.get_files_by_extension`: the walk's paths grouped by
  extension key, optionally restricted to a list of keys. The scan never asks
  for a file's size, so entries whose size lookup fails are grouped too.
 */
module Grouping {
  import opened Wrappers
  import opened Walk

  /** The grouping of paths by extension key. */
  type Groups = map<string, seq<Path>>

  /** `extensions is None or ext in extensions`: the optional filter is a list of keys. */
  predicate Admits(filter: Option<seq<string>>, k: string) {
    filter.None? || k in filter.value
  }

  /** `files_by_ext[ext].append(file_path)` on a `defaultdict(list)`. */
  function Append(g: Groups, k: string, p: Path): (r: Groups)
    ensures r.Keys == g.Keys + {k}
    ensures r[k] == (if k in g then g[k] else []) + [p]
    ensures forall k' :: k' in g && k' != k ==> r[k'] == g[k']
  {
    g[k := (if k in g then g[k] else []) + [p]]
  }

  /**
    The grouping after the scan has seen `walk`: each entry admitted by the
    filter is appended to the list of its key, and a key exists only once a
    path has been appended to it.
   */
  function GroupByExtension(walk: seq<Entry>, filter: Option<seq<string>>): (r: Groups)
    ensures forall k :: k in r ==> Admits(filter, k) && r[k] != []
  {
    if walk == [] then map[]
    else
      var acc := GroupByExtension(walk[..|walk| - 1], filter);
      var e := walk[|walk| - 1];
      if Admits(filter, KeyOf(e)) then Append(acc, KeyOf(e), PathOf(e)) else acc
  }

  lemma GroupOfAppend(walk: seq<Entry>, e: Entry, filter: Option<seq<string>>)
    ensures GroupByExtension(walk + [e], filter)
      == if Admits(filter, KeyOf(e)) then Append(GroupByExtension(walk, filter), KeyOf(e), PathOf(e)) else GroupByExtension(walk, filter)
  {
    assert (walk + [e])[..|walk|] == walk;
  }

  /**
    Every key admitted by the filter that some entry carries is present, no
    other key is, and each key's list holds the paths of exactly the entries
    with that key, in walk order.
   */
  lemma {:induction false} GroupingCharacterized(walk: seq<Entry>, filter: Option<seq<string>>, k: string)
    ensures k in GroupByExtension(walk, filter) <==> Admits(filter, k) && WithKey(walk, k) != []
    ensures k in GroupByExtension(walk, filter) ==> GroupByExtension(walk, filter)[k] == Paths(WithKey(walk, k))
  {
    if walk != [] {
      var init, e := walk[..|walk| - 1], walk[|walk| - 1];
      GroupingCharacterized(init, filter, k);
      var acc, before := GroupByExtension(init, filter), WithKey(init, k);
      if KeyOf(e) == k {
        assert WithKey(walk, k) == before + [e];
        if Admits(filter, k) {
          assert GroupByExtension(walk, filter) == Append(acc, k, PathOf(e));
          assert k !in acc ==> before == [];
          PathsAppend(before, e);
        } else {
          assert GroupByExtension(walk, filter) == acc;
        }
      } else {
        assert WithKey(walk, k) == before;
      }
    }
  }

  lemma PathsAppend(es: seq<Entry>, e: Entry)
    ensures Paths(es + [e]) == Paths(es) + [PathOf(e)]
  {
  }

  /** Every walked entry's path is in the group of its own key when there is no filter. */
  lemma EveryEntryGrouped(walk: seq<Entry>, i: int)
    requires 0 <= i < |walk|
    ensures KeyOf(walk[i]) in GroupByExtension(walk, None)
    ensures PathOf(walk[i]) in GroupByExtension(walk, None)[KeyOf(walk[i])]
  {
    var k := KeyOf(walk[i]);
    GroupingCharacterized(walk, None, k);
    assert walk[i] in WithKey(walk, k);
    var j :| 0 <= j < |WithKey(walk, k)| && WithKey(walk, k)[j] == walk[i];
    assert Paths(WithKey(walk, k))[j] == PathOf(walk[i]);
  }

  /** A filtered grouping is the unfiltered one restricted to the keys the filter lists. */
  lemma FilteredIsRestriction(walk: seq<Entry>, keys: seq<string>)
    ensures GroupByExtension(walk, Some(keys)) == map k | k in GroupByExtension(walk, None) && k in keys :: GroupByExtension(walk, None)[k]
  {
    var f, u := GroupByExtension(walk, Some(keys)), GroupByExtension(walk, None);
    forall k
      ensures k in f <==> k in u && k in keys
      ensures k in f ==> f[k] == u[k]
    {
      GroupingCharacterized(walk, Some(keys), k);
      GroupingCharacterized(walk, None, k);
    }
  }

  /** A one-key filter such as `['.py']` yields exactly that key, when some entry carries it. */
  lemma SingleKeyFilter(walk: seq<Entry>, k: string, i: int)
    requires 0 <= i < |walk| && KeyOf(walk[i]) == k
    ensures GroupByExtension(walk, Some([k])).Keys == {k}
    ensures GroupByExtension(walk, Some([k]))[k] == Paths(WithKey(walk, k))
  {
    var g := GroupByExtension(walk, Some([k]));
    GroupingCharacterized(walk, Some([k]), k);
    assert walk[i] in WithKey(walk, k);
  }

  /** Sum of the lengths of all groups. */
  ghost function TotalLength(g: Groups): nat
    decreases |g|
  {
    if g == map[] then 0
    else
      var k :| k in g;
      |g[k]| + TotalLength(g - {k})
  }

  /** Any key may be taken out first: the total does not depend on the order keys are visited in. */
  lemma {:induction false} TotalLengthRemove(g: Groups, k: string)
    requires k in g
    ensures TotalLength(g) == |g[k]| + TotalLength(g - {k})
    decreases |g|
  {
    var k' :| k' in g && TotalLength(g) == |g[k']| + TotalLength(g - {k'});
    if k' != k {
      TotalLengthRemove(g - {k'}, k);
      TotalLengthRemove(g - {k}, k');
      assert g - {k'} - {k} == g - {k} - {k'};
    }
  }

  /** Appending one path adds one to the total. */
  lemma AppendAddsOne(g: Groups, k: string, p: Path)
    ensures TotalLength(Append(g, k, p)) == TotalLength(g) + 1
  {
    var r := Append(g, k, p);
    TotalLengthRemove(r, k);
    if k in g {
      TotalLengthRemove(g, k);
      assert r - {k} == g - {k};
    } else {
      assert r - {k} == g;
    }
  }

  /** With no filter, group sizes add up to the number of walked entries, failed lookups included. */
  lemma {:induction false} GroupSizesSumToWalk(walk: seq<Entry>)
    ensures TotalLength(GroupByExtension(walk, None)) == |walk|
  {
    if walk != [] {
      var init, e := walk[..|walk| - 1], walk[|walk| - 1];
      GroupSizesSumToWalk(init);
      AppendAddsOne(GroupByExtension(init, None), KeyOf(e), PathOf(e));
    }
  }

  /** An empty walk gives an empty grouping, whatever the filter. */
  lemma EmptyWalkGroups(filter: Option<seq<string>>)
    ensures GroupByExtension([], filter) == map[]
  {
  }
}
