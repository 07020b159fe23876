/**
  A concrete walk: `a.py` (15 bytes), `b.TXT` (20 bytes) and `c` (5 bytes)
  in one directory, and what the grouping and the statistics give for it.
 */
module Scenarios {
  import opened Wrappers
  import opened Walk
  import Extension
  import Grouping
  import Statistics

  lemma ScenarioKeys(d: string)
    ensures KeyOf(Entry(d, "a.py", Some(15))) == ".py"
    ensures KeyOf(Entry(d, "b.TXT", Some(20))) == ".txt"
    ensures KeyOf(Entry(d, "c", Some(5))) == ""
  {
    PythonKey();
    Extension.UpperCaseExample();
    Extension.NoDotKey("c");
  }

  lemma PythonKey()
    ensures Extension.ExtensionKey("a.py") == ".py"
  {
    Extension.LastDotKey("a", "py");
    assert "a" + "." + "py" == "a.py";
    Extension.LowerOfLowercase(".py");
  }

  lemma GroupOne(e0: Entry)
    requires KeyOf(e0) == ".py"
    ensures Grouping.GroupByExtension([e0], None) == map[".py" := [PathOf(e0)]]
  {
    Grouping.GroupOfAppend([], e0, None);
    assert [] + [e0] == [e0];
    var g1 := Grouping.GroupByExtension([e0], None);
    assert g1 == Grouping.Append(map[], ".py", PathOf(e0));
    assert g1.Keys == {".py"};
    assert g1[".py"] == [PathOf(e0)];
  }

  lemma GroupTwo(e0: Entry, e1: Entry)
    requires KeyOf(e0) == ".py" && KeyOf(e1) == ".txt"
    ensures Grouping.GroupByExtension([e0, e1], None) == map[".py" := [PathOf(e0)], ".txt" := [PathOf(e1)]]
  {
    GroupOne(e0);
    Grouping.GroupOfAppend([e0], e1, None);
    assert [e0] + [e1] == [e0, e1];
    var g1, g2 := Grouping.GroupByExtension([e0], None), Grouping.GroupByExtension([e0, e1], None);
    assert ".py" != ".txt";
    assert g2 == Grouping.Append(g1, ".txt", PathOf(e1));
    assert g2.Keys == {".py", ".txt"};
    assert g2[".txt"] == [PathOf(e1)];
    assert g2[".py"] == [PathOf(e0)];
  }

  lemma GroupThree(e0: Entry, e1: Entry, e2: Entry)
    requires KeyOf(e0) == ".py" && KeyOf(e1) == ".txt" && KeyOf(e2) == ""
    ensures Grouping.GroupByExtension([e0, e1, e2], None)
      == map[".py" := [PathOf(e0)], ".txt" := [PathOf(e1)], "" := [PathOf(e2)]]
  {
    GroupTwo(e0, e1);
    Grouping.GroupOfAppend([e0, e1], e2, None);
    assert [e0, e1] + [e2] == [e0, e1, e2];
    var g2, g3 := Grouping.GroupByExtension([e0, e1], None), Grouping.GroupByExtension([e0, e1, e2], None);
    assert ".py" != "" && ".txt" != "";
    assert g3 == Grouping.Append(g2, "", PathOf(e2));
    assert g3.Keys == {".py", ".txt", ""};
    assert g3[""] == [PathOf(e2)];
    assert g3[".py"] == [PathOf(e0)];
    assert g3[".txt"] == [PathOf(e1)];
  }

  /** Each file lands under its lower-cased extension, the file without one under the empty key, with its name as written. */
  lemma ScenarioGrouping(d: string)
    ensures Grouping.GroupByExtension([Entry(d, "a.py", Some(15)), Entry(d, "b.TXT", Some(20)), Entry(d, "c", Some(5))], None)
      == map[".py" := [Path(d, "a.py")], ".txt" := [Path(d, "b.TXT")], "" := [Path(d, "c")]]
  {
    ScenarioKeys(d);
    GroupThree(Entry(d, "a.py", Some(15)), Entry(d, "b.TXT", Some(20)), Entry(d, "c", Some(5)));
  }

  lemma CountOne(e0: Entry)
    requires KeyOf(e0) == ".py" && e0.size == Some(15)
    ensures Statistics.GetFileStats([e0]) == Statistics.FileStats(1, 15, map[".py" := 1])
  {
    Statistics.StatsOfAppend([], e0);
    assert [] + [e0] == [e0];
    var c1 := Statistics.GetFileStats([e0]).extensionsCount;
    assert c1 == Statistics.Bump(map[], ".py");
    assert c1.Keys == {".py"};
  }

  lemma CountTwo(e0: Entry, e1: Entry)
    requires KeyOf(e0) == ".py" && e0.size == Some(15)
    requires KeyOf(e1) == ".txt" && e1.size == Some(20)
    ensures Statistics.GetFileStats([e0, e1]) == Statistics.FileStats(2, 35, map[".py" := 1, ".txt" := 1])
  {
    CountOne(e0);
    Statistics.StatsOfAppend([e0], e1);
    assert [e0] + [e1] == [e0, e1];
    var c1, c2 := Statistics.GetFileStats([e0]).extensionsCount, Statistics.GetFileStats([e0, e1]).extensionsCount;
    assert ".py" != ".txt";
    assert c2 == Statistics.Bump(c1, ".txt");
    assert c2.Keys == {".py", ".txt"};
    assert c2[".py"] == 1;
  }

  lemma CountThree(e0: Entry, e1: Entry, e2: Entry)
    requires KeyOf(e0) == ".py" && e0.size == Some(15)
    requires KeyOf(e1) == ".txt" && e1.size == Some(20)
    requires KeyOf(e2) == "" && e2.size == Some(5)
    ensures Statistics.GetFileStats([e0, e1, e2]) == Statistics.FileStats(3, 40, map[".py" := 1, ".txt" := 1, "" := 1])
  {
    CountTwo(e0, e1);
    Statistics.StatsOfAppend([e0, e1], e2);
    assert [e0, e1] + [e2] == [e0, e1, e2];
    var c2, c3 := Statistics.GetFileStats([e0, e1]).extensionsCount, Statistics.GetFileStats([e0, e1, e2]).extensionsCount;
    assert ".py" != "" && ".txt" != "";
    assert c3 == Statistics.Bump(c2, "");
    assert c3.Keys == {".py", ".txt", ""};
    assert c3[".py"] == 1 && c3[".txt"] == 1;
  }

  /** Three files, forty bytes, one file per key. */
  lemma ScenarioStats(d: string)
    ensures Statistics.GetFileStats([Entry(d, "a.py", Some(15)), Entry(d, "b.TXT", Some(20)), Entry(d, "c", Some(5))])
      == Statistics.FileStats(3, 40, map[".py" := 1, ".txt" := 1, "" := 1])
  {
    ScenarioKeys(d);
    CountThree(Entry(d, "a.py", Some(15)), Entry(d, "b.TXT", Some(20)), Entry(d, "c", Some(5)));
  }
}
