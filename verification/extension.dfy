/**
  The extension key of a file name: `os.path.splitext(name)[1].lower()`,
  with the POSIX separator '/' and extension separator '.', and with
  lower-casing restricted to ASCII letters.
 */
module Extension {

  /** Index of the last occurrence of `c` in `s`, or -1 when there is none (`str.rfind`). */
  function RFind(s: string, c: char): (r: int)
    ensures -1 <= r < |s|
    ensures r >= 0 ==> s[r] == c
    ensures forall k :: r < k < |s| ==> s[k] != c
  {
    if |s| == 0 then -1
    else if s[|s| - 1] == c then |s| - 1
    else RFind(s[..|s| - 1], c)
  }

  /** Every character of `s` is a dot (vacuously true of the empty string). */
  predicate OnlyDots(s: string) {
    forall k :: 0 <= k < |s| ==> s[k] == '.'
  }

  /** Has an extension: some non-dot character of the last path component is followed later by a dot. */
  ghost predicate HasExtension(p: string) {
    exists i, j :: 0 <= i < j < |p| && p[i] != '.' && p[j] == '.' && NoSeparatorFrom(p, i)
  }

  ghost predicate NoSeparatorFrom(p: string, i: int) {
    forall k :: 0 <= i <= k < |p| ==> p[k] != '/'
  }

  /** Shape of an extension: empty, or a dot followed by characters that are neither dots nor separators. */
  predicate WellFormedExtension(x: string) {
    x == [] || (x[0] == '.' && forall k :: 0 < k < |x| ==> x[k] != '.' && x[k] != '/')
  }

  /**
    `posixpath.splitext`: split `p` at its last dot, unless that dot lies
    before the last separator or only dots precede it in the last component,
    in which case the extension is empty.
   */
  function SplitExt(p: string): (r: (string, string))
    ensures r.0 + r.1 == p
    ensures WellFormedExtension(r.1)
    ensures r.1 != [] <==> HasExtension(p)
  {
    var sepIndex := RFind(p, '/');
    var dotIndex := RFind(p, '.');
    SplitsAtLastDot(p, sepIndex, dotIndex);
    if dotIndex > sepIndex && !OnlyDots(p[sepIndex + 1..dotIndex]) then
      (p[..dotIndex], p[dotIndex..])
    else
      (p, [])
  }

  /**
    The test `splitext` makes on the last separator and the last dot is
    exactly "has an extension", and a last dot after the last separator
    starts a well-formed extension.
   */
  lemma SplitsAtLastDot(p: string, sepIndex: int, dotIndex: int)
    requires sepIndex == RFind(p, '/') && dotIndex == RFind(p, '.')
    ensures dotIndex > sepIndex && !OnlyDots(p[sepIndex + 1..dotIndex]) <==> HasExtension(p)
    ensures dotIndex > sepIndex ==> WellFormedExtension(p[dotIndex..])
  {
    if dotIndex > sepIndex && !OnlyDots(p[sepIndex + 1..dotIndex]) {
      var i :| sepIndex + 1 <= i < dotIndex && p[i] != '.';
      assert NoSeparatorFrom(p, i);
    }
    if HasExtension(p) {
      var i, j :| 0 <= i < j < |p| && p[i] != '.' && p[j] == '.' && NoSeparatorFrom(p, i);
      assert sepIndex < i <= j <= dotIndex;
      assert p[sepIndex + 1..dotIndex][i - sepIndex - 1] == p[i];
    }
  }

  /** ASCII lower-casing of one character. */
  function LowerChar(c: char): (r: char)
    ensures 'A' <= c <= 'Z' ==> r as int == c as int + 32
    ensures !('A' <= c <= 'Z') ==> r == c
  {
    if 'A' <= c <= 'Z' then (c as int + 32) as char else c
  }

  /** No ASCII capital letter occurs in `s`. */
  predicate IsLower(s: string) {
    forall k :: 0 <= k < |s| ==> !('A' <= s[k] <= 'Z')
  }

  /** `str.lower()` restricted to ASCII letters. */
  function Lower(s: string): (r: string)
    ensures |r| == |s|
    ensures IsLower(r)
    ensures forall k :: 0 <= k < |s| ==> r[k] == LowerChar(s[k])
  {
    if s == [] then [] else [LowerChar(s[0])] + Lower(s[1..])
  }

  /** The grouping key of a file name: its lower-cased extension. */
  function ExtensionKey(name: string): (r: string)
    ensures WellFormedExtension(r)
    ensures IsLower(r)
    ensures r != [] <==> HasExtension(name)
  {
    Lower(SplitExt(name).1)
  }

  /** Lower-casing twice is lower-casing once. */
  lemma {:induction false} LowerIdempotent(s: string)
    ensures Lower(Lower(s)) == Lower(s)
  {
    if s != [] {
      LowerIdempotent(s[1..]);
    }
  }

  /** Lower-casing leaves a string without capitals unchanged. */
  lemma LowerOfLowercase(s: string)
    requires IsLower(s)
    ensures Lower(s) == s
  {
  }

  /** A name made only of dots, such as `...`, or a leading-dot name like `.bashrc`, has an empty key. */
  lemma DotOnlyPrefixHasNoKey(name: string)
    requires |name| > 0 && name[0] == '.'
    requires OnlyDots(name[..RFind(name, '.')])
    ensures ExtensionKey(name) == []
  {
  }

  /**
    A name that does not start with a dot and has no separator is split at
    its last dot: `test.py` gives `.py`, `a.b.c` gives `.c`, `a.` gives `.`.
   */
  lemma LastDotKey(stem: string, ext: string)
    requires stem != [] && stem[0] != '.' && '/' !in stem
    requires '.' !in ext && '/' !in ext
    ensures ExtensionKey(stem + "." + ext) == Lower("." + ext)
  {
    var p := stem + "." + ext;
    assert p[0] != '.' && p[|stem|] == '.';
    assert NoSeparatorFrom(p, 0);
    assert HasExtension(p);
    var (a, b) := SplitExt(p);
    assert p[|a|] == b[0];
    assert b == p[|stem|..];
    assert p[|stem|..] == "." + ext;
  }

  /** A name without a dot has an empty key. */
  lemma NoDotKey(name: string)
    requires '.' !in name
    ensures ExtensionKey(name) == []
  {
  }

  /** A leading dot does not start an extension. */
  lemma HiddenFileExample()
    ensures ExtensionKey(".bashrc") == ""
  {
    assert ".bashrc"[0] == '.';
    assert forall k | 0 < k < 7 :: ".bashrc"[k] != '.';
  }

  /** Only the last dot starts the extension. */
  lemma LastDotExample()
    ensures ExtensionKey("a.b.c") == ".c"
  {
    LastDotKey("a.b", "c");
    assert "a.b" + "." + "c" == "a.b.c";
    LowerOfLowercase(".c");
  }

  /** A trailing dot is an extension of its own. */
  lemma TrailingDotExample()
    ensures ExtensionKey("a.") == "."
  {
    LastDotKey("a", "");
    assert "a" + "." + "" == "a.";
    LowerOfLowercase(".");
  }

  /** The extension is lower-cased; the name is not. */
  lemma UpperCaseExample()
    ensures ExtensionKey("b.TXT") == ".txt"
  {
    LastDotKey("b", "TXT");
    assert "b" + "." + "TXT" == "b.TXT";
    var k := Lower(".TXT");
    assert k[0] == '.' && k[1] == 't' && k[2] == 'x' && k[3] == 't';
  }
}
