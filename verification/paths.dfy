/** POSIX `path.extname`: the extension of the last path segment, trailing separators ignored. */
module Paths {
  import opened Strings

  predicate IsSlash(c: char) { c == '/' }
  predicate NotSlash(c: char) { c != '/' }
  predicate NotDot(c: char) { c != '.' }

  /** The path with its trailing separators removed. */
  function TrimTrailingSlashes(p: string): (r: string)
    ensures |r| <= |p| && r == p[..|r|]
    ensures forall i :: |r| <= i < |p| ==> p[i] == '/'
    ensures |r| > 0 ==> r[|r| - 1] != '/'
  {
    DropLast(p, SuffixRun(p, IsSlash))
  }

  /** Everything after the last separator. */
  function AfterLastSlash(t: string): (r: string)
    ensures '/' !in r
    ensures EndsWith(t, r)
    ensures |r| < |t| ==> t[|t| - |r| - 1] == '/'
  {
    t[|t| - SuffixRun(t, NotSlash)..]
  }

  /** The last segment of the path once trailing separators are removed. */
  function LastSegment(p: string): string {
    AfterLastSlash(TrimTrailingSlashes(p))
  }

  /** The extension of one segment: from its last `.` to its end, or empty when the
      segment has no dot, when its last dot leads it, or when it is `..`. */
  function SegmentExt(b: string): (r: string)
    ensures r == "" || (r[0] == '.' && '.' !in r[1..])
    ensures '/' in r ==> '/' in b
    ensures EndsWith(b, r)
    ensures r != "" ==> |r| < |b|
  {
    var n := SuffixRun(b, NotDot);
    if n == |b| || n == |b| - 1 || b == ".." then ""
    else
      var k := |b| - n - 1;
      var r := b[k..];
      assert r[0] == '.';
      assert forall i :: 0 <= i < |r| - 1 ==> r[1..][i] == b[k + 1 + i];
      assert forall i :: 0 <= i < |r| ==> r[i] == b[k + i];
      r
  }

  /** `path.extname(p)` on POSIX. */
  function ExtName(p: string): (r: string)
    ensures r == "" || (r[0] == '.' && '.' !in r[1..])
    ensures '/' !in r
    ensures EndsWith(LastSegment(p), r)
    ensures r != "" ==> |r| < |LastSegment(p)|
  {
    SegmentExt(LastSegment(p))
  }

  lemma TrimAppendedSlashes(base: string, trailing: nat)
    requires base == "" || base[|base| - 1] != '/'
    ensures TrimTrailingSlashes(base + seq(trailing, _ => '/')) == base
  {
    var slashes := seq(trailing, _ => '/');
    SuffixRunOfAppend(base, slashes, IsSlash);
    Peel(base, slashes);
  }

  lemma AfterLastSlashOfJoin(dir: string, name: string)
    requires dir == "" || dir[|dir| - 1] == '/'
    requires '/' !in name
    ensures AfterLastSlash(dir + name) == name
  {
    assert forall i :: 0 <= i < |name| ==> NotSlash(name[i]);
    SuffixRunOfAppend(dir, name, NotSlash);
  }

  lemma SegmentExtOfName(stem: string, ext: string)
    requires stem != ""
    requires '.' !in ext
    requires !(stem == "." && ext == "")
    ensures SegmentExt(stem + "." + ext) == "." + ext
  {
    var b := stem + "." + ext;
    assert b == (stem + ".") + ext;
    assert forall i :: 0 <= i < |ext| ==> NotDot(ext[i]);
    SuffixRunOfAppend(stem + ".", ext, NotDot);
    assert b[|stem|..] == "." + ext;
    assert b[..|stem|] == stem;
    assert |b| == 2 && b[0] == '.' ==> stem == "." && ext == "";
  }

  /** A file name whose last segment is `stem.ext` has extension `.ext`, wherever it lives
      and however many separators follow it. */
  lemma ExtNameOfFileName(dir: string, stem: string, ext: string, trailing: nat)
    requires dir == "" || dir[|dir| - 1] == '/'
    requires stem != "" && '/' !in stem
    requires '/' !in ext && '.' !in ext
    requires !(stem == "." && ext == "")
    ensures ExtName(dir + stem + "." + ext + seq(trailing, _ => '/')) == "." + ext
  {
    var name := stem + "." + ext;
    assert name[|name| - 1] != '/' by {
      if ext == "" { assert name[|name| - 1] == '.'; }
      else { assert name[|name| - 1] == ext[|ext| - 1]; }
    }
    assert '/' !in name;
    var p := dir + stem + "." + ext + seq(trailing, _ => '/');
    assert p == (dir + name) + seq(trailing, _ => '/');
    assert (dir + name)[|dir + name| - 1] == name[|name| - 1];
    TrimAppendedSlashes(dir + name, trailing);
    AfterLastSlashOfJoin(dir, name);
    assert LastSegment(p) == name;
    SegmentExtOfName(stem, ext);
  }

  /** A segment without any dot has no extension. */
  lemma ExtNameWithoutDot(p: string)
    requires '.' !in LastSegment(p)
    ensures ExtName(p) == ""
  {
    var b := LastSegment(p);
    SuffixRunOfAppend([], b, NotDot);
    assert [] + b == b;
  }

  /** The parent-directory segment `..` has no extension, wherever it lives and however
      many separators follow it. */
  lemma ExtNameOfParent(dir: string, trailing: nat)
    requires dir == "" || dir[|dir| - 1] == '/'
    ensures ExtName(dir + ".." + seq(trailing, _ => '/')) == ""
  {
    var p := dir + ".." + seq(trailing, _ => '/');
    assert (dir + "..")[|dir + ".."| - 1] == '.';
    TrimAppendedSlashes(dir + "..", trailing);
    AfterLastSlashOfJoin(dir, "..");
    assert LastSegment(p) == "..";
  }
}
