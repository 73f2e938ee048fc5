/**
 * File-name manipulation: `os.path.splitext` on POSIX paths and the
 * extension remover that strips a second extension from gzip-compressed
 * names. The set of gzip extensions is a parameter: it is not among the
 * definitions this model has.
 */
module FileUtils {
  import opened PyStr

  /** Python's `s.rfind(c)`: the last index of `c`, or -1. */
  function LastIndex(s: string, c: char): (r: int)
    ensures -1 <= r < |s|
    ensures r >= 0 ==> s[r] == c
    ensures forall k :: r < k < |s| ==> s[k] != c
  {
    if s == [] then -1
    else if s[|s| - 1] == c then |s| - 1
    else LastIndex(s[..|s| - 1], c)
  }

  /** The final path component of `p` has a dot that some non-dot character
      of that component precedes: exactly when `splitext` finds an extension.
      (Leading dots, as in `.bashrc`, do not start an extension.) */
  ghost predicate HasExtension(p: string) {
    exists j, k :: 0 <= j < k < |p| && p[j] != '.' && p[k] == '.' &&
      forall m :: j <= m < |p| ==> p[m] != '/'
  }

  /** An extension as `splitext` returns it: a dot, then neither a dot nor a
      slash. */
  predicate IsExtension(e: string) {
    |e| >= 1 && e[0] == '.' && forall i :: 1 <= i < |e| ==> e[i] != '.' && e[i] != '/'
  }

  /** What one `splitext` can take off: nothing or one extension. */
  predicate NoneOrExtension(e: string) {
    e == "" || IsExtension(e)
  }

  /** `posixpath.splitext(p)`: the last dot after the last slash splits the
      name, unless only dots precede it within the final component. */
  function SplitExt(p: string): (r: (string, string))
    ensures r.0 + r.1 == p
    ensures r.1 == "" || IsExtension(r.1)
  {
    var sepIndex := LastIndex(p, '/');
    var dotIndex := LastIndex(p, '.');
    if dotIndex > sepIndex && exists j :: sepIndex < j < dotIndex && p[j] != '.' then
      (p[..dotIndex], p[dotIndex..])
    else
      (p, "")
  }

  /** `splitext` finds an extension exactly when the name has one. */
  lemma SplitExtFindsExtension(p: string)
    ensures SplitExt(p).1 != "" <==> HasExtension(p)
  {
    var sepIndex := LastIndex(p, '/');
    var dotIndex := LastIndex(p, '.');
    if HasExtension(p) {
      var j, k :| 0 <= j < k < |p| && p[j] != '.' && p[k] == '.' &&
        forall m :: j <= m < |p| ==> p[m] != '/';
      assert sepIndex < j;
      assert k <= dotIndex;
    }
  }

  /** Two rounds of `splitext` leave a prefix that at most two extensions
      complete. */
  lemma PeelTwice(p: string)
    ensures StartsWith(p, SplitExt(SplitExt(p).0).0)
    ensures exists e1, e2 ::
      NoneOrExtension(e1) && NoneOrExtension(e2) && p == SplitExt(SplitExt(p).0).0 + e1 + e2
  {
    var first := SplitExt(p);
    var second := SplitExt(first.0);
    var e1, e2 := second.1, first.1;
    assert NoneOrExtension(e1) && NoneOrExtension(e2) && p == second.0 + e1 + e2;
    assert p[..|second.0|] == second.0;
  }

  /** `extension_remover_gzip(filename)` with the gzip extension set as a
      parameter: a gzip-suffixed name loses two extensions, any other name
      one. */
  function ExtensionRemoverGzip(filename: string, gzipExts: set<string>): (r: string)
    ensures StartsWith(filename, r)
    ensures !EndsWithAny(filename, gzipExts) ==> r == filename || IsExtension(filename[|r|..])
    ensures EndsWithAny(filename, gzipExts) ==>
      exists e1, e2 :: NoneOrExtension(e1) && NoneOrExtension(e2) && filename == r + e1 + e2
  {
    if EndsWithAny(filename, gzipExts) then
      PeelTwice(filename);
      SplitExt(SplitExt(filename).0).0
    else
      var only := SplitExt(filename);
      assert filename[..|only.0|] == only.0 && filename[|only.0|..] == only.1;
      only.0
  }

  /** What the remover took off a name not ending in a gzip extension is at
      most one extension, and it takes one whenever the name has one. */
  lemma RemoverPlainName(filename: string, gzipExts: set<string>)
    requires !EndsWithAny(filename, gzipExts)
    ensures var r := ExtensionRemoverGzip(filename, gzipExts);
      StartsWith(filename, r) &&
      (r == filename <==> !HasExtension(filename)) &&
      (r != filename ==> IsExtension(filename[|r|..]))
  {
    SplitExtFindsExtension(filename);
    var r := ExtensionRemoverGzip(filename, gzipExts);
    assert filename[..|r|] == r;
  }

  /** A gzip-suffixed name loses the extension that `splitext` finds and then
      the one before it (if any): the name is the result followed by at most
      two extensions. */
  lemma RemoverGzipName(filename: string, gzipExts: set<string>)
    requires EndsWithAny(filename, gzipExts)
    ensures var first := SplitExt(filename);
      var r := ExtensionRemoverGzip(filename, gzipExts);
      StartsWith(filename, r) &&
      filename == r + SplitExt(first.0).1 + first.1 &&
      (first.1 == "" <==> !HasExtension(filename)) &&
      (SplitExt(first.0).1 == "" <==> !HasExtension(first.0))
  {
    var first := SplitExt(filename);
    SplitExtFindsExtension(filename);
    SplitExtFindsExtension(first.0);
    var r := ExtensionRemoverGzip(filename, gzipExts);
    assert r + SplitExt(first.0).1 == first.0;
    assert filename[..|r|] == r;
  }

  /** A gzipped FASTQ name loses both extensions (`.gz` as gzip extension). */
  lemma RemoverExampleGzipped()
    ensures ExtensionRemoverGzip("s.fastq.gz", {".gz"}) == "s"
  {
    var a, b := "s.fastq.gz", "s.fastq";
    assert EndsWith(a, ".gz");
    assert a[7] == '.' && forall k :: 7 < k < |a| ==> a[k] != '.';
    assert b == a[..7];
    assert b[1] == '.' && forall k :: 1 < k < |b| ==> b[k] != '.';
    assert LastIndex(b, '/') == -1;
    assert SplitExt(a) == (b, ".gz");
    assert b[0] != '.' && b[..1] == "s" && b[1..] == ".fastq";
  }

  /** A plain FASTQ name loses its one extension. */
  lemma RemoverExamplePlain()
    ensures ExtensionRemoverGzip("s.fq", {".gz"}) == "s"
  {
    var c := "s.fq";
    assert !EndsWith(c, ".gz");
    assert c[1] == '.' && forall k :: 1 < k < |c| ==> c[k] != '.';
    assert LastIndex(c, '/') == -1;
    assert c[0] != '.' && c[..1] == "s" && c[1..] == ".fq";
  }

  /** Leading dots do not start an extension. */
  lemma RemoverExampleDotFile()
    ensures ExtensionRemoverGzip(".bashrc", {".gz"}) == ".bashrc"
  {
    var d := ".bashrc";
    assert !EndsWith(d, ".gz");
    assert !EndsWithAny(d, {".gz"});
    assert SplitExt(d) == (d, "") by {
      assert d[0] == '.' && forall k :: 0 < k < |d| ==> d[k] != '.';
      assert LastIndex(d, '.') == 0;
    }
  }

  /** A dot in a directory name is not an extension separator. */
  lemma RemoverExampleDottedDirectory()
    ensures ExtensionRemoverGzip("run.v2/sample", {".gz"}) == "run.v2/sample"
  {
    var e := "run.v2/sample";
    assert !EndsWith(e, ".gz");
    assert e[6] == '/' && forall k :: 6 < k < |e| ==> e[k] != '/';
    assert e[3] == '.' && forall k :: 3 < k < |e| ==> e[k] != '.';
  }
}
