/**
 * The path and name helpers of `toscana_parser_unrelated_mod.py`:
 * `abspath_here_if_not`, `tmp_csv_file`, `csv_already_downloaded` and the
 * marker substitution of `curl_with_istat_code`. Paths follow POSIX
 * `os.path`: a path is absolute when it starts with `/`.
 */
module Paths {
  import opened Strings

  const ISTAT_MARKER := "__CODICE_ISTAT_"

  /** `os.path.isabs` on POSIX. */
  predicate IsAbs(p: string)
  {
    p != [] && p[0] == '/'
  }

  /** `os.path.join(a, b)` on POSIX, for two components. */
  function PathJoin(a: string, b: string): (r: string)
    ensures IsAbs(b) ==> r == b
    ensures !IsAbs(b) ==> EndsWith(r, b)
  {
    if IsAbs(b) then b
    else if a == [] || a[|a| - 1] == '/' then a + b
    else a + "/" + b
  }

  /** `os.path.basename`: what follows the last `/`. */
  function Basename(p: string): (r: string)
    ensures '/' !in r
    ensures |r| <= |p| && r == p[|p| - |r|..]
    ensures |r| < |p| ==> p[|p| - |r| - 1] == '/'
  {
    if p == [] || p[|p| - 1] == '/' then []
    else Basename(p[..|p| - 1]) + [p[|p| - 1]]
  }

  /** `abspath_here_if_not(path)`: absolute paths are kept, relative ones are
      joined to the script's directory `hereDir`, which is absolute. */
  function AbsPathHereIfNot(hereDir: string, p: string): (r: string)
    requires IsAbs(hereDir)
    ensures IsAbs(r)
    ensures IsAbs(p) ==> r == p
    ensures !IsAbs(p) ==> EndsWith(r, p) && StartsWith(r, hereDir)
  {
    if IsAbs(p) then p else
      var r := PathJoin(hereDir, p);
      assert r[..|hereDir|] == hereDir;
      r
  }

  /** Resolving a resolved path changes nothing. */
  lemma AbsPathIdempotent(hereDir: string, p: string)
    requires IsAbs(hereDir)
    ensures AbsPathHereIfNot(hereDir, AbsPathHereIfNot(hereDir, p)) == AbsPathHereIfNot(hereDir, p)
  {
  }

  /** A relative path is placed under `hereDir`, with one separator between
      them when `hereDir` does not already end in one. */
  lemma AbsPathRelative(hereDir: string, p: string)
    requires IsAbs(hereDir) && !IsAbs(p)
    ensures hereDir[|hereDir| - 1] == '/' ==> AbsPathHereIfNot(hereDir, p) == hereDir + p
    ensures hereDir[|hereDir| - 1] != '/' ==> AbsPathHereIfNot(hereDir, p) == hereDir + "/" + p
  {
  }

  /** The file name `tmp_<code><suffix>.csv`. */
  function TmpCsvName(code: string, suffix: string): string
  {
    "tmp_" + code + suffix + ".csv"
  }

  /** `tmp_csv_file(code, temp_dir, suffix)`. */
  function TmpCsvFile(code: string, tempDir: string, suffix: string): (r: string)
    ensures EndsWith(r, TmpCsvName(code, suffix))
  {
    PathJoin(tempDir, TmpCsvName(code, suffix))
  }

  /** The staging file name is never absolute, so it lands under the directory. */
  lemma TmpCsvFileShape(code: string, tempDir: string, suffix: string)
    ensures var n := TmpCsvName(code, suffix);
      TmpCsvFile(code, tempDir, suffix) == (if tempDir == [] || tempDir[|tempDir| - 1] == '/' then tempDir + n else tempDir + "/" + n)
  {
    assert TmpCsvName(code, suffix)[0] == 't';
  }

  /** Different codes give different staging files in the same directory. */
  lemma TmpCsvFileInjective(c1: string, c2: string, tempDir: string, suffix: string)
    requires TmpCsvFile(c1, tempDir, suffix) == TmpCsvFile(c2, tempDir, suffix)
    ensures c1 == c2
  {
    TmpCsvFileShape(c1, tempDir, suffix);
    TmpCsvFileShape(c2, tempDir, suffix);
    var n1, n2 := TmpCsvName(c1, suffix), TmpCsvName(c2, suffix);
    var pre := if tempDir == [] || tempDir[|tempDir| - 1] == '/' then tempDir else tempDir + "/";
    assert pre + n1 == pre + n2;
    assert n1 == (pre + n1)[|pre|..];
    assert n2 == (pre + n2)[|pre|..];
    assert |c1| == |c2|;
    assert c1 == n1[4..4 + |c1|];
    assert c2 == n2[4..4 + |c2|];
  }

  /** The base name of a path ending in `/` and a slash-free name is the name. */
  lemma {:induction false} BasenameAfterSlash(pre: string, name: string)
    requires '/' !in name
    requires pre == [] || pre[|pre| - 1] == '/'
    ensures Basename(pre + name) == name
    decreases |name|
  {
    if name == [] {
      assert pre + name == pre;
    } else {
      var last := name[|name| - 1];
      assert (pre + name)[..|pre + name| - 1] == pre + name[..|name| - 1];
      assert last in name;
      BasenameAfterSlash(pre, name[..|name| - 1]);
      assert name[..|name| - 1] + [last] == name;
    }
  }

  lemma TmpCsvNameNoSlash(code: string, suffix: string)
    requires '/' !in code && '/' !in suffix
    ensures '/' !in TmpCsvName(code, suffix)
  {
    var n := TmpCsvName(code, suffix);
    forall i | 0 <= i < |n| ensures n[i] != '/' {
      if i < 4 {
      } else if i < 4 + |code| {
        assert n[i] == code[i - 4];
      } else if i < 4 + |code| + |suffix| {
        assert n[i] == suffix[i - 4 - |code|];
      }
    }
  }

  /** The base name of a staging file is its file name, when neither the code
      nor the suffix holds a `/`. */
  lemma BasenameTmpCsvFile(code: string, tempDir: string, suffix: string)
    requires '/' !in code && '/' !in suffix
    ensures Basename(TmpCsvFile(code, tempDir, suffix)) == TmpCsvName(code, suffix)
  {
    TmpCsvFileShape(code, tempDir, suffix);
    var n := TmpCsvName(code, suffix);
    TmpCsvNameNoSlash(code, suffix);
    if tempDir == [] || tempDir[|tempDir| - 1] == '/' {
      BasenameAfterSlash(tempDir, n);
    } else {
      BasenameAfterSlash(tempDir + "/", n);
      assert tempDir + "/" + n == (tempDir + "/") + n;
    }
  }

  /** `csv_already_downloaded(code, temp_dir)`, given the directory listing. */
  function CsvAlreadyDownloaded(code: string, tempDir: string, listing: seq<string>): bool
  {
    Basename(TmpCsvFile(code, tempDir, "")) in listing
  }

  /** A code counts as downloaded exactly when `tmp_<code>.csv` is listed. */
  lemma CsvAlreadyDownloadedIff(code: string, tempDir: string, listing: seq<string>)
    requires '/' !in code
    ensures CsvAlreadyDownloaded(code, tempDir, listing) <==> "tmp_" + code + ".csv" in listing
  {
    BasenameTmpCsvFile(code, tempDir, "");
    TmpCsvNameNoSuffix(code);
  }

  lemma TmpCsvNameNoSuffix(code: string)
    ensures TmpCsvName(code, "") == "tmp_" + code + ".csv"
  {
    assert code + "" == code;
  }

  /** The URL `curl_with_istat_code` requests: every marker replaced by the code. */
  function IstatUrl(url: string, code: string): string
  {
    Replace(url, ISTAT_MARKER, code)
  }

  /** A URL without the marker is requested as it is. */
  lemma IstatUrlNoMarker(url: string, code: string)
    requires NoMatchBefore(url, ISTAT_MARKER, |url|)
    ensures IstatUrl(url, code) == url
  {
    ReplaceNoMatch(url, ISTAT_MARKER, code);
  }

  /** A URL with one marker has the code put in its place. */
  lemma IstatUrlOneMarker(a: string, b: string, code: string)
    requires NoMatchBefore(a + ISTAT_MARKER + b, ISTAT_MARKER, |a|)
    requires NoMatchBefore(b, ISTAT_MARKER, |b|)
    ensures IstatUrl(a + ISTAT_MARKER + b, code) == a + code + b
  {
    var url := a + ISTAT_MARKER + b;
    var m := ISTAT_MARKER;
    assert url[|a|..|a| + |m|] == m;
    ReplaceFirstMatch(url, m, code, |a|);
    assert url[..|a|] == a;
    assert url[|a| + |m|..] == b;
    ReplaceNoMatch(b, m, code);
  }
}
