/**
 * How `main` in `toscana_parser_unrelated_mod.py` builds the result
 * matrix: the `.csv` names of the staging directory's listing are joined to
 * the directory, sorted as Python sorts strings, and the records of each
 * file are appended in that order. The listing and each file's rows are
 * given; which order the directory lists its files in does not matter.
 */
module Pipeline {
  import opened Strings
  import opened Paths
  import opened Projection

  // ---------------------------------------------------------------------
  // Python's string order

  /** `a <= b` on Python strings: code point by code point, a prefix first. */
  predicate LexLe(a: string, b: string)
    decreases |a|
  {
    a == [] || (b != [] && (a[0] < b[0] || (a[0] == b[0] && LexLe(a[1..], b[1..]))))
  }

  lemma {:induction false} LexTotal(a: string, b: string)
    ensures LexLe(a, b) || LexLe(b, a)
    decreases |a|
  {
    if a != [] && b != [] && a[0] == b[0] {
      LexTotal(a[1..], b[1..]);
    }
  }

  lemma {:induction false} LexTrans(a: string, b: string, c: string)
    requires LexLe(a, b) && LexLe(b, c)
    ensures LexLe(a, c)
    decreases |a|
  {
    if a != [] && a[0] == b[0] && b[0] == c[0] {
      LexTrans(a[1..], b[1..], c[1..]);
    }
  }

  lemma {:induction false} LexAntisym(a: string, b: string)
    requires LexLe(a, b) && LexLe(b, a)
    ensures a == b
    decreases |a|
  {
    if a != [] {
      LexAntisym(a[1..], b[1..]);
      assert a == [a[0]] + a[1..] && b == [b[0]] + b[1..];
    }
  }

  predicate Sorted(s: seq<string>)
  {
    forall i, j :: 0 <= i < j < |s| ==> LexLe(s[i], s[j])
  }

  /** Puts `x` before the first element it does not exceed. */
  function Insert(x: string, s: seq<string>): seq<string>
  {
    if s == [] then [x]
    else if LexLe(x, s[0]) then [x] + s
    else [s[0]] + Insert(x, s[1..])
  }

  /** `sorted(xs)` for strings. */
  function Sort(xs: seq<string>): seq<string>
  {
    if xs == [] then [] else Insert(xs[0], Sort(xs[1..]))
  }

  lemma {:induction false} InsertSorted(x: string, s: seq<string>)
    requires Sorted(s)
    ensures Sorted(Insert(x, s))
    ensures multiset(Insert(x, s)) == multiset(s) + multiset{x}
    decreases |s|
  {
    if s == [] {
    } else if LexLe(x, s[0]) {
      InsertFront(x, s);
    } else {
      SortedHead(s);
      InsertSorted(x, s[1..]);
      LexTotal(x, s[0]);
      InsertBehind(x, s, Insert(x, s[1..]));
    }
  }

  lemma InsertFront(x: string, s: seq<string>)
    requires Sorted(s) && s != [] && LexLe(x, s[0])
    ensures Sorted([x] + s)
    ensures multiset([x] + s) == multiset(s) + multiset{x}
  {
    var r := [x] + s;
    forall i, j | 0 <= i < j < |r| ensures LexLe(r[i], r[j]) {
      if i == 0 {
        if j > 1 { LexTrans(x, s[0], s[j - 1]); }
      } else {
        assert r[i] == s[i - 1] && r[j] == s[j - 1];
      }
    }
  }

  lemma InsertBehind(x: string, s: seq<string>, t: seq<string>)
    requires Sorted(s) && s != [] && LexLe(s[0], x)
    requires forall y :: y in s ==> LexLe(s[0], y)
    requires Sorted(t) && multiset(t) == multiset(s[1..]) + multiset{x}
    ensures Sorted([s[0]] + t)
    ensures multiset([s[0]] + t) == multiset(s) + multiset{x}
  {
    var r := [s[0]] + t;
    forall i, j | 0 <= i < j < |r| ensures LexLe(r[i], r[j]) {
      if i == 0 {
        var y := t[j - 1];
        assert y in multiset(t);
        if y != x {
          assert y in multiset(s[1..]);
          assert y in s[1..];
        }
      } else {
        assert r[i] == t[i - 1] && r[j] == t[j - 1];
      }
    }
    assert s == [s[0]] + s[1..];
  }

  /** `Sort` orders its input and keeps every element as often as it occurs. */
  lemma {:induction false} SortSortedPermutation(xs: seq<string>)
    ensures Sorted(Sort(xs))
    ensures multiset(Sort(xs)) == multiset(xs)
    decreases |xs|
  {
    if xs != [] {
      SortSortedPermutation(xs[1..]);
      InsertSorted(xs[0], Sort(xs[1..]));
      assert xs == [xs[0]] + xs[1..];
    }
  }

  /** Two ordered sequences with the same elements are the same sequence. */
  lemma {:induction false} SortedUnique(a: seq<string>, b: seq<string>)
    requires Sorted(a) && Sorted(b) && multiset(a) == multiset(b)
    ensures a == b
    decreases |a|
  {
    if a != [] {
      assert |b| == |multiset(b)| == |multiset(a)| == |a|;
      SortedHead(a);
      SortedHead(b);
      assert b[0] in multiset(a) && a[0] in multiset(b);
      LexAntisym(a[0], b[0]);
      TailMultiset(a, b);
      SortedUnique(a[1..], b[1..]);
      assert a == [a[0]] + a[1..] && b == [b[0]] + b[1..];
    }
  }

  lemma {:induction false} LexRefl(a: string)
    ensures LexLe(a, a)
    decreases |a|
  {
    if a != [] {
      LexRefl(a[1..]);
    }
  }

  /** An ordered sequence starts with its least element, and its tail is ordered. */
  lemma SortedHead(a: seq<string>)
    requires Sorted(a) && a != []
    ensures forall x :: x in a ==> LexLe(a[0], x)
    ensures Sorted(a[1..])
  {
    LexRefl(a[0]);
    forall p, q | 0 <= p < q < |a[1..]| ensures LexLe(a[1..][p], a[1..][q]) {
      assert a[1..][p] == a[p + 1] && a[1..][q] == a[q + 1];
    }
  }

  lemma TailMultiset<T>(a: seq<T>, b: seq<T>)
    requires a != [] && b != [] && a[0] == b[0] && multiset(a) == multiset(b)
    ensures multiset(a[1..]) == multiset(b[1..])
  {
    assert a == [a[0]] + a[1..];
    assert b == [b[0]] + b[1..];
    assert multiset(a) == multiset{a[0]} + multiset(a[1..]);
    assert multiset(b) == multiset{a[0]} + multiset(b[1..]);
    assert multiset(a[1..]) == multiset(a) - multiset{a[0]};
    assert multiset(b[1..]) == multiset(b) - multiset{a[0]};
  }

  /** Dropping the first element of one sequence and an equal element of
      another with the same elements leaves the same elements. */
  lemma RemoveMatching<T>(l1: seq<T>, l2: seq<T>, k: nat)
    requires l1 != [] && k < |l2| && l1[0] == l2[k] && multiset(l1) == multiset(l2)
    ensures multiset(l1[1..]) == multiset(l2[..k] + l2[k + 1..])
  {
    RemoveAt(l1, 0);
    RemoveAt(l2, k);
    assert l1[..0] + l1[1..] == l1[1..];
  }

  /** Dropping the element at `k` drops one occurrence of it. */
  lemma RemoveAt<T>(s: seq<T>, k: nat)
    requires k < |s|
    ensures multiset(s[..k] + s[k + 1..]) == multiset(s) - multiset{s[k]}
  {
    assert s == s[..k] + [s[k]] + s[k + 1..];
  }

  /** Sorting forgets the order the elements came in. */
  lemma SortOrderFree(xs: seq<string>, ys: seq<string>)
    requires multiset(xs) == multiset(ys)
    ensures Sort(xs) == Sort(ys)
  {
    SortSortedPermutation(xs);
    SortSortedPermutation(ys);
    SortedUnique(Sort(xs), Sort(ys));
  }

  // ---------------------------------------------------------------------
  // Selecting and reading the staged files

  /** `[os.path.join(temp_dir, f) for f in listing if f.endswith('.csv')]`. */
  function CsvPaths(tempDir: string, listing: seq<string>): seq<string>
  {
    if listing == [] then []
    else (if EndsWith(listing[0], ".csv") then [PathJoin(tempDir, listing[0])] else [])
         + CsvPaths(tempDir, listing[1..])
  }

  /** The selection keeps, in listing order, the joined path of exactly the
      listed names ending in `.csv`. */
  lemma {:induction false} CsvPathsSelect(tempDir: string, listing: seq<string>)
    ensures forall p :: p in CsvPaths(tempDir, listing) <==>
              exists f :: f in listing && EndsWith(f, ".csv") && p == PathJoin(tempDir, f)
    ensures forall p :: p in CsvPaths(tempDir, listing) ==> EndsWith(p, ".csv")
    decreases |listing|
  {
    if listing != [] {
      CsvPathsSelect(tempDir, listing[1..]);
      forall p ensures p in CsvPaths(tempDir, listing) <==>
                       exists f :: f in listing && EndsWith(f, ".csv") && p == PathJoin(tempDir, f)
      {
        if exists f :: f in listing && EndsWith(f, ".csv") && p == PathJoin(tempDir, f) {
          var f :| f in listing && EndsWith(f, ".csv") && p == PathJoin(tempDir, f);
          if f != listing[0] {
            assert f in listing[1..];
          }
        }
      }
      forall p | p in CsvPaths(tempDir, listing) ensures EndsWith(p, ".csv") {
        var f :| f in listing && EndsWith(f, ".csv") && p == PathJoin(tempDir, f);
        EndsWithJoin(tempDir, f);
      }
    }
  }

  lemma EndsWithJoin(tempDir: string, f: string)
    requires EndsWith(f, ".csv")
    ensures EndsWith(PathJoin(tempDir, f), ".csv")
  {
    var p := PathJoin(tempDir, f);
    if !IsAbs(f) {
      assert p[|p| - |f|..] == f;
      assert p[|p| - 4..] == f[|f| - 4..];
    }
  }

  /** Listings with the same names, in any order, select the same paths. */
  lemma {:induction false} CsvPathsMultiset(tempDir: string, l1: seq<string>, l2: seq<string>)
    requires multiset(l1) == multiset(l2)
    ensures multiset(CsvPaths(tempDir, l1)) == multiset(CsvPaths(tempDir, l2))
    decreases |l1|
  {
    if l1 == [] {
      assert |l2| == |multiset(l2)| == 0;
    } else {
      var f := l1[0];
      assert f in multiset(l2);
      var k :| 0 <= k < |l2| && l2[k] == f;
      var rest2 := l2[..k] + l2[k + 1..];
      RemoveMatching(l1, l2, k);
      CsvPathsMultiset(tempDir, l1[1..], rest2);
      var one := if EndsWith(f, ".csv") then [PathJoin(tempDir, f)] else [];
      CsvPathsSplitAt(tempDir, l2, k);
      assert CsvPaths(tempDir, l1) == one + CsvPaths(tempDir, l1[1..]);
      Rearrange(CsvPaths(tempDir, l1), CsvPaths(tempDir, l1[1..]), one,
                CsvPaths(tempDir, l2[..k]), CsvPaths(tempDir, l2[k + 1..]));
    }
  }

  /** The selection of a listing, seen around its `k`th name. */
  lemma CsvPathsSplitAt(tempDir: string, l: seq<string>, k: nat)
    requires k < |l|
    ensures var one := if EndsWith(l[k], ".csv") then [PathJoin(tempDir, l[k])] else [];
      var pre, post := CsvPaths(tempDir, l[..k]), CsvPaths(tempDir, l[k + 1..]);
      CsvPaths(tempDir, l) == pre + (one + post) &&
      CsvPaths(tempDir, l[..k] + l[k + 1..]) == pre + post
  {
    var f := l[k];
    CsvPathsAppend(tempDir, l[..k], [f] + l[k + 1..]);
    CsvPathsAppend(tempDir, l[..k], l[k + 1..]);
    assert ([f] + l[k + 1..])[1..] == l[k + 1..];
    assert l[..k] + ([f] + l[k + 1..]) == l;
  }

  lemma Rearrange<T>(x: seq<T>, y: seq<T>, one: seq<T>, pre: seq<T>, post: seq<T>)
    requires x == one + y && multiset(y) == multiset(pre + post)
    ensures multiset(x) == multiset(pre + (one + post))
  {
  }

  lemma {:induction false} CsvPathsAppend(tempDir: string, a: seq<string>, b: seq<string>)
    ensures CsvPaths(tempDir, a + b) == CsvPaths(tempDir, a) + CsvPaths(tempDir, b)
    decreases |a|
  {
    if a == [] {
      assert a + b == b;
    } else {
      assert (a + b)[0] == a[0];
      assert (a + b)[1..] == a[1..] + b;
      CsvPathsAppend(tempDir, a[1..], b);
    }
  }

  /** The records of the first `k` files, in order: each file's records
      follow the previous file's; the first file that fails stops it. */
  function CollectFiles(paths: seq<string>, files: map<string, seq<Row>>, k: nat): Result<seq<Record>>
    requires k <= |paths|
    requires forall p :: p in paths ==> p in files
  {
    if k == 0 then Ok([])
    else match CollectFiles(paths, files, k - 1)
      case Err(e) => Err(e)
      case Ok(rs) =>
        match ParseCsvSpec(files[paths[k - 1]], PROJECTION, NEW_COLUMNS)
        case Err(e) => Err(e)
        case Ok(more) => Ok(rs + more)
  }

  /** The matrix `main` builds from the staging directory. */
  function ResultMatrix(tempDir: string, listing: seq<string>, files: map<string, seq<Row>>): Result<seq<Record>>
    requires forall p :: p in CsvPaths(tempDir, listing) ==> p in files
  {
    var paths := Sort(CsvPaths(tempDir, listing));
    SortedPathsStaged(tempDir, listing, files);
    CollectFiles(paths, files, |paths|)
  }

  /** Sorting selects no path that was not staged. */
  lemma SortedPathsStaged(tempDir: string, listing: seq<string>, files: map<string, seq<Row>>)
    requires forall p :: p in CsvPaths(tempDir, listing) ==> p in files
    ensures forall p :: p in Sort(CsvPaths(tempDir, listing)) ==> p in files
  {
    var temps := CsvPaths(tempDir, listing);
    SortSortedPermutation(temps);
    forall p | p in Sort(temps) ensures p in files {
      assert p in multiset(Sort(temps));
    }
  }

  lemma {:induction false} CollectFilesErrStays(paths: seq<string>, files: map<string, seq<Row>>, k: nat, m: nat)
    requires k <= m <= |paths|
    requires forall p :: p in paths ==> p in files
    requires CollectFiles(paths, files, k).Err?
    ensures CollectFiles(paths, files, m) == CollectFiles(paths, files, k)
    decreases m - k
  {
    if k < m {
      CollectFilesErrStays(paths, files, k, m - 1);
    }
  }

  /** Lines 92-97 of `main`: every `.csv` file of the listing, in sorted
      order, parsed and appended to the result matrix. `files` gives each
      staged path's rows. */
  method CollectMatrix(tempDir: string, listing: seq<string>, files: map<string, seq<Row>>) returns (r: Result<seq<Record>>)
    requires forall p :: p in CsvPaths(tempDir, listing) ==> p in files
    ensures r == ResultMatrix(tempDir, listing, files)
  {
    var resultMatrix: seq<Record> := [];
    var paths := Sort(CsvPaths(tempDir, listing));
    SortedPathsStaged(tempDir, listing, files);
    var i := 0;
    while i < |paths|
      invariant i <= |paths|
      invariant CollectFiles(paths, files, i) == Ok(resultMatrix)
    {
      var recs := ParseCsv(files[paths[i]], PROJECTION, NEW_COLUMNS);
      if recs.Err? {
        r := Err(recs.error);
        CollectFilesErrStays(paths, files, i + 1, |paths|);
        return;
      }
      resultMatrix := resultMatrix + recs.value;
      i := i + 1;
    }
    return Ok(resultMatrix);
  }

  /** The matrix does not depend on the order in which the directory lists
      its files. */
  lemma ResultMatrixOrderFree(tempDir: string, l1: seq<string>, l2: seq<string>, files: map<string, seq<Row>>)
    requires multiset(l1) == multiset(l2)
    requires forall p :: p in CsvPaths(tempDir, l1) ==> p in files
    ensures forall p :: p in CsvPaths(tempDir, l2) ==> p in files
    ensures ResultMatrix(tempDir, l1, files) == ResultMatrix(tempDir, l2, files)
  {
    CsvPathsMultiset(tempDir, l1, l2);
    forall p | p in CsvPaths(tempDir, l2) ensures p in files {
      assert p in multiset(CsvPaths(tempDir, l2));
    }
    SortOrderFree(CsvPaths(tempDir, l1), CsvPaths(tempDir, l2));
  }

  /** The matrix holds the files' records back to back, in sorted path
      order: it succeeds exactly when every file parses, and each file then
      adds exactly its own records. */
  lemma {:induction false} CollectFilesConcat(paths: seq<string>, files: map<string, seq<Row>>, k: nat)
    requires k <= |paths|
    requires forall p :: p in paths ==> p in files
    ensures CollectFiles(paths, files, k).Ok? <==>
              forall i :: 0 <= i < k ==> ParseCsvSpec(files[paths[i]], PROJECTION, NEW_COLUMNS).Ok?
    ensures CollectFiles(paths, files, k).Ok? && k > 0 ==>
              CollectFiles(paths, files, k).value ==
                CollectFiles(paths, files, k - 1).value + ParseCsvSpec(files[paths[k - 1]], PROJECTION, NEW_COLUMNS).value
    decreases k
  {
    if k > 0 {
      CollectFilesConcat(paths, files, k - 1);
      CollectFilesStep(paths, files, k);
    }
  }

  /** One more file: the matrix so far and the file's own records, when both parse. */
  lemma CollectFilesStep(paths: seq<string>, files: map<string, seq<Row>>, k: nat)
    requires 0 < k <= |paths|
    requires forall p :: p in paths ==> p in files
    ensures var prev := CollectFiles(paths, files, k - 1);
      var own := ParseCsvSpec(files[paths[k - 1]], PROJECTION, NEW_COLUMNS);
      CollectFiles(paths, files, k) ==
        (if prev.Err? then prev else if own.Err? then Err(own.error) else Ok(prev.value + own.value))
  {
  }

  /** Every record of the matrix has exactly the canonical column names as keys. */
  lemma {:induction false} CollectFilesKeys(paths: seq<string>, files: map<string, seq<Row>>, k: nat)
    requires k <= |paths|
    requires forall p :: p in paths ==> p in files
    requires CollectFiles(paths, files, k).Ok?
    ensures forall i, c :: 0 <= i < |CollectFiles(paths, files, k).value| ==>
              (c in CollectFiles(paths, files, k).value[i] <==> c in NEW_COLUMNS)
    decreases k
  {
    if k > 0 {
      CollectFilesKeys(paths, files, k - 1);
      var rows := files[paths[k - 1]];
      ParseCsvKeys(rows, PROJECTION, NEW_COLUMNS);
      var prev := CollectFiles(paths, files, k - 1).value;
      var own := ParseCsvSpec(rows, PROJECTION, NEW_COLUMNS).value;
      assert CollectFiles(paths, files, k).value == prev + own;
      var all := prev + own;
      forall i, c | 0 <= i < |all| ensures c in all[i] <==> c in NEW_COLUMNS {
        if i >= |prev| { assert all[i] == own[i - |prev|]; }
      }
    }
  }
}
